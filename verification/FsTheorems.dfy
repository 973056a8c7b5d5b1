/** The filesystem's guarantees, over every disk and every write or publication. */
module FsTheorems {
  import opened Bytes
  import opened DiskLayout
  import opened FsSpec

  predicate GoodName(n: Name) {
    n != [] && |n| <= FS_NAME_MAX
  }

  // ----- the directory -----

  /** The new extent a plan claims meets no other file. */
  lemma PlanAvoids(es: seq<Entry>, r: Region, n: Name, len: nat, p: Plan, i: nat)
    requires ValidDir(es, r) && PlanWrite(es, r, n, len) == Ok(p)
    requires i < |es| && i != p.slot && es[i].Used()
    ensures Disjoint(es[i].start, es[i].Sectors(), p.lba, p.sectors)
    ensures CStr(es[i].raw) != n
  {
    NextFreeBounds(es, r.dir + 1);
    var k := Find(es, n);
    if k >= 0 && i < k {
      assert Compatible(es[k], es[i]);
    } else if k >= 0 {
      assert Compatible(es[i], es[k]);
    }
  }

  lemma PlanInside(es: seq<Entry>, r: Region, n: Name, len: nat, p: Plan)
    requires ValidDir(es, r) && PlanWrite(es, r, n, len) == Ok(p)
    ensures p.slot < |es| && p.sectors == SectorsOf(len)
    ensures r.dir < p.lba && p.lba + p.sectors <= r.limit
  {
    assert EntryOk(es[p.slot], r);
    NextFreeBounds(es, r.dir + 1);
  }

  /** A successful write leaves a directory that validation accepts exactly when
      the slot's name field ends up terminated at byte 23. */
  lemma WriteKeepsDirValid(es: seq<Entry>, r: Region, n: Name, len: u32, p: Plan)
    requires ValidDir(es, r) && GoodName(n) && PlanWrite(es, r, n, len) == Ok(p)
    ensures p.slot < |es| && p.lba < 0x1_0000_0000
    ensures ValidDir(DirAfterWrite(es, p, n, len), r) <==> LeavesNameTerminated(es, p, n)
  {
    PlanInside(es, r, n, len, p);
    var es' := DirAfterWrite(es, p, n, len);
    RenamedReads(es[p.slot].raw, n);
    assert EntryOk(es[p.slot], r);
    assert EntryOk(es'[p.slot], r) <==> LeavesNameTerminated(es, p, n);
    forall i, j | 0 <= j < i < |es'|
      ensures Compatible(es'[i], es'[j])
    {
      assert Compatible(es[i], es[j]);
      if i == p.slot && es[j].Used() {
        PlanAvoids(es, r, n, len, p, j);
      } else if j == p.slot && es[i].Used() {
        PlanAvoids(es, r, n, len, p, i);
      }
    }
    forall i | 0 <= i < |es'| && i != p.slot
      ensures EntryOk(es'[i], r)
    {
      assert EntryOk(es[i], r);
    }
  }

  lemma FindIs(es: seq<Entry>, r: Region, i: nat, n: Name)
    requires ValidDir(es, r) && i < |es| && Matches(es[i], n)
    ensures Find(es, n) == i
  {
    forall k | 0 <= k < i
      ensures !Matches(es[k], n)
    {
      assert Compatible(es[i], es[k]);
    }
  }

  ghost predicate SectorsKept(d: Disk, d': Disk, e: Entry) {
    |d| == |d'| && forall s | e.start <= s < e.End() && s < |d| :: d'[s] == d[s]
  }

  /** Every file but the one in `slot` has another name and keeps its sectors. */
  ghost predicate OthersKept(d: Disk, d': Disk, es: seq<Entry>, slot: nat, n: Name) {
    forall i | 0 <= i < |es| && i != slot && es[i].Used() :: CStr(es[i].raw) != n && SectorsKept(d, d', es[i])
  }

  /** Keeping an entry and its sectors keeps that file's contents. */
  lemma ContentFrame(d: Disk, d': Disk, es: seq<Entry>, es': seq<Entry>, r: Region, m: Name, i: nat)
    requires ValidDir(es, r) && ValidDir(es', r) && r.limit <= |d|
    requires i < |es| && Matches(es[i], m) && es'[i] == es[i] && SectorsKept(d, d', es[i])
    ensures m in NamesOf(es) && m in NamesOf(es') && ContentIn(d', es', r, m) == ContentIn(d, es, r, m)
  {
    var e := es[i];
    assert EntryOk(e, r);
    FindIs(es, r, i, m);
    FindIs(es', r, i, m);
    FileBytesFrame(d, d', e.start, e.count);
  }

  /** Filling one slot with a file called `n`, and touching no other file's sectors,
      is one update of the abstract map. */
  lemma SlotUpdatesMap(d: Disk, d': Disk, es: seq<Entry>, r: Region, slot: nat, e: Entry, n: Name)
    requires ValidDir(es, r) && slot < |es| && ValidDir(es[slot := e], r) && r.limit <= |d| == |d'|
    requires Matches(e, n) && (es[slot].Used() ==> CStr(es[slot].raw) == n)
    requires OthersKept(d, d', es, slot, n)
    ensures e.start + SectorsOf(e.count) <= |d'|
    ensures FilesIn(d', es[slot := e], r) == FilesIn(d, es, r)[n := FileBytes(d', e.start, e.count)]
  {
    SlotHolds(d', es, r, slot, e, n);
    NamesAfter(es, slot, e, n);
    var files, files' := FilesIn(d, es, r), FilesIn(d', es[slot := e], r);
    assert files'.Keys == files.Keys + {n};
    forall m | m in files.Keys && m != n
      ensures files'[m] == files[m]
    {
      SlotKeepsOther(d, d', es, r, slot, e, n, m);
    }
    MapUpdated(files, files', n, FileBytes(d', e.start, e.count));
  }

  lemma MapUpdated<K, V>(m: map<K, V>, m': map<K, V>, k: K, v: V)
    requires m'.Keys == m.Keys + {k} && m'[k] == v
    requires forall x | x in m.Keys && x != k :: m'[x] == m[x]
    ensures m' == m[k := v]
  {
  }

  lemma SlotHolds(d: Disk, es: seq<Entry>, r: Region, slot: nat, e: Entry, n: Name)
    requires slot < |es| && ValidDir(es[slot := e], r) && r.limit <= |d| && Matches(e, n)
    ensures e.start + SectorsOf(e.count) <= |d| && n in NamesOf(es[slot := e])
    ensures ContentIn(d, es[slot := e], r, n) == FileBytes(d, e.start, e.count)
  {
    var es' := es[slot := e];
    assert es'[slot] == e && EntryOk(es'[slot], r);
    FindIs(es', r, slot, n);
  }

  lemma SlotKeepsOther(d: Disk, d': Disk, es: seq<Entry>, r: Region, slot: nat, e: Entry, n: Name, m: Name)
    requires ValidDir(es, r) && slot < |es| && ValidDir(es[slot := e], r) && r.limit <= |d| == |d'|
    requires es[slot].Used() ==> CStr(es[slot].raw) == n
    requires OthersKept(d, d', es, slot, n) && m in NamesOf(es) && m != n
    ensures m in NamesOf(es[slot := e])
    ensures ContentIn(d', es[slot := e], r, m) == ContentIn(d, es, r, m)
  {
    var i := IndexOf(es, m);
    ContentFrame(d, d', es, es[slot := e], r, m, i);
  }

  lemma IndexOf(es: seq<Entry>, m: Name) returns (i: nat)
    requires m in NamesOf(es)
    ensures i < |es| && Matches(es[i], m)
  {
    i :| 0 <= i < |es| && es[i].Used() && CStr(es[i].raw) == m;
  }

  lemma NamesAfter(es: seq<Entry>, slot: nat, e: Entry, n: Name)
    requires slot < |es| && Matches(e, n) && (es[slot].Used() ==> CStr(es[slot].raw) == n)
    ensures NamesOf(es[slot := e]) == NamesOf(es) + {n}
  {
    var es' := es[slot := e];
    assert es'[slot] == e;
    forall m | m in NamesOf(es) && m != n
      ensures m in NamesOf(es')
    {
      var i := IndexOf(es, m);
      assert es'[i] == es[i];
    }
    forall m | m in NamesOf(es') && m != n
      ensures m in NamesOf(es)
    {
      var i := IndexOf(es', m);
      assert es'[i] == es[i];
    }
  }

  // ----- writing -----

  ghost predicate WriteAccepted(d: Disk, n: Name, data: seq<byte>, p: Plan) {
    && Formatted(d) && GoodName(n) && |data| <= FS_MAX_LEN
    && PlanWrite(Dir(d), RegionOf(d), n, |data|) == Ok(p)
  }

  /** The answer to a write when no transfer fails. */
  ghost function WriteVerdict(d: Disk, n: Name, data: seq<byte>): int {
    if !GoodName(n) then FS_ERR_IO
    else if |data| > FS_MAX_LEN then FS_ERR_BIG
    else if !Formatted(d) then DirStatus(d)
    else match PlanWrite(Dir(d), RegionOf(d), n, |data|)
      case Err(c) => c
      case Ok(_) => FS_OK
  }

  ghost function PlanFor(d: Disk, n: Name, data: seq<byte>): (p: Plan)
    requires WriteVerdict(d, n, data) == FS_OK
    ensures WriteAccepted(d, n, data, p)
  {
    PlanWrite(Dir(d), RegionOf(d), n, |data|).value
  }

  /** What a write that was accepted but failed may leave: either only its data sectors have
      changed, or the data is in place and only the directory sector is in doubt. */
  ghost predicate Interrupted(d: Disk, d': Disk, n: Name, data: seq<byte>, p: Plan)
    requires WriteAccepted(d, n, data, p)
  {
    || SameOutside(d, d', p.lba, p.lba + p.sectors)
    || SameOutside(WrittenDisk(d, p, n, data), d', RegionOf(d).dir, RegionOf(d).dir + 1)
  }

  lemma WrittenDiskFacts(d: Disk, n: Name, data: seq<byte>, p: Plan)
    requires WriteAccepted(d, n, data, p)
    ensures p.slot < FS_MAX_FILES && p.lba < 0x1_0000_0000
    ensures var d' := WrittenDisk(d, p, n, data);
      && SameOutside(d, d', RegionOf(d).dir, RegionOf(d).limit)
      && Resolve(d') == Ok(RegionOf(d))
      && Le32(d'[RegionOf(d).dir], 0) == FS_MAGIC
      && Entries(d'[RegionOf(d).dir]) == DirAfterWrite(Dir(d), p, n, |data|)
  {
    var r, es := RegionOf(d), Dir(d);
    PlanInside(es, r, n, |data|, p);
    var d' := WrittenDisk(d, p, n, data);
    RegionStable(d, d', r);
    EntriesOfPut(d[r.dir], p.slot, Entry(Renamed(es[p.slot].raw, n), p.lba, |data|));
  }

  /** A successful write changes nothing outside the region the filesystem owns. */
  lemma WriteConfined(d: Disk, n: Name, data: seq<byte>, p: Plan)
    requires WriteAccepted(d, n, data, p)
    ensures SameOutside(d, WrittenDisk(d, p, n, data), RegionOf(d).dir, RegionOf(d).limit)
    ensures Resolve(WrittenDisk(d, p, n, data)) == Resolve(d)
  {
    WrittenDiskFacts(d, n, data, p);
  }

  /** The disk stays readable after a successful write if and only if the name field stays
      terminated: stale bytes in an empty slot can make every later call fail. */
  lemma WriteKeepsFormatted(d: Disk, n: Name, data: seq<byte>, p: Plan)
    requires WriteAccepted(d, n, data, p)
    ensures p.slot < FS_MAX_FILES
    ensures Formatted(WrittenDisk(d, p, n, data)) <==> LeavesNameTerminated(Dir(d), p, n)
    ensures !LeavesNameTerminated(Dir(d), p, n) ==> DirStatus(WrittenDisk(d, p, n, data)) == FS_ERR_IO
  {
    WrittenDiskFacts(d, n, data, p);
    WriteKeepsDirValid(Dir(d), RegionOf(d), n, |data|, p);
  }

  /** The refinement: a successful write is one update of the abstract map. */
  lemma WriteUpdatesMap(d: Disk, n: Name, data: seq<byte>, p: Plan)
    requires WriteAccepted(d, n, data, p)
    requires p.slot < FS_MAX_FILES && LeavesNameTerminated(Dir(d), p, n)
    ensures Formatted(WrittenDisk(d, p, n, data))
    ensures Files(WrittenDisk(d, p, n, data)) == Files(d)[n := data]
  {
    var d' := WrittenDisk(d, p, n, data);
    var r, es := RegionOf(d), Dir(d);
    WrittenDiskFacts(d, n, data, p);
    WriteKeepsFormatted(d, n, data, p);
    PlanInside(es, r, n, |data|, p);
    RenamedReads(es[p.slot].raw, n);
    var e := Entry(Renamed(es[p.slot].raw, n), p.lba, |data|);
    WrittenDataReadsBack(d, d', es, r, p, n, data);
    SlotUpdatesMap(d, d', es, r, p.slot, e, n);
  }

  /** The new disk holds the data, and every other file's sectors are as before. */
  lemma WrittenDataReadsBack(d: Disk, d': Disk, es: seq<Entry>, r: Region, p: Plan, n: Name, data: seq<byte>)
    requires ValidDir(es, r) && r.limit <= |d| && PlanWrite(es, r, n, |data|) == Ok(p)
    requires p.lba + SectorsOf(|data|) <= |d| && |d'| == |d|
    requires forall s | 0 <= s < |d| && s != r.dir :: d'[s] == Splice(d, p.lba, Chunks(data))[s]
    ensures FileBytes(d', p.lba, |data|) == data
    ensures OthersKept(d, d', es, p.slot, n)
  {
    PlanInside(es, r, n, |data|, p);
    ChunksReadBack(d, p.lba, data);
    FileBytesFrame(Splice(d, p.lba, Chunks(data)), d', p.lba, |data|);
    forall i | 0 <= i < |es| && i != p.slot && es[i].Used()
      ensures CStr(es[i].raw) != n && SectorsKept(d, d', es[i])
    {
      assert EntryOk(es[i], r);
      PlanAvoids(es, r, n, |data|, p, i);
    }
  }

  /** Everything `fs_write` promises about its answer and the disk it leaves. */
  ghost predicate WriteOutcome(d: Disk, d': Disk, n: Name, data: seq<byte>, rc: int) {
    var verdict := WriteVerdict(d, n, data);
    if verdict != FS_OK then d' == d && rc in {verdict, FS_ERR_IO}
    else if rc == FS_OK then d' == WrittenDisk(d, PlanFor(d, n, data), n, data)
    else rc == FS_ERR_IO && Interrupted(d, d', n, data, PlanFor(d, n, data))
  }

  /** The answer to a read into a buffer of `size` bytes when no transfer fails. */
  ghost function ReadVerdict(d: Disk, n: Name, size: nat): int {
    if n == [] || size == 0 then FS_ERR_IO
    else if !Formatted(d) then (if DirStatus(d) == FS_ERR_NODIR then FS_ERR_NOTFOUND else DirStatus(d))
    else if n in Files(d) then FS_OK else FS_ERR_NOTFOUND
  }

  /** The first `len` bytes of `buf` have been replaced by those of `bytes`. */
  ghost predicate Delivered(buf': seq<byte>, buf: seq<byte>, bytes: seq<byte>, len: nat) {
    len <= |bytes| && |buf'| == |buf| && forall k | 0 <= k < |buf| :: buf'[k] == if k < len then bytes[k] else buf[k]
  }

  /** A successful read delivers the stored bytes, cut to the buffer, and nothing else. */
  ghost predicate ReadOutcome(d: Disk, n: Name, buf: seq<byte>, buf': seq<byte>, rc: int, len: nat) {
    var verdict := ReadVerdict(d, n, |buf|);
    if rc == FS_OK then
      && verdict == FS_OK && len == Min(|Files(d)[n]|, |buf|)
      && Delivered(buf', buf, Files(d)[n], len)
    else rc in {verdict, FS_ERR_IO} && len == 0 && (verdict != FS_OK ==> buf' == buf)
  }

  lemma WrittenIsStored(d: Disk, d': Disk, n: Name, data: seq<byte>)
    requires WriteOutcome(d, d', n, data, FS_OK) && Formatted(d')
    ensures n in Files(d') && Files(d')[n] == data
  {
    var p := PlanFor(d, n, data);
    PlanInside(Dir(d), RegionOf(d), n, |data|, p);
    WriteKeepsFormatted(d, n, data, p);
    WriteUpdatesMap(d, n, data, p);
  }

  lemma ReadIsStored(d: Disk, n: Name, buf: seq<byte>, buf': seq<byte>, len: nat)
    requires ReadOutcome(d, n, buf, buf', FS_OK, len)
    ensures Formatted(d) && n in Files(d) && len == Min(|Files(d)[n]|, |buf|)
    ensures Delivered(buf', buf, Files(d)[n], len)
  {
  }

  /** Writing a file and reading it back with a large enough buffer gives the same bytes. */
  lemma WriteThenRead(d: Disk, d': Disk, n: Name, data: seq<byte>, buf: seq<byte>, buf': seq<byte>, len: nat)
    requires WriteOutcome(d, d', n, data, FS_OK)
    requires ReadOutcome(d', n, buf, buf', FS_OK, len)
    ensures len == Min(|data|, |buf|) && |buf'| == |buf| && buf'[..len] == data[..len]
  {
    ReadIsStored(d', n, buf, buf', len);
    WrittenIsStored(d, d', n, data);
    DeliveredPrefix(buf', buf, data, len);
  }

  lemma DeliveredPrefix(buf': seq<byte>, buf: seq<byte>, bytes: seq<byte>, len: nat)
    requires Delivered(buf', buf, bytes, len) && len <= |buf|
    ensures buf'[..len] == bytes[..len]
  {
  }

  /** Does this plan reuse the sectors of the version on disk? */
  predicate InPlace(es: seq<Entry>, p: Plan)
    requires p.slot < |es|
  {
    es[p.slot].Used() && p.lba == es[p.slot].start
  }

  /** If the data sectors of a write end up holding anything at all (a failed or cut-short
      write) and the directory is as before, every other file still reads the same, and so
      does the file being written unless its own sectors were being reused. */
  lemma InterruptedWriteIsSafe(d: Disk, d': Disk, n: Name, data: seq<byte>, p: Plan)
    requires WriteAccepted(d, n, data, p)
    requires SameOutside(d, d', p.lba, p.lba + p.sectors)
    ensures p.slot < FS_MAX_FILES
    ensures Formatted(d') && Files(d').Keys == Files(d).Keys
    ensures Files(d') - {n} == Files(d) - {n}
    ensures !InPlace(Dir(d), p) ==> Files(d') == Files(d)
  {
    var r, es := RegionOf(d), Dir(d);
    PlanInside(es, r, n, |data|, p);
    RegionStable(d, d', r);
    OtherFilesSurvive(d, d', es, r, n, |data|, p);
  }

  lemma OtherFilesSurvive(d: Disk, d': Disk, es: seq<Entry>, r: Region, n: Name, len: nat, p: Plan)
    requires ValidDir(es, r) && r.limit <= |d| && PlanWrite(es, r, n, len) == Ok(p)
    requires SameOutside(d, d', p.lba, p.lba + p.sectors)
    ensures p.slot < |es|
    ensures FilesIn(d', es, r) - {n} == FilesIn(d, es, r) - {n}
    ensures !InPlace(es, p) ==> FilesIn(d', es, r) == FilesIn(d, es, r)
  {
    PlanInside(es, r, n, len, p);
    var files, files' := FilesIn(d, es, r), FilesIn(d', es, r);
    forall m | m in files.Keys && (m != n || !InPlace(es, p))
      ensures files'[m] == files[m]
    {
      OtherFileSurvives(d, d', es, r, n, len, p, m);
    }
    MapsAgree(files, files', n, !InPlace(es, p));
  }

  lemma MapsAgree<K, V>(m: map<K, V>, m': map<K, V>, k: K, all: bool)
    requires m'.Keys == m.Keys && forall x | x in m.Keys && (x != k || all) :: m'[x] == m[x]
    ensures m' - {k} == m - {k} && (all ==> m' == m)
  {
  }

  lemma OtherFileSurvives(d: Disk, d': Disk, es: seq<Entry>, r: Region, n: Name, len: nat, p: Plan, m: Name)
    requires ValidDir(es, r) && r.limit <= |d| && PlanWrite(es, r, n, len) == Ok(p) && p.slot < |es|
    requires SameOutside(d, d', p.lba, p.lba + p.sectors)
    requires m in NamesOf(es) && (m != n || !InPlace(es, p))
    ensures ContentIn(d', es, r, m) == ContentIn(d, es, r, m)
  {
    PlanInside(es, r, n, len, p);
    var i := IndexOf(es, m);
    assert EntryOk(es[i], r);
    if i != p.slot {
      PlanAvoids(es, r, n, len, p, i);
    } else {
      NextFreeBounds(es, r.dir + 1);
    }
    ContentFrame(d, d', es, es, r, m, i);
  }

  // ----- disk images -----

  datatype Image = Image(drive: byte, start: u32, sectors: u32)

  /** The sectors past all data. */
  ghost function Available(d: Disk): nat
    requires Formatted(d)
  {
    NextFreeInside(Dir(d), RegionOf(d));
    RegionOf(d).limit - NextFree(Dir(d), RegionOf(d).dir + 1)
  }

  /** The answer to a reservation when no transfer fails. */
  ghost function ReserveVerdict(d: Disk, sectors: nat): int {
    if sectors == 0 || sectors > MAX_IMAGE_SECTORS then FS_ERR_BIG
    else if !Formatted(d) then DirStatus(d)
    else if FirstFree(Dir(d)) < 0 then FS_ERR_FULL
    else if sectors > Available(d) then FS_ERR_NOSPC
    else FS_OK
  }

  /** What is handed out: the first sectors past all data. */
  ghost function Reservation(d: Disk, drive: byte, sectors: u32): Image
    requires Formatted(d)
  {
    NextFreeInside(Dir(d), RegionOf(d));
    Image(drive, NextFree(Dir(d), RegionOf(d).dir + 1), sectors)
  }

  /** An extent a reservation can hand out. */
  predicate CanReserve(es: seq<Entry>, r: Region, image: Image) {
    && image.start == NextFree(es, r.dir + 1)
    && 0 < image.sectors <= MAX_IMAGE_SECTORS
    && image.start + image.sectors <= r.limit
    && FirstFree(es) >= 0
  }

  lemma ReservationIff(d: Disk, drive: byte, sectors: u32)
    requires Formatted(d)
    ensures CanReserve(Dir(d), RegionOf(d), Reservation(d, drive, sectors)) <==> ReserveVerdict(d, sectors) == FS_OK
  {
  }

  /** A reservation is exactly what publication asks for: it is accepted under a good new name on
      this disk if and only if it could be reserved there. */
  lemma ReservedIsPublishable(d: Disk, n: Name, drive: byte, sectors: u32)
    requires Formatted(d) && GoodName(n) && n !in Files(d)
    ensures Publishable(Dir(d), RegionOf(d), n, Reservation(d, drive, sectors)) <==> ReserveVerdict(d, sectors) == FS_OK
  {
    AbsentIsNotFound(Dir(d), n);
  }

  lemma AbsentIsNotFound(es: seq<Entry>, n: Name)
    requires n !in NamesOf(es)
    ensures Find(es, n) < 0
  {
  }

  /** The answer to opening an image when no transfer fails. */
  ghost function OpenVerdict(d: Disk, n: Name): int {
    if !Formatted(d) then DirStatus(d)
    else
      var k := Find(Dir(d), n);
      if k < 0 then FS_ERR_NOTFOUND
      else if Dir(d)[k].count == 0 || Dir(d)[k].count % 512 != 0 then FS_ERR_IO
      else FS_OK
  }

  /** `image` is the extent of the file `n`, a whole, non-zero number of sectors. */
  ghost predicate IsImage(d: Disk, n: Name, image: Image) {
    && Formatted(d) && Find(Dir(d), n) >= 0
    && var e := Dir(d)[Find(Dir(d), n)];
       image.start == e.start && 512 * image.sectors == e.count > 0
  }

  /** Requests that are refused whatever the disk holds. */
  predicate BadRequest(image: Image, sector: u32, count: u32) {
    count == 0 || sector + count > image.sectors || image.start + sector > 0xffff_ffff
  }

  /** The answer to a transfer through an image handle when no transfer fails: the handle is not
      looked up, only the file region must contain it. */
  ghost function BoundsVerdict(d: Disk, image: Image, sector: u32, count: u32): int {
    if BadRequest(image, sector, count) then FS_ERR_IO
    else match Resolve(d)
      case Err(c) => c
      case Ok(r) =>
        if r.dir < image.start && image.start + image.sectors <= r.limit then FS_OK else FS_ERR_IO
  }

  /** What a write through an image handle does: the sectors asked for and no others, unless the
      request was refused, and all of them if it succeeds. */
  ghost predicate ImageWritten(d: Disk, d': Disk, image: Image, sector: u32, secs: seq<Sector>, rc: int)
    requires |secs| < 0x1_0000_0000
  {
    if BoundsVerdict(d, image, sector, |secs|) != FS_OK then d' == d
    else
      && SameOutside(d, d', image.start + sector, image.start + sector + |secs|)
      && (rc == FS_OK ==> image.start + sector + |secs| <= |d| && d' == Splice(d, image.start + sector, secs))
  }

  /** The bytes of a file after `secs` have replaced its sectors from `sector` on. */
  function Overwritten(bytes: seq<byte>, sector: nat, secs: seq<Sector>): (b: seq<byte>)
    ensures |b| == |bytes|
  {
    seq(|bytes|, i requires 0 <= i < |bytes| =>
      if sector <= i / 512 < sector + |secs| then secs[i / 512 - sector][i % 512] else bytes[i])
  }

  lemma ImageInside(d: Disk, n: Name, image: Image)
    requires IsImage(d, n, image)
    ensures RegionOf(d).dir < image.start && image.start + image.sectors <= RegionOf(d).limit
    ensures Dir(d)[Find(Dir(d), n)].Sectors() == image.sectors
  {
    SectorsOfWhole(image.sectors);
    assert EntryOk(Dir(d)[Find(Dir(d), n)], RegionOf(d));
  }

  /** An opened image is the whole file: its sectors are the file's bytes. */
  lemma ImageContent(d: Disk, n: Name, image: Image)
    requires IsImage(d, n, image)
    ensures n in Files(d) && image.start + image.sectors <= |d|
    ensures Files(d)[n] == SectorBytes(d, image.start, image.sectors)
  {
    ImageInside(d, n, image);
  }

  /** Changing data sectors alone leaves the directory as it is. */
  lemma DataWriteKeepsDir(d: Disk, d': Disk, lo: nat, hi: nat)
    requires Formatted(d) && SameOutside(d, d', lo, hi) && RegionOf(d).dir < lo && hi <= RegionOf(d).limit
    ensures Formatted(d') && RegionOf(d') == RegionOf(d) && Dir(d') == Dir(d)
  {
    RegionStable(d, d', RegionOf(d));
  }

  lemma ImageDirKept(d: Disk, d': Disk, n: Name, image: Image, sector: nat, count: nat)
    requires IsImage(d, n, image) && sector + count <= image.sectors
    requires SameOutside(d, d', image.start + sector, image.start + sector + count)
    ensures Formatted(d') && RegionOf(d') == RegionOf(d) && Dir(d') == Dir(d)
  {
    ImageInside(d, n, image);
    DataWriteKeepsDir(d, d', image.start + sector, image.start + sector + count);
  }

  /** Whatever is written to an opened image, completely or not, changes no other file. */
  lemma ImageWriteKeepsOthers(d: Disk, d': Disk, n: Name, image: Image, sector: nat, count: nat)
    requires IsImage(d, n, image) && sector + count <= image.sectors
    requires SameOutside(d, d', image.start + sector, image.start + sector + count)
    ensures IsImage(d', n, image)
    ensures Files(d').Keys == Files(d).Keys && Files(d') - {n} == Files(d) - {n}
  {
    ImageDirKept(d, d', n, image, sector, count);
    ImageInside(d, n, image);
    OtherEntriesKept(d, d', Dir(d), RegionOf(d), n, Find(Dir(d), n));
  }

  lemma OtherEntriesKept(d: Disk, d': Disk, es: seq<Entry>, r: Region, n: Name, k: nat)
    requires ValidDir(es, r) && r.limit <= |d| && k < |es| && Matches(es[k], n)
    requires SameOutside(d, d', es[k].start, es[k].End())
    ensures FilesIn(d', es, r).Keys == FilesIn(d, es, r).Keys
    ensures FilesIn(d', es, r) - {n} == FilesIn(d, es, r) - {n}
  {
    var files, files' := FilesIn(d, es, r), FilesIn(d', es, r);
    forall m | m in files.Keys && m != n
      ensures files'[m] == files[m]
    {
      var i := IndexOf(es, m);
      OtherEntryKept(d, d', es, r, k, m, i);
    }
    MapsAgree(files, files', n, false);
  }

  lemma OtherEntryKept(d: Disk, d': Disk, es: seq<Entry>, r: Region, k: nat, m: Name, i: nat)
    requires ValidDir(es, r) && r.limit <= |d| && k < |es| && es[k].Used()
    requires i < |es| && i != k && Matches(es[i], m)
    requires SameOutside(d, d', es[k].start, es[k].End())
    ensures m in NamesOf(es) && ContentIn(d', es, r, m) == ContentIn(d, es, r, m)
  {
    assert if i < k then Compatible(es[k], es[i]) else Compatible(es[i], es[k]);
    ContentFrame(d, d', es, es, r, m, i);
  }

  /** A write to an opened image replaces exactly those bytes of that file. */
  lemma ImageWriteUpdatesFile(d: Disk, n: Name, image: Image, sector: nat, at: nat, secs: seq<Sector>)
    requires IsImage(d, n, image) && sector + |secs| <= image.sectors && at == image.start + sector
    requires at + |secs| <= |d|
    ensures n in Files(d) && Formatted(Splice(d, at, secs))
    ensures Files(Splice(d, at, secs)) == Files(d)[n := Overwritten(Files(d)[n], sector, secs)]
  {
    SplicedDirKept(d, n, image, sector, at, secs);
    ImageMapUpdated(d, n, image, sector, at, secs);
  }

  lemma SplicedDirKept(d: Disk, n: Name, image: Image, sector: nat, at: nat, secs: seq<Sector>)
    requires IsImage(d, n, image) && sector + |secs| <= image.sectors && at == image.start + sector
    requires at + |secs| <= |d|
    ensures Formatted(Splice(d, at, secs))
    ensures RegionOf(Splice(d, at, secs)) == RegionOf(d) && Dir(Splice(d, at, secs)) == Dir(d)
  {
    SpliceOutside(d, at, secs);
    ImageDirKept(d, Splice(d, at, secs), n, image, sector, |secs|);
  }

  lemma ImageMapUpdated(d: Disk, n: Name, image: Image, sector: nat, at: nat, secs: seq<Sector>)
    requires IsImage(d, n, image) && sector + |secs| <= image.sectors && at == image.start + sector
    requires at + |secs| <= |d| && Formatted(Splice(d, at, secs))
    requires RegionOf(Splice(d, at, secs)) == RegionOf(d) && Dir(Splice(d, at, secs)) == Dir(d)
    ensures n in Files(d) && Files(Splice(d, at, secs)) == Files(d)[n := Overwritten(Files(d)[n], sector, secs)]
  {
    ImageInside(d, n, image);
    EntryWriteUpdates(d, Dir(d), RegionOf(d), n, Find(Dir(d), n), sector, at, secs);
  }

  lemma EntryWriteUpdates(d: Disk, es: seq<Entry>, r: Region, n: Name, k: nat, sector: nat, at: nat, secs: seq<Sector>)
    requires ValidDir(es, r) && r.limit <= |d| && k < |es| && Matches(es[k], n)
    requires at == es[k].start + sector && sector + |secs| <= es[k].Sectors() && at + |secs| <= |d|
    ensures n in NamesOf(es)
    ensures FilesIn(Splice(d, at, secs), es, r)
         == FilesIn(d, es, r)[n := Overwritten(ContentIn(d, es, r, n), sector, secs)]
  {
    SpliceOutside(d, at, secs);
    OtherEntriesKept(d, Splice(d, at, secs), es, r, n, k);
    EntryOverwritten(d, es, r, n, k, sector, at, secs);
    OneFileChanged(FilesIn(d, es, r), FilesIn(Splice(d, at, secs), es, r), n);
  }

  lemma SpliceOutside(d: Disk, at: nat, secs: seq<Sector>)
    requires at + |secs| <= |d|
    ensures SameOutside(d, Splice(d, at, secs), at, at + |secs|)
  {
  }

  lemma EntryOverwritten(d: Disk, es: seq<Entry>, r: Region, n: Name, k: nat, sector: nat, at: nat, secs: seq<Sector>)
    requires ValidDir(es, r) && r.limit <= |d| && k < |es| && Matches(es[k], n)
    requires at == es[k].start + sector && sector + |secs| <= es[k].Sectors() && at + |secs| <= |d|
    ensures n in NamesOf(es)
    ensures ContentIn(Splice(d, at, secs), es, r, n) == Overwritten(ContentIn(d, es, r, n), sector, secs)
  {
    FindIs(es, r, k, n);
    assert EntryOk(es[k], r);
    BytesOverwritten(d, es[k].start, es[k].count, sector, at, secs);
  }

  lemma BytesOverwritten(d: Disk, start: nat, count: nat, sector: nat, at: nat, secs: seq<Sector>)
    requires start + SectorsOf(count) <= |d| && at == start + sector && sector + |secs| <= SectorsOf(count)
    ensures FileBytes(Splice(d, at, secs), start, count) == Overwritten(FileBytes(d, start, count), sector, secs)
  {
  }

  lemma OneFileChanged<K, V>(m: map<K, V>, m': map<K, V>, k: K)
    requires m'.Keys == m.Keys && m' - {k} == m - {k} && k in m
    ensures m' == m[k := m'[k]]
  {
    forall x | x in m && x != k
      ensures m'[x] == m[x]
    {
      assert (m' - {k})[x] == (m - {k})[x];
    }
  }

  /** Filling an image that is only reserved changes no file. */
  lemma ReservedWriteKeepsFiles(d: Disk, d': Disk, lo: nat, hi: nat)
    requires Formatted(d) && NextFree(Dir(d), RegionOf(d).dir + 1) <= lo && hi <= RegionOf(d).limit
    requires SameOutside(d, d', lo, hi)
    ensures Formatted(d') && Files(d') == Files(d)
  {
    NextFreeBounds(Dir(d), RegionOf(d).dir + 1);
    DataWriteKeepsDir(d, d', lo, hi);
    EntriesKept(d, d', Dir(d), RegionOf(d), lo, hi);
  }

  lemma EntriesKept(d: Disk, d': Disk, es: seq<Entry>, r: Region, lo: nat, hi: nat)
    requires ValidDir(es, r) && r.limit <= |d| && SameOutside(d, d', lo, hi) && EndsBy(es, lo)
    ensures FilesIn(d', es, r) == FilesIn(d, es, r)
  {
    forall m | m in NamesOf(es)
      ensures ContentIn(d', es, r, m) == ContentIn(d, es, r, m)
    {
      var i := IndexOf(es, m);
      ContentFrame(d, d', es, es, r, m, i);
    }
  }

  /** None of these sectors holds bytes of a file. */
  ghost predicate MeetsNoFile(es: seq<Entry>, lo: nat, hi: nat) {
    forall i | 0 <= i < |es| :: FileMisses(es[i], lo, hi)
  }

  predicate FileMisses(e: Entry, lo: nat, hi: nat) {
    e.Used() && e.count > 0 ==> e.End() <= lo || hi <= e.start
  }

  lemma FillingMissesFiles(d: Disk, d': Disk, lo: nat, hi: nat)
    requires Formatted(d) && RegionOf(d).dir < lo && hi <= RegionOf(d).limit && SameOutside(d, d', lo, hi)
    requires MeetsNoFile(Dir(d), lo, hi)
    ensures Formatted(d') && Files(d') == Files(d)
  {
    DataWriteKeepsDir(d, d', lo, hi);
    var es, r := Dir(d), RegionOf(d);
    forall m | m in NamesOf(es)
      ensures ContentIn(d', es, r, m) == ContentIn(d, es, r, m)
    {
      var i := IndexOf(es, m);
      MissedContent(d, d', es, r, m, i, lo, hi);
    }
  }

  lemma MissedContent(d: Disk, d': Disk, es: seq<Entry>, r: Region, m: Name, i: nat, lo: nat, hi: nat)
    requires ValidDir(es, r) && r.limit <= |d| && SameOutside(d, d', lo, hi)
    requires i < |es| && Matches(es[i], m) && FileMisses(es[i], lo, hi)
    ensures m in NamesOf(es) && ContentIn(d', es, r, m) == ContentIn(d, es, r, m)
  {
    FindIs(es, r, i, m);
    assert EntryOk(es[i], r);
    if es[i].count > 0 { FileBytesFrame(d, d', es[i].start, es[i].count); }
  }

  /** A sector that differs from another in every byte. */
  function Unlike(s: Sector): (t: Sector)
    ensures t[0] != s[0]
  {
    seq(512, _ => if s[0] == 0 then 1 else 0)
  }

  /** Writing `secs` at `at` leaves the file `m` in place with other contents. */
  ghost predicate Changes(d: Disk, at: nat, secs: seq<Sector>, m: Name) {
    && at + |secs| <= |d| && Formatted(d) && Formatted(Splice(d, at, secs))
    && m in Files(d) && m in Files(Splice(d, at, secs)) && Files(Splice(d, at, secs))[m] != Files(d)[m]
  }

  /** Sectors that change the file they meet. */
  lemma FillingChangesFile(d: Disk, lo: nat, count: nat, i: nat) returns (secs: seq<Sector>, m: Name)
    requires Formatted(d) && RegionOf(d).dir < lo && lo + count <= RegionOf(d).limit && count > 0
    requires i < |Dir(d)| && !FileMisses(Dir(d)[i], lo, lo + count)
    ensures |secs| == count && m == CStr(Dir(d)[i].raw) && Changes(d, lo, secs, m)
  {
    var e := Dir(d)[i];
    assert EntryOk(e, RegionOf(d));
    m := CStr(e.raw);
    secs := UnlikeSectors(d, lo, count, e.start, e.count);
    SpliceOutside(d, lo, secs);
    DataWriteKeepsDir(d, Splice(d, lo, secs), lo, lo + count);
    FindIs(Dir(d), RegionOf(d), i, m);
  }

  lemma UnlikeSectors(d: Disk, lo: nat, count: nat, start: nat, n: nat) returns (secs: seq<Sector>)
    requires start + SectorsOf(n) <= |d| && lo + count <= |d| && count > 0 && n > 0
    requires lo < start + SectorsOf(n) && start < lo + count
    ensures |secs| == count && FileBytes(Splice(d, lo, secs), start, n) != FileBytes(d, start, n)
  {
    var s := if start < lo then lo else start;
    secs := seq(count, _ => Unlike(d[s]));
    assert Splice(d, lo, secs)[s] == secs[s - lo];
    ByteChanged(d, Splice(d, lo, secs), start, n, s - start);
  }

  lemma ByteChanged(d: Disk, d': Disk, start: nat, count: nat, k: nat)
    requires start + SectorsOf(count) <= |d| == |d'| && k < SectorsOf(count) && count > 0
    requires d'[start + k][0] != d[start + k][0]
    ensures FileBytes(d', start, count) != FileBytes(d, start, count)
  {
    var at := 512 * k;
    assert at < count && at / 512 == k && at % 512 == 0;
    assert FileBytes(d', start, count)[at] == d'[start + k][0];
    assert FileBytes(d, start, count)[at] == d[start + k][0];
  }

  /** Exactly when a write through a handle, whatever it writes, leaves all files as they are: when
      none of the sectors it may write holds bytes of a file at the time of the write. */
  lemma FillingKeepsFilesIff(d: Disk, lo: nat, count: nat)
    requires Formatted(d) && RegionOf(d).dir < lo && lo + count <= RegionOf(d).limit && count > 0
    ensures (forall secs: seq<Sector> | |secs| == count ::
               Formatted(Splice(d, lo, secs)) && Files(Splice(d, lo, secs)) == Files(d))
       <==> MeetsNoFile(Dir(d), lo, lo + count)
  {
    if MeetsNoFile(Dir(d), lo, lo + count) {
      forall secs: seq<Sector> | |secs| == count
        ensures Formatted(Splice(d, lo, secs)) && Files(Splice(d, lo, secs)) == Files(d)
      {
        SpliceOutside(d, lo, secs);
        FillingMissesFiles(d, Splice(d, lo, secs), lo, lo + count);
      }
    } else {
      var i :| 0 <= i < |Dir(d)| && !FileMisses(Dir(d)[i], lo, lo + count);
      var secs, m := FillingChangesFile(d, lo, count, i);
      assert Changes(d, lo, secs, m);
    }
  }

  /** A reservation is no protection: when a new file has been written since, it lies over the
      reserved sectors, the handle is still accepted, and a write through it changes that file. */
  lemma StaleHandleOverwrites(d: Disk, drive: byte, sectors: u32, n: Name, data: seq<byte>, p: Plan)
    returns (secs: seq<Sector>)
    requires Formatted(d) && ReserveVerdict(d, sectors) == FS_OK
    requires n !in Files(d) && data != [] && WriteAccepted(d, n, data, p)
    requires p.slot < FS_MAX_FILES && LeavesNameTerminated(Dir(d), p, n)
    ensures var image, d' := Reservation(d, drive, sectors), WrittenDisk(d, p, n, data);
      |secs| == 1 && BoundsVerdict(d', image, 0, |secs|) == FS_OK && Changes(d', image.start, secs, n)
  {
    var image, d' := Reservation(d, drive, sectors), WrittenDisk(d, p, n, data);
    ReservationIff(d, drive, sectors);
    AppendedAtReservation(d, n, data, p);
    WrittenEntry(d, n, data, p);
    HandleAccepted(d', RegionOf(d), image);
    secs := FirstSectorChanges(d', n, p.slot, image.start);
  }

  lemma HandleAccepted(d: Disk, r: Region, image: Image)
    requires Resolve(d) == Ok(r) && r.dir < image.start && image.start + image.sectors <= r.limit && image.sectors > 0
    ensures BoundsVerdict(d, image, 0, 1) == FS_OK
  {
  }

  lemma FirstSectorChanges(d: Disk, n: Name, i: nat, start: nat) returns (secs: seq<Sector>)
    requires Formatted(d) && i < FS_MAX_FILES
    requires Matches(Dir(d)[i], n) && Dir(d)[i].count > 0 && Dir(d)[i].start == start
    ensures |secs| == 1 && Changes(d, start, secs, n)
  {
    assert EntryOk(Dir(d)[i], RegionOf(d));
    var m;
    secs, m := FillingChangesFile(d, start, 1, i);
  }

  lemma AppendedAtReservation(d: Disk, n: Name, data: seq<byte>, p: Plan)
    requires WriteAccepted(d, n, data, p) && n !in Files(d)
    ensures p.lba == NextFree(Dir(d), RegionOf(d).dir + 1)
  {
  }

  lemma WrittenEntry(d: Disk, n: Name, data: seq<byte>, p: Plan)
    requires WriteAccepted(d, n, data, p) && p.slot < FS_MAX_FILES && LeavesNameTerminated(Dir(d), p, n)
    ensures Formatted(WrittenDisk(d, p, n, data)) && RegionOf(WrittenDisk(d, p, n, data)) == RegionOf(d)
    ensures var e := Dir(WrittenDisk(d, p, n, data))[p.slot];
      e.start == p.lba && e.count == |data| && CStr(e.raw) == n
  {
    WrittenDiskFacts(d, n, data, p);
    WriteKeepsFormatted(d, n, data, p);
    RenamedReads(Dir(d)[p.slot].raw, n);
  }

  /** A name and an extent `fs_image_publish` accepts. */
  predicate Publishable(es: seq<Entry>, r: Region, n: Name, image: Image) {
    GoodName(n) && Find(es, n) < 0 && CanReserve(es, r, image)
  }

  /** The slot is cleared before it is filled. */
  function PublishedEntry(n: Name, image: Image): (e: Entry)
    requires |n| <= FS_NAME_MAX && image.sectors <= MAX_IMAGE_SECTORS
    ensures |e.raw| == 24
  {
    Entry(n + seq(24 - |n|, _ => 0), image.start, 512 * image.sectors)
  }

  lemma PublishedEntryReads(n: Name, image: Image)
    requires GoodName(n) && 0 < image.sectors <= MAX_IMAGE_SECTORS
    ensures var e := PublishedEntry(n, image);
            CStr(e.raw) == n && e.raw[23] == 0 && e.raw[0] != 0 && e.Sectors() == image.sectors
  {
    var e := PublishedEntry(n, image);
    assert e.raw[..|n|] == n;
    CStrIs(e.raw, |n|);
  }

  function DirAfterPublish(es: seq<Entry>, n: Name, image: Image): seq<Entry>
    requires GoodName(n) && image.sectors <= MAX_IMAGE_SECTORS && FirstFree(es) >= 0
  {
    es[FirstFree(es) := PublishedEntry(n, image)]
  }

  /** Publishing always leaves a valid directory. */
  lemma PublishKeepsDirValid(es: seq<Entry>, r: Region, n: Name, image: Image)
    requires ValidDir(es, r) && Publishable(es, r, n, image)
    ensures ValidDir(DirAfterPublish(es, n, image), r)
  {
    var es', slot := DirAfterPublish(es, n, image), FirstFree(es);
    NextFreeBounds(es, r.dir + 1);
    PublishedEntryReads(n, image);
    forall i, j | 0 <= j < i < |es'|
      ensures Compatible(es'[i], es'[j])
    {
      assert Compatible(es[i], es[j]);
      assert !Matches(es[i], n) && !Matches(es[j], n);
    }
    forall i | 0 <= i < |es'|
      ensures EntryOk(es'[i], r)
    {
      assert EntryOk(es[i], r);
    }
  }

  ghost function PublishVerdict(d: Disk, n: Name, image: Image): int {
    if !GoodName(n) then FS_ERR_IO
    else if !Formatted(d) then DirStatus(d)
    else
      var es, r := Dir(d), RegionOf(d);
      if Publishable(es, r, n, image) then FS_OK
      else if Find(es, n) < 0 && FirstFree(es) < 0
           && image.start == NextFree(es, r.dir + 1)
           && 0 < image.sectors <= MAX_IMAGE_SECTORS && image.start + image.sectors <= r.limit
      then FS_ERR_FULL
      else FS_ERR_IO
  }

  /** Everything `fs_image_publish` promises about its answer and the disk it leaves. */
  ghost predicate PublishOutcome(d: Disk, d': Disk, n: Name, image: Image, rc: int) {
    var verdict := PublishVerdict(d, n, image);
    if verdict != FS_OK then d' == d && rc in {verdict, FS_ERR_IO}
    else if rc == FS_OK then d' == PublishedDisk(d, n, image)
    else rc == FS_ERR_IO && (d' == d || SameOutside(d, d', RegionOf(d).dir, RegionOf(d).dir + 1))
  }

  ghost function PublishedDisk(d: Disk, n: Name, image: Image): Disk
    requires Formatted(d) && Publishable(Dir(d), RegionOf(d), n, image)
  {
    var r := RegionOf(d);
    d[r.dir := PutEntry(d[r.dir], FirstFree(Dir(d)), PublishedEntry(n, image))]
  }

  /** Publishing adds exactly one name, whose bytes are the sectors of the image. */
  lemma PublishUpdatesMap(d: Disk, n: Name, image: Image)
    requires Formatted(d) && Publishable(Dir(d), RegionOf(d), n, image)
    ensures Formatted(PublishedDisk(d, n, image)) && RegionOf(PublishedDisk(d, n, image)) == RegionOf(d)
    ensures n !in Files(d)
    ensures Files(PublishedDisk(d, n, image))
         == Files(d)[n := SectorBytes(d, image.start, image.sectors)]
  {
    var d' := PublishedDisk(d, n, image);
    var r, es, slot := RegionOf(d), Dir(d), FirstFree(Dir(d));
    RegionStable(d, d', r);
    EntriesOfPut(d[r.dir], slot, PublishedEntry(n, image));
    PublishKeepsDirValid(es, r, n, image);
    NextFreeBounds(es, r.dir + 1);
    PublishedEntryReads(n, image);
    forall i | 0 <= i < |es| && i != slot && es[i].Used()
      ensures CStr(es[i].raw) != n && SectorsKept(d, d', es[i])
    {
      assert EntryOk(es[i], r) && !Matches(es[i], n);
    }
    SlotUpdatesMap(d, d', es, r, slot, PublishedEntry(n, image), n);
    SectorsOfWhole(image.sectors);
    FileBytesFrame(d, d', image.start, 512 * image.sectors);
  }

  // ----- what no call touches -----

  /** A call that may write sectors, with everything it is given. */
  datatype Writing = Saving(name: Name, data: seq<byte>)
                   | Publishing(name: Name, image: Image)
                   | Filling(image: Image, sector: u32, secs: seq<Sector>)

  /** What such a call may do to the disk, whatever it answers: it may have been cut short anywhere,
      and an image handle may be of any age. */
  ghost predicate Wrote(d: Disk, d': Disk, w: Writing, rc: int) {
    match w
    case Saving(n, data) => WriteOutcome(d, d', n, data, rc)
    case Publishing(n, image) => PublishOutcome(d, d', n, image, rc)
    case Filling(image, sector, secs) => |secs| < 0x1_0000_0000 && ImageWritten(d, d', image, sector, secs, rc)
  }

  /** Nothing has changed but in the region the filesystem owns, if it owns one. */
  ghost predicate Confined(d: Disk, d': Disk) {
    match Resolve(d)
    case Err(_) => d' == d
    case Ok(r) => SameOutside(d, d', r.dir, r.limit)
  }

  lemma SavingConfined(d: Disk, d': Disk, n: Name, data: seq<byte>, rc: int)
    requires WriteOutcome(d, d', n, data, rc)
    ensures Confined(d, d')
  {
    if WriteVerdict(d, n, data) == FS_OK {
      var p := PlanFor(d, n, data);
      PlanInside(Dir(d), RegionOf(d), n, |data|, p);
      WriteConfined(d, n, data, p);
    }
  }

  lemma PublishingConfined(d: Disk, d': Disk, n: Name, image: Image, rc: int)
    requires PublishOutcome(d, d', n, image, rc)
    ensures Confined(d, d')
  {
  }

  lemma FillingConfined(d: Disk, d': Disk, image: Image, sector: u32, secs: seq<Sector>, rc: int)
    requires |secs| < 0x1_0000_0000 && ImageWritten(d, d', image, sector, secs, rc)
    ensures Confined(d, d')
  {
  }

  /** Sectors that belong to nobody's files: the boot sector, the boot, kernel and configuration
      sectors of the native partition, and every other partition. */
  ghost predicate Protected(d: Disk, s: nat) {
    s == 0 || (d != [] && exists i | 0 <= i < 4 :: InReserved(d, PartTable(d[0])[i], s))
  }

  ghost predicate InReserved(d: Disk, p: Part, s: nat) {
    && p.ptype != 0 && p.start <= s < p.start + p.sectors
    && (Native(p) && p.start < |d| ==> s < p.start + ConfigOffset(d[p.start]) + CONFIG_SECTORS)
  }

  lemma ProtectedOutside(d: Disk, r: Region, s: nat)
    requires Resolve(d) == Ok(r) && Protected(d, s)
    ensures !(r.dir <= s < r.limit)
  {
    RegionInside(d, r);
    if s != 0 {
      var i :| 0 <= i < 4 && InReserved(d, PartTable(d[0])[i], s);
      RegionConfined(d, r, i);
    }
  }

  lemma ConfinedKeepsProtected(d: Disk, d': Disk)
    requires Confined(d, d')
    ensures |d'| == |d| && Resolve(d') == Resolve(d)
    ensures forall s: nat | s < |d| && Protected(d, s) :: d'[s] == d[s] && Protected(d', s)
  {
    if Resolve(d).Ok? {
      var r := Resolve(d).value;
      RegionStable(d, d', r);
      forall s: nat | s < |d| && Protected(d, s)
        ensures d'[s] == d[s] && Protected(d', s)
      {
        ProtectedOutside(d, r, s);
        StaysProtected(d, d', r, s);
      }
    }
  }

  lemma StaysProtected(d: Disk, d': Disk, r: Region, s: nat)
    requires Resolve(d) == Ok(r) && SameOutside(d, d', r.dir, r.limit) && Protected(d, s)
    ensures Protected(d', s)
  {
    RegionInside(d, r);
    if s != 0 {
      var i :| 0 <= i < 4 && InReserved(d, PartTable(d[0])[i], s);
      var p := PartTable(d[0])[i];
      RegionConfined(d, r, i);
      assert Native(p) ==> d'[p.start] == d[p.start];
      assert InReserved(d', PartTable(d'[0])[i], s);
    }
  }

  /** Whatever a call that writes is given, and however it ends, completely, refused or cut short:
      the boot record, the boot, kernel and configuration sectors and all other partitions are
      as they were, nothing outside the region of files has changed, and where that region is
      stays the same. */
  lemma EveryWriteConfined(d: Disk, d': Disk, w: Writing, rc: int)
    requires Wrote(d, d', w, rc)
    ensures Confined(d, d') && |d'| == |d| && Resolve(d') == Resolve(d)
    ensures forall s: nat | s < |d| && Protected(d, s) :: d'[s] == d[s] && Protected(d', s)
  {
    CallConfined(d, d', w, rc);
    ConfinedKeepsProtected(d, d');
  }

  lemma CallConfined(d: Disk, d': Disk, w: Writing, rc: int)
    requires Wrote(d, d', w, rc)
    ensures Confined(d, d')
  {
    match w
    case Saving(n, data) => SavingConfined(d, d', n, data, rc);
    case Publishing(n, image) => PublishingConfined(d, d', n, image, rc);
    case Filling(image, sector, secs) => FillingConfined(d, d', image, sector, secs, rc);
  }

  /** The disks of a history of such calls. */
  ghost predicate IsHistory(disks: seq<Disk>, calls: seq<Writing>, answers: seq<int>) {
    && |disks| == |calls| + 1 && |answers| == |calls|
    && forall i | 0 <= i < |calls| :: WroteAt(disks, calls, answers, i)
  }

  ghost predicate WroteAt(disks: seq<Disk>, calls: seq<Writing>, answers: seq<int>, i: nat)
    requires i < |calls| == |answers| && |disks| == |calls| + 1
  {
    Wrote(disks[i], disks[i + 1], calls[i], answers[i])
  }

  /** The same over any history of calls, failed ones included. */
  lemma {:induction false} EveryHistoryConfined(disks: seq<Disk>, calls: seq<Writing>, answers: seq<int>, k: nat)
    requires IsHistory(disks, calls, answers) && k <= |calls|
    ensures |disks[k]| == |disks[0]| && Resolve(disks[k]) == Resolve(disks[0]) && Confined(disks[0], disks[k])
    ensures forall s: nat | s < |disks[0]| && Protected(disks[0], s) ::
      disks[k][s] == disks[0][s] && Protected(disks[k], s)
  {
    if k > 0 {
      EveryHistoryConfined(disks, calls, answers, k - 1);
      assert WroteAt(disks, calls, answers, k - 1);
      EveryWriteConfined(disks[k - 1], disks[k], calls[k - 1], answers[k - 1]);
    }
  }
}
