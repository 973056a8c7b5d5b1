/** What the native filesystem means: a disk as a map from names to byte strings (kernel/fs.c). */
module FsSpec {
  import opened Bytes
  import opened DiskLayout

  const FS_MAGIC: u32 := 0x46530001
  const LEGACY_DIR_LBA: u32 := 2048
  const LEGACY_DATA_START: u32 := 2049
  const FS_MAX_FILES: nat := 15
  const FS_NAME_MAX: nat := 23
  const FS_MAX_LEN: nat := 512 * 1024
  const MAX_IMAGE_SECTORS: nat := 0x7fffff

  const FS_OK := 0
  const FS_ERR_NODRV := -1
  const FS_ERR_FULL := -2
  const FS_ERR_IO := -3
  const FS_ERR_BIG := -4
  const FS_ERR_NOTFOUND := -5
  const FS_ERR_NODIR := -6
  const FS_ERR_LAYOUT := -7
  const FS_ERR_NOSPC := -8

  datatype Result<+T> = Ok(value: T) | Err(code: int)

  type Disk = d: seq<Sector> | |d| < 0x1_0000_0000

  /** The sectors the filesystem owns: the directory at `dir`, data from `dir + 1` up to `limit`. */
  datatype Region = Region(dir: u32, limit: u32)

  /** The contents of a C string argument: no NUL inside. */
  type Name = n: seq<byte> | 0 !in n

  // ----- volume discovery -----

  predicate Signed(mbr: Sector) {
    mbr[510] == 0x55 && mbr[511] == 0xaa
  }

  predicate Blank(s: Sector) {
    forall i | 0 <= i < 512 :: s[i] == 0
  }

  /** The region an installed partition's descriptor gives, if it fits the boot record. */
  function NativeRegion(p: Part, config: u32, l: NativeLayout): Result<Region> {
    if LayoutValid(l, p.start, p.sectors) && l.kernelSectors + 1 == config
       && p.start + p.sectors < 0x1_0000_0000
    then Ok(Region(p.start + l.dirOffset, p.start + p.sectors))
    else Err(FS_ERR_LAYOUT)
  }

  ghost function ResolveNative(d: Disk, p: Part): Result<Region>
    requires SlotOk(p, |d|) && p.ptype != 0
  {
    var config := ConfigOffset(d[p.start]);
    if p.sectors <= config + CONFIG_SECTORS + 1 then Err(FS_ERR_LAYOUT)
    else NativeRegion(p, config, LayoutAt(d[p.start + config]))
  }

  ghost function Resolve(d: Disk): Result<Region> {
    if d == [] then Err(FS_ERR_IO) else
    var mbr := d[0];
    var parts := PartTable(mbr);
    var slot := FindNative(mbr, |d|);
    if slot == -2 then Err(FS_ERR_LAYOUT)
    else if slot >= 0 then
      if Signed(mbr) then ResolveNative(d, parts[slot]) else Err(FS_ERR_LAYOUT)
    else if (exists i | 0 <= i < 4 :: parts[i].ptype != 0)
         || (!Signed(mbr) && !Blank(mbr))
         || |d| <= LEGACY_DATA_START then Err(FS_ERR_LAYOUT)
    else Ok(Region(LEGACY_DIR_LBA, |d|))
  }

  function Status<T>(r: Result<T>): int {
    match r
    case Ok(_) => FS_OK
    case Err(c) => c
  }

  predicate SameOutside(d: Disk, d': Disk, lo: nat, hi: nat) {
    |d| == |d'| && forall i | 0 <= i < |d| && !(lo <= i < hi) :: d'[i] == d[i]
  }

  lemma RegionInside(d: Disk, r: Region)
    requires Resolve(d) == Ok(r)
    ensures 0 < r.dir && r.dir + 1 < r.limit <= |d|
  {
  }

  /** The region never meets sector 0, the boot record, the kernel and configuration
      sectors of the native partition, or any other partition. */
  lemma RegionConfined(d: Disk, r: Region, i: nat)
    requires Resolve(d) == Ok(r) && i < 4 && PartTable(d[0])[i].ptype != 0
    ensures var p := PartTable(d[0])[i];
            if Native(p) then r.limit == p.start + p.sectors
                           && p.start + ConfigOffset(d[p.start]) + CONFIG_SECTORS <= r.dir
            else Disjoint(p.start, p.sectors, r.dir, r.limit - r.dir)
  {
    var parts := PartTable(d[0]);
    var slot := FindNative(d[0], |d|);
    assert SlotOk(parts[i], |d|);
    assert slot >= 0 && Native(parts[slot]);
    if i != slot {
      var lo, hi := if i < slot then i else slot, if i < slot then slot else i;
      assert PartsDisjoint(parts[hi], parts[lo]);
    }
  }

  /** Writing inside the region cannot change where the region is. */
  lemma RegionStable(d: Disk, d': Disk, r: Region)
    requires Resolve(d) == Ok(r) && SameOutside(d, d', r.dir, r.limit)
    ensures Resolve(d') == Ok(r)
  {
    RegionInside(d, r);
    var slot := FindNative(d[0], |d|);
    if slot >= 0 {
      RegionConfined(d, r, slot);
      assert SlotOk(PartTable(d[0])[slot], |d|);
    }
  }

  // ----- the directory sector -----

  datatype Entry = Entry(raw: seq<byte>, start: u32, count: u32) {
    predicate Used() { start != 0 }
    function Sectors(): nat { SectorsOf(count) }
    function End(): nat { start + Sectors() }
  }

  /** A file occupies at least one sector. */
  function SectorsOf(len: nat): nat {
    var n := CeilDiv(len, 512);
    if n == 0 then 1 else n
  }

  /** The other rounding the code uses gives the same count. */
  lemma RoundUpIsCeil(len: nat)
    ensures (len + 511) / 512 == CeilDiv(len, 512)
  {
  }

  /** The string before the first NUL. */
  function CStr(s: seq<byte>): Name {
    if s == [] || s[0] == 0 then [] else [s[0]] + CStr(s[1..])
  }

  lemma CStrIs(s: seq<byte>, k: nat)
    requires k < |s| && s[k] == 0 && 0 !in s[..k]
    ensures CStr(s) == s[..k]
  {
    if k > 0 {
      assert s[0] in s[..k];
      assert s[1..][..k - 1] == s[..k][1..];
      CStrIs(s[1..], k - 1);
    }
  }

  function EntryAt(dir: Sector, i: nat): Entry
    requires i < FS_MAX_FILES
  {
    var o := 4 + 32 * i;
    Entry(dir[o..o + 24], Le32(dir, o + 24), Le32(dir, o + 28))
  }

  function Entries(dir: Sector): (es: seq<Entry>)
    ensures |es| == FS_MAX_FILES && forall i | 0 <= i < |es| :: |es[i].raw| == 24
  {
    seq(FS_MAX_FILES, i requires 0 <= i < FS_MAX_FILES => EntryAt(dir, i))
  }

  /** Byte `k` of the directory once `e` has been stored at offset `o`. */
  function PutByte(dir: Sector, o: nat, e: Entry, k: nat): byte
    requires k < 512 && |e.raw| == 24
  {
    if o <= k < o + 24 then e.raw[k - o]
    else if o + 24 <= k < o + 28 then LeBytes(e.start)[k - o - 24]
    else if o + 28 <= k < o + 32 then LeBytes(e.count)[k - o - 28]
    else dir[k]
  }

  function PutEntry(dir: Sector, i: nat, e: Entry): Sector
    requires i < FS_MAX_FILES && |e.raw| == 24
  {
    seq(512, k requires 0 <= k < 512 => PutByte(dir, 4 + 32 * i, e, k))
  }

  lemma SliceIs(s: seq<byte>, o: nat, w: seq<byte>)
    requires o + |w| <= |s| && forall k {:trigger s[k]} | o <= k < o + |w| :: s[k] == w[k - o]
    ensures s[o..o + |w|] == w
  {
  }

  lemma EntryOfPut(dir: Sector, i: nat, e: Entry, j: nat)
    requires i < FS_MAX_FILES && j < FS_MAX_FILES && |e.raw| == 24
    ensures EntryAt(PutEntry(dir, i, e), j) == if j == i then e else EntryAt(dir, j)
  {
    var dir', o := PutEntry(dir, i, e), 4 + 32 * j;
    var was := EntryAt(dir, j);
    SliceIs(dir', o, if j == i then e.raw else was.raw);
    SliceIs(dir', o + 24, if j == i then LeBytes(e.start) else dir[o + 24..o + 28]);
    SliceIs(dir', o + 28, if j == i then LeBytes(e.count) else dir[o + 28..o + 32]);
    if j == i {
      Le32RoundTrip(dir', o + 24, e.start);
      Le32RoundTrip(dir', o + 28, e.count);
    }
  }

  lemma EntriesOfPut(dir: Sector, i: nat, e: Entry)
    requires i < FS_MAX_FILES && |e.raw| == 24
    ensures Entries(PutEntry(dir, i, e)) == Entries(dir)[i := e]
    ensures Le32(PutEntry(dir, i, e), 0) == Le32(dir, 0)
  {
    SliceIs(PutEntry(dir, i, e), 0, dir[0..4]);
    forall j | 0 <= j < FS_MAX_FILES
      ensures EntryAt(PutEntry(dir, i, e), j) == if j == i then e else EntryAt(dir, j)
    {
      EntryOfPut(dir, i, e, j);
    }
  }

  predicate EntryOk(e: Entry, r: Region)
    requires |e.raw| == 24
  {
    if !e.Used() then e.count == 0
    else r.dir < e.start && e.End() <= r.limit && e.raw[23] == 0 && e.raw[0] != 0
  }

  /** Two used entries have different names and no sector in common. */
  predicate Compatible(e: Entry, f: Entry) {
    e.Used() && f.Used() ==>
      CStr(e.raw) != CStr(f.raw) && Disjoint(e.start, e.Sectors(), f.start, f.Sectors())
  }

  ghost predicate WellSized(es: seq<Entry>) {
    |es| == FS_MAX_FILES && forall i | 0 <= i < |es| :: |es[i].raw| == 24
  }

  ghost predicate ValidDir(es: seq<Entry>, r: Region) {
    && WellSized(es)
    && (forall i | 0 <= i < |es| :: EntryOk(es[i], r))
    && (forall i, j {:trigger Compatible(es[i], es[j])} | 0 <= j < i < |es| :: Compatible(es[i], es[j]))
  }

  predicate Matches(e: Entry, n: Name) {
    e.Used() && CStr(e.raw) == n
  }

  /** The used entry called `n`, or -1. */
  function Find(es: seq<Entry>, n: Name): (k: int)
    ensures -1 <= k < |es|
    ensures k >= 0 ==> Matches(es[k], n)
    ensures forall j | 0 <= j < (if k < 0 then |es| else k) :: !Matches(es[j], n)
  {
    FindFrom(es, 0, n)
  }

  function FindFrom(es: seq<Entry>, i: nat, n: Name): (k: int)
    requires i <= |es|
    ensures k == -1 || i <= k < |es|
    ensures k >= 0 ==> Matches(es[k], n)
    ensures forall j | i <= j < (if k < 0 then |es| else k) :: !Matches(es[j], n)
    decreases |es| - i
  {
    if i == |es| then -1 else if Matches(es[i], n) then i else FindFrom(es, i + 1, n)
  }

  /** The first empty entry, or -1. */
  function FirstFree(es: seq<Entry>): (k: int)
    ensures -1 <= k < |es|
    ensures k >= 0 ==> !es[k].Used()
    ensures forall j | 0 <= j < (if k < 0 then |es| else k) :: es[j].Used()
  {
    FreeFrom(es, 0)
  }

  function FreeFrom(es: seq<Entry>, i: nat): (k: int)
    requires i <= |es|
    ensures k == -1 || i <= k < |es|
    ensures k >= 0 ==> !es[k].Used()
    ensures forall j | i <= j < (if k < 0 then |es| else k) :: es[j].Used()
    decreases |es| - i
  {
    if i == |es| then -1 else if !es[i].Used() then i else FreeFrom(es, i + 1)
  }

  /** The lowest sector at or after `base` above all file data. */
  function NextFree(es: seq<Entry>, base: nat): nat {
    HighestEnd(es, |es|, base)
  }

  function HighestEnd(es: seq<Entry>, n: nat, base: nat): nat
    requires n <= |es|
  {
    if n == 0 then base else
    var lba := HighestEnd(es, n - 1, base);
    var e := es[n - 1];
    if e.Used() && e.End() > lba then e.End() else lba
  }

  lemma NextFreeBounds(es: seq<Entry>, base: nat)
    ensures base <= NextFree(es, base)
    ensures forall i | 0 <= i < |es| && es[i].Used() :: es[i].End() <= NextFree(es, base)
    ensures NextFree(es, base) == base
         || exists i | 0 <= i < |es| :: es[i].Used() && es[i].End() == NextFree(es, base)
  {
    HighestEndBounds(es, |es|, base);
  }

  lemma {:induction false} HighestEndBounds(es: seq<Entry>, n: nat, base: nat)
    requires n <= |es|
    ensures base <= HighestEnd(es, n, base)
    ensures forall i | 0 <= i < n && es[i].Used() :: es[i].End() <= HighestEnd(es, n, base)
    ensures HighestEnd(es, n, base) == base
         || exists i | 0 <= i < n :: es[i].Used() && es[i].End() == HighestEnd(es, n, base)
  {
    if n > 0 { HighestEndBounds(es, n - 1, base); }
  }

  ghost predicate EndsBy(es: seq<Entry>, limit: nat) {
    forall i | 0 <= i < |es| && es[i].Used() :: es[i].End() <= limit
  }

  lemma ValidEndsBy(es: seq<Entry>, r: Region)
    requires ValidDir(es, r)
    ensures EndsBy(es, r.limit)
  {
    assert forall i | 0 <= i < |es| && es[i].Used() :: EntryOk(es[i], r);
  }

  lemma NextFreeInside(es: seq<Entry>, r: Region)
    requires ValidDir(es, r) && r.dir + 1 <= r.limit
    ensures r.dir + 1 <= NextFree(es, r.dir + 1) <= r.limit
  {
    NextFreeBounds(es, r.dir + 1);
    ValidEndsBy(es, r);
  }

  ghost function EmptySlots(es: seq<Entry>): set<nat> {
    set i: nat | i < |es| && !es[i].Used()
  }

  lemma EmptySlotsStep(es: seq<Entry>, i: nat)
    requires i < |es|
    ensures |EmptySlots(es[..i + 1])| == |EmptySlots(es[..i])| + if es[i].Used() then 0 else 1
  {
    var before := EmptySlots(es[..i]);
    assert EmptySlots(es[..i + 1]) == if es[i].Used() then before else before + {i};
    assert i !in before;
  }

  lemma SomeEmptySlot(es: seq<Entry>)
    ensures EmptySlots(es) != {} <==> FirstFree(es) >= 0
  {
    if FirstFree(es) >= 0 { assert FirstFree(es) in EmptySlots(es); }
  }

  // ----- the abstract disk -----

  /** What the directory code can return for this disk when no transfer fails. */
  ghost function DirStatus(d: Disk): int {
    match Resolve(d)
    case Err(c) => c
    case Ok(r) =>
      RegionInside(d, r);
      if Le32(d[r.dir], 0) != FS_MAGIC then FS_ERR_NODIR
      else if ValidDir(Entries(d[r.dir]), r) then FS_OK else FS_ERR_IO
  }

  ghost predicate Formatted(d: Disk) {
    Resolve(d).Ok? && DirStatus(d) == FS_OK
  }

  ghost function RegionOf(d: Disk): (r: Region)
    requires Formatted(d)
    ensures 0 < r.dir && r.dir + 1 < r.limit <= |d|
  {
    RegionInside(d, Resolve(d).value);
    Resolve(d).value
  }

  ghost function Dir(d: Disk): (es: seq<Entry>)
    requires Formatted(d)
    ensures ValidDir(es, RegionOf(d))
  {
    Entries(d[RegionOf(d).dir])
  }

  /** The first `count` bytes stored from sector `start` on. */
  ghost function FileBytes(d: Disk, start: nat, count: nat): (b: seq<byte>)
    requires start + SectorsOf(count) <= |d|
    ensures |b| == count
  {
    seq(count, i requires 0 <= i < count => d[start + i / 512][i % 512])
  }

  lemma SectorsOfWhole(n: nat)
    requires n > 0
    ensures SectorsOf(512 * n) == n
  {
  }

  /** The bytes of `sectors` whole sectors. */
  ghost function SectorBytes(d: Disk, start: nat, sectors: nat): seq<byte>
    requires sectors > 0 && start + sectors <= |d|
  {
    SectorsOfWhole(sectors);
    FileBytes(d, start, 512 * sectors)
  }

  lemma FileBytesFrame(d: Disk, d': Disk, start: nat, count: nat)
    requires start + SectorsOf(count) <= |d| == |d'|
    requires forall i | start <= i < start + SectorsOf(count) :: d'[i] == d[i]
    ensures FileBytes(d', start, count) == FileBytes(d, start, count)
  {
  }

  ghost function NamesOf(es: seq<Entry>): set<Name> {
    set i | 0 <= i < |es| && es[i].Used() :: CStr(es[i].raw)
  }

  ghost function ContentIn(d: Disk, es: seq<Entry>, r: Region, n: Name): seq<byte>
    requires ValidDir(es, r) && r.limit <= |d| && n in NamesOf(es)
  {
    var e := es[Find(es, n)];
    assert EntryOk(e, r);
    FileBytes(d, e.start, e.count)
  }

  ghost function FilesIn(d: Disk, es: seq<Entry>, r: Region): map<Name, seq<byte>>
    requires ValidDir(es, r) && r.limit <= |d|
  {
    map n | n in NamesOf(es) :: ContentIn(d, es, r, n)
  }

  /** The abstract disk: every published name with its bytes. */
  ghost function Files(d: Disk): map<Name, seq<byte>>
    requires Formatted(d)
  {
    FilesIn(d, Dir(d), RegionOf(d))
  }

  // ----- writing -----

  datatype Plan = Plan(slot: nat, lba: nat, sectors: nat)

  function TargetSlot(es: seq<Entry>, n: Name): int {
    if Find(es, n) >= 0 then Find(es, n) else FirstFree(es)
  }

  /** Where a write of `len` bytes under `n` goes: in place when it fits, else past all data. */
  function PlanWrite(es: seq<Entry>, r: Region, n: Name, len: nat): Result<Plan> {
    var slot := TargetSlot(es, n);
    if slot < 0 then Err(FS_ERR_FULL) else
    var e := es[slot];
    if e.Used() && e.count > FS_MAX_LEN then Err(FS_ERR_BIG) else
    var lba := if e.Used() && SectorsOf(len) <= e.Sectors() then e.start else NextFree(es, r.dir + 1);
    if lba + SectorsOf(len) > r.limit then Err(FS_ERR_FULL)
    else Ok(Plan(slot, lba, SectorsOf(len)))
  }

  function Renamed(raw: seq<byte>, n: Name): (s: seq<byte>)
    requires |raw| == 24 && |n| <= FS_NAME_MAX
    ensures |s| == 24
  {
    seq(24, k requires 0 <= k < 24 => if k < |n| then n[k] else if k == |n| then 0 else raw[k])
  }

  lemma RenamedReads(raw: seq<byte>, n: Name)
    requires |raw| == 24 && |n| <= FS_NAME_MAX
    ensures CStr(Renamed(raw, n)) == n
    ensures Renamed(raw, n)[23] == if |n| == 23 then 0 else raw[23]
    ensures n != [] ==> Renamed(raw, n)[0] != 0
  {
    var s := Renamed(raw, n);
    assert s[..|n|] == n;
    CStrIs(s, |n|);
  }

  /** The directory after a successful write. */
  function DirAfterWrite(es: seq<Entry>, p: Plan, n: Name, len: u32): seq<Entry>
    requires p.slot < |es| && |es[p.slot].raw| == 24 && |n| <= FS_NAME_MAX && p.lba < 0x1_0000_0000
  {
    es[p.slot := Entry(Renamed(es[p.slot].raw, n), p.lba, len)]
  }

  function Chunk(data: seq<byte>, s: nat): Sector {
    seq(512, k requires 0 <= k < 512 => if 512 * s + k < |data| then data[512 * s + k] else 0)
  }

  function Chunks(data: seq<byte>): (c: seq<Sector>)
    ensures |c| == SectorsOf(|data|)
  {
    seq(SectorsOf(|data|), s requires 0 <= s < SectorsOf(|data|) => Chunk(data, s))
  }

  function Splice(d: Disk, at: nat, secs: seq<Sector>): (d': Disk)
    requires at + |secs| <= |d|
    ensures |d'| == |d|
  {
    seq(|d|, i requires 0 <= i < |d| => if at <= i < at + |secs| then secs[i - at] else d[i])
  }

  lemma ChunksReadBack(d: Disk, at: nat, data: seq<byte>)
    requires at + SectorsOf(|data|) <= |d|
    ensures FileBytes(Splice(d, at, Chunks(data)), at, |data|) == data
  {
    var d' := Splice(d, at, Chunks(data));
    forall i | 0 <= i < |data|
      ensures d'[at + i / 512][i % 512] == data[i]
    {
      assert d'[at + i / 512] == Chunks(data)[i / 512] == Chunk(data, i / 512);
    }
  }

  /** The whole disk after a successful write. */
  ghost function WrittenDisk(d: Disk, p: Plan, n: Name, data: seq<byte>): Disk
    requires Formatted(d) && |n| <= FS_NAME_MAX && |data| < 0x1_0000_0000
    requires PlanWrite(Dir(d), RegionOf(d), n, |data|) == Ok(p)
  {
    var r := RegionOf(d);
    var e := Entry(Renamed(Dir(d)[p.slot].raw, n), p.lba, |data|);
    Splice(d, p.lba, Chunks(data))[r.dir := PutEntry(d[r.dir], p.slot, e)]
  }

  /** A write needs no cleaning up: it replaces a file, or byte 23 of the slot's old name is or becomes NUL. */
  predicate LeavesNameTerminated(es: seq<Entry>, p: Plan, n: Name)
    requires p.slot < |es| && |es[p.slot].raw| == 24
  {
    es[p.slot].Used() || |n| == FS_NAME_MAX || es[p.slot].raw[23] == 0
  }
}
