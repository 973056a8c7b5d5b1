/** What the filesystem code answers and why, in bytes of the disk and plain numbers. */
module FsMeaning {
  import opened Bytes
  import opened DiskLayout
  import opened FsSpec
  import opened FsTheorems

  // ----- bytes -----

  /** The little-endian word at offset `at`. */
  function Word(s: seq<byte>, at: nat): int
    requires at + 4 <= |s|
  {
    s[at] as int + 0x100 * s[at + 1] as int + 0x1_0000 * s[at + 2] as int + 0x100_0000 * s[at + 3] as int
  }

  lemma WordIs(s: seq<byte>, at: nat)
    requires at + 4 <= |s|
    ensures Le32(s, at) == Word(s, at)
  {
    LeNatOf4(s[at..at + 4]);
  }

  // ----- the partition table -----

  /** A partition as sector 0 describes it. */
  predicate IsPart(p: Part, mbr: Sector, i: nat)
    requires i < 4
  {
    && p.status == mbr[446 + 16 * i] && p.ptype == mbr[450 + 16 * i]
    && p.start == Word(mbr, 454 + 16 * i) && p.sectors == Word(mbr, 458 + 16 * i)
  }

  lemma PartsAre(mbr: Sector, i: nat)
    requires i < 4
    ensures IsPart(PartTable(mbr)[i], mbr, i)
  {
    WordIs(mbr, 454 + 16 * i);
    WordIs(mbr, 458 + 16 * i);
  }

  /** Empty slots are all zero, used ones have a known status and lie on the disk. */
  predicate SlotSound(p: Part, total: nat) {
    if p.ptype == 0 then p.start == 0 && p.sectors == 0 && p.status == 0
    else (p.status == 0 || p.status == 128) && p.start >= 1 && p.sectors >= 1 && p.start + p.sectors <= total
  }

  predicate Covers(p: Part, s: nat) {
    p.ptype != 0 && p.start <= s < p.start + p.sectors
  }

  /** All slots are sound, no sector belongs to two, and at most one has type 0x99. */
  ghost predicate TableSound(parts: seq<Part>, total: nat) {
    && (forall i | 0 <= i < |parts| :: SlotSound(parts[i], total))
    && (forall i, j, s: nat | 0 <= j < i < |parts| :: !(Covers(parts[i], s) && Covers(parts[j], s)))
    && (forall i, j | 0 <= j < i < |parts| :: parts[i].ptype != 0x99 || parts[j].ptype != 0x99)
  }

  lemma TableIs(parts: seq<Part>, total: u32)
    ensures TableOk(parts, total) <==> TableSound(parts, total)
  {
    if TableSound(parts, total) {
      forall i, j | 0 <= j < i < |parts|
        ensures PartsDisjoint(parts[i], parts[j]) && !(Native(parts[i]) && Native(parts[j]))
      {
        var (p, q) := (parts[i], parts[j]);
        assert SlotSound(p, total) && SlotSound(q, total);
        var s := if p.start < q.start then q.start else p.start;
        assert !(Covers(p, s) && Covers(q, s));
      }
    }
    if TableOk(parts, total) {
      forall i, j, s: nat | 0 <= j < i < |parts|
        ensures !(Covers(parts[i], s) && Covers(parts[j], s))
      {
        assert PartsDisjoint(parts[i], parts[j]);
      }
      forall i, j | 0 <= j < i < |parts|
        ensures parts[i].ptype != 0x99 || parts[j].ptype != 0x99
      {
        assert !(Native(parts[i]) && Native(parts[j]));
      }
    }
  }

  // ----- where the files are -----

  /** A descriptor of version `version` for a partition at `start`, whose kernel takes `kernel` sectors and
      whose directory is `dir` sectors in. */
  ghost predicate IsDescriptor(s: Sector, version: nat, start: u32, sectors: u32, kernel: nat, dir: nat) {
    && Word(s, 0) == 0x314c4449 && Word(s, 4) == version
    && Word(s, 8) == start && Word(s, 12) == sectors
    && Word(s, 16) == kernel && Word(s, 20) == 8 && Word(s, 24) == dir
    && SumRight(s)
  }

  /** Each bit of the checksum is set if it is set in an odd number of the seven words before it and
      the seed. */
  ghost predicate SumRight(s: Sector) {
    forall k: nat | k < 32 :: Bit(Word(s, 28), k) == Odd(Summed(s), k)
  }

  function Summed(s: Sector): seq<nat> {
    [Word(s, 0), Word(s, 4), Word(s, 8), Word(s, 12), Word(s, 16), Word(s, 20), Word(s, 24), 0x9e3779b9]
  }

  predicate Odd(words: seq<nat>, k: nat) {
    words != [] && Bit(words[0], k) != Odd(words[1..], k)
  }

  lemma {:induction false} XorIsOdd(words: seq<u32>, k: nat)
    requires k < 32
    ensures Bit(XorAll(words), k) == Odd(words, k)
    ensures XorAll(words) < Pow2(32)
    decreases |words|
  {
    if words == [] {
      BitOfZero(k);
    } else {
      XorIsOdd(words[1..], k);
      BitOfXor(32, words[0], XorAll(words[1..]), k);
      XorBitsFit(32, words[0], XorAll(words[1..]));
    }
  }

  lemma WordsAre(s: Sector)
    ensures LayoutAt(s) == NativeLayout(Word(s, 0), Word(s, 4), Word(s, 8), Word(s, 12),
                                        Word(s, 16), Word(s, 20), Word(s, 24), Word(s, 28))
  {
    WordIs(s, 0); WordIs(s, 4); WordIs(s, 8); WordIs(s, 12);
    WordIs(s, 16); WordIs(s, 20); WordIs(s, 24); WordIs(s, 28);
  }

  lemma ChecksumIs(s: Sector, words: seq<u32>)
    requires words == Summed(s)
    ensures Word(s, 28) == XorAll(words) <==> SumRight(s)
  {
    Pow2Of32();
    XorIsOdd(words, 0);
    forall k: nat | k < 32
      ensures Bit(XorAll(words), k) == Odd(words, k)
    {
      XorIsOdd(words, k);
    }
    if SumRight(s) {
      forall k: nat | k < 32
        ensures Bit(Word(s, 28), k) == Bit(XorAll(words), k)
      {
      }
      SameBits(32, Word(s, 28), XorAll(words));
    }
  }

  lemma SumIs(s: Sector)
    ensures Le32(s, 28) == Checksum(LayoutAt(s)) <==> SumRight(s)
  {
    WordsAre(s);
    var l := LayoutAt(s);
    var w := [l.magic, l.version, l.partStart, l.partSectors,
              l.kernelSectors, l.configSectors, l.dirOffset, 0x9e3779b9];
    ChecksumIs(s, w);
  }

  lemma DescriptorIs(s: Sector, start: u32, sectors: u32)
    ensures LayoutValid(LayoutAt(s), start, sectors) <==>
      || (IsDescriptor(s, 1, start, sectors, 1024, 1033) && sectors > 1034)
      || (IsDescriptor(s, 2, start, sectors, 8192, 8201) && sectors > 8202)
  {
    WordsAre(s);
    SumIs(s);
  }

  /** What setup writes is a descriptor of version 2. */
  lemma SetupWritesDescriptor(s: Sector, start: u32, sectors: u32)
    requires LayoutAt(s) == InitLayout(start, sectors)
    ensures IsDescriptor(s, 2, start, sectors, 8192, 8201)
  {
    WordsAre(s);
    SumIs(s);
    assert Checksum(LayoutAt(s)) == Checksum(LayoutAt(s).(checksum := 0));
  }

  /** Where an installed partition keeps its files: the marker in its boot record says where the
      descriptor is, and no other place is looked at. */
  ghost function PartRegion(d: Disk, p: Part): Result<Region>
    requires 1 <= p.start && 1 <= p.sectors && p.start + p.sectors <= |d|
  {
    var (at, n) := (p.start, p.sectors);
    if Word(d[at], 0x25) == 0x324c4449 then
      if n > 8202 && IsDescriptor(d[at + 8193], 2, at, n, 8192, 8201) then Ok(Region(at + 8201, at + n)) else Err(-7)
    else
      if n > 1034 && IsDescriptor(d[at + 1025], 1, at, n, 1024, 1033) then Ok(Region(at + 1033, at + n)) else Err(-7)
  }

  lemma VersionTwo(s: Sector, p: Part)
    requires p.start + p.sectors < 0x1_0000_0000
    ensures NativeRegion(p, 8193, LayoutAt(s)) ==
      if IsDescriptor(s, 2, p.start, p.sectors, 8192, 8201) && p.sectors > 8202
      then Ok(Region(p.start + 8201, p.start + p.sectors)) else Err(-7)
  {
    DescriptorIs(s, p.start, p.sectors);
    WordsAre(s);
  }

  lemma VersionOne(s: Sector, p: Part)
    requires p.start + p.sectors < 0x1_0000_0000
    ensures NativeRegion(p, 1025, LayoutAt(s)) ==
      if IsDescriptor(s, 1, p.start, p.sectors, 1024, 1033) && p.sectors > 1034
      then Ok(Region(p.start + 1033, p.start + p.sectors)) else Err(-7)
  {
    DescriptorIs(s, p.start, p.sectors);
    WordsAre(s);
  }

  lemma Marked(d: Disk, p: Part, at: nat)
    requires p.ptype != 0 && SlotOk(p, |d|) && at == p.start + 8193 && Word(d[p.start], 0x25) == 0x324c4449
    ensures ResolveNative(d, p) == if p.sectors > 8202 then NativeRegion(p, 8193, LayoutAt(d[at])) else Err(-7)
  {
    WordIs(d[p.start], 0x25);
  }

  lemma Unmarked(d: Disk, p: Part, at: nat)
    requires p.ptype != 0 && SlotOk(p, |d|) && at == p.start + 1025 && Word(d[p.start], 0x25) != 0x324c4449
    ensures ResolveNative(d, p) == if p.sectors > 1034 then NativeRegion(p, 1025, LayoutAt(d[at])) else Err(-7)
  {
    WordIs(d[p.start], 0x25);
  }

  lemma PartResolves(d: Disk, p: Part)
    requires p.ptype != 0 && SlotOk(p, |d|)
    ensures ResolveNative(d, p) == PartRegion(d, p)
  {
    if Word(d[p.start], 0x25) == 0x324c4449 {
      Marked(d, p, p.start + 8193);
      if p.sectors > 8202 { VersionTwo(d[p.start + 8193], p); }
    } else {
      Unmarked(d, p, p.start + 1025);
      if p.sectors > 1034 { VersionOne(d[p.start + 1025], p); }
    }
  }

  /** An installed disk resolves to the region its partition gives, if sector 0 is signed. */
  lemma InstalledResolves(d: Disk, i: nat)
    requires d != [] && TableSound(PartTable(d[0]), |d|) && i < 4 && PartTable(d[0])[i].ptype == 0x99
    ensures var p := PartTable(d[0])[i];
      && 1 <= p.start && 1 <= p.sectors && p.start + p.sectors <= |d|
      && Resolve(d) == if d[0][510] == 0x55 && d[0][511] == 0xaa then PartRegion(d, p) else Err(-7)
  {
    var parts := PartTable(d[0]);
    assert SlotSound(parts[i], |d|);
    TableIs(parts, |d|);
    assert Native(parts[i]);
    FindNativeUnique(d[0], |d|, i);
    PartResolves(d, parts[i]);
  }

  /** Disks that are not installed: only one without any partition, with a signed or blank sector 0,
      is used, from sector 2048 on; a table with a mistake anywhere, or with partitions of other
      systems alone, is refused. */
  lemma OthersResolve(d: Disk)
    requires d != []
    ensures var (parts, signed) := (PartTable(d[0]), d[0][510] == 0x55 && d[0][511] == 0xaa);
      && (!TableSound(parts, |d|) ==> Resolve(d) == Err(-7))
      && (TableSound(parts, |d|) && (forall i | 0 <= i < 4 :: parts[i].ptype != 0x99) ==>
            Resolve(d) ==
              if (forall i | 0 <= i < 4 :: parts[i].ptype == 0)
                 && (signed || forall k | 0 <= k < 512 :: d[0][k] == 0) && |d| > 2049
              then Ok(Region(2048, |d|)) else Err(-7))
  {
    var parts := PartTable(d[0]);
    TableIs(parts, |d|);
    if TableOk(parts, |d|) && (forall i | 0 <= i < 4 :: parts[i].ptype != 0x99) {
      assert forall i | 0 <= i < 4 :: !Native(parts[i]);
    }
  }

  /** A freshly installed partition is accepted. */
  lemma InstalledIsAccepted(d: Disk, p: Part)
    requires 1 <= p.start && p.sectors > 8202 && p.start + p.sectors <= |d|
    requires Word(d[p.start], 0x25) == 0x324c4449 && LayoutAt(d[p.start + 8193]) == InitLayout(p.start, p.sectors)
    ensures PartRegion(d, p) == Ok(Region(p.start + 8201, p.start + p.sectors))
  {
    SetupWritesDescriptor(d[p.start + 8193], p.start, p.sectors);
  }

  // ----- the directory -----

  /** Sectors a file of `count` bytes takes: rounded up, and one even when it is empty. */
  function Need(count: nat): nat {
    if count == 0 then 1 else (count + 511) / 512
  }

  lemma NeedIs(count: nat)
    ensures SectorsOf(count) == Need(count)
  {
  }

  predicate IsUsed(e: Entry) { e.start != 0 }

  /** The name stored in a used entry is `n`: its bytes and then a terminator. */
  predicate Named(e: Entry, n: Name) {
    IsUsed(e) && |n| < |e.raw| && e.raw[|n|] == 0 && forall k | 0 <= k < |n| :: e.raw[k] == n[k]
  }

  ghost predicate Exists(es: seq<Entry>, n: Name) {
    exists i :: 0 <= i < |es| && Named(es[i], n)
  }

  /** Entry `i` as the directory sector holds it. */
  lemma EntriesAre(dir: Sector, i: nat)
    requires i < 15
    ensures |Entries(dir)| == 15
    ensures var e := Entries(dir)[i];
      && e.raw == dir[4 + 32 * i..28 + 32 * i] && e.start == Word(dir, 28 + 32 * i) && e.count == Word(dir, 32 + 32 * i)
  {
    WordIs(dir, 28 + 32 * i);
    WordIs(dir, 32 + 32 * i);
  }

  lemma {:induction false} CStrEnds(s: seq<byte>, k: nat)
    requires k < |s| && s[k] == 0
    ensures |CStr(s)| <= k && s[|CStr(s)|] == 0 && CStr(s) == s[..|CStr(s)|]
    decreases k
  {
    if s[0] != 0 {
      CStrEnds(s[1..], k - 1);
      var t := CStr(s[1..]);
      assert s[..|t| + 1] == [s[0]] + s[1..][..|t|];
    }
  }

  lemma NamedIs(e: Entry, n: Name)
    requires |e.raw| == 24 && e.raw[23] == 0
    ensures Matches(e, n) <==> Named(e, n)
  {
    CStrEnds(e.raw, 23);
    if Named(e, n) {
      assert e.raw[..|n|] == n;
      CStrIs(e.raw, |n|);
    }
  }

  /** A directory the code accepts, in bytes: used entries lie between the directory sector and the
      limit and have a terminated, non-empty name; empty ones have no length; no name is there
      twice and no sector belongs to two. */
  ghost predicate DirSound(es: seq<Entry>, r: Region) {
    && (forall i | 0 <= i < |es| :: EntrySound(es[i], r))
    && (forall i, j, n | 0 <= j < i < |es| :: !(Named(es[i], n) && Named(es[j], n)))
    && (forall i, j, s: nat | 0 <= j < i < |es| :: !(Owns(es[i], s) && Owns(es[j], s)))
  }

  predicate EntrySound(e: Entry, r: Region) {
    if !IsUsed(e) then e.count == 0
    else r.dir < e.start && e.start + Need(e.count) <= r.limit && |e.raw| == 24 && e.raw[23] == 0 && e.raw[0] != 0
  }

  predicate Owns(e: Entry, s: nat) {
    IsUsed(e) && e.start <= s < e.start + Need(e.count)
  }

  lemma EntrySoundIs(e: Entry, r: Region)
    requires |e.raw| == 24
    ensures EntryOk(e, r) <==> EntrySound(e, r)
  {
    NeedIs(e.count);
  }

  lemma CompatibleIs(e: Entry, f: Entry)
    requires |e.raw| == 24 == |f.raw| && (IsUsed(e) ==> e.raw[23] == 0) && (IsUsed(f) ==> f.raw[23] == 0)
    ensures Compatible(e, f) <==>
      (forall n :: !(Named(e, n) && Named(f, n))) && (forall s: nat :: !(Owns(e, s) && Owns(f, s)))
  {
    NeedIs(e.count);
    NeedIs(f.count);
    if IsUsed(e) && IsUsed(f) {
      NamedIs(e, CStr(e.raw));
      NamedIs(f, CStr(e.raw));
      var s := if e.start < f.start then f.start else e.start;
      assert Owns(e, s) && Owns(f, s) <==> !Disjoint(e.start, e.Sectors(), f.start, f.Sectors());
      forall n | Named(e, n) && Named(f, n)
        ensures CStr(e.raw) == CStr(f.raw)
      {
        NamedIs(e, n);
        NamedIs(f, n);
      }
    }
  }

  lemma DirIs(es: seq<Entry>, r: Region)
    requires WellSized(es)
    ensures ValidDir(es, r) <==> DirSound(es, r)
  {
    forall i | 0 <= i < |es|
      ensures EntryOk(es[i], r) <==> EntrySound(es[i], r)
    {
      EntrySoundIs(es[i], r);
    }
    if forall i | 0 <= i < |es| :: EntrySound(es[i], r) {
      forall i, j | 0 <= j < i < |es|
        ensures Compatible(es[i], es[j]) <==>
          (forall n :: !(Named(es[i], n) && Named(es[j], n))) && (forall s: nat :: !(Owns(es[i], s) && Owns(es[j], s)))
      {
        assert EntrySound(es[i], r) && EntrySound(es[j], r);
        CompatibleIs(es[i], es[j]);
      }
    }
  }

  /** What reading the directory answers: not there, damaged, or fine. */
  lemma DirVerdict(d: Disk, r: Region)
    requires Resolve(d) == Ok(r)
    ensures r.dir < |d| && DirStatus(d) ==
      if Word(d[r.dir], 0) != 0x46530001 then -6 else if DirSound(Entries(d[r.dir]), r) then 0 else -3
  {
    RegionInside(d, r);
    WordIs(d[r.dir], 0);
    DirIs(Entries(d[r.dir]), r);
  }

  // ----- files -----

  /** In a directory the code accepts, at most one entry has a name. */
  lemma OneNamed(es: seq<Entry>, r: Region, n: Name, i: nat)
    requires ValidDir(es, r) && i < |es|
    ensures Named(es[i], n) <==> Matches(es[i], n)
    ensures Named(es[i], n) ==> Find(es, n) == i
  {
    if IsUsed(es[i]) {
      assert EntryOk(es[i], r);
      NamedIs(es[i], n);
      if Named(es[i], n) { FindIs(es, r, i, n); }
    }
  }

  lemma FindMeans(es: seq<Entry>, r: Region, n: Name)
    requires ValidDir(es, r)
    ensures Find(es, n) >= 0 <==> Exists(es, n)
    ensures Find(es, n) >= 0 ==> Named(es[Find(es, n)], n)
  {
    if Find(es, n) >= 0 { OneNamed(es, r, n, Find(es, n)); }
    if Exists(es, n) {
      var i :| 0 <= i < |es| && Named(es[i], n);
      OneNamed(es, r, n, i);
    }
  }

  /** Entry `e` holds `bytes`: those stored from its first sector on. */
  ghost predicate Stores(d: Disk, e: Entry, bytes: seq<byte>) {
    && |bytes| == e.count && e.start + Need(e.count) <= |d|
    && forall k | 0 <= k < e.count :: bytes[k] == d[e.start + k / 512][k % 512]
  }

  /** The files are the used entries with their bytes. */
  lemma FilesAre(d: Disk, n: Name)
    requires Formatted(d)
    ensures n in Files(d) <==> Exists(Dir(d), n)
    ensures forall i | 0 <= i < |Dir(d)| && Named(Dir(d)[i], n) :: n in Files(d) && Stores(d, Dir(d)[i], Files(d)[n])
  {
    var es, r := Dir(d), RegionOf(d);
    if n in NamesOf(es) {
      var i := IndexOf(es, n);
      OneNamed(es, r, n, i);
    }
    forall i | 0 <= i < |es| && Named(es[i], n)
      ensures n in Files(d) && Stores(d, es[i], Files(d)[n])
    {
      FileIs(d, es, r, n, i);
    }
  }

  lemma FileIs(d: Disk, es: seq<Entry>, r: Region, n: Name, i: nat)
    requires ValidDir(es, r) && r.limit <= |d| && i < |es| && Named(es[i], n)
    ensures n in NamesOf(es) && Stores(d, es[i], ContentIn(d, es, r, n))
  {
    OneNamed(es, r, n, i);
    assert EntryOk(es[i], r);
    NeedIs(es[i].count);
  }

  /** There is room for `need` sectors between all that is used and the limit. */
  ghost predicate RoomBehind(es: seq<Entry>, r: Region, need: nat) {
    r.dir + 1 + need <= r.limit && forall i | 0 <= i < |es| :: EndsBefore(es[i], r.limit - need)
  }

  predicate EndsBefore(e: Entry, s: int) {
    IsUsed(e) ==> e.start + Need(e.count) <= s
  }

  /** The first sector behind all that is used. */
  ghost predicate IsFirstBehind(es: seq<Entry>, r: Region, s: nat) {
    && r.dir + 1 <= s && (forall i | 0 <= i < |es| :: EndsBefore(es[i], s))
    && (s == r.dir + 1 || exists i :: 0 <= i < |es| && IsUsed(es[i]) && s == es[i].start + Need(es[i].count))
  }

  lemma FirstBehindIs(es: seq<Entry>, r: Region, s: nat)
    ensures IsFirstBehind(es, r, NextFree(es, r.dir + 1))
    ensures IsFirstBehind(es, r, s) ==> s == NextFree(es, r.dir + 1)
    ensures forall need: nat :: RoomBehind(es, r, need) <==> NextFree(es, r.dir + 1) + need <= r.limit
  {
    var top := NextFree(es, r.dir + 1);
    NextFreeBounds(es, r.dir + 1);
    forall i | 0 <= i < |es|
      ensures es[i].Used() ==> es[i].End() == es[i].start + Need(es[i].count)
    {
      NeedIs(es[i].count);
    }
    forall i | 0 <= i < |es|
      ensures EndsBefore(es[i], top)
    {
    }
    assert top == r.dir + 1 || exists i :: 0 <= i < |es| && IsUsed(es[i]) && top == es[i].start + Need(es[i].count);
  }

  ghost predicate AllUsed(es: seq<Entry>) {
    forall i | 0 <= i < |es| :: IsUsed(es[i])
  }

  lemma SlotsMean(es: seq<Entry>)
    ensures FirstFree(es) < 0 <==> AllUsed(es)
  {
    if FirstFree(es) >= 0 { assert !IsUsed(es[FirstFree(es)]); }
  }

  // ----- saving -----

  /** There is a file called `n` of more than 524288 bytes. */
  ghost predicate IsLarge(es: seq<Entry>, n: Name) {
    exists i :: 0 <= i < |es| && Named(es[i], n) && es[i].count > 524288
  }

  /** There is a file called `n` that has `need` sectors. */
  ghost predicate HasSectors(es: seq<Entry>, n: Name, need: nat) {
    exists i :: 0 <= i < |es| && Named(es[i], n) && need <= Need(es[i].count)
  }

  lemma NamedOnce(es: seq<Entry>, r: Region, n: Name, need: nat)
    requires ValidDir(es, r)
    ensures var k := Find(es, n);
      if k < 0 then !Exists(es, n) && !IsLarge(es, n) && !HasSectors(es, n, need)
      else Exists(es, n) && (IsLarge(es, n) <==> es[k].count > 524288)
           && (HasSectors(es, n, need) <==> need <= Need(es[k].count))
  {
    FindMeans(es, r, n);
    forall i | 0 <= i < |es|
      ensures Named(es[i], n) ==> Find(es, n) == i
    {
      OneNamed(es, r, n, i);
    }
  }

  /** What saving answers on a disk that can be used, and which condition it fails: nowhere to put the
      name, an old file too large to be replaced, or no room either where the old file is or behind
      all files. */
  ghost function SaveAnswer(es: seq<Entry>, r: Region, n: Name, len: nat): int {
    if !Exists(es, n) && AllUsed(es) then -2
    else if IsLarge(es, n) then -4
    else if HasSectors(es, n, Need(len)) || RoomBehind(es, r, Need(len)) then 0
    else -2
  }

  /** The whole answer: names of 1 to 23 bytes and at most 524288 bytes of data, on a disk that can be
      used, are saved exactly when there is a slot and room. */
  lemma SaveVerdict(d: Disk, n: Name, data: seq<byte>)
    ensures WriteVerdict(d, n, data) ==
      if n == [] || |n| > 23 then -3
      else if |data| > 524288 then -4
      else if !Formatted(d) then DirStatus(d)
      else SaveAnswer(Dir(d), RegionOf(d), n, |data|)
  {
    if GoodName(n) && |data| <= FS_MAX_LEN && Formatted(d) {
      PlanAnswers(Dir(d), RegionOf(d), n, |data|);
    }
  }

  lemma PlanAnswers(es: seq<Entry>, r: Region, n: Name, len: nat)
    requires ValidDir(es, r)
    ensures Status(PlanWrite(es, r, n, len)) == SaveAnswer(es, r, n, len)
  {
    NamedOnce(es, r, n, Need(len));
    SlotsMean(es);
    RoomIs(es, r, Need(len));
    NeedIs(len);
    if Find(es, n) >= 0 { InPlace(es, r, Find(es, n)); }
  }

  lemma RoomIs(es: seq<Entry>, r: Region, need: nat)
    ensures RoomBehind(es, r, need) <==> NextFree(es, r.dir + 1) + need <= r.limit
  {
    FirstBehindIs(es, r, 0);
  }

  lemma InPlace(es: seq<Entry>, r: Region, k: nat)
    requires ValidDir(es, r) && k < |es| && IsUsed(es[k])
    ensures es[k].Sectors() == Need(es[k].count) && es[k].start + Need(es[k].count) <= r.limit
  {
    assert EntryOk(es[k], r);
    NeedIs(es[k].count);
  }

  /** When it is saved: everything that is asked, at once. */
  lemma SavedIff(d: Disk, n: Name, data: seq<byte>)
    ensures WriteVerdict(d, n, data) == 0 <==>
      && 1 <= |n| <= 23 && |data| <= 524288 && Formatted(d)
      && (Exists(Dir(d), n) || !AllUsed(Dir(d))) && !IsLarge(Dir(d), n)
      && (HasSectors(Dir(d), n, Need(|data|)) || RoomBehind(Dir(d), RegionOf(d), Need(|data|)))
  {
    SaveVerdict(d, n, data);
    if !Formatted(d) && Resolve(d).Ok? { DirVerdict(d, Resolve(d).value); }
  }

  /** Where it goes: over the old file if that has sectors enough, else behind all files; under the old
      entry, or the first empty one. */
  lemma SavedWhere(d: Disk, n: Name, data: seq<byte>, p: Plan)
    requires WriteAccepted(d, n, data, p)
    ensures var (es, r) := (Dir(d), RegionOf(d));
      && p.slot < |es| && p.sectors == Need(|data|)
      && (if Exists(es, n) then Named(es[p.slot], n)
          else !IsUsed(es[p.slot]) && forall i | 0 <= i < p.slot :: IsUsed(es[i]))
      && (if Exists(es, n) && Need(|data|) <= Need(es[p.slot].count) then p.lba == es[p.slot].start
          else IsFirstBehind(es, r, p.lba))
  {
    var es, r := Dir(d), RegionOf(d);
    FindMeans(es, r, n);
    FirstBehindIs(es, r, 0);
    NeedIs(|data|);
    NeedIs(es[p.slot].count);
  }

  // ----- loading -----

  /** What loading into a buffer of `size` bytes answers: files are found by name, and a disk without
      a directory has none. */
  lemma LoadVerdict(d: Disk, n: Name, size: nat)
    ensures ReadVerdict(d, n, size) ==
      if n == [] || size == 0 then -3
      else if !Formatted(d) then (if DirStatus(d) == -6 then -5 else DirStatus(d))
      else if Exists(Dir(d), n) then 0 else -5
  {
    if Formatted(d) { FilesAre(d, n); }
  }

  /** What a successful load delivers: the first bytes of the file, as many as fit. */
  lemma Loaded(d: Disk, n: Name, buf: seq<byte>, buf': seq<byte>, len: nat, i: nat)
    requires ReadOutcome(d, n, buf, buf', FS_OK, len) && Formatted(d) && i < |Dir(d)| && Named(Dir(d)[i], n)
    ensures var e := Dir(d)[i];
      && len == (if e.count <= |buf| then e.count else |buf|) && |buf'| == |buf| && e.start + Need(e.count) <= |d|
      && (forall k | 0 <= k < len :: buf'[k] == d[e.start + k / 512][k % 512])
      && forall k | len <= k < |buf| :: buf'[k] == buf[k]
  {
    ReadIsStored(d, n, buf, buf', len);
    FileIs(d, Dir(d), RegionOf(d), n, i);
  }

  // ----- images -----

  /** What opening an image answers: the file must be there and be whole sectors, one at least. */
  lemma OpenAnswer(d: Disk, n: Name)
    requires Formatted(d)
    ensures OpenVerdict(d, n) ==
      if !Exists(Dir(d), n) then -5
      else if exists i :: 0 <= i < |Dir(d)| && Named(Dir(d)[i], n) && Dir(d)[i].count > 0 && Dir(d)[i].count % 512 == 0
      then 0 else -3
  {
    var es, r := Dir(d), RegionOf(d);
    FindMeans(es, r, n);
    forall i | 0 <= i < |es|
      ensures Named(es[i], n) ==> Find(es, n) == i
    {
      OneNamed(es, r, n, i);
    }
  }

  lemma OpenedIs(d: Disk, n: Name, image: Image)
    requires Formatted(d)
    ensures IsImage(d, n, image) <==>
      exists i :: 0 <= i < |Dir(d)| && Named(Dir(d)[i], n) && image.start == Dir(d)[i].start
                  && Dir(d)[i].count == 512 * image.sectors && image.sectors > 0
  {
    var es, r := Dir(d), RegionOf(d);
    FindMeans(es, r, n);
    forall i | 0 <= i < |es|
      ensures Named(es[i], n) ==> Find(es, n) == i
    {
      OneNamed(es, r, n, i);
    }
  }

  /** The space reported is the most that there is room for. */
  lemma SpaceIs(d: Disk, k: nat)
    requires Formatted(d)
    ensures RoomBehind(Dir(d), RegionOf(d), k) <==> k <= Available(d)
  {
    FirstBehindIs(Dir(d), RegionOf(d), 0);
    NextFreeInside(Dir(d), RegionOf(d));
  }

  /** What reserving answers: 1 to 0x7fffff sectors, a slot, and room behind all files. */
  lemma ReserveAnswer(d: Disk, sectors: nat)
    ensures ReserveVerdict(d, sectors) ==
      if sectors == 0 || sectors > 0x7fffff then -4
      else if !Formatted(d) then DirStatus(d)
      else if AllUsed(Dir(d)) then -2
      else if RoomBehind(Dir(d), RegionOf(d), sectors) then 0 else -8
  {
    if Formatted(d) {
      SlotsMean(Dir(d));
      SpaceIs(d, sectors);
    }
  }

  lemma ReservedIs(d: Disk, drive: byte, sectors: u32)
    requires Formatted(d)
    ensures var image := Reservation(d, drive, sectors);
      image.drive == drive && image.sectors == sectors && IsFirstBehind(Dir(d), RegionOf(d), image.start)
  {
    FirstBehindIs(Dir(d), RegionOf(d), 0);
  }

  predicate HoldsData(r: Region, s: nat) {
    r.dir < s < r.limit
  }

  /** What a transfer through a handle answers: the request lies in the image, and the image among the
      sectors for files. */
  lemma TransferAnswer(d: Disk, image: Image, sector: u32, count: u32, r: Region)
    requires Resolve(d) == Ok(r)
    ensures BoundsVerdict(d, image, sector, count) ==
      if count > 0 && sector + count <= image.sectors
         && forall s: nat | image.start <= s < image.start + image.sectors :: HoldsData(r, s)
      then 0 else -3
  {
    RegionInside(d, r);
    if count > 0 && sector + count <= image.sectors
       && forall s: nat | image.start <= s < image.start + image.sectors :: HoldsData(r, s) {
      assert HoldsData(r, image.start) && HoldsData(r, image.start + image.sectors - 1);
    }
  }

  /** What publishing answers: a good new name, and an image of allowed size right behind all files and
      within the limit; then it is a matter of slots. */
  lemma PublishAnswer(d: Disk, n: Name, image: Image)
    ensures PublishVerdict(d, n, image) ==
      if n == [] || |n| > 23 then -3
      else if !Formatted(d) then DirStatus(d)
      else
        var (es, r) := (Dir(d), RegionOf(d));
        if Exists(es, n) || !IsFirstBehind(es, r, image.start) || image.sectors == 0 || image.sectors > 0x7fffff
           || image.start + image.sectors > r.limit then -3
        else if AllUsed(es) then -2 else 0
  {
    if Formatted(d) { PublishCode(Dir(d), RegionOf(d), n, image); }
  }

  lemma PublishCode(es: seq<Entry>, r: Region, n: Name, image: Image)
    requires ValidDir(es, r)
    ensures Find(es, n) >= 0 <==> Exists(es, n)
    ensures FirstFree(es) < 0 <==> AllUsed(es)
    ensures image.start == NextFree(es, r.dir + 1) <==> IsFirstBehind(es, r, image.start)
  {
    FindMeans(es, r, n);
    SlotsMean(es);
    FirstBehindIs(es, r, image.start);
  }

  /** What is published: the image's first sector, its size in bytes, and the name in a cleared field. */
  lemma PublishedIs(n: Name, image: Image)
    requires GoodName(n) && image.sectors <= 0x7fffff
    ensures var e := PublishedEntry(n, image);
      && e.start == image.start && e.count == 512 * image.sectors && |e.raw| == 24
      && forall k | 0 <= k < 24 :: e.raw[k] == if k < |n| then n[k] else 0
  {
  }
}
