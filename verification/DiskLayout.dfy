/** MBR partitions and the installed-volume descriptor (kernel/disk_layout.h). */
module DiskLayout {
  import opened Bytes

  type Sector = s: seq<byte> | |s| == 512 witness seq(512, _ => 0)

  const NATIVE_PART_TYPE: byte := 0x99
  const LEGACY_KERNEL_SECTORS: u32 := 1024
  const KERNEL_SECTORS: u32 := 8192
  const CONFIG_SECTORS: u32 := 8
  const CONFIG_OFFSET: u32 := 1 + KERNEL_SECTORS
  const DIR_OFFSET: u32 := CONFIG_OFFSET + CONFIG_SECTORS
  const LAYOUT_MAGIC: u32 := 0x314c4449
  const VBR_V2_MAGIC: u32 := 0x324c4449
  const CHECKSUM_SEED: u32 := 0x9e3779b9

  datatype Part = Part(status: byte, ptype: byte, start: u32, sectors: u32)

  datatype NativeLayout = NativeLayout(magic: u32, version: u32, partStart: u32, partSectors: u32,
                                       kernelSectors: u32, configSectors: u32, dirOffset: u32, checksum: u32)

  /** Slot `i` of the partition table at byte 446. */
  function PartAt(mbr: Sector, i: nat): Part
    requires i < 4
  {
    var o := 446 + 16 * i;
    Part(mbr[o], mbr[o + 4], Le32(mbr, o + 8), Le32(mbr, o + 12))
  }

  function LayoutAt(s: Sector): NativeLayout {
    NativeLayout(Le32(s, 0), Le32(s, 4), Le32(s, 8), Le32(s, 12),
                 Le32(s, 16), Le32(s, 20), Le32(s, 24), Le32(s, 28))
  }

  /** Exclusive or of 32-bit words. */
  function XorAll(words: seq<u32>): nat {
    if words == [] then 0 else XorBits(32, words[0], XorAll(words[1..]))
  }

  function Checksum(l: NativeLayout): nat {
    XorAll([l.magic, l.version, l.partStart, l.partSectors,
            l.kernelSectors, l.configSectors, l.dirOffset, CHECKSUM_SEED])
  }

  lemma ChecksumFits(l: NativeLayout)
    ensures Checksum(l) < 0x1_0000_0000
  {
    var words := [l.magic, l.version, l.partStart, l.partSectors,
                  l.kernelSectors, l.configSectors, l.dirOffset, CHECKSUM_SEED];
    XorBitsFit(32, words[0], XorAll(words[1..]));
    Pow2Of32();
  }

  function InitLayout(start: u32, sectors: u32): NativeLayout {
    var l := NativeLayout(LAYOUT_MAGIC, 2, start, sectors, KERNEL_SECTORS, CONFIG_SECTORS, DIR_OFFSET, 0);
    ChecksumFits(l);
    l.(checksum := Checksum(l))
  }

  /** The pinned sector counts are small, so none of these sums can wrap. */
  predicate LayoutValid(l: NativeLayout, start: u32, sectors: u32) {
    && l.magic == LAYOUT_MAGIC
    && (  (l.version == 1 && l.kernelSectors == LEGACY_KERNEL_SECTORS)
       || (l.version == 2 && l.kernelSectors == KERNEL_SECTORS))
    && l.partStart == start
    && l.partSectors == sectors
    && l.configSectors == CONFIG_SECTORS
    && l.dirOffset == 1 + l.kernelSectors + l.configSectors
    && l.checksum == Checksum(l)
    && sectors > l.dirOffset + 1
  }

  /** Sector offset of the descriptor, chosen by the marker in the volume boot record. */
  function ConfigOffset(vbr: Sector): u32 {
    1 + if Le32(vbr, 0x25) == VBR_V2_MAGIC then KERNEL_SECTORS else LEGACY_KERNEL_SECTORS
  }

  /** What setup writes is accepted for its own partition and for no other, given room for one data sector. */
  lemma InitLayoutAccepted(start: u32, sectors: u32, start': u32, sectors': u32)
    ensures LayoutValid(InitLayout(start, sectors), start', sectors')
       <==> start == start' && sectors == sectors' && sectors > DIR_OFFSET + 1
  {
    var l := InitLayout(start, sectors);
    assert Checksum(l) == Checksum(l.(checksum := 0));
  }

  // ----- partition discovery -----

  /** An empty slot is all zero; a used one is in range (stated without wrap-around). */
  predicate SlotOk(p: Part, total: u32) {
    if p.ptype == 0 then p.start == 0 && p.sectors == 0 && p.status == 0
    else p.status in {0, 0x80} && 0 < p.start && 0 < p.sectors && p.start + p.sectors <= total
  }

  predicate Disjoint(start: nat, n: nat, start': nat, n': nat) {
    start + n <= start' || start' + n' <= start
  }

  predicate PartsDisjoint(p: Part, q: Part) {
    p.ptype != 0 && q.ptype != 0 ==> Disjoint(p.start, p.sectors, q.start, q.sectors)
  }

  predicate Native(p: Part) {
    p.ptype == NATIVE_PART_TYPE
  }

  /** The four slots of the partition table at byte 446. */
  function PartTable(mbr: Sector): (parts: seq<Part>)
    ensures |parts| == 4
  {
    [PartAt(mbr, 0), PartAt(mbr, 1), PartAt(mbr, 2), PartAt(mbr, 3)]
  }

  /** Every slot is in range, they are pairwise disjoint and at most one is native. */
  ghost predicate TableOk(parts: seq<Part>, total: u32) {
    && (forall i | 0 <= i < |parts| :: SlotOk(parts[i], total))
    && (forall i, j | 0 <= j < i < |parts| :: PartsDisjoint(parts[i], parts[j]))
    && (forall i, j | 0 <= j < i < |parts| :: !(Native(parts[i]) && Native(parts[j])))
  }

  /** The answer a table gives: -2 malformed, -1 no native partition, else its slot. */
  ghost predicate IsFindResult(parts: seq<Part>, total: u32, r: int) {
    if !TableOk(parts, total) then r == -2
    else if r == -1 then forall i | 0 <= i < |parts| :: !Native(parts[i])
    else 0 <= r < |parts| && Native(parts[r])
  }

  method PartitionFind(parts: seq<Part>, total: u32) returns (found: int)
    requires |parts| == 4
    ensures IsFindResult(parts, total, found)
  {
    found := -1;
    for i := 0 to 4
      invariant IsFindResult(parts[..i], total, found) && found != -2
    {
      var p := parts[i];
      assert parts[..i + 1] == parts[..i] + [p];
      if p.ptype == 0 {
        if p.start != 0 || p.sectors != 0 || p.status != 0 {
          assert !SlotOk(p, total);
          return -2;
        }
        continue;
      }
      if (p.status != 0 && p.status != 0x80) || p.start == 0 || p.sectors == 0
         || p.start >= total || p.sectors > total - p.start {
        assert !SlotOk(p, total);
        return -2;
      }
      for j := 0 to i
        invariant forall k | 0 <= k < j :: PartsDisjoint(p, parts[k])
      {
        var q := parts[j];
        assert q == parts[..i][j];
        if q.ptype != 0 && p.start < Add32(q.start, q.sectors) && q.start < Add32(p.start, p.sectors) {
          assert !PartsDisjoint(p, q);
          return -2;
        }
      }
      if Native(p) {
        if found >= 0 {
          assert parts[..i][found] == parts[found];
          return -2;
        }
        found := i;
      }
    }
    assert parts[..4] == parts;
  }

  ghost function FindNative(mbr: Sector, total: u32): (r: int)
    ensures IsFindResult(PartTable(mbr), total, r)
  {
    var parts := PartTable(mbr);
    if !TableOk(parts, total) then -2
    else if i :| 0 <= i < |parts| && Native(parts[i]) then i
    else -1
  }

  /** The answer is determined by the table, so `FindNative` is what the search returns. */
  lemma FindNativeUnique(mbr: Sector, total: u32, r: int)
    requires IsFindResult(PartTable(mbr), total, r)
    ensures r == FindNative(mbr, total)
  {
    var parts, r' := PartTable(mbr), FindNative(mbr, total);
    if TableOk(parts, total) && r >= 0 && r' >= 0 {
      assert Native(parts[r]) && Native(parts[r']);
    }
  }
}
