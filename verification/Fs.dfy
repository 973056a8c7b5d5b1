/** The native filesystem as it runs: shared sector buffers over drives whose transfers may
    fail (kernel/fs.c). Each call is tied to the abstract disk of `FsSpec`. */
module Fs {
  import opened Bytes
  import opened DiskLayout
  import opened FsSpec
  import opened FsTheorems

  const ATA_MAX_DRIVES: nat := 8

  /** A detected drive; `disk` has `total_sectors` sectors. */
  datatype Drive = Drive(present: bool, disk: Disk)

  class FileSystem {
    var drives: seq<Drive>
    const dirBuf: array<byte>
    const dataBuf: array<byte>
    const layoutBuf: array<byte>
    var dirLba: u32
    var dataStart: u32
    var limit: u32
    /** How many transfers have failed. */
    ghost var faults: nat

    ghost predicate Valid()
      reads this
    {
      && |drives| == ATA_MAX_DRIVES
      && dirBuf.Length == dataBuf.Length == layoutBuf.Length == 512
      && dirBuf != dataBuf && dataBuf != layoutBuf && layoutBuf != dirBuf
    }

    ghost function DiskOf(drv: nat): Disk
      requires Valid() && drv < ATA_MAX_DRIVES
      reads this
    {
      drives[drv].disk
    }

    constructor (drives: seq<Drive>)
      requires |drives| == ATA_MAX_DRIVES
      ensures Valid() && this.drives == drives
      ensures fresh(dirBuf) && fresh(dataBuf) && fresh(layoutBuf)
    {
      this.drives := drives;
      dirBuf := new byte[512];
      dataBuf := new byte[512];
      layoutBuf := new byte[512];
      faults := 0;
    }

    /** Nothing about the drives has changed but the contents of `drv`. */
    twostate predicate OnlyDiskChanged(drv: nat)
      requires drv < |old(drives)| == |drives|
      reads this
    {
      drives == old(drives)[drv := Drive(old(drives[drv].present), drives[drv].disk)]
    }

    /** The answer is `verdict` if no transfer has failed since, and an I/O error otherwise. */
    twostate predicate Answers(rc: int, verdict: int)
      reads this`faults
    {
      old(faults) <= faults && rc == if faults == old(faults) then verdict else FS_ERR_IO
    }

    // ----- the block driver -----

    predicate InReach(drv: nat, lba: nat)
      requires |drives| == ATA_MAX_DRIVES
      reads this`drives
    {
      drv < ATA_MAX_DRIVES && drives[drv].present && lba < |drives[drv].disk|
    }

    /** Any transfer may fail; a read that succeeds delivers the sector. */
    method ReadSector(drv: nat, lba: u32, buf: array<byte>) returns (failed: bool)
      requires Valid() && buf.Length == 512
      modifies this`faults, buf
      ensures old(faults) <= faults && (failed <==> !InReach(drv, lba) || faults > old(faults))
      ensures !failed ==> buf[..] == DiskOf(drv)[lba]
    {
      if !InReach(drv, lba) { return true; }
      if * {
        faults := faults + 1;
        return true;
      }
      Kmemcpy(buf, 0, drives[drv].disk[lba]);
      assert buf[..] == drives[drv].disk[lba];
      return false;
    }

    /** A write that fails may leave anything in the sector it was writing. */
    method WriteSector(drv: nat, lba: u32, data: Sector) returns (failed: bool)
      requires Valid()
      modifies this`drives, this`faults
      ensures Valid()
      ensures old(faults) <= faults && (failed <==> !old(InReach(drv, lba)) || faults > old(faults))
      ensures drv < ATA_MAX_DRIVES ==> OnlyDiskChanged(drv)
      ensures drv < ATA_MAX_DRIVES ==> SameOutside(old(DiskOf(drv)), DiskOf(drv), lba, lba + 1)
      ensures drv >= ATA_MAX_DRIVES ==> drives == old(drives)
      ensures !failed ==> DiskOf(drv)[lba] == data
    {
      if !InReach(drv, lba) { return true; }
      var stored: Sector := data;
      if * {
        stored :| |stored| == 512;
        faults := faults + 1;
        failed := true;
      } else {
        failed := false;
      }
      var d: Disk := drives[drv].disk[lba := stored];
      drives := drives[drv := Drive(drives[drv].present, d)];
    }

    // ----- layout and directory -----

    /** Finds the region the volume's files may use. Reads only. */
    method ResolveLayout(drv: nat) returns (rc: int)
      requires Valid() && drv < ATA_MAX_DRIVES && drives[drv].present
      modifies this`faults, this`dirLba, this`dataStart, this`limit, layoutBuf
      ensures Answers(rc, Status(Resolve(DiskOf(drv))))
      ensures rc == FS_OK ==> Resolve(DiskOf(drv)) == Ok(Region(dirLba, limit)) && dataStart == dirLba + 1
    {
      ghost var d := DiskOf(drv);
      var total := |drives[drv].disk|;
      var failed := ReadSector(drv, 0, layoutBuf);
      if failed { return FS_ERR_IO; }
      var mbr: Sector := layoutBuf[..];
      var signed := layoutBuf[510] == 0x55 && layoutBuf[511] == 0xaa;
      var parts := PartTable(mbr);
      var slot := PartitionFind(parts, total);
      FindNativeUnique(mbr, total, slot);
      if slot == -2 { return FS_ERR_LAYOUT; }
      if slot >= 0 {
        if !signed { return FS_ERR_LAYOUT; }
        var p := parts[slot];
        assert SlotOk(p, total);
        rc := ResolveInstalled(drv, p);
        return rc;
      }
      rc := ResolveBare(drv, mbr, signed);
    }

    /** The legacy case, allowed only on a disk without partitions: an unsigned sector 0 must be
        completely blank. */
    method ResolveBare(drv: nat, mbr: Sector, signed: bool) returns (rc: int)
      requires Valid() && InReach(drv, 0) && mbr == DiskOf(drv)[0] && signed == Signed(mbr)
      requires FindNative(mbr, |DiskOf(drv)|) == -1
      modifies this`dirLba, this`dataStart, this`limit
      ensures rc == Status(Resolve(DiskOf(drv)))
      ensures rc == FS_OK ==> Resolve(DiskOf(drv)) == Ok(Region(dirLba, limit)) && dataStart == dirLba + 1
    {
      var total, parts := |drives[drv].disk|, PartTable(mbr);
      for i := 0 to 4
        invariant forall k | 0 <= k < i :: parts[k].ptype == 0
      {
        if parts[i].ptype != 0 { return FS_ERR_LAYOUT; }
      }
      if !signed {
        for i := 0 to 512
          invariant forall k | 0 <= k < i :: mbr[k] == 0
        {
          if mbr[i] != 0 { return FS_ERR_LAYOUT; }
        }
      }
      if total <= LEGACY_DATA_START { return FS_ERR_LAYOUT; }
      dirLba := LEGACY_DIR_LBA;
      dataStart := LEGACY_DATA_START;
      limit := total;
      return FS_OK;
    }

    /** The installed case: boot record, then the descriptor it points at. */
    method ResolveInstalled(drv: nat, p: Part) returns (rc: int)
      requires Valid() && drv < ATA_MAX_DRIVES && drives[drv].present
      requires SlotOk(p, |DiskOf(drv)|) && p.ptype != 0
      modifies this`faults, this`dirLba, this`dataStart, this`limit, layoutBuf
      ensures Answers(rc, Status(ResolveNative(DiskOf(drv), p)))
      ensures rc == FS_OK ==> ResolveNative(DiskOf(drv), p) == Ok(Region(dirLba, limit)) && dataStart == dirLba + 1
    {
      var failed, config := ReadConfigOffset(drv, p.start);
      if failed { return FS_ERR_IO; }
      if p.sectors <= Add32(Add32(config, CONFIG_SECTORS), 1) { return FS_ERR_LAYOUT; }
      var layout;
      failed, layout := ReadLayout(drv, Add32(p.start, config));
      if failed { return FS_ERR_IO; }
      rc := AdoptLayout(p, config, layout);
    }

    method ReadConfigOffset(drv: nat, lba: u32) returns (failed: bool, config: u32)
      requires Valid() && InReach(drv, lba)
      modifies this`faults, layoutBuf
      ensures old(faults) <= faults && (failed <==> faults > old(faults))
      ensures !failed ==> config == ConfigOffset(DiskOf(drv)[lba])
    {
      failed := ReadSector(drv, lba, layoutBuf);
      config := ConfigOffset(layoutBuf[..]);
    }

    method ReadLayout(drv: nat, lba: u32) returns (failed: bool, layout: NativeLayout)
      requires Valid() && InReach(drv, lba)
      modifies this`faults, layoutBuf
      ensures old(faults) <= faults && (failed <==> faults > old(faults))
      ensures !failed ==> layout == LayoutAt(DiskOf(drv)[lba])
    {
      failed := ReadSector(drv, lba, layoutBuf);
      layout := LayoutAt(layoutBuf[..]);
    }

    method AdoptLayout(p: Part, config: u32, layout: NativeLayout) returns (rc: int)
      requires p.start + p.sectors < 0x1_0000_0000
      modifies this`dirLba, this`dataStart, this`limit
      ensures rc == Status(NativeRegion(p, config, layout))
      ensures rc == FS_OK ==> NativeRegion(p, config, layout) == Ok(Region(dirLba, limit)) && dataStart == dirLba + 1
    {
      if !LayoutValid(layout, p.start, p.sectors) { return FS_ERR_LAYOUT; }
      if Add32(layout.kernelSectors, 1) != config { return FS_ERR_LAYOUT; }
      dirLba := Add32(p.start, layout.dirOffset);
      dataStart := Add32(dirLba, 1);
      limit := Add32(p.start, p.sectors);
      return FS_OK;
    }

    /** Loads the directory sector and accepts it only if every entry is sound. */
    method ReadDir(drv: nat) returns (rc: int)
      requires Valid() && drv < ATA_MAX_DRIVES && drives[drv].present
      modifies this`faults, this`dirLba, this`dataStart, this`limit, layoutBuf, dirBuf
      ensures Answers(rc, DirStatus(DiskOf(drv)))
      ensures rc == FS_OK ==> DirLoaded(drv)
    {
      rc := ResolveLayout(drv);
      if rc != FS_OK { return; }
      RegionInside(DiskOf(drv), Region(dirLba, limit));
      var failed := ReadSector(drv, dirLba, dirBuf);
      if failed { return FS_ERR_IO; }
      if Le32(dirBuf[..], 0) != FS_MAGIC { return FS_ERR_NODIR; }
      rc := ValidateDir();
    }

    /** The buffers hold the directory of a formatted disk. */
    ghost predicate DirLoaded(drv: nat)
      requires Valid()
      reads this, dirBuf
    {
      && drv < ATA_MAX_DRIVES && drives[drv].present
      && Formatted(DiskOf(drv))
      && RegionOf(DiskOf(drv)) == Region(dirLba, limit)
      && dataStart == dirLba + 1
      && dirBuf[..] == DiskOf(drv)[dirLba]
    }

    /** Case-sensitive comparison of two C strings. */
    static method NameEq(a: seq<byte>, b: seq<byte>) returns (eq: bool)
      requires 0 in a && 0 in b
      ensures eq == (CStr(a) == CStr(b))
    {
      var i := 0;
      while a[i] != 0 && b[i] != 0
        invariant 0 <= i < |a| && i < |b|
        invariant 0 !in a[..i] && a[..i] == b[..i]
        decreases |a| - i
      {
        if a[i] != b[i] {
          assert CStr(a[i..])[0] == a[i] && CStr(b[i..])[0] == b[i];
          CommonPrefix(a, b, i);
          return false;
        }
        assert a[..i + 1] == a[..i] + [a[i]] && b[..i + 1] == b[..i] + [b[i]];
        i := i + 1;
        assert 0 in a[i..] && 0 in b[i..] by {
          assert a == a[..i] + a[i..] && b == b[..i] + b[i..];
        }
      }
      CommonPrefix(a, b, i);
      return a[i] == 0 && b[i] == 0;
    }

    /** After a common prefix, the strings are equal iff both end or both go on equally. */
    static lemma CommonPrefix(a: seq<byte>, b: seq<byte>, i: nat)
      requires i < |a| && i < |b| && 0 !in a[..i] && a[..i] == b[..i]
      ensures CStr(a) == CStr(b) <==> CStr(a[i..]) == CStr(b[i..])
    {
      if i > 0 {
        assert a[0] == a[..i][0] == b[..i][0] == b[0] && a[0] in a[..i];
        assert a[1..][..i - 1] == a[..i][1..] && b[1..][..i - 1] == b[..i][1..];
        assert a[1..][i - 1..] == a[i..] && b[1..][i - 1..] == b[i..];
        CommonPrefix(a[1..], b[1..], i - 1);
        assert CStr(a) == [a[0]] + CStr(a[1..]) && CStr(b) == [b[0]] + CStr(b[1..]);
        assert CStr(a)[1..] == CStr(a[1..]) && CStr(b)[1..] == CStr(b[1..]);
      } else {
        assert a[0..] == a && b[0..] == b;
      }
    }

    /** Accepts the loaded directory iff its entries are sound and pairwise compatible. */
    method ValidateDir() returns (rc: int)
      requires Valid() && dirLba + 1 < limit && dataStart == dirLba + 1
      ensures rc == if ValidDir(Entries(dirBuf[..]), Region(dirLba, limit)) then FS_OK else FS_ERR_IO
    {
      var es := Entries(dirBuf[..]);
      ghost var r := Region(dirLba, limit);
      for i := 0 to FS_MAX_FILES
        invariant forall k | 0 <= k < i :: EntryOk(es[k], r)
        invariant forall k, j | 0 <= j < k < i :: Compatible(es[k], es[j])
      {
        var ok := CheckEntry(es, i);
        if !ok { return FS_ERR_IO; }
      }
      return FS_OK;
    }

    /** Entry `i` is sound and clashes with no earlier entry. */
    method CheckEntry(es: seq<Entry>, i: nat) returns (ok: bool)
      requires i < |es| && WellSized(es) && dirLba + 1 < limit && dataStart == dirLba + 1
      requires forall k | 0 <= k < i :: EntryOk(es[k], Region(dirLba, limit))
      ensures ok <==> EntryOk(es[i], Region(dirLba, limit)) && forall j | 0 <= j < i :: Compatible(es[i], es[j])
    {
      var e := es[i];
      if !e.Used() { return e.count == 0; }
      var n := e.Sectors();
      if e.start < dataStart || e.start >= limit || n > limit - e.start || e.raw[23] != 0 || e.raw[0] == 0 {
        return false;
      }
      var clash := ClashesBefore(es, i, n);
      return !clash;
    }

    /** Does entry `i` share its name or a sector with an earlier entry? */
    method ClashesBefore(es: seq<Entry>, i: nat, n: u32) returns (clash: bool)
      requires i < |es| && WellSized(es) && es[i].Used() && n == es[i].Sectors()
      requires forall k | 0 <= k <= i :: EntryOk(es[k], Region(dirLba, limit))
      ensures clash <==> exists j | 0 <= j < i :: !Compatible(es[i], es[j])
    {
      var e := es[i];
      for j := 0 to i
        invariant forall k | 0 <= k < j :: Compatible(e, es[k])
      {
        var p := es[j];
        assert EntryOk(p, Region(dirLba, limit));
        if !p.Used() { continue; }
        var pn := p.Sectors();
        TerminatedRaw(e.raw);
        TerminatedRaw(p.raw);
        var same := NameEq(e.raw, p.raw);
        if same || (e.start < Add32(p.start, pn) && p.start < Add32(e.start, n)) {
          assert !Compatible(es[i], es[j]);
          return true;
        }
      }
      return false;
    }

    static lemma TerminatedRaw(raw: seq<byte>)
      requires |raw| == 24 && raw[23] == 0
      ensures 0 in raw
    {
    }

    // ----- saving -----

    /** Copies `name` into the name field of `slot`, as a C string. */
    method CopyName(slot: nat, name: Name)
      requires Valid() && slot < FS_MAX_FILES && |name| <= FS_NAME_MAX
      modifies dirBuf
      ensures forall k | 0 <= k < 512 :: dirBuf[k] == NameStored(old(dirBuf[..]), 4 + 32 * slot, name, k)
    {
      var o := 4 + 32 * slot;
      var i := 0;
      while i < |name| && i < FS_NAME_MAX
        invariant i <= |name|
        invariant forall k {:trigger dirBuf[k]} | 0 <= k < 512 ::
          dirBuf[k] == if o <= k < o + i then name[k - o] else old(dirBuf[k])
      {
        dirBuf[o + i] := name[i];
        i := i + 1;
      }
      dirBuf[o + i] := 0;
    }

    /** Byte `k` of the buffer once `name` has been stored at `o`. */
    static function NameStored(was: seq<byte>, o: nat, name: Name, k: nat): byte
      requires k < |was| && |name| <= FS_NAME_MAX
    {
      if o <= k < o + |name| then name[k - o] else if k == o + |name| then 0 else was[k]
    }

    /** Makes the entry in `slot` name the given extent. */
    method FillEntry(slot: nat, name: Name, start: u32, count: u32)
      requires Valid() && slot < FS_MAX_FILES && |name| <= FS_NAME_MAX
      modifies dirBuf
      ensures var dir: Sector := old(dirBuf[..]);
              dirBuf[..] == PutEntry(dir, slot, Entry(Renamed(EntryAt(dir, slot).raw, name), start, count))
    {
      var o := 4 + 32 * slot;
      CopyName(slot, name);
      Kmemcpy(dirBuf, o + 24, LeBytes(start));
      Kmemcpy(dirBuf, o + 28, LeBytes(count));
    }

    /** Flushes the directory buffer, magic word included. */
    method WriteDir(drv: nat) returns (rc: int)
      requires Valid() && InReach(drv, dirLba) && Le32(dirBuf[..], 0) == FS_MAGIC
      modifies this`faults, this`drives, dirBuf
      ensures Valid() && OnlyDiskChanged(drv) && dirBuf[..] == old(dirBuf[..])
      ensures Answers(rc, FS_OK)
      ensures SameOutside(old(DiskOf(drv)), DiskOf(drv), dirLba, dirLba + 1)
      ensures rc == FS_OK ==> DiskOf(drv)[dirLba] == dirBuf[..]
    {
      LeBytesOfLe32(dirBuf[..], 0);
      Kmemcpy(dirBuf, 0, LeBytes(FS_MAGIC));
      assert dirBuf[..] == old(dirBuf[..]);
      var failed := WriteSector(drv, dirLba, dirBuf[..]);
      rc := if failed then FS_ERR_IO else FS_OK;
    }

    /** Fills the staging buffer with sector `s` of `data`, padded with zeros. */
    method Stage(data: seq<byte>, offset: nat, ghost s: nat) returns (chunk: nat)
      requires Valid() && offset == Min(512 * s, |data|)
      modifies dataBuf
      ensures dataBuf[..] == Chunk(data, s)
      ensures offset + chunk == Min(512 * (s + 1), |data|)
    {
      Kmemset(dataBuf, 0, 0, 512);
      chunk := 512;
      if offset + chunk > |data| { chunk := |data| - offset; }
      if offset < |data| {
        Kmemcpy(dataBuf, 0, data[offset..offset + chunk]);
      }
      assert dataBuf[..] == Chunk(data, s);
    }

    /** Stores `data` one zero-padded sector at a time from `lba` on. */
    method StoreData(drv: nat, lba: u32, data: seq<byte>) returns (failed: bool)
      requires Valid() && drv < ATA_MAX_DRIVES && drives[drv].present
      requires |data| <= FS_MAX_LEN && lba + SectorsOf(|data|) <= |DiskOf(drv)|
      modifies this`faults, this`drives, dataBuf
      ensures Valid() && OnlyDiskChanged(drv)
      ensures old(faults) <= faults && (failed <==> faults > old(faults))
      ensures SameOutside(old(DiskOf(drv)), DiskOf(drv), lba, lba + SectorsOf(|data|))
      ensures !failed ==> DiskOf(drv) == Splice(old(DiskOf(drv)), lba, Chunks(data))
    {
      ghost var d := DiskOf(drv);
      var needed := SectorsOf(|data|);
      var offset, s := 0, 0;
      while s < needed
        invariant Valid() && OnlyDiskChanged(drv) && s <= needed && faults == old(faults)
        invariant offset == Min(512 * s, |data|)
        invariant SameOutside(d, DiskOf(drv), lba, lba + needed)
        invariant forall k | 0 <= k < s :: DiskOf(drv)[lba + k] == Chunk(data, k)
      {
        var chunk := Stage(data, offset, s);
        failed := WriteSector(drv, lba + s, dataBuf[..]);
        if failed { return; }
        offset := offset + chunk;
        s := s + 1;
      }
      failed := false;
      assert DiskOf(drv) == Splice(d, lba, Chunks(data));
    }

    method FindEntry(name: Name) returns (slot: int)
      requires Valid()
      requires forall i | 0 <= i < FS_MAX_FILES && Entries(dirBuf[..])[i].Used() :: Entries(dirBuf[..])[i].raw[23] == 0
      ensures slot == Find(Entries(dirBuf[..]), name)
    {
      var es := Entries(dirBuf[..]);
      for i := 0 to FS_MAX_FILES
        invariant forall k | 0 <= k < i :: !Matches(es[k], name)
      {
        if es[i].Used() {
          TerminatedRaw(es[i].raw);
          TerminatedArg(name);
          var same := NameEq(es[i].raw, name + [0]);
          if same {
            assert Matches(es[i], name);
            return i;
          }
        }
      }
      return -1;
    }

    static lemma TerminatedArg(name: Name)
      ensures 0 in name + [0] && CStr(name + [0]) == name
    {
      assert (name + [0])[|name|] == 0 && (name + [0])[..|name|] == name;
      CStrIs(name + [0], |name|);
    }

    method FindFree() returns (slot: int)
      requires Valid()
      ensures slot == FirstFree(Entries(dirBuf[..]))
    {
      var es := Entries(dirBuf[..]);
      for i := 0 to FS_MAX_FILES
        invariant forall k | 0 <= k < i :: es[k].Used()
      {
        if !es[i].Used() { return i; }
      }
      return -1;
    }

    method NextFreeLba() returns (high: u32)
      requires Valid() && dataStart == dirLba + 1 <= limit
      requires ValidDir(Entries(dirBuf[..]), Region(dirLba, limit))
      ensures high == NextFree(Entries(dirBuf[..]), dirLba + 1)
    {
      ValidEndsBy(Entries(dirBuf[..]), Region(dirLba, limit));
      high := HighestEnd(Entries(dirBuf[..]));
    }

    method HighestEnd(es: seq<Entry>) returns (high: u32)
      requires EndsBy(es, limit)
      ensures high == NextFree(es, dataStart)
    {
      high := dataStart;
      var i := 0;
      while i < |es|
        invariant i <= |es| && high == FsSpec.HighestEnd(es, i, dataStart)
      {
        if es[i].Used() {
          var end := Add32(es[i].start, es[i].Sectors());
          if end > high { high := end; }
        }
        i := i + 1;
      }
    }

    /** Saves `data` under `name`, replacing any file of that name. */
    method Write(drv: nat, name: Name, data: seq<byte>) returns (rc: int)
      requires Valid() && |data| < 0x1_0000_0000
      modifies this, dirBuf, dataBuf, layoutBuf
      ensures Valid()
      ensures drv >= ATA_MAX_DRIVES || !old(drives[drv].present) ==>
        drives == old(drives)
        && rc == if !(1 <= |name| <= 23) then -3 else if |data| > 524288 then -4 else -1
      ensures drv < ATA_MAX_DRIVES && old(drives[drv].present) ==>
        && OnlyDiskChanged(drv) && Answers(rc, WriteVerdict(old(DiskOf(drv)), name, data))
        && WriteOutcome(old(DiskOf(drv)), DiskOf(drv), name, data, rc)
    {
      if name == [] || |name| > FS_NAME_MAX { return FS_ERR_IO; }
      if |data| > FS_MAX_LEN { return FS_ERR_BIG; }
      if drv >= ATA_MAX_DRIVES || !drives[drv].present { return FS_ERR_NODRV; }
      rc := ReadDir(drv);
      if rc != FS_OK { return; }
      rc := WriteLoaded(drv, name, data);
    }

    method WriteLoaded(drv: nat, name: Name, data: seq<byte>) returns (rc: int)
      requires Valid() && DirLoaded(drv)
      requires GoodName(name) && |data| <= FS_MAX_LEN
      modifies this`faults, this`drives, dirBuf, dataBuf
      ensures Valid() && OnlyDiskChanged(drv)
      ensures Answers(rc, WriteVerdict(old(DiskOf(drv)), name, data))
      ensures WriteOutcome(old(DiskOf(drv)), DiskOf(drv), name, data, rc)
    {
      ghost var d := DiskOf(drv);
      var slot, lba;
      rc, slot, lba := ChooseExtent(name, |data|);
      if rc != FS_OK { return; }
      rc := Commit(drv, slot, lba, name, data);
    }

    /** Picks the slot and the extent for a file of `len` bytes. */
    method ChooseExtent(name: Name, len: u32) returns (rc: int, slot: int, lba: u32)
      requires Valid() && ValidDir(Entries(dirBuf[..]), Region(dirLba, limit))
      requires dataStart == dirLba + 1 < limit && len <= FS_MAX_LEN
      ensures match PlanWrite(Entries(dirBuf[..]), Region(dirLba, limit), name, len)
              case Err(c) => rc == c && rc != FS_OK
              case Ok(p) => rc == FS_OK && slot == p.slot && lba == p.lba
    {
      var es := Entries(dirBuf[..]);
      lba := 0;
      slot := ChooseSlot(name);
      if slot < 0 { return FS_ERR_FULL, slot, lba; }
      var ent := es[slot];
      if ent.Used() && ent.count > FS_MAX_LEN { return FS_ERR_BIG, slot, lba; }
      lba := ChooseLba(ent, len);
      var needed := SectorsOf(len);
      if lba >= limit || needed > limit - lba { return FS_ERR_FULL, slot, lba; }
      rc := FS_OK;
    }

    /** The file's own entry, else the first empty one. */
    method ChooseSlot(name: Name) returns (slot: int)
      requires Valid() && ValidDir(Entries(dirBuf[..]), Region(dirLba, limit))
      ensures slot == TargetSlot(Entries(dirBuf[..]), name)
    {
      UsedTerminated(Entries(dirBuf[..]), Region(dirLba, limit));
      slot := FindEntry(name);
      if slot < 0 { slot := FindFree(); }
    }

    /** The old extent if it is large enough, else the space past all data. */
    method ChooseLba(ent: Entry, len: u32) returns (lba: u32)
      requires Valid() && ValidDir(Entries(dirBuf[..]), Region(dirLba, limit))
      requires dataStart == dirLba + 1 < limit && len <= FS_MAX_LEN && (ent.Used() ==> ent.count <= FS_MAX_LEN)
      ensures lba == if ent.Used() && SectorsOf(len) <= ent.Sectors() then ent.start
                     else NextFree(Entries(dirBuf[..]), dirLba + 1)
    {
      RoundUpIsCeil(len);
      RoundUpIsCeil(ent.count);
      var needed := (len + 511) / 512;
      if needed == 0 { needed := 1; }
      if ent.Used() {
        var oldSectors := (ent.count + 511) / 512;
        if oldSectors == 0 { oldSectors := 1; }
        if needed <= oldSectors { return ent.start; }
      }
      lba := NextFreeLba();
    }

    /** Stores the data, then the directory entry that publishes it. */
    method Commit(drv: nat, slot: nat, lba: u32, name: Name, data: seq<byte>) returns (rc: int)
      requires Valid() && DirLoaded(drv)
      requires WriteAccepted(DiskOf(drv), name, data, Plan(slot, lba, SectorsOf(|data|)))
      modifies this`faults, this`drives, dirBuf, dataBuf
      ensures Valid() && OnlyDiskChanged(drv) && Answers(rc, FS_OK)
      ensures var p := Plan(slot, lba, SectorsOf(|data|));
              if rc == FS_OK then DiskOf(drv) == WrittenDisk(old(DiskOf(drv)), p, name, data)
              else Interrupted(old(DiskOf(drv)), DiskOf(drv), name, data, p)
    {
      ghost var d := DiskOf(drv);
      ghost var p := Plan(slot, lba, SectorsOf(|data|));
      PlanInside(Dir(d), RegionOf(d), name, |data|, p);
      var failed := StoreData(drv, lba, data);
      if failed { return FS_ERR_IO; }
      FillEntry(slot, name, lba, |data|);
      EntriesOfPut(d[dirLba], slot, Entry(Renamed(Dir(d)[slot].raw, name), lba, |data|));
      rc := WriteDir(drv);
    }

    static lemma UsedTerminated(es: seq<Entry>, r: Region)
      requires ValidDir(es, r)
      ensures forall i | 0 <= i < |es| && es[i].Used() :: es[i].raw[23] == 0
    {
      assert forall i | 0 <= i < |es| && es[i].Used() :: EntryOk(es[i], r);
    }

    // ----- loading -----

    /** Reads the file called `name` into `buf`. A buffer in a 32-bit address space that also
        holds the kernel is far below the size at which rounding to sectors would wrap. */
    method Read(drv: nat, name: Name, buf: array<byte>) returns (rc: int, len: u32)
      requires Valid() && buf.Length <= 0xFFFF_FE00
      requires buf != dirBuf && buf != dataBuf && buf != layoutBuf
      modifies this`faults, this`dirLba, this`dataStart, this`limit, dirBuf, dataBuf, layoutBuf, buf
      ensures Valid()
      ensures drv >= ATA_MAX_DRIVES || !drives[drv].present ==>
        len == 0 && buf[..] == old(buf[..])
        && rc == if name == [] || buf.Length == 0 then -3 else -1
      ensures drv < ATA_MAX_DRIVES && drives[drv].present ==>
        && Answers(rc, ReadVerdict(DiskOf(drv), name, buf.Length))
        && ReadOutcome(DiskOf(drv), name, old(buf[..]), buf[..], rc, len)
    {
      len := 0;
      if name == [] || buf.Length == 0 { return FS_ERR_IO, 0; }
      if drv >= ATA_MAX_DRIVES || !drives[drv].present { return FS_ERR_NODRV, 0; }
      rc := ReadDir(drv);
      if rc == FS_ERR_NODIR { return FS_ERR_NOTFOUND, 0; }
      if rc != FS_OK { return; }
      rc, len := ReadLoaded(drv, name, buf);
    }

    method ReadLoaded(drv: nat, name: Name, buf: array<byte>) returns (rc: int, len: u32)
      requires Valid() && DirLoaded(drv) && name != []
      requires 0 < buf.Length <= 0xFFFF_FE00 && buf != dirBuf && buf != dataBuf
      modifies this`faults, dataBuf, buf
      ensures Answers(rc, ReadVerdict(DiskOf(drv), name, buf.Length))
      ensures ReadOutcome(DiskOf(drv), name, old(buf[..]), buf[..], rc, len)
    {
      UsedTerminated(Entries(dirBuf[..]), Region(dirLba, limit));
      var slot := FindEntry(name);
      if slot < 0 {
        NotFoundIsAbsent(DiskOf(drv), name, buf.Length);
        return FS_ERR_NOTFOUND, 0;
      }
      rc, len := LoadFile(drv, slot, name, buf);
    }

    method LoadFile(drv: nat, slot: nat, ghost name: Name, buf: array<byte>) returns (rc: int, len: u32)
      requires Valid() && DirLoaded(drv) && slot < FS_MAX_FILES && Matches(Dir(DiskOf(drv))[slot], name) && name != []
      requires 0 < buf.Length <= 0xFFFF_FE00 && buf != dirBuf && buf != dataBuf
      modifies this`faults, dataBuf, buf
      ensures Answers(rc, ReadVerdict(DiskOf(drv), name, buf.Length))
      ensures ReadOutcome(DiskOf(drv), name, old(buf[..]), buf[..], rc, len)
    {
      ghost var d, was := DiskOf(drv), buf[..];
      var ent := Entries(dirBuf[..])[slot];
      EntryInside(d, slot);
      var readLen := Min(ent.count, buf.Length);
      var failed := LoadData(drv, ent.start, ent.count, buf, readLen);
      if failed {
        FoundIsNotRead(d, slot, name, was, buf[..]);
        return FS_ERR_IO, 0;
      }
      FoundIsRead(d, slot, name, was, buf[..], readLen);
      return FS_OK, readLen;
    }

    static lemma FoundIsRead(d: Disk, slot: nat, n: Name, buf: seq<byte>, buf': seq<byte>, len: nat)
      requires Formatted(d) && slot < FS_MAX_FILES && Matches(Dir(d)[slot], n) && n != [] && buf != []
      requires Dir(d)[slot].End() <= |d| && len == Min(Dir(d)[slot].count, |buf|)
      requires Delivered(buf', buf, FileBytes(d, Dir(d)[slot].start, Dir(d)[slot].count), len)
      ensures ReadVerdict(d, n, |buf|) == FS_OK && ReadOutcome(d, n, buf, buf', FS_OK, len)
    {
      FoundIsContent(d, slot, n, |buf|);
    }

    static lemma FoundIsNotRead(d: Disk, slot: nat, n: Name, buf: seq<byte>, buf': seq<byte>)
      requires Formatted(d) && slot < FS_MAX_FILES && Matches(Dir(d)[slot], n) && n != [] && buf != []
      ensures ReadVerdict(d, n, |buf|) == FS_OK && ReadOutcome(d, n, buf, buf', FS_ERR_IO, 0)
    {
      FoundIsContent(d, slot, n, |buf|);
    }

    static lemma EntryInside(d: Disk, slot: nat)
      requires Formatted(d) && slot < FS_MAX_FILES && Dir(d)[slot].Used()
      ensures Dir(d)[slot].End() <= |d|
    {
      assert EntryOk(Dir(d)[slot], RegionOf(d));
    }

    static lemma FoundIsContent(d: Disk, slot: nat, n: Name, size: nat)
      requires Formatted(d) && slot < FS_MAX_FILES && Matches(Dir(d)[slot], n) && n != [] && size > 0
      ensures var e := Dir(d)[slot];
              && e.End() <= |d| && n in Files(d) && Files(d)[n] == FileBytes(d, e.start, e.count)
      ensures ReadVerdict(d, n, size) == FS_OK
    {
      assert EntryOk(Dir(d)[slot], RegionOf(d));
      FindIs(Dir(d), RegionOf(d), slot, n);
    }

    static lemma NotFoundIsAbsent(d: Disk, n: Name, size: nat)
      requires Formatted(d) && Find(Dir(d), n) < 0 && n != [] && size > 0
      ensures ReadVerdict(d, n, size) == FS_ERR_NOTFOUND
    {
      if n in NamesOf(Dir(d)) {
        var i := IndexOf(Dir(d), n);
        assert false;
      }
    }

    static lemma SectorHolds(d: Disk, start: nat, count: nat, s: nat)
      requires start + SectorsOf(count) <= |d|
      ensures forall k | 512 * s <= k < 512 * (s + 1) && k < count ::
        start + s < |d| && FileBytes(d, start, count)[k] == d[start + s][k - 512 * s]
    {
      forall k | 512 * s <= k < 512 * (s + 1) && k < count
        ensures k / 512 == s && k % 512 == k - 512 * s
      {
      }
    }

    /** Copies the first `len` bytes of an extent, one sector at a time. */
    method LoadData(drv: nat, start: u32, ghost count: nat, buf: array<byte>, len: nat) returns (failed: bool)
      requires Valid() && drv < ATA_MAX_DRIVES && drives[drv].present && start + SectorsOf(count) <= |DiskOf(drv)|
      requires len <= count && len <= buf.Length
      requires buf != dataBuf
      modifies this`faults, dataBuf, buf
      ensures old(faults) <= faults && (failed <==> faults > old(faults))
      ensures !failed ==> Delivered(buf[..], old(buf[..]), FileBytes(DiskOf(drv), start, count), len)
    {
      ghost var bytes := FileBytes(DiskOf(drv), start, count);
      RoundUpIsCeil(len);
      var sectors := (len + 511) / 512;
      if sectors == 0 { sectors := 1; }
      var offset, s := 0, 0;
      while s < sectors
        invariant s <= sectors && offset == Min(512 * s, len) && faults == old(faults)
        invariant Delivered(buf[..], old(buf[..]), bytes, offset)
      {
        failed := ReadSector(drv, start + s, dataBuf);
        if failed { return; }
        var chunk := 512;
        if offset + chunk > len { chunk := if offset < len then len - offset else 0; }
        if chunk > 0 {
          SectorHolds(DiskOf(drv), start, count, s);
          Kmemcpy(buf, offset, dataBuf[..chunk]);
          offset := offset + chunk;
        }
        s := s + 1;
      }
      failed := false;
    }

    // ----- disk images -----

    method ImageDirectory(drv: nat) returns (rc: int)
      requires Valid()
      modifies this`faults, this`dirLba, this`dataStart, this`limit, layoutBuf, dirBuf
      ensures drv >= ATA_MAX_DRIVES || !drives[drv].present ==> rc == -1
      ensures drv < ATA_MAX_DRIVES && drives[drv].present ==> Answers(rc, DirStatus(DiskOf(drv)))
      ensures rc == FS_OK ==> DirLoaded(drv)
    {
      if drv >= ATA_MAX_DRIVES || !drives[drv].present { return FS_ERR_NODRV; }
      rc := ReadDir(drv);
    }

    /** Opens a published image. */
    method ImageOpen(drv: byte, name: Name) returns (rc: int, image: Image)
      requires Valid()
      modifies this`faults, this`dirLba, this`dataStart, this`limit, layoutBuf, dirBuf
      ensures drv >= ATA_MAX_DRIVES || !drives[drv].present ==> rc == -1
      ensures drv < ATA_MAX_DRIVES && drives[drv].present ==> Answers(rc, OpenVerdict(DiskOf(drv), name))
      ensures rc == FS_OK ==> image.drive == drv && IsImage(DiskOf(drv), name, image)
    {
      image := Image(drv, 0, 0);
      rc := ImageDirectory(drv);
      if rc != FS_OK { return; }
      var es := Entries(dirBuf[..]);
      UsedTerminated(es, Region(dirLba, limit));
      var slot := FindEntry(name);
      if slot < 0 { return FS_ERR_NOTFOUND, image; }
      var e := es[slot];
      if e.count == 0 || e.count % 512 != 0 { return FS_ERR_IO, image; }
      image := Image(drv, e.start, e.count / 512);
    }

    /** How much can be reserved, and how many more files can be made. */
    method ImageSpace(drv: nat) returns (rc: int, available: u32, freeSlots: nat)
      requires Valid()
      modifies this`faults, this`dirLba, this`dataStart, this`limit, layoutBuf, dirBuf
      ensures drv >= ATA_MAX_DRIVES || !drives[drv].present ==> rc == -1
      ensures drv < ATA_MAX_DRIVES && drives[drv].present ==> Answers(rc, DirStatus(DiskOf(drv)))
      ensures rc == FS_OK ==>
        DirLoaded(drv) && available == Available(DiskOf(drv)) && freeSlots == |EmptySlots(Dir(DiskOf(drv)))|
    {
      available, freeSlots := 0, 0;
      rc := ImageDirectory(drv);
      if rc != FS_OK { return; }
      freeSlots := CountFree(Entries(dirBuf[..]));
      NextFreeInside(Entries(dirBuf[..]), Region(dirLba, limit));
      var first := NextFreeLba();
      available := limit - first;
    }

    method CountFree(es: seq<Entry>) returns (n: nat)
      ensures n == |EmptySlots(es)|
    {
      n := 0;
      for i := 0 to |es|
        invariant n == |EmptySlots(es[..i])|
      {
        EmptySlotsStep(es, i);
        if !es[i].Used() { n := n + 1; }
      }
      assert es[..|es|] == es;
    }

    /** Hands out the space past all data; nothing is recorded on disk. */
    method ImageReserve(drv: byte, sectors: u32) returns (rc: int, image: Image)
      requires Valid()
      modifies this`faults, this`dirLba, this`dataStart, this`limit, layoutBuf, dirBuf
      ensures drv >= ATA_MAX_DRIVES || !drives[drv].present ==>
        rc == if 0 < sectors <= 0x7fffff then -1 else -4
      ensures drv < ATA_MAX_DRIVES && drives[drv].present ==> Answers(rc, ReserveVerdict(DiskOf(drv), sectors))
      ensures rc == FS_OK ==> Formatted(DiskOf(drv)) && image == Reservation(DiskOf(drv), drv, sectors)
    {
      image := Image(drv, 0, 0);
      if sectors == 0 || sectors > MAX_IMAGE_SECTORS { return FS_ERR_BIG, image; }
      var available, freeSlots;
      rc, available, freeSlots := ImageSpace(drv);
      if rc != FS_OK { return; }
      SomeEmptySlot(Dir(DiskOf(drv)));
      if freeSlots == 0 { return FS_ERR_FULL, image; }
      if sectors > available { return FS_ERR_NOSPC, image; }
      image := Image(drv, limit - available, sectors);
    }

    /** The request lies inside the image and the image inside the file region. */
    method ImageBounds(image: Image, sector: u32, count: u32) returns (rc: int)
      requires Valid()
      modifies this`faults, this`dirLba, this`dataStart, this`limit, layoutBuf
      ensures image.drive >= ATA_MAX_DRIVES ==> rc == FS_ERR_IO
      ensures image.drive < ATA_MAX_DRIVES && !drives[image.drive].present ==>
        rc == if BadRequest(image, sector, count) then FS_ERR_IO else FS_ERR_NODRV
      ensures image.drive < ATA_MAX_DRIVES && drives[image.drive].present ==>
        Answers(rc, BoundsVerdict(DiskOf(image.drive), image, sector, count))
    {
      if count == 0 || sector >= image.sectors || count > image.sectors - sector
         || image.drive >= ATA_MAX_DRIVES || image.start > 0xffff_ffff - sector { return FS_ERR_IO; }
      if !drives[image.drive].present { return FS_ERR_NODRV; }
      rc := ResolveLayout(image.drive);
      if rc != FS_OK { return; }
      if image.start < dataStart || image.start >= limit || image.sectors > limit - image.start { return FS_ERR_IO; }
    }

    /** Clears a run of the image's sectors. */
    method ImageZero(image: Image, sector: u32, count: u32) returns (rc: int)
      requires Valid()
      modifies this`faults, this`drives, this`dirLba, this`dataStart, this`limit, layoutBuf
      ensures Valid()
      ensures image.drive >= ATA_MAX_DRIVES || !old(drives[image.drive].present) ==>
        && drives == old(drives)
        && rc == if image.drive >= ATA_MAX_DRIVES || BadRequest(image, sector, count) then FS_ERR_IO else FS_ERR_NODRV
      ensures image.drive < ATA_MAX_DRIVES && old(drives[image.drive].present) ==>
        && OnlyDiskChanged(image.drive)
        && Answers(rc, BoundsVerdict(old(DiskOf(image.drive)), image, sector, count))
        && ImageWritten(old(DiskOf(image.drive)), DiskOf(image.drive), image, sector, seq(count, _ => Chunk([], 0)), rc)
    {
      rc := ImageBounds(image, sector, count);
      if rc != FS_OK { return; }
      RegionInside(DiskOf(image.drive), Resolve(DiskOf(image.drive)).value);
      var failed := ZeroSectors(image.drive, image.start + sector, count);
      rc := if failed then FS_ERR_IO else FS_OK;
    }

    /** Clears `count` sectors of a drive. */
    method ZeroSectors(drv: nat, lba: u32, count: u32) returns (failed: bool)
      requires Valid() && drv < ATA_MAX_DRIVES && drives[drv].present && lba + count <= |DiskOf(drv)|
      modifies this`faults, this`drives
      ensures Valid() && OnlyDiskChanged(drv)
      ensures old(faults) <= faults && (failed <==> faults > old(faults))
      ensures SameOutside(old(DiskOf(drv)), DiskOf(drv), lba, lba + count)
      ensures !failed ==> DiskOf(drv) == Splice(old(DiskOf(drv)), lba, seq(count, _ => Chunk([], 0)))
    {
      ghost var d := DiskOf(drv);
      var i := 0;
      while i < count
        invariant i <= count && Valid() && OnlyDiskChanged(drv) && faults == old(faults)
        invariant SameOutside(d, DiskOf(drv), lba, lba + count)
        invariant forall s | lba <= s < lba + i :: DiskOf(drv)[s] == Chunk([], 0)
      {
        failed := WriteSector(drv, lba + i, Chunk([], 0));
        if failed { return; }
        i := i + 1;
      }
      failed := false;
      assert DiskOf(drv) == Splice(d, lba, seq(count, _ => Chunk([], 0)));
    }

    /** Writes one sector of the image. */
    method ImageWriteSector(image: Image, sector: u32, data: Sector) returns (rc: int)
      requires Valid()
      modifies this`faults, this`drives, this`dirLba, this`dataStart, this`limit, layoutBuf
      ensures Valid()
      ensures image.drive >= ATA_MAX_DRIVES || !old(drives[image.drive].present) ==>
        && drives == old(drives)
        && rc == if image.drive >= ATA_MAX_DRIVES || BadRequest(image, sector, 1) then FS_ERR_IO else FS_ERR_NODRV
      ensures image.drive < ATA_MAX_DRIVES && old(drives[image.drive].present) ==>
        && OnlyDiskChanged(image.drive)
        && Answers(rc, BoundsVerdict(old(DiskOf(image.drive)), image, sector, 1))
        && ImageWritten(old(DiskOf(image.drive)), DiskOf(image.drive), image, sector, [data], rc)
    {
      rc := ImageBounds(image, sector, 1);
      if rc != FS_OK { return; }
      RegionInside(DiskOf(image.drive), Resolve(DiskOf(image.drive)).value);
      var failed := WriteSector(image.drive, image.start + sector, data);
      rc := if failed then FS_ERR_IO else FS_OK;
    }

    /** Reads one sector of the image. */
    method ImageReadSector(image: Image, sector: u32, data: array<byte>) returns (rc: int)
      requires Valid() && data.Length == 512 && data != layoutBuf
      modifies this`faults, this`dirLba, this`dataStart, this`limit, layoutBuf, data
      ensures image.drive >= ATA_MAX_DRIVES || !drives[image.drive].present ==>
        rc == if image.drive >= ATA_MAX_DRIVES || BadRequest(image, sector, 1) then FS_ERR_IO else FS_ERR_NODRV
      ensures image.drive < ATA_MAX_DRIVES && drives[image.drive].present ==>
        Answers(rc, BoundsVerdict(DiskOf(image.drive), image, sector, 1))
      ensures rc == FS_OK ==>
        InReach(image.drive, image.start + sector) && data[..] == DiskOf(image.drive)[image.start + sector]
    {
      rc := ImageBounds(image, sector, 1);
      if rc != FS_OK { return; }
      RegionInside(DiskOf(image.drive), Resolve(DiskOf(image.drive)).value);
      var failed := ReadSector(image.drive, image.start + sector, data);
      rc := if failed then FS_ERR_IO else FS_OK;
    }

    /** Makes a reserved image a file. */
    method ImagePublish(name: Name, image: Image) returns (rc: int)
      requires Valid()
      modifies this`faults, this`drives, this`dirLba, this`dataStart, this`limit, layoutBuf, dirBuf
      ensures Valid()
      ensures image.drive >= ATA_MAX_DRIVES || !old(drives[image.drive].present) ==>
        drives == old(drives) && rc == if 1 <= |name| <= 23 then -1 else -3
      ensures image.drive < ATA_MAX_DRIVES && old(drives[image.drive].present) ==>
        && OnlyDiskChanged(image.drive)
        && Answers(rc, PublishVerdict(old(DiskOf(image.drive)), name, image))
        && PublishOutcome(old(DiskOf(image.drive)), DiskOf(image.drive), name, image, rc)
    {
      if name == [] || |name| > FS_NAME_MAX { return FS_ERR_IO; }
      rc := ImageDirectory(image.drive);
      if rc != FS_OK { return; }
      var slot;
      rc, slot := ChoosePublishSlot(name, image);
      if rc != FS_OK { return; }
      rc := CommitPublish(slot, name, image);
    }

    method ChoosePublishSlot(name: Name, image: Image) returns (rc: int, slot: int)
      requires Valid() && DirLoaded(image.drive) && GoodName(name)
      ensures rc == PublishVerdict(DiskOf(image.drive), name, image)
      ensures rc == FS_OK ==> slot == FirstFree(Dir(DiskOf(image.drive)))
    {
      var es := Entries(dirBuf[..]);
      ghost var r := RegionOf(DiskOf(image.drive));
      slot := -1;
      NextFreeInside(es, r);
      var next := NextFreeLba();
      if image.start != next || image.sectors == 0 || image.sectors > MAX_IMAGE_SECTORS
         || image.start >= limit || image.sectors > limit - image.start { return FS_ERR_IO, slot; }
      UsedTerminated(es, r);
      var existing := FindEntry(name);
      if existing >= 0 { return FS_ERR_IO, slot; }
      slot := FindFree();
      if slot < 0 { return FS_ERR_FULL, slot; }
      rc := FS_OK;
    }

    /** Clears the slot, fills it and flushes the directory. */
    method CommitPublish(slot: nat, name: Name, image: Image) returns (rc: int)
      requires Valid() && DirLoaded(image.drive)
      requires Publishable(Dir(DiskOf(image.drive)), RegionOf(DiskOf(image.drive)), name, image)
      requires slot == FirstFree(Dir(DiskOf(image.drive)))
      modifies this`faults, this`drives, dirBuf
      ensures Valid() && OnlyDiskChanged(image.drive) && Answers(rc, FS_OK)
      ensures if rc == FS_OK then DiskOf(image.drive) == PublishedDisk(old(DiskOf(image.drive)), name, image)
              else SameOutside(old(DiskOf(image.drive)), DiskOf(image.drive), dirLba, dirLba + 1)
    {
      ghost var dir: Sector := dirBuf[..];
      FillCleared(slot, name, image);
      EntriesOfPut(dir, slot, PublishedEntry(name, image));
      rc := WriteDir(image.drive);
    }

    method FillCleared(slot: nat, name: Name, image: Image)
      requires Valid() && slot < FS_MAX_FILES && GoodName(name) && image.sectors <= MAX_IMAGE_SECTORS
      modifies dirBuf
      ensures var dir: Sector := old(dirBuf[..]); dirBuf[..] == PutEntry(dir, slot, PublishedEntry(name, image))
    {
      ghost var dir: Sector := dirBuf[..];
      var o := 4 + 32 * slot;
      Kmemset(dirBuf, o, 0, 32);
      ghost var cleared: Sector := dirBuf[..];
      FillEntry(slot, name, image.start, 512 * image.sectors);
      assert cleared[o..o + 24] == seq(24, _ => 0);
      assert Renamed(cleared[o..o + 24], name) == PublishedEntry(name, image).raw;
      assert cleared[..o] == dir[..o] && cleared[o + 32..] == dir[o + 32..];
    }
  }
}
