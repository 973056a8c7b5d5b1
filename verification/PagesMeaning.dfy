/** Which bytes of memory may be handed out, byte by byte of the memory map. */
module PagesMeaning {
  import opened Bytes
  import opened PagesSpec

  // ----- the bytes of the map -----

  function Word(s: seq<byte>, at: nat): nat
    requires at + 4 <= |s|
  {
    s[at] as int + 0x100 * s[at + 1] as int + 0x1_0000 * s[at + 2] as int + 0x100_0000 * s[at + 3] as int
  }

  lemma WordIs(s: seq<byte>, at: nat)
    requires at + 4 <= |s|
    ensures Le32(s, at) == Word(s, at)
  {
    LeNatOf4(s[at..at + 4]);
  }

  /** The offsets at which entries begin, and the end of the map: each entry is as long as it says, 24
      bytes at least, and the last one ends where the map does. */
  ghost predicate IsChain(raw: seq<byte>, ats: seq<nat>) {
    && ats != [] && ats[0] == 0 && ats[|ats| - 1] == |raw|
    && forall i | 0 <= i < |ats| - 1 :: Links(raw, ats[i], ats[i + 1])
  }

  predicate Links(raw: seq<byte>, at: nat, next: nat) {
    at + 24 <= next <= |raw| && Word(raw, at) + 4 == next - at
  }

  /** The entries of a chain. */
  ghost function Listed(raw: seq<byte>, ats: seq<nat>): seq<Entry>
    requires IsChain(raw, ats)
  {
    seq(|ats| - 1, i requires 0 <= i < |ats| - 1 => assert Links(raw, ats[i], ats[i + 1]); EntryAt(raw, ats[i]))
  }

  lemma ListedIs(raw: seq<byte>, ats: seq<nat>)
    requires IsChain(raw, ats)
    ensures WellFormedMap(raw, 0) && EntriesOf(raw, 0) == Listed(raw, ats)
  {
    ChainFrom(raw, ats, 0);
    var (es, fs) := (EntriesOf(raw, 0), Listed(raw, ats));
    assert |es| == |fs|;
    forall k | 0 <= k < |fs|
      ensures es[k] == fs[k]
    {
      assert Links(raw, ats[k], ats[k + 1]);
    }
  }

  lemma {:induction false} ChainFrom(raw: seq<byte>, ats: seq<nat>, i: nat)
    requires IsChain(raw, ats) && i < |ats|
    ensures ats[i] <= |raw| && WellFormedMap(raw, ats[i])
    ensures |EntriesOf(raw, ats[i])| == |ats| - 1 - i
    ensures forall k | i <= k < |ats| - 1 ::
      ats[k] + 24 <= |raw| && EntriesOf(raw, ats[i])[k - i] == EntryAt(raw, ats[k])
    decreases |ats| - i
  {
    if i + 1 < |ats| {
      assert Links(raw, ats[i], ats[i + 1]);
      ChainFrom(raw, ats, i + 1);
      WordIs(raw, ats[i]);
    }
  }

  lemma {:induction false} ChainOf(raw: seq<byte>, at: nat) returns (ats: seq<nat>)
    requires WellFormedMap(raw, at)
    ensures ats != [] && ats[0] == at && ats[|ats| - 1] == |raw|
    ensures forall i | 0 <= i < |ats| - 1 :: Links(raw, ats[i], ats[i + 1])
    decreases |raw| - at
  {
    if at == |raw| {
      ats := [at];
    } else {
      WordIs(raw, at);
      var rest := ChainOf(raw, at + Le32(raw, at) + 4);
      ats := [at] + rest;
      forall i | 0 <= i < |ats| - 1
        ensures Links(raw, ats[i], ats[i + 1])
      {
        if i > 0 { assert Links(raw, rest[i - 1], rest[i]); }
      }
    }
  }

  /** A map is well formed exactly when its entries make a chain. */
  lemma MapIs(raw: seq<byte>)
    ensures WellFormedMap(raw, 0) <==> exists ats :: IsChain(raw, ats)
  {
    if WellFormedMap(raw, 0) {
      var ats := ChainOf(raw, 0);
      assert IsChain(raw, ats);
    }
    forall ats | IsChain(raw, ats)
      ensures WellFormedMap(raw, 0)
    {
      ChainFrom(raw, ats, 0);
    }
  }

  /** What an entry says: where its range begins, how long it is, and whether it is memory (type 1). */
  lemma EntryIs(raw: seq<byte>, at: nat)
    requires at + 24 <= |raw|
    ensures var e := EntryAt(raw, at);
      && e.base == Word(raw, at + 4) + 0x1_0000_0000 * Word(raw, at + 8)
      && e.length == Word(raw, at + 12) + 0x1_0000_0000 * Word(raw, at + 16)
      && (e.available <==> Word(raw, at + 20) == 1)
  {
    WordIs(raw, at + 4);
    WordIs(raw, at + 8);
    WordIs(raw, at + 12);
    WordIs(raw, at + 16);
    WordIs(raw, at + 20);
  }

  // ----- bytes and pages -----

  /** A byte of the first 4 GiB that an entry describes. */
  predicate Describes(e: Entry, a: nat) {
    e.base <= a < e.base + e.length && a < 0x1_0000_0000
  }

  predicate InPage(p: nat, a: nat) {
    4096 * p <= a < 4096 * p + 4096
  }

  lemma ContainsIs(e: Entry, p: nat)
    ensures Contains(e, p) <==> forall a: nat | InPage(p, a) :: Describes(e, a)
  {
    if forall a: nat | InPage(p, a) :: Describes(e, a) {
      assert InPage(p, 4096 * p) && InPage(p, 4096 * p + 4095);
    }
  }

  lemma MeetsIs(e: Entry, p: nat)
    ensures Meets(e, p) <==> exists a: nat :: InPage(p, a) && Describes(e, a)
  {
    if Meets(e, p) {
      var a := if e.base < 4096 * p then 4096 * p else e.base;
      assert InPage(p, a) && Describes(e, a);
    }
  }

  /** A byte that the firmware reported in one number, counted in kilobytes from 1 MiB. */
  predicate ReportedByte(memUpper: u32, a: nat) {
    0x10_0000 <= a < 0x10_0000 + 1024 * memUpper && a < 0x1_0000_0000
  }

  lemma ReportedIs(memUpper: u32, p: nat)
    ensures Reported(memUpper, p) <==> forall a: nat | InPage(p, a) :: ReportedByte(memUpper, a)
  {
    if forall a: nat | InPage(p, a) :: ReportedByte(memUpper, a) {
      assert InPage(p, 4096 * p) && InPage(p, 4096 * p + 4095);
    }
  }

  /** Some memory entry describes the whole page, and no other entry any byte of it. */
  ghost predicate Safe(es: seq<Entry>, p: nat) {
    && (exists i :: 0 <= i < |es| && es[i].available && forall a: nat | InPage(p, a) :: Describes(es[i], a))
    && (forall i, a: nat | 0 <= i < |es| && !es[i].available && InPage(p, a) :: !Describes(es[i], a))
  }

  lemma SafeIs(es: seq<Entry>, p: nat)
    ensures Granted(es, p) && !Withheld(es, p) <==> Safe(es, p)
  {
    forall i | 0 <= i < |es|
      ensures Contains(es[i], p) <==> forall a: nat | InPage(p, a) :: Describes(es[i], a)
      ensures Meets(es[i], p) <==> exists a: nat :: InPage(p, a) && Describes(es[i], a)
    {
      ContainsIs(es[i], p);
      MeetsIs(es[i], p);
    }
    if Granted(es, p) && !Withheld(es, p) {
      var e :| e in es && e.available && Contains(e, p);
      var i :| 0 <= i < |es| && es[i] == e;
      assert forall k | 0 <= k < |es| && !es[k].available :: !Meets(es[k], p);
    }
  }

  /** Which pages are free at first (but for the kernel): those that are safe by a map that can be
      trusted; none by one that cannot; without a map those reported. */
  lemma UsableIs(info: BootInfo, p: nat)
    ensures UsableRam(info, p) <==>
      if info.hasMap then
        && info.mapAddr > 0 && 0 < |info.map_| <= 1024 * 1024 && info.mapAddr + |info.map_| <= 0xFFFF_FFFF
        && exists ats :: IsChain(info.map_, ats) && Safe(Listed(info.map_, ats), p)
      else
        info.hasMem && forall a: nat | InPage(p, a) :: ReportedByte(info.memUpper, a)
  {
    MapIs(info.map_);
    ReportedIs(info.memUpper, p);
    if info.memUpper == 0 { assert InPage(p, 4096 * p) && !ReportedByte(0, 4096 * p); }
    if WellFormedMap(info.map_, 0) { SafeIs(EntriesOf(info.map_, 0), p); }
    forall ats | IsChain(info.map_, ats)
      ensures WellFormedMap(info.map_, 0) && Listed(info.map_, ats) == EntriesOf(info.map_, 0)
    {
      ListedIs(info.map_, ats);
    }
  }

  /** Kilobytes up to and including a byte. */
  function UpTo(a: nat): nat { (a + 1) / 1024 }

  /** What the firmware reported in kilobytes, at most 4 GiB. */
  function ReportedKb(info: BootInfo): nat {
    if !info.hasMem then 0 else if 1024 + info.memUpper > 4194304 then 4194304 else 1024 + info.memUpper
  }

  /** The total a map gives: up to the last byte that is memory, or what was reported if that is more. */
  ghost predicate IsTotal(es: seq<Entry>, reported: nat, kb: nat) {
    && kb >= reported
    && (forall i, a: nat | 0 <= i < |es| && es[i].available && Describes(es[i], a) :: UpTo(a) <= kb)
    && (kb == reported
        || exists i, a: nat :: 0 <= i < |es| && es[i].available && Describes(es[i], a) && UpTo(a) == kb)
  }

  lemma LastByte(e: Entry)
    requires Counts(e)
    ensures Top(e) > 0 && Describes(e, Top(e) - 1) && forall a: nat | Describes(e, a) :: UpTo(a) <= Top(e) / 1024
  {
  }

  lemma TotalIs(es: seq<Entry>, reported: nat)
    ensures IsTotal(es, reported, TotalKb(es, reported))
  {
    var kb := TotalKb(es, reported);
    TotalKbIsMaximum(es, reported);
    forall i, a: nat | 0 <= i < |es| && es[i].available && Describes(es[i], a)
      ensures UpTo(a) <= kb
    {
      LastByte(es[i]);
      assert es[i] in es;
    }
    if kb != reported {
      var e :| e in es && e.available && Counts(e) && Top(e) / 1024 == kb;
      var i :| 0 <= i < |es| && es[i] == e;
      LastByte(e);
      assert Describes(es[i], Top(e) - 1) && UpTo(Top(e) - 1) == kb;
    }
  }

  lemma TotalMemoryIs(info: BootInfo)
    ensures !info.hasMap ==> TotalMemory(info) == ReportedKb(info)
    ensures info.hasMap && MapRefused(info) ==> TotalMemory(info) == 0
    ensures info.hasMap && !MapRefused(info) ==>
      IsTotal(EntriesOf(info.map_, 0), ReportedKb(info), TotalMemory(info))
  {
    if info.hasMap && !MapRefused(info) { TotalIs(EntriesOf(info.map_, 0), ReportedKb(info)); }
  }

  /** A run: consecutive free pages from 16 MiB up. */
  lemma RunIs(free: set<nat>, first: nat, pages: nat)
    ensures IsRun(free, first, pages) <==>
      first * 4096 >= 0x100_0000 && (first + pages) * 4096 <= 0x1_0000_0000
      && forall p | first <= p < first + pages :: p in free
  {
    RangeIs(first, first + pages);
  }
}
