/** Physical pages as sets of page numbers (kernel/memory.c). */
module PagesSpec {
  import opened Bytes

  const PAGE_SIZE: nat := 4096
  const FOUR_GIB: nat := 0x1_0000_0000
  /** Pages below 4 GiB, one bitmap bit each. */
  const PAGES: nat := 0x10_0000
  /** The allocator hands out pages from 16 MiB up. */
  const FIRST_ALLOC: nat := 0x1000

  // ----- the memory map -----

  datatype Entry = Entry(base: nat, length: nat, available: bool)

  function Le64(s: seq<byte>, at: nat): nat
    requires at + 8 <= |s|
  {
    Le32(s, at) + FOUR_GIB * Le32(s, at + 4)
  }

  /** The entry stored at `at`, after its size field. */
  function EntryAt(raw: seq<byte>, at: nat): Entry
    requires at + 24 <= |raw|
  {
    Entry(Le64(raw, at + 4), Le64(raw, at + 12), Le32(raw, at + 20) == 1)
  }

  predicate Truncated(raw: seq<byte>, at: nat)
    requires at < |raw|
  {
    |raw| - at < 4 || Le32(raw, at) < 20 || Le32(raw, at) > |raw| - at - 4
  }

  /** From `at` on, entries follow each other by their sizes and end where the map ends. */
  predicate WellFormedMap(raw: seq<byte>, at: nat)
    decreases |raw| - at
  {
    at == |raw| || (at < |raw| && !Truncated(raw, at) && WellFormedMap(raw, at + Le32(raw, at) + 4))
  }

  function EntriesOf(raw: seq<byte>, at: nat): seq<Entry>
    requires WellFormedMap(raw, at)
    decreases |raw| - at
  {
    if at == |raw| then [] else [EntryAt(raw, at)] + EntriesOf(raw, at + Le32(raw, at) + 4)
  }

  /** Entries without memory below 4 GiB count for nothing. */
  predicate Counts(e: Entry) {
    e.length != 0 && e.base < FOUR_GIB
  }

  /** Where an entry ends, clipped to 4 GiB. */
  function Top(e: Entry): nat
    requires Counts(e)
  {
    if e.length > FOUR_GIB - e.base then FOUR_GIB else e.base + e.length
  }

  predicate Contains(e: Entry, p: nat) {
    Counts(e) && e.base <= p * PAGE_SIZE && (p + 1) * PAGE_SIZE <= Top(e)
  }

  predicate Meets(e: Entry, p: nat) {
    Counts(e) && e.base < (p + 1) * PAGE_SIZE && p * PAGE_SIZE < Top(e)
  }

  function PageStart(e: Entry): nat
    requires Counts(e)
  {
    (e.base + (if e.available then PAGE_SIZE - 1 else 0)) / PAGE_SIZE
  }

  function PageEnd(e: Entry): nat
    requires Counts(e)
  {
    (Top(e) + (if e.available then 0 else PAGE_SIZE - 1)) / PAGE_SIZE
  }

  /** The bounds the code computes are the pages inside an available entry, and those that any
      byte of a reserved one lies in. */
  lemma PageBounds(e: Entry, p: nat)
    requires Counts(e)
    ensures e.available ==> (PageStart(e) <= p < PageEnd(e) <==> Contains(e, p))
    ensures !e.available ==> (PageStart(e) <= p < PageEnd(e) <==> Meets(e, p))
    ensures PageEnd(e) <= PAGES
  {
  }

  function PageRange(from: nat, end: nat): set<nat>
    decreases end
  {
    if end <= from then {} else PageRange(from, end - 1) + {end - 1}
  }

  lemma {:induction false} InRange(from: nat, end: nat, p: nat)
    ensures p in PageRange(from, end) <==> from <= p < end
    decreases end
  {
    if from < end { InRange(from, end - 1, p); }
  }

  lemma RangeIs(from: nat, end: nat)
    ensures forall p: nat :: p in PageRange(from, end) <==> from <= p < end
  {
    forall p: nat ensures p in PageRange(from, end) <==> from <= p < end { InRange(from, end, p); }
  }

  function Marked(e: Entry, free: set<nat>): set<nat>
    requires Counts(e)
  {
    if e.available then free + PageRange(PageStart(e), PageEnd(e))
    else free - PageRange(PageStart(e), PageEnd(e))
  }

  /** One pass over the map: the entries that are, or are not, available memory. */
  function Pass(es: seq<Entry>, available: bool, free: set<nat>): set<nat> {
    if es == [] then free
    else Pass(es[1..], available, if es[0].available == available && Counts(es[0]) then Marked(es[0], free) else free)
  }

  predicate Granted(es: seq<Entry>, p: nat) {
    exists e :: e in es && e.available && Contains(e, p)
  }

  predicate Withheld(es: seq<Entry>, p: nat) {
    exists e :: e in es && !e.available && Meets(e, p)
  }

  lemma GrantedSplit(es: seq<Entry>, p: nat)
    requires es != []
    ensures Granted(es, p) <==> (es[0].available && Contains(es[0], p)) || Granted(es[1..], p)
    ensures Withheld(es, p) <==> (!es[0].available && Meets(es[0], p)) || Withheld(es[1..], p)
  {
    assert es == [es[0]] + es[1..];
  }

  lemma {:induction false} PassMeaning(es: seq<Entry>, free: set<nat>, p: nat)
    ensures p in Pass(es, true, free) <==> p in free || Granted(es, p)
    ensures p in Pass(es, false, free) <==> p in free && !Withheld(es, p)
    decreases |es|
  {
    if es != [] {
      var e := es[0];
      GrantedSplit(es, p);
      if Counts(e) {
        PageBounds(e, p);
        InRange(PageStart(e), PageEnd(e), p);
      }
      PassMeaning(es[1..], if e.available && Counts(e) then Marked(e, free) else free, p);
      PassMeaning(es[1..], if !e.available && Counts(e) then Marked(e, free) else free, p);
    }
  }

  /** Kilobytes of memory: the top of the highest available entry, or what was reported before. */
  function TotalKb(es: seq<Entry>, kb: nat): nat {
    if es == [] then kb
    else TotalKb(es[1..], if es[0].available && Counts(es[0]) && Top(es[0]) / 1024 > kb then Top(es[0]) / 1024 else kb)
  }

  lemma {:induction false} TotalKbIsMaximum(es: seq<Entry>, kb: nat)
    ensures TotalKb(es, kb) >= kb
    ensures forall e | e in es && e.available && Counts(e) :: Top(e) / 1024 <= TotalKb(es, kb)
    ensures TotalKb(es, kb) == kb || exists e :: e in es && e.available && Counts(e) && Top(e) / 1024 == TotalKb(es, kb)
    decreases |es|
  {
    if es != [] {
      var e := es[0];
      TotalKbIsMaximum(es[1..], if e.available && Counts(e) && Top(e) / 1024 > kb then Top(e) / 1024 else kb);
    }
  }

  // ----- what is free after start-up -----

  /** What the boot loader passes: which totals are valid, and the bytes of the memory map. */
  datatype BootInfo = BootInfo(hasMem: bool, memUpper: u32, hasMap: bool, mapAddr: u32, map_: seq<byte>)

  predicate MapRefused(info: BootInfo) {
    || info.mapAddr == 0 || |info.map_| == 0 || |info.map_| > 0x10_0000
    || |info.map_| > 0xFFFF_FFFF - info.mapAddr
    || !WellFormedMap(info.map_, 0)
  }

  /** A whole page between 1 MiB and the reported top of memory, below 4 GiB. */
  predicate Reported(memUpper: u32, p: nat) {
    p < PAGES && 0x10_0000 <= p * PAGE_SIZE && (p + 1) * PAGE_SIZE <= 0x10_0000 + memUpper * 1024
  }

  /** Free pages before the kernel is taken out. */
  predicate UsableRam(info: BootInfo, p: nat) {
    if info.hasMap then
      !MapRefused(info) && Granted(EntriesOf(info.map_, 0), p) && !Withheld(EntriesOf(info.map_, 0), p)
    else
      info.hasMem && info.memUpper != 0 && Reported(info.memUpper, p)
  }

  /** Memory in kilobytes: as reported, or to the top of the highest available entry of a map. */
  function TotalMemory(info: BootInfo): nat {
    var reported :=
      if !info.hasMem then 0 else if 1024 + info.memUpper > 0x40_0000 then 0x40_0000 else 1024 + info.memUpper;
    if !info.hasMap then reported
    else if MapRefused(info) then 0
    else TotalKb(EntriesOf(info.map_, 0), reported)
  }

  /** The order of the entries of a memory map, and repeated ones, do not matter. */
  lemma OrderDoesNotMatter(a: BootInfo, b: BootInfo, p: nat)
    requires a.hasMap && b.hasMap && !MapRefused(a) && !MapRefused(b)
    requires forall e :: e in EntriesOf(a.map_, 0) <==> e in EntriesOf(b.map_, 0)
    ensures UsableRam(a, p) <==> UsableRam(b, p)
  {
    var s, t := EntriesOf(a.map_, 0), EntriesOf(b.map_, 0);
    assert Granted(s, p) <==> Granted(t, p);
    assert Withheld(s, p) <==> Withheld(t, p);
  }

  // ----- runs of pages -----

  ghost predicate IsRun(free: set<nat>, first: nat, pages: nat) {
    FIRST_ALLOC <= first && first + pages <= PAGES && PageRange(first, first + pages) <= free
  }

  ghost predicate LowestRun(free: set<nat>, first: nat, pages: nat) {
    IsRun(free, first, pages) && forall f: nat | f < first :: !IsRun(free, f, pages)
  }

  lemma {:induction false} RangeSize(from: nat, end: nat)
    requires from <= end
    ensures |PageRange(from, end)| == end - from
    decreases end
  {
    if from < end {
      RangeSize(from, end - 1);
      InRange(from, end - 1, end - 1);
    }
  }

  lemma {:induction false} SubsetSize(a: set<nat>, b: set<nat>)
    requires a <= b
    ensures |a| <= |b|
    decreases |a|
  {
    if a != {} {
      var x :| x in a;
      SubsetSize(a - {x}, b - {x});
    }
  }

  /** A run is no longer than the free set: asking for more pages than are free finds none. */
  lemma RunFits(free: set<nat>, first: nat, pages: nat)
    requires IsRun(free, first, pages)
    ensures pages <= |free|
  {
    RangeSize(first, first + pages);
    SubsetSize(PageRange(first, first + pages), free);
  }

  // ----- allocations over a run -----

  datatype Grant = Grant(first: nat, pages: nat)

  function Span(g: Grant): set<nat> {
    PageRange(g.first, g.first + g.pages)
  }

  datatype Memory = Memory(free: set<nat>, grants: seq<Grant>)

  datatype Call = Alloc(pages: nat, result: nat) | Free(i: nat)

  /** A call and its outcome: a refused allocation changes nothing. */
  ghost predicate Step(m: Memory, c: Call, n: Memory) {
    match c
    case Alloc(pages, first) =>
      if first == 0 then n == m
      else pages > 0 && LowestRun(m.free, first, pages)
           && n == Memory(m.free - PageRange(first, first + pages), m.grants + [Grant(first, pages)])
    case Free(i) =>
      i < |m.grants| && n == Memory(m.free + Span(m.grants[i]), m.grants[..i] + m.grants[i + 1..])
  }

  /** Free pages and outstanding grants share nothing, and together are the pages there were. */
  ghost predicate Accounted(m: Memory, all: set<nat>) {
    && m.free <= all
    && (forall i | 0 <= i < |m.grants| :: Span(m.grants[i]) <= all && Span(m.grants[i]) !! m.free)
    && (forall i, j | 0 <= i < j < |m.grants| :: Span(m.grants[i]) !! Span(m.grants[j]))
    && (forall p | p in all :: p in m.free || Owned(m, p))
  }

  predicate Owned(m: Memory, p: nat) {
    exists i :: 0 <= i < |m.grants| && p in Span(m.grants[i])
  }

  lemma AllocKeeps(m: Memory, g: Grant, n: Memory, all: set<nat>)
    requires Accounted(m, all) && Span(g) <= m.free
    requires n == Memory(m.free - Span(g), m.grants + [g])
    ensures Accounted(n, all)
  {
    forall i | 0 <= i < |n.grants|
      ensures n.grants[i] == if i < |m.grants| then m.grants[i] else g
    {
    }
    forall p | p in all ensures p in n.free || Owned(n, p) {
      if p in Span(g) {
        assert p in Span(n.grants[|m.grants|]);
      } else if p !in m.free {
        assert Owned(m, p);
        var i :| 0 <= i < |m.grants| && p in Span(m.grants[i]);
        assert p in Span(n.grants[i]);
      }
    }
  }

  /** Grant `k` of those left, when grant `i` has gone. */
  lemma GrantLeft(m: Memory, i: nat, k: nat, n: Memory, all: set<nat>)
    requires Accounted(m, all) && Step(m, Free(i), n) && k < |n.grants|
    ensures n.grants[k] == m.grants[if k < i then k else k + 1]
    ensures Span(n.grants[k]) <= all && Span(n.grants[k]) !! n.free
  {
    var j := if k < i then k else k + 1;
    assert n.grants[k] == m.grants[j];
    assert Span(m.grants[j]) !! Span(m.grants[i]);
  }

  lemma FreeKeeps(m: Memory, i: nat, n: Memory, all: set<nat>)
    requires Accounted(m, all) && Step(m, Free(i), n)
    ensures Accounted(n, all)
  {
    forall k | 0 <= k < |n.grants|
      ensures n.grants[k] == m.grants[if k < i then k else k + 1]
      ensures Span(n.grants[k]) <= all && Span(n.grants[k]) !! n.free
    {
      GrantLeft(m, i, k, n, all);
    }
    forall p | p in all ensures p in n.free || Owned(n, p) {
      if p !in n.free { StillOwned(m, i, n, p); }
    }
  }

  lemma StillOwned(m: Memory, i: nat, n: Memory, p: nat)
    requires Step(m, Free(i), n) && p !in n.free && (p in m.free || Owned(m, p))
    ensures Owned(n, p)
  {
    var k :| 0 <= k < |m.grants| && p in Span(m.grants[k]);
    assert p in Span(n.grants[if k < i then k else k - 1]);
  }

  /** Freeing what was just allocated undoes the allocation. */
  lemma FreeUndoesAlloc(m: Memory, pages: nat, first: nat, n: Memory, o: Memory)
    requires first != 0 && Step(m, Alloc(pages, first), n) && Step(n, Free(|m.grants|), o)
    ensures o == m
  {
    assert IsRun(m.free, first, pages);
    var g := Grant(first, pages);
    assert n.grants[|m.grants|] == g && Span(g) == PageRange(first, first + pages) <= m.free;
    assert o.free == m.free - Span(g) + Span(g) == m.free;
    assert o.grants == m.grants;
  }

  lemma StepKeeps(m: Memory, c: Call, n: Memory, all: set<nat>)
    requires Accounted(m, all) && Step(m, c, n)
    ensures Accounted(n, all)
  {
    match c
    case Free(i) =>
      FreeKeeps(m, i, n, all);
    case Alloc(pages, first) =>
      if first != 0 {
        assert IsRun(m.free, first, pages);
        AllocKeeps(m, Grant(first, pages), n, all);
      }
  }

  ghost predicate Run(ms: seq<Memory>, cs: seq<Call>) {
    |ms| == |cs| + 1 && forall k | 0 <= k < |cs| :: Steps(ms, cs, k)
  }

  ghost predicate Steps(ms: seq<Memory>, cs: seq<Call>, k: nat)
    requires |ms| == |cs| + 1 && k < |cs|
  {
    Step(ms[k], cs[k], ms[k + 1])
  }

  /** In every run of allocations and frees of what is held, no page is given out twice and none
      is lost. */
  lemma {:induction false} RunKeeps(ms: seq<Memory>, cs: seq<Call>, k: nat)
    requires Run(ms, cs) && k < |ms| && ms[0].grants == []
    ensures Accounted(ms[k], ms[0].free)
    decreases k
  {
    if k > 0 {
      RunKeeps(ms, cs, k - 1);
      assert Steps(ms, cs, k - 1);
      StepKeeps(ms[k - 1], cs[k - 1], ms[k], ms[0].free);
    }
  }

  /** Once everything is freed, exactly the pages of the start are free again. */
  lemma FreeingAllRestores(ms: seq<Memory>, cs: seq<Call>)
    requires Run(ms, cs) && ms[0].grants == [] && ms[|cs|].grants == []
    ensures ms[|cs|].free == ms[0].free
  {
    RunKeeps(ms, cs, |cs|);
    assert forall p :: !Owned(ms[|cs|], p);
  }
}
