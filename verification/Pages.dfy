/** The page allocator (kernel/memory.c): a bitmap filled in two passes over the firmware's
    memory map, and first-fit runs on it. A set bit is a page in use. */
module Pages {
  import opened Bytes
  import opened PagesSpec

  const BITMAP_SIZE: nat := 0x2_0000

  // ----- the bitmap as a set of pages -----

  ghost predicate IsFree(bits: seq<byte>, p: nat)
    requires |bits| == BITMAP_SIZE
  {
    p < PAGES && !Bit(bits[p / 8], p % 8)
  }

  /** `free` is the set of pages whose bits are clear. */
  ghost predicate Agrees(bits: seq<byte>, free: set<nat>) {
    && |bits| == BITMAP_SIZE
    && forall p: nat {:trigger IsFree(bits, p)} :: IsFree(bits, p) <==> p in free
  }

  lemma SetBit(bits: seq<byte>, free: set<nat>, p: nat)
    requires Agrees(bits, free) && p < PAGES
    ensures Agrees(bits[p / 8 := SetIn(bits[p / 8], p % 8)], free - {p})
  {
    var now := bits[p / 8 := SetIn(bits[p / 8], p % 8)];
    forall q: nat ensures IsFree(now, q) <==> q in free - {p} {
      if q < PAGES { OneBit(bits[p / 8], p % 8, q % 8); }
      assert IsFree(bits, q) <==> q in free;
    }
  }

  lemma ClearBit(bits: seq<byte>, free: set<nat>, p: nat)
    requires Agrees(bits, free) && p < PAGES
    ensures Agrees(bits[p / 8 := ClearIn(bits[p / 8], p % 8)], free + {p})
  {
    var now := bits[p / 8 := ClearIn(bits[p / 8], p % 8)];
    forall q: nat ensures IsFree(now, q) <==> q in free + {p} {
      if q < PAGES { OneBit(bits[p / 8], p % 8, q % 8); }
      assert IsFree(bits, q) <==> q in free;
    }
  }

  lemma ReportedPages(memUpper: u32, p: nat)
    ensures var top := 0x10_0000 + memUpper * 1024;
      p in PageRange(0x100, (if top > FOUR_GIB then FOUR_GIB else top) / PAGE_SIZE) <==> Reported(memUpper, p)
  {
    var top := 0x10_0000 + memUpper * 1024;
    InRange(0x100, (if top > FOUR_GIB then FOUR_GIB else top) / PAGE_SIZE, p);
  }

  /** `now` is `was` with, or without, the pages from `from` up to `end`. */
  ghost predicate Plus(now: set<nat>, was: set<nat>, from: nat, end: nat) {
    forall q :: q in now <==> q in was || from <= q < end
  }

  ghost predicate Minus(now: set<nat>, was: set<nat>, from: nat, end: nat) {
    forall q :: q in now <==> q in was && !(from <= q < end)
  }

  lemma PlusIs(now: set<nat>, was: set<nat>, from: nat, end: nat)
    requires Plus(now, was, from, end)
    ensures now == was + PageRange(from, end)
  {
    forall q: nat
      ensures q in PageRange(from, end) <==> from <= q < end
    {
      InRange(from, end, q);
    }
  }

  lemma MinusIs(now: set<nat>, was: set<nat>, from: nat, end: nat)
    requires Minus(now, was, from, end)
    ensures now == was - PageRange(from, end)
  {
    forall q: nat
      ensures q in PageRange(from, end) <==> from <= q < end
    {
      InRange(from, end, q);
    }
  }

  class PhysicalMemory {
    const bitmap: array<byte>
    var totalKb: nat
    var freePages: nat
    var totalPages: nat
    ghost var free: set<nat>

    /** The bitmap stands for `free`, and the counter is its size. */
    ghost predicate Valid()
      reads this, bitmap
    {
      Agrees(bitmap[..], free) && freePages == |free|
    }

    constructor ()
      ensures bitmap.Length == BITMAP_SIZE && fresh(bitmap)
    {
      bitmap := new byte[BITMAP_SIZE];
      totalKb, freePages, totalPages, free := 0, 0, 0, {};
    }

    // ----- single pages -----

    method BitmapSet(p: nat)
      requires Agrees(bitmap[..], free) && p < PAGES
      modifies this`free, bitmap
      ensures Agrees(bitmap[..], free) && free == old(free) - {p}
    {
      SetBit(bitmap[..], free, p);
      ghost var was := bitmap[..];
      bitmap[p / 8] := SetIn(bitmap[p / 8], p % 8);
      assert bitmap[..] == was[p / 8 := SetIn(was[p / 8], p % 8)];
      free := free - {p};
    }

    method BitmapClear(p: nat)
      requires Agrees(bitmap[..], free) && p < PAGES
      modifies this`free, bitmap
      ensures Agrees(bitmap[..], free) && free == old(free) + {p}
    {
      ClearBit(bitmap[..], free, p);
      ghost var was := bitmap[..];
      bitmap[p / 8] := ClearIn(bitmap[p / 8], p % 8);
      assert bitmap[..] == was[p / 8 := ClearIn(was[p / 8], p % 8)];
      free := free + {p};
    }

    method BitmapTest(p: nat) returns (used: bool)
      requires Agrees(bitmap[..], free) && p < PAGES
      ensures used <==> p !in free
    {
      used := Bit(bitmap[p / 8], p % 8);
      assert !used <==> IsFree(bitmap[..], p);
    }

    method FreePage(p: nat)
      requires Valid() && p < PAGES
      modifies this`free, this`freePages, this`totalPages, bitmap
      ensures Valid() && Plus(free, old(free), p, p + 1)
      ensures totalPages - freePages == old(totalPages - freePages)
    {
      var used := BitmapTest(p);
      if used {
        BitmapClear(p);
        freePages := freePages + 1;
        totalPages := totalPages + 1;
      }
    }

    method TakePage(p: nat)
      requires Valid() && p < PAGES && totalPages == freePages
      modifies this`free, this`freePages, this`totalPages, bitmap
      ensures Valid() && Minus(free, old(free), p, p + 1) && totalPages == freePages
    {
      var used := BitmapTest(p);
      ghost var was := free;
      if !used {
        BitmapSet(p);
        assert was == (was - {p}) + {p};
        freePages := freePages - 1;
        totalPages := totalPages - 1;
      }
    }

    // ----- start-up -----

    method FreeRange(start: nat, end: nat)
      requires Valid() && end <= PAGES
      modifies this`free, this`freePages, this`totalPages, bitmap
      ensures Valid() && Plus(free, old(free), start, end)
      ensures totalPages - freePages == old(totalPages - freePages)
    {
      var p := start;
      while p < end
        invariant start <= p && (p <= end || p == start) && Valid()
        invariant totalPages - freePages == old(totalPages - freePages)
        invariant Plus(free, old(free), start, p)
      {
        FreePage(p);
        p := p + 1;
      }
    }

    method TakeRange(start: nat, end: nat)
      requires Valid() && end <= PAGES && totalPages == freePages
      modifies this`free, this`freePages, this`totalPages, bitmap
      ensures Valid() && Minus(free, old(free), start, end) && totalPages == freePages
    {
      var p := start;
      while p < end
        invariant start <= p && (p <= end || p == start) && Valid() && totalPages == freePages
        invariant Minus(free, old(free), start, p)
      {
        TakePage(p);
        p := p + 1;
      }
    }

    /** Frees the pages of an available entry, or takes those of another one out again. */
    method MarkEntry(e: Entry)
      requires Valid() && Counts(e) && totalPages == freePages
      modifies this`free, this`freePages, this`totalPages, bitmap
      ensures Valid() && totalPages == freePages
      ensures free == Marked(e, old(free))
    {
      var start, end := PageStart(e), PageEnd(e);
      PageBounds(e, 0);
      if end > PAGES { end := PAGES; }
      if e.available {
        FreeRange(start, end);
        PlusIs(free, old(free), start, end);
      } else {
        TakeRange(start, end);
        MinusIs(free, old(free), start, end);
      }
    }

    /** Checks that every entry of the map lies inside it. */
    method CheckMap(raw: seq<byte>) returns (ok: bool)
      ensures ok <==> WellFormedMap(raw, 0)
    {
      var cursor := 0;
      while cursor < |raw|
        invariant 0 <= cursor <= |raw|
        invariant WellFormedMap(raw, 0) <==> WellFormedMap(raw, cursor)
        decreases |raw| - cursor
      {
        if |raw| - cursor < 4 || Le32(raw, cursor) < 20 || Le32(raw, cursor) > |raw| - cursor - 4 {
          return false;
        }
        cursor := cursor + Le32(raw, cursor) + 4;
      }
      return true;
    }

    method VisitEntry(e: Entry, available: bool)
      requires Valid() && totalPages == freePages
      modifies this, bitmap
      ensures Valid() && totalPages == freePages
      ensures free == if e.available == available && Counts(e) then Marked(e, old(free)) else old(free)
      ensures totalKb ==
        if available && e.available && Counts(e) && Top(e) / 1024 > old(totalKb) then Top(e) / 1024 else old(totalKb)
    {
      if e.available == available && Counts(e) {
        if available && Top(e) / 1024 > totalKb { totalKb := Top(e) / 1024; }
        MarkEntry(e);
      }
    }

    /** One pass over a checked map. */
    method WalkMap(raw: seq<byte>, available: bool)
      requires Valid() && WellFormedMap(raw, 0) && totalPages == freePages
      modifies this, bitmap
      ensures Valid() && totalPages == freePages
      ensures free == Pass(EntriesOf(raw, 0), available, old(free))
      ensures totalKb == if available then TotalKb(EntriesOf(raw, 0), old(totalKb)) else old(totalKb)
    {
      ghost var was, kb := free, totalKb;
      var at := 0;
      while at < |raw|
        invariant 0 <= at <= |raw| && WellFormedMap(raw, at)
        invariant Valid() && totalPages == freePages
        invariant Pass(EntriesOf(raw, 0), available, was) == Pass(EntriesOf(raw, at), available, free)
        invariant available ==> TotalKb(EntriesOf(raw, 0), kb) == TotalKb(EntriesOf(raw, at), totalKb)
        invariant !available ==> totalKb == kb
        decreases |raw| - at
      {
        var next := at + Le32(raw, at) + 4;
        EntryVisited(raw, at, next, available, free, totalKb);
        VisitEntry(EntryAt(raw, at), available);
        at := next;
      }
    }

    /** The pass over the entries from `at` on visits the entry at `at` first. */
    static lemma EntryVisited(raw: seq<byte>, at: nat, next: nat, available: bool, free: set<nat>, kb: nat)
      requires at < |raw| && WellFormedMap(raw, at) && next == at + Le32(raw, at) + 4
      ensures WellFormedMap(raw, next) && next <= |raw|
      ensures var e := EntryAt(raw, at);
        && Pass(EntriesOf(raw, at), available, free)
             == Pass(EntriesOf(raw, next), available,
                     if e.available == available && Counts(e) then Marked(e, free) else free)
        && TotalKb(EntriesOf(raw, at), kb)
             == TotalKb(EntriesOf(raw, next),
                        if e.available && Counts(e) && Top(e) / 1024 > kb then Top(e) / 1024 else kb)
    {
      var es := EntriesOf(raw, at);
      assert es[0] == EntryAt(raw, at) && es[1..] == EntriesOf(raw, next);
    }

    /** Without a map: memory from 1 MiB to the reported top. */
    method FreeReported(memUpper: u32)
      requires Valid() && totalPages == freePages && free == {} && memUpper != 0
      modifies this`free, this`freePages, this`totalPages, bitmap
      ensures Valid() && totalPages == freePages
      ensures forall p: nat :: p in free <==> Reported(memUpper, p)
    {
      var start := 0x10_0000 / PAGE_SIZE;
      var top := 0x10_0000 + memUpper * 1024;
      if top > FOUR_GIB { top := FOUR_GIB; }
      var end := top / PAGE_SIZE;
      FreeRange(start, end);
      PlusIs(free, old(free), start, end);
      forall p: nat ensures p in PageRange(start, end) <==> Reported(memUpper, p) {
        ReportedPages(memUpper, p);
      }
    }

    method ReservePage(p: nat)
      requires Valid() && p < PAGES
      modifies this`free, this`freePages, bitmap
      ensures Valid() && Minus(free, old(free), p, p + 1)
    {
      var used := BitmapTest(p);
      ghost var was := free;
      if !used {
        BitmapSet(p);
        assert was == (was - {p}) + {p};
        if freePages != 0 { freePages := freePages - 1; }
      }
    }

    /** Takes the pages below the end of the kernel. */
    method ReserveKernel(endPage: nat)
      requires Valid() && endPage <= PAGES
      modifies this`free, this`freePages, bitmap
      ensures Valid() && free == old(free) - PageRange(0, endPage)
    {
      var p := 0;
      while p < endPage
        invariant 0 <= p <= endPage && Valid()
        invariant Minus(free, old(free), 0, p)
      {
        ReservePage(p);
        p := p + 1;
      }
      MinusIs(free, old(free), 0, endPage);
    }

    /** Every page in use. */
    method MarkAllUsed()
      requires bitmap.Length == BITMAP_SIZE
      modifies this, bitmap
      ensures Valid() && free == {} && totalPages == freePages == 0 && totalKb == 0
    {
      Kmemset(bitmap, 0, 0xFF, BITMAP_SIZE);
      totalKb, freePages, totalPages, free := 0, 0, 0, {};
      forall p: nat ensures !IsFree(bitmap[..], p) {
        AllOnes(p % 8);
        assert p < PAGES ==> bitmap[..][p / 8] == 0xFF;
      }
    }

    /** Sets the allocator up; no boot information at all is the same as none of its flags set.
        A page is free exactly when it is usable memory and above the kernel. */
    method Init(info: BootInfo, kernelEnd: u32)
      requires bitmap.Length == BITMAP_SIZE && kernelEnd <= 0x50_0000
      modifies this, bitmap
      ensures Valid() && totalKb == TotalMemory(info)
      ensures forall p: nat :: p in free <==> UsableRam(info, p) && kernelEnd <= p * PAGE_SIZE
    {
      MarkAllUsed();
      if info.hasMem {
        totalKb := if 1024 + info.memUpper > 0x40_0000 then 0x40_0000 else 1024 + info.memUpper;
      }
      if info.hasMap {
        var ok := CheckBounds(info);
        if !ok {
          totalKb := 0;
          return;
        }
        ReadMap(info);
      } else if info.hasMem && info.memUpper != 0 {
        FreeReported(info.memUpper);
      }
      var endPage := (kernelEnd + PAGE_SIZE - 1) / PAGE_SIZE;
      ReserveKernel(endPage);
      RangeIs(0, endPage);
    }

    method CheckBounds(info: BootInfo) returns (ok: bool)
      ensures ok <==> !MapRefused(info)
    {
      if info.mapAddr == 0 || |info.map_| == 0 || |info.map_| > 0x10_0000
         || |info.map_| > 0xFFFF_FFFF - info.mapAddr {
        return false;
      }
      ok := CheckMap(info.map_);
    }

    /** Both passes; the entries that are not memory have the last word. */
    method ReadMap(info: BootInfo)
      requires Valid() && free == {} && totalPages == freePages && info.hasMap && !MapRefused(info)
      modifies this, bitmap
      ensures Valid() && totalKb == TotalKb(EntriesOf(info.map_, 0), old(totalKb))
      ensures forall p: nat :: p in free <==> UsableRam(info, p)
    {
      ghost var es := EntriesOf(info.map_, 0);
      WalkMap(info.map_, true);
      ghost var granted := free;
      WalkMap(info.map_, false);
      forall p: nat ensures p in free <==> UsableRam(info, p) {
        PassMeaning(es, {}, p);
        PassMeaning(es, granted, p);
      }
    }

    // ----- runs -----

    /** Gives out the lowest run of free pages above 16 MiB, or nothing when there is none. */
    method AllocPages(pages: u32) returns (addr: nat)
      requires Valid()
      modifies this`free, this`freePages, bitmap
      ensures Valid()
      ensures addr == 0 ==> free == old(free) && (pages == 0 || forall f: nat :: !IsRun(free, f, pages))
      ensures addr != 0 ==>
        && pages > 0 && addr % PAGE_SIZE == 0 && addr < FOUR_GIB && LowestRun(old(free), addr / PAGE_SIZE, pages)
        && free == old(free) - PageRange(addr / PAGE_SIZE, addr / PAGE_SIZE + pages)
    {
      if pages == 0 { return 0; }
      if pages > freePages {
        NoRunLargerThanFree(free, pages);
        return 0;
      }
      var run: nat := 0;
      var p := FIRST_ALLOC;
      while p < PAGES
        invariant FIRST_ALLOC <= p <= PAGES && run < pages && Scanned(free, p, run, pages)
        invariant Valid() && free == old(free)
      {
        var used := BitmapTest(p);
        ScanStep(free, p, run, pages);
        run := if used then 0 else run + 1;
        if run == pages {
          var first := p + 1 - pages;
          ghost var was := free;
          TakeRun(first, pages);
          return first * PAGE_SIZE;
        }
        p := p + 1;
      }
      return 0;
    }

    method TakeRun(first: nat, pages: nat)
      requires Valid() && IsRun(free, first, pages) && pages <= freePages
      modifies this`free, this`freePages, bitmap
      ensures Valid() && free == old(free) - PageRange(first, first + pages)
    {
      ghost var was := free;
      SetRange(first, pages);
      RunTaken(was, first, pages);
      freePages := freePages - pages;
    }

    method SetRange(first: nat, pages: nat)
      requires Agrees(bitmap[..], free) && first + pages <= PAGES
      modifies this`free, bitmap
      ensures Agrees(bitmap[..], free) && free == old(free) - PageRange(first, first + pages)
    {
      var i := 0;
      while i < pages
        invariant 0 <= i <= pages && Agrees(bitmap[..], free)
        invariant Minus(free, old(free), first, first + i)
      {
        BitmapSet(first + i);
        i := i + 1;
      }
      MinusIs(free, old(free), first, first + pages);
    }

    method ClearPage(p: nat)
      requires Valid() && p < PAGES
      modifies this`free, this`freePages, bitmap
      ensures Valid() && Plus(free, old(free), p, p + 1)
    {
      var used := BitmapTest(p);
      if used {
        BitmapClear(p);
        freePages := freePages + 1;
      }
    }

    method ClearRange(first: nat, end: nat)
      requires Valid() && first <= end <= PAGES
      modifies this`free, this`freePages, bitmap
      ensures Valid() && Plus(free, old(free), first, end)
    {
      var p := first;
      while p < end
        invariant first <= p <= end && Valid()
        invariant Plus(free, old(free), first, p)
      {
        ClearPage(p);
        p := p + 1;
      }
    }

    /** Frees a run; an address below 16 MiB or inside a page, or a run past the end, is ignored. */
    method FreePages(addr: u32, pages: u32)
      requires Valid()
      modifies this`free, this`freePages, bitmap
      ensures Valid()
      ensures
        var first := addr / PAGE_SIZE;
        free == if addr < FIRST_ALLOC * PAGE_SIZE || addr % PAGE_SIZE != 0 || pages == 0 || first + pages > PAGES
                then old(free) else old(free) + PageRange(first, first + pages)
    {
      var first := addr / PAGE_SIZE;
      if addr < 0x100_0000 || addr % PAGE_SIZE != 0 || pages == 0 || pages > BITMAP_SIZE * 8 - first { return; }
      ClearRange(first, first + pages);
      PlusIs(free, old(free), first, first + pages);
    }

    /** Freeing what was just allocated gives back the free pages, their number and the bitmap, byte
        for byte. */
    method AllocThenFree(pages: u32) returns (addr: nat)
      requires Valid()
      modifies this`free, this`freePages, bitmap
      ensures Valid() && free == old(free) && freePages == old(freePages) && bitmap[..] == old(bitmap[..])
      ensures addr == 0 <==> pages == 0 || forall f: nat :: !IsRun(free, f, pages)
    {
      addr := AllocPages(pages);
      if addr != 0 {
        assert IsRun(old(free), addr / PAGE_SIZE, pages);
        FreePages(addr, pages);
        Regained(old(free), PageRange(addr / PAGE_SIZE, addr / PAGE_SIZE + pages));
      }
      BitmapDetermined(bitmap[..], old(bitmap[..]), free);
    }
  }

  lemma Regained(free: set<nat>, run: set<nat>)
    requires run <= free
    ensures (free - run) + run == free
  {
  }

  /** The free pages determine the bitmap. */
  lemma BitmapDetermined(a: seq<byte>, b: seq<byte>, free: set<nat>)
    requires Agrees(a, free) && Agrees(b, free)
    ensures a == b
  {
    forall i | 0 <= i < BITMAP_SIZE
      ensures a[i] == b[i]
    {
      forall k: nat | k < 8
        ensures Bit(a[i], k) == Bit(b[i], k)
      {
        var p := 8 * i + k;
        assert p / 8 == i && p % 8 == k && p < PAGES;
        assert IsFree(a, p) <==> IsFree(b, p);
      }
      SameBits(8, a[i], b[i]);
    }
  }

  /** Scanning up to `p`: no run ends by `p`, and the last `run` pages are free and no more. */
  ghost predicate Scanned(free: set<nat>, p: nat, run: nat, pages: nat) {
    && FIRST_ALLOC + run <= p
    && (forall q | p - run <= q < p :: q in free)
    && (p - run == FIRST_ALLOC || p - run - 1 !in free)
    && (forall f: nat | f + pages <= p :: !IsRun(free, f, pages))
  }

  lemma ScanStep(free: set<nat>, p: nat, run: nat, pages: nat)
    requires p < PAGES && run < pages && Scanned(free, p, run, pages)
    ensures p !in free ==> Scanned(free, p + 1, 0, pages)
    ensures p in free && run + 1 < pages ==> Scanned(free, p + 1, run + 1, pages)
    ensures p in free && run + 1 == pages ==> LowestRun(free, p + 1 - pages, pages)
  {
    forall f: nat | f + pages == p + 1 && (p !in free || run + 1 < pages) ensures !IsRun(free, f, pages) {
      RangeIs(f, f + pages);
      if p in free && f >= FIRST_ALLOC {
        assert p - run - 1 in PageRange(f, f + pages);
      }
    }
    if p in free && run + 1 == pages {
      RangeIs(p + 1 - pages, p + 1);
      assert IsRun(free, p + 1 - pages, pages);
    }
  }

  lemma NoRunLargerThanFree(free: set<nat>, pages: nat)
    requires pages > |free|
    ensures forall f: nat :: !IsRun(free, f, pages)
  {
    forall f: nat ensures !IsRun(free, f, pages) {
      if IsRun(free, f, pages) { RunFits(free, f, pages); }
    }
  }

  lemma RunTaken(free: set<nat>, first: nat, pages: nat)
    requires IsRun(free, first, pages)
    ensures |free - PageRange(first, first + pages)| == |free| - pages
  {
    RangeSize(first, first + pages);
    FreeSplit(free, PageRange(first, first + pages));
  }

  lemma FreeSplit(free: set<nat>, run: set<nat>)
    requires run <= free
    ensures |free - run| == |free| - |run|
  {
    assert (free - run) + run == free;
  }
}
