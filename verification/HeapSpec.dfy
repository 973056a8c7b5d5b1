/** The kernel heap as a row of blocks (kernel/memory.c). */
module HeapSpec {
  import opened Bytes

  const HEAP_SIZE: nat := 2 * 1024 * 1024
  const HEADER: nat := 20
  const HEAP_MAGIC: u32 := 0xDEADBEEF

  datatype Block = Block(addr: nat, size: nat, free: bool) {
    /** Where the caller's bytes start. */
    function Payload(): nat { addr + HEADER }
    function End(): nat { addr + HEADER + size }
  }

  /** Block `i` ends where the next begins. */
  predicate Abuts(bs: seq<Block>, i: nat)
    requires i + 1 < |bs|
  {
    bs[i + 1].addr == bs[i].End()
  }

  /** The blocks cover `[lo, hi)` exactly, in order, with no gap. */
  ghost predicate Tiles(bs: seq<Block>, lo: nat, hi: nat) {
    && bs != []
    && bs[0].addr == lo
    && bs[|bs| - 1].End() == hi
    && forall i | 0 <= i < |bs| - 1 :: Abuts(bs, i)
  }

  predicate BothFree(bs: seq<Block>, i: nat)
    requires i + 1 < |bs|
  {
    bs[i].free && bs[i + 1].free
  }

  ghost predicate Coalesced(bs: seq<Block>) {
    forall i | 0 <= i < |bs| - 1 :: !BothFree(bs, i)
  }

  ghost predicate Ordered(bs: seq<Block>, lo: nat, hi: nat) {
    && (forall i | 0 <= i < |bs| :: lo <= bs[i].addr && bs[i].End() <= hi)
    && (forall i, j | 0 <= i < j < |bs| :: bs[i].End() <= bs[j].addr)
  }

  lemma {:induction false} TilesOrdered(bs: seq<Block>, lo: nat, hi: nat)
    requires Tiles(bs, lo, hi)
    ensures Ordered(bs, lo, hi)
  {
    if |bs| > 1 {
      var rest := bs[1..];
      assert Abuts(bs, 0);
      forall i | 0 <= i < |rest| - 1
        ensures Abuts(rest, i)
      {
        assert Abuts(bs, i + 1);
      }
      TilesOrdered(rest, bs[1].addr, hi);
      assert forall i | 1 <= i < |bs| :: bs[i] == rest[i - 1];
    }
  }

  /** The order of two given blocks. */
  lemma InOrder(bs: seq<Block>, lo: nat, hi: nat, i: nat, j: nat)
    requires Tiles(bs, lo, hi) && i < |bs| && j < |bs|
    ensures i < j ==> bs[i].End() <= bs[j].addr
    ensures lo <= bs[i].addr && bs[i].End() <= hi
  {
    TilesOrdered(bs, lo, hi);
  }

  // ----- allocation -----

  /** Rounds up to a multiple of eight in 32-bit arithmetic. */
  function Round8(size: u32): u32 {
    Add32(size, 7) / 8 * 8
  }

  /** The rounded size covers the request unless the rounding wraps to zero. */
  lemma Round8Covers(size: u32)
    ensures Round8(size) >= size <==> size <= 0xFFFF_FFF8
    ensures size > 0xFFFF_FFF8 ==> Round8(size) == 0
    ensures Round8(size) % 8 == 0 && Round8(size) < size + 8
  {
  }

  predicate Fits(b: Block, size: nat) {
    b.free && b.size >= size
  }

  /** The first block that can hold `size` bytes, or -1. */
  function FirstFit(bs: seq<Block>, size: nat): (k: int)
    ensures -1 <= k < |bs|
    ensures k >= 0 ==> Fits(bs[k], size)
    ensures forall j | 0 <= j < (if k < 0 then |bs| else k) :: !Fits(bs[j], size)
  {
    if bs == [] then -1 else
    var k := FirstFit(bs[..|bs| - 1], size);
    if k >= 0 then k else if Fits(bs[|bs| - 1], size) then |bs| - 1 else -1
  }

  /** It is the first free block of that many bytes, and there is none exactly when all free blocks
      are smaller. */
  lemma FirstFitIs(bs: seq<Block>, size: nat, k: nat)
    ensures FirstFit(bs, size) < 0 <==> forall i | 0 <= i < |bs| && bs[i].free :: bs[i].size < size
    ensures k < |bs| ==>
      (FirstFit(bs, size) == k <==>
         bs[k].free && bs[k].size >= size && forall i | 0 <= i < k && bs[i].free :: bs[i].size < size)
  {
    var f := FirstFit(bs, size);
    assert f >= 0 ==> Fits(bs[f], size);
    assert forall j | 0 <= j < (if f < 0 then |bs| else f) :: !Fits(bs[j], size);
  }

  predicate Splits(b: Block, size: nat) {
    b.size >= size + HEADER + 8
  }

  /** Block `i` allocated: split when the rest can be a block of its own. */
  function Allocated(bs: seq<Block>, i: nat, size: nat): seq<Block>
    requires i < |bs| && Fits(bs[i], size)
  {
    var b := bs[i];
    if Splits(b, size) then
      bs[..i] + [Block(b.addr, size, false), Block(b.addr + HEADER + size, b.size - size - HEADER, true)] + bs[i + 1..]
    else bs[i := b.(free := false)]
  }

  /** Blocks `i` and `i + 1` joined. */
  function Joined(bs: seq<Block>, i: nat): seq<Block>
    requires i + 1 < |bs|
  {
    bs[..i] + [bs[i].(size := bs[i].size + HEADER + bs[i + 1].size)] + bs[i + 2..]
  }

  function MergedNext(bs: seq<Block>, i: nat): seq<Block>
    requires i < |bs|
  {
    if i + 1 < |bs| && bs[i + 1].free then Joined(bs, i) else bs
  }

  function MergedPrev(bs: seq<Block>, i: nat): seq<Block>
    requires i < |bs|
  {
    if i > 0 && bs[i - 1].free then Joined(bs, i - 1) else bs
  }

  /** Block `i` released and merged with its free neighbours. */
  function Released(bs: seq<Block>, i: nat): seq<Block>
    requires i < |bs|
  {
    MergedPrev(MergedNext(bs[i := bs[i].(free := true)], i), i)
  }

  // ----- what they keep -----

  lemma JoinedTiles(bs: seq<Block>, i: nat, lo: nat, hi: nat)
    requires Tiles(bs, lo, hi) && i + 1 < |bs|
    ensures Tiles(Joined(bs, i), lo, hi)
  {
    var js := Joined(bs, i);
    assert Abuts(bs, i);
    forall k | 0 <= k < |js| - 1
      ensures Abuts(js, k)
    {
      assert Abuts(bs, if k < i then k else k + 1);
    }
  }

  lemma AllocatedKeeps(bs: seq<Block>, i: nat, size: nat, lo: nat, hi: nat)
    requires Tiles(bs, lo, hi) && Coalesced(bs) && i < |bs| && Fits(bs[i], size)
    ensures Tiles(Allocated(bs, i, size), lo, hi) && Coalesced(Allocated(bs, i, size))
  {
    var cs := Allocated(bs, i, size);
    var extra := |cs| - |bs|;
    forall k | 0 <= k < |cs| - 1
      ensures Abuts(cs, k) && !BothFree(cs, k)
    {
      if k < i {
        assert Abuts(bs, k) && !BothFree(bs, k);
      } else if k >= i + extra {
        assert Abuts(bs, k - extra) && !BothFree(bs, k - extra);
      }
    }
  }

  /** No two neighbours are free, except perhaps a pair that `i` belongs to. */
  ghost predicate CoalescedBut(bs: seq<Block>, i: nat) {
    forall k | 0 <= k < |bs| - 1 && k != i && k + 1 != i :: !BothFree(bs, k)
  }

  lemma SetFreeTiles(bs: seq<Block>, i: nat, free: bool, lo: nat, hi: nat)
    requires Tiles(bs, lo, hi) && i < |bs|
    ensures Tiles(bs[i := bs[i].(free := free)], lo, hi)
  {
    var fs := bs[i := bs[i].(free := free)];
    forall k | 0 <= k < |fs| - 1
      ensures Abuts(fs, k)
    {
      assert Abuts(bs, k);
    }
  }

  lemma ReleasedKeeps(bs: seq<Block>, i: nat, lo: nat, hi: nat)
    requires Tiles(bs, lo, hi) && Coalesced(bs) && i < |bs| && !bs[i].free
    ensures Tiles(Released(bs, i), lo, hi) && Coalesced(Released(bs, i))
  {
    var fs := bs[i := bs[i].(free := true)];
    SetFreeTiles(bs, i, true, lo, hi);
    forall k | 0 <= k < |fs| - 1 && k != i && k + 1 != i
      ensures !BothFree(fs, k)
    {
      assert !BothFree(bs, k);
    }
    MergedNextKeeps(fs, i, lo, hi);
    MergedPrevKeeps(MergedNext(fs, i), i, lo, hi);
  }

  lemma MergedNextKeeps(bs: seq<Block>, i: nat, lo: nat, hi: nat)
    requires Tiles(bs, lo, hi) && CoalescedBut(bs, i) && i < |bs| && bs[i].free
    ensures var ns := MergedNext(bs, i);
      && Tiles(ns, lo, hi) && CoalescedBut(ns, i) && i < |ns| && ns[i].free
      && (i + 1 < |ns| ==> !ns[i + 1].free)
  {
    var ns := MergedNext(bs, i);
    if ns != bs {
      JoinedTiles(bs, i, lo, hi);
      assert i + 2 < |bs| ==> !BothFree(bs, i + 1);
      forall k | 0 <= k < |ns| - 1 && k != i && k + 1 != i
        ensures !BothFree(ns, k)
      {
        assert !BothFree(bs, if k < i then k else k + 1);
      }
    }
  }

  lemma MergedPrevKeeps(bs: seq<Block>, i: nat, lo: nat, hi: nat)
    requires Tiles(bs, lo, hi) && CoalescedBut(bs, i) && i < |bs| && bs[i].free
    requires i + 1 < |bs| ==> !bs[i + 1].free
    ensures Tiles(MergedPrev(bs, i), lo, hi) && Coalesced(MergedPrev(bs, i))
  {
    var ps := MergedPrev(bs, i);
    if i > 0 && bs[i - 1].free {
      JoinedTiles(bs, i - 1, lo, hi);
      forall k | 0 <= k < |ps| - 1
        ensures !BothFree(ps, k)
      {
        if k + 1 < i {
          assert !BothFree(bs, k);
        } else if k >= i {
          assert !BothFree(bs, k + 1);
        }
      }
    } else {
      forall k | 0 <= k < |bs| - 1
        ensures !BothFree(bs, k)
      {
      }
    }
  }

  /** Releasing what was just allocated restores the block list exactly. */
  lemma ReleaseUndoesAllocate(bs: seq<Block>, i: nat, size: nat)
    requires Coalesced(bs) && i < |bs| && Fits(bs[i], size)
    ensures Released(Allocated(bs, i, size), i) == bs
  {
    var cs := Allocated(bs, i, size);
    assert i > 0 ==> cs[i - 1] == bs[i - 1] && !BothFree(bs, i - 1);
    if Splits(bs[i], size) {
      assert cs[i + 2..] == bs[i + 1..];
    } else if i + 1 < |bs| {
      assert cs[i + 1] == bs[i + 1] && !BothFree(bs, i);
    }
  }

  /** The blocks callers hold. */
  ghost function Live(bs: seq<Block>): set<Block> {
    set i | 0 <= i < |bs| && !bs[i].free :: bs[i]
  }

  /** Allocation adds one live block of at least the size asked for and keeps the others as they are. */
  lemma AllocatedLive(bs: seq<Block>, i: nat, size: nat)
    requires i < |bs| && Fits(bs[i], size)
    ensures var b := Allocated(bs, i, size)[i];
      !b.free && b.addr == bs[i].addr && size <= b.size < size + HEADER + 8
      && Live(Allocated(bs, i, size)) == Live(bs) + {b}
  {
    var cs := Allocated(bs, i, size);
    assert !cs[i].free;
    forall b | b in Live(bs)
      ensures b in Live(cs)
    {
      var k :| 0 <= k < |bs| && !bs[k].free && bs[k] == b;
      assert cs[if k < i then k else k + |cs| - |bs|] == b;
    }
    forall b | b in Live(cs) && b != cs[i]
      ensures b in Live(bs)
    {
      var k :| 0 <= k < |cs| && !cs[k].free && cs[k] == b;
      assert bs[if k < i then k else k + |bs| - |cs|] == b;
    }
  }

  /** Release removes one live block and keeps the others as they are. */
  lemma ReleasedLive(bs: seq<Block>, i: nat, lo: nat, hi: nat)
    requires Tiles(bs, lo, hi) && i < |bs| && !bs[i].free
    ensures Live(Released(bs, i)) == Live(bs) - {bs[i]}
  {
    TilesOrdered(bs, lo, hi);
    var fs := bs[i := bs[i].(free := true)];
    assert Live(fs) == Live(bs) - {bs[i]} by {
      forall b | b in Live(bs) && b != bs[i]
        ensures b in Live(fs)
      {
        var k :| 0 <= k < |bs| && !bs[k].free && bs[k] == b;
        assert fs[k] == b;
      }
    }
    var ns := MergedNext(fs, i);
    if ns != fs { JoinedLive(fs, i); }
    if MergedPrev(ns, i) != ns { JoinedLive(ns, i - 1); }
  }

  lemma JoinedLive(bs: seq<Block>, i: nat)
    requires i + 1 < |bs| && bs[i].free && bs[i + 1].free
    ensures Live(Joined(bs, i)) == Live(bs)
  {
    var js := Joined(bs, i);
    forall b | b in Live(bs)
      ensures b in Live(js)
    {
      var k :| 0 <= k < |bs| && !bs[k].free && bs[k] == b;
      assert js[if k < i then k else k - 1] == b;
    }
    forall b | b in Live(js)
      ensures b in Live(bs)
    {
      var k :| 0 <= k < |js| && !js[k].free && js[k] == b;
      assert bs[if k < i then k else k + 1] == b;
    }
  }

  // ----- whole runs -----

  datatype Op = Malloc(size: u32) | Free(i: nat)

  ghost predicate CanDo(bs: seq<Block>, op: Op) {
    op.Free? ==> op.i < |bs| && !bs[op.i].free
  }

  /** One call; an allocation that finds no block changes nothing. */
  ghost function Do(bs: seq<Block>, op: Op): seq<Block>
    requires CanDo(bs, op)
  {
    match op
    case Malloc(size) =>
      var k := FirstFit(bs, Round8(size));
      if size == 0 || k < 0 then bs else Allocated(bs, k, Round8(size))
    case Free(i) => Released(bs, i)
  }

  /** A call that asks for nothing, or for more than any free block has, changes nothing; any other takes
      from the first free block that has enough. */
  lemma MallocIs(bs: seq<Block>, size: u32, k: nat)
    requires k < |bs|
    ensures size == 0 || (forall i | 0 <= i < |bs| && bs[i].free :: bs[i].size < Round8(size)) ==>
      Do(bs, Malloc(size)) == bs
    ensures size > 0 && bs[k].free && bs[k].size >= Round8(size)
            && (forall i | 0 <= i < k && bs[i].free :: bs[i].size < Round8(size)) ==>
      Do(bs, Malloc(size)) == Allocated(bs, k, Round8(size))
  {
    FirstFitIs(bs, Round8(size), k);
  }

  ghost predicate IsRun(bs: seq<Block>, ops: seq<Op>)
    decreases |ops|
  {
    ops != [] ==> CanDo(bs, ops[0]) && IsRun(Do(bs, ops[0]), ops[1..])
  }

  ghost function RunOf(bs: seq<Block>, ops: seq<Op>): seq<Block>
    requires IsRun(bs, ops)
    decreases |ops|
  {
    if ops == [] then bs else RunOf(Do(bs, ops[0]), ops[1..])
  }

  lemma {:induction false} RunKeeps(bs: seq<Block>, ops: seq<Op>, lo: nat, hi: nat)
    requires Tiles(bs, lo, hi) && Coalesced(bs) && IsRun(bs, ops)
    ensures Tiles(RunOf(bs, ops), lo, hi) && Coalesced(RunOf(bs, ops))
    decreases |ops|
  {
    if ops != [] {
      match ops[0] {
        case Malloc(size) =>
          if size != 0 && FirstFit(bs, Round8(size)) >= 0 {
            AllocatedKeeps(bs, FirstFit(bs, Round8(size)), Round8(size), lo, hi);
          }
        case Free(i) => ReleasedKeeps(bs, i, lo, hi);
      }
      RunKeeps(Do(bs, ops[0]), ops[1..], lo, hi);
    }
  }

  lemma NeighboursHoldLive(bs: seq<Block>)
    requires Coalesced(bs) && |bs| > 1
    ensures Live(bs) != {}
  {
    assert !BothFree(bs, 0);
    assert (if bs[0].free then bs[1] else bs[0]) in Live(bs);
  }

  lemma NothingLiveIsOneBlock(bs: seq<Block>, lo: nat, hi: nat)
    requires Tiles(bs, lo, hi) && Coalesced(bs) && Live(bs) == {}
    ensures lo + HEADER <= hi && bs == [Block(lo, hi - lo - HEADER, true)]
  {
    assert forall i | 0 <= i < |bs| && !bs[i].free :: bs[i] in Live(bs);
    if |bs| > 1 {
      NeighboursHoldLive(bs);
    }
  }

  /** However allocations and releases were interleaved, once nothing is live the
      heap is one free block again. */
  lemma FreeingAllRestores(bs: seq<Block>, ops: seq<Op>, lo: nat, hi: nat)
    requires Tiles(bs, lo, hi) && Coalesced(bs) && IsRun(bs, ops)
    requires Live(RunOf(bs, ops)) == {}
    ensures lo + HEADER <= hi && RunOf(bs, ops) == [Block(lo, hi - lo - HEADER, true)]
  {
    RunKeeps(bs, ops, lo, hi);
    NothingLiveIsOneBlock(RunOf(bs, ops), lo, hi);
  }

  // ----- accounting -----

  function UsedBytes(bs: seq<Block>): nat {
    if bs == [] then 0 else UsedBytes(bs[..|bs| - 1]) + if bs[|bs| - 1].free then 0 else bs[|bs| - 1].size
  }

  function FreeBytes(bs: seq<Block>): nat {
    if bs == [] then 0 else FreeBytes(bs[..|bs| - 1]) + if bs[|bs| - 1].free then bs[|bs| - 1].size else 0
  }

  function LargestFree(bs: seq<Block>): (n: nat)
    ensures forall i | 0 <= i < |bs| && bs[i].free :: bs[i].size <= n
    ensures n == 0 || exists i | 0 <= i < |bs| :: bs[i].free && bs[i].size == n
  {
    if bs == [] then 0 else
    var n := LargestFree(bs[..|bs| - 1]);
    var b := bs[|bs| - 1];
    if b.free && b.size > n then b.size else n
  }

  datatype Stats = Stats(used: nat, free: nat, largest: nat, blocks: nat)

  function StatsOf(bs: seq<Block>): Stats {
    Stats(UsedBytes(bs), FreeBytes(bs), LargestFree(bs), |bs|)
  }

  /** Payload and headers account for every byte of the heap. */
  lemma {:induction false} BytesAccounted(bs: seq<Block>, lo: nat, hi: nat)
    requires Tiles(bs, lo, hi)
    ensures UsedBytes(bs) + FreeBytes(bs) + HEADER * |bs| == hi - lo
  {
    var k := |bs| - 1;
    if k > 0 {
      forall i | 0 <= i < k - 1
        ensures Abuts(bs[..k], i)
      {
        assert Abuts(bs, i);
      }
      assert Abuts(bs, k - 1);
      BytesAccounted(bs[..k], lo, bs[k].addr);
    } else {
      assert bs[..k] == [];
    }
  }

  // ----- what is used -----

  lemma {:induction false} UsedAppend(a: seq<Block>, b: seq<Block>)
    ensures UsedBytes(a + b) == UsedBytes(a) + UsedBytes(b)
    decreases |b|
  {
    if b == [] {
      assert a + b == a;
    } else {
      var n := |b| - 1;
      assert (a + b)[..|a + b| - 1] == a + b[..n] && (a + b)[|a + b| - 1] == b[n];
      UsedAppend(a, b[..n]);
    }
  }

  /** Replacing some blocks by others. */
  lemma UsedReplaced(bs: seq<Block>, i: nat, was: seq<Block>, now: seq<Block>, cs: seq<Block>)
    requires i + |was| <= |bs| && bs[i..i + |was|] == was && cs == bs[..i] + now + bs[i + |was|..]
    ensures UsedBytes(cs) == UsedBytes(bs) - UsedBytes(was) + UsedBytes(now)
  {
    var a, c := bs[..i], bs[i + |was|..];
    assert bs == a + was + c;
    UsedAppend(a + was, c);
    UsedAppend(a, was);
    UsedAppend(a + now, c);
    UsedAppend(a, now);
  }

  lemma UsedOfUpdate(bs: seq<Block>, i: nat, b: Block)
    requires i < |bs|
    ensures UsedBytes(bs[i := b]) ==
      UsedBytes(bs) - (if bs[i].free then 0 else bs[i].size) + if b.free then 0 else b.size
  {
    UsedReplaced(bs, i, [bs[i]], [b], bs[i := b]);
    UsedOfOne(bs[i]);
    UsedOfOne(b);
  }

  lemma UsedOfOne(b: Block)
    ensures UsedBytes([b]) == if b.free then 0 else b.size
  {
    assert [b][..0] == [];
  }

  lemma UsedOfTwo(b: Block, c: Block)
    ensures UsedBytes([b, c]) == (if b.free then 0 else b.size) + if c.free then 0 else c.size
  {
    UsedAppend([b], [c]);
    UsedOfOne(b);
    UsedOfOne(c);
    assert [b] + [c] == [b, c];
  }

  lemma JoinedUses(bs: seq<Block>, i: nat)
    requires i + 1 < |bs| && bs[i].free && bs[i + 1].free
    ensures UsedBytes(Joined(bs, i)) == UsedBytes(bs)
  {
    var b := bs[i].(size := bs[i].size + HEADER + bs[i + 1].size);
    UsedReplaced(bs, i, [bs[i], bs[i + 1]], [b], Joined(bs, i));
    UsedOfOne(b);
    UsedOfTwo(bs[i], bs[i + 1]);
  }

  lemma CutUses(bs: seq<Block>, i: nat, cut: Block, rest: Block, cs: seq<Block>)
    requires i < |bs| && bs[i].free && !cut.free && rest.free && cs == bs[..i] + [cut, rest] + bs[i + 1..]
    ensures UsedBytes(cs) == UsedBytes(bs) + cut.size
  {
    UsedReplaced(bs, i, [bs[i]], [cut, rest], cs);
    UsedOfOne(bs[i]);
    UsedOfTwo(cut, rest);
  }

  /** An allocation adds the bytes of the new block to those in use. */
  lemma AllocatedUses(bs: seq<Block>, i: nat, size: nat)
    requires i < |bs| && Fits(bs[i], size)
    ensures UsedBytes(Allocated(bs, i, size)) == UsedBytes(bs) + Allocated(bs, i, size)[i].size
  {
    var b := bs[i];
    if Splits(b, size) {
      var cut, rest := Block(b.addr, size, false), Block(b.addr + HEADER + size, b.size - size - HEADER, true);
      CutUses(bs, i, cut, rest, Allocated(bs, i, size));
      CutIff(bs, i, size);
    } else {
      UsedOfUpdate(bs, i, b.(free := false));
    }
  }

  /** A release takes the bytes of its block from them, and merging changes nothing. */
  lemma ReleasedUses(bs: seq<Block>, i: nat)
    requires i < |bs| && !bs[i].free
    ensures UsedBytes(Released(bs, i)) == UsedBytes(bs) - bs[i].size
  {
    var b := bs[i].(free := true);
    UsedOfUpdate(bs, i, b);
    MergedUses(bs[i := b], i);
  }

  lemma MergedUses(bs: seq<Block>, i: nat)
    requires i < |bs| && bs[i].free
    ensures UsedBytes(MergedPrev(MergedNext(bs, i), i)) == UsedBytes(bs)
  {
    var ns := MergedNext(bs, i);
    if i + 1 < |bs| && bs[i + 1].free { JoinedUses(bs, i); }
    if i > 0 && ns[i - 1].free { JoinedUses(ns, i - 1); }
  }

  lemma {:induction false} NoneLiveNoneUsed(bs: seq<Block>)
    requires forall i | 0 <= i < |bs| :: bs[i].free
    ensures UsedBytes(bs) == 0
  {
    if bs != [] { NoneLiveNoneUsed(bs[..|bs| - 1]); }
  }

  /** A block is cut exactly when what is left over has room for a header and eight bytes. */
  lemma CutIff(bs: seq<Block>, i: nat, size: nat)
    requires i < |bs| && Fits(bs[i], size)
    ensures var cs := Allocated(bs, i, size);
      if bs[i].size - size >= 28 then
        && |cs| == |bs| + 1 && cs[i].size == size
        && cs[i + 1] == Block(cs[i].addr + 20 + size, bs[i].size - size - 20, true)
      else |cs| == |bs| && cs[i].size == bs[i].size
  {
  }
}
