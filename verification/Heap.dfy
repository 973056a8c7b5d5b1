/** The kernel heap in memory (kernel/memory.c): block headers linked through the storage itself.
    The row of blocks is kept along as a ghost, and every change of a link is shown to be the change of
    the row that `HeapSpec` describes. */
module Heap {
  import opened Bytes
  import opened HeapSpec

  const NULL: u32 := 0

  datatype Header = Header(magic: u32, size: u32, free: u32, next: u32, prev: u32)

  /** Headers by the address at which they start; each occupies `HEADER` bytes of storage. */
  type Memory = map<int, Header>

  function AddrAt(bs: seq<Block>, i: int): int {
    if 0 <= i < |bs| then bs[i].addr else NULL
  }

  /** The header block `i` should have. */
  ghost predicate LinkedAt(mem: Memory, bs: seq<Block>, i: nat)
    requires i < |bs|
  {
    && bs[i].addr in mem
    && var h := mem[bs[i].addr];
       h.magic == HEAP_MAGIC && h.size == bs[i].size && h.free == (if bs[i].free then 1 else 0)
       && h.next == AddrAt(bs, i + 1) && h.prev == AddrAt(bs, i - 1)
  }

  ghost predicate Linked(mem: Memory, bs: seq<Block>) {
    forall i | 0 <= i < |bs| :: LinkedAt(mem, bs, i)
  }

  /** A header at `p` meets no payload of these blocks. */
  ghost predicate Misses(live: set<Block>, p: int) {
    forall b | b in live :: p + HEADER <= b.Payload() || b.End() <= p
  }

  ghost predicate SameAt(mem: Memory, mem': Memory, a: int) {
    (a in mem <==> a in mem') && (a in mem ==> mem'[a] == mem[a])
  }

  /** Whatever was stored, was stored outside every live payload. */
  ghost predicate PayloadsKept(mem: Memory, mem': Memory, live: set<Block>) {
    forall a: int :: SameAt(mem, mem', a) || Misses(live, a)
  }

  lemma KeptTwice(m: Memory, m1: Memory, m2: Memory, live: set<Block>)
    requires PayloadsKept(m, m1, live) && PayloadsKept(m1, m2, live)
    ensures PayloadsKept(m, m2, live)
  {
    forall a: int
      ensures SameAt(m, m2, a) || Misses(live, a)
    {
      assert (SameAt(m, m1, a) || Misses(live, a)) && (SameAt(m1, m2, a) || Misses(live, a));
    }
  }

  ghost predicate OnlyAt(mem: Memory, mem': Memory, p: int, q: int, r: int) {
    forall a: int | a != p && a != q && a != r :: SameAt(mem, mem', a)
  }

  /** A header that was not written describes the same block with the same neighbours. */
  lemma LinkMoved(m: Memory, m': Memory, bs: seq<Block>, j: nat, bs': seq<Block>, k: nat)
    requires j < |bs| && LinkedAt(m, bs, j) && SameAt(m, m', bs[j].addr)
    requires k < |bs'| && bs'[k] == bs[j]
    requires AddrAt(bs', k + 1) == AddrAt(bs, j + 1) && AddrAt(bs', k - 1) == AddrAt(bs, j - 1)
    ensures LinkedAt(m', bs', k)
  {
  }

  /** What splitting block `i` stores: a header for the rest, the back link after it, and `i` itself. */
  ghost predicate SplitStores(m: Memory, m': Memory, bs: seq<Block>, i: nat, need: nat)
    requires i < |bs| && bs[i].addr in m
  {
    var b, nb, next := bs[i].addr, bs[i].addr + HEADER + need, AddrAt(bs, i + 1);
    && 0 <= nb < 0x1_0000_0000 && 0 <= b < 0x1_0000_0000 && 0 <= m[b].size - need - HEADER < 0x1_0000_0000
    && need < 0x1_0000_0000 && OnlyAt(m, m', b, nb, next)
    && b in m' && m'[b] == m[b].(next := nb, size := need, free := 0)
    && nb in m' && m'[nb] == Header(HEAP_MAGIC, m[b].size - need - HEADER, 1, m[b].next, b)
    && (i + 1 < |bs| ==> next in m && next in m' && m'[next] == m[next].(prev := nb))
  }

  lemma SplitLinks(m: Memory, m': Memory, bs: seq<Block>, i: nat, need: nat, lo: nat, hi: nat)
    requires 0 < lo && Tiles(bs, lo, hi) && Linked(m, bs) && i < |bs| && Fits(bs[i], need) && Splits(bs[i], need)
    requires LinkedAt(m, bs, i) && SplitStores(m, m', bs, i, need)
    ensures Linked(m', Allocated(bs, i, need)) && PayloadsKept(m, m', Live(bs))
  {
    var b, nb := bs[i].addr, bs[i].addr + HEADER + need;
    HeaderMisses(bs, i, b, lo, hi);
    HeaderMisses(bs, i, nb, lo, hi);
    HeaderMisses(bs, i + 1, AddrAt(bs, i + 1), lo, hi);
    forall k | 0 <= k < |Allocated(bs, i, need)|
      ensures LinkedAt(m', Allocated(bs, i, need), k)
    {
      SplitLinkAt(m, m', bs, i, need, lo, hi, k);
    }
  }

  lemma SplitLinkAt(m: Memory, m': Memory, bs: seq<Block>, i: nat, need: nat, lo: nat, hi: nat, k: nat)
    requires 0 < lo && Tiles(bs, lo, hi) && Linked(m, bs) && i < |bs| && Fits(bs[i], need) && Splits(bs[i], need)
    requires LinkedAt(m, bs, i) && SplitStores(m, m', bs, i, need)
    requires k < |Allocated(bs, i, need)|
    ensures LinkedAt(m', Allocated(bs, i, need), k)
  {
    InOrder(bs, lo, hi, i, if i + 1 < |bs| then i + 1 else i);
    var bs' := Allocated(bs, i, need);
    if k < i {
      InOrder(bs, lo, hi, k, i);
      assert SameAt(m, m', bs[k].addr);
      LinkMoved(m, m', bs, k, bs', k);
    } else if k == i + 2 {
      assert bs'[k] == bs[i + 1] && LinkedAt(m, bs, i + 1);
      assert AddrAt(bs', k + 1) == AddrAt(bs, i + 2);
    } else if k > i + 2 {
      SplitLinkAfter(m, m', bs, i, need, lo, hi, k);
    }
  }

  lemma SplitLinkAfter(m: Memory, m': Memory, bs: seq<Block>, i: nat, need: nat, lo: nat, hi: nat, k: nat)
    requires 0 < lo && Tiles(bs, lo, hi) && Linked(m, bs) && i < |bs| && Fits(bs[i], need) && Splits(bs[i], need)
    requires OnlyAt(m, m', bs[i].addr, bs[i].addr + HEADER + need, AddrAt(bs, i + 1))
    requires i + 2 < k < |Allocated(bs, i, need)|
    ensures LinkedAt(m', Allocated(bs, i, need), k)
  {
    InOrder(bs, lo, hi, i, k - 1);
    var bs' := Allocated(bs, i, need);
    assert bs'[k] == bs[k - 1] && bs'[k - 1] == bs[k - 2];
    assert AddrAt(bs', k + 1) == AddrAt(bs, k);
    InOrder(bs, lo, hi, i + 1, k - 1);
    assert LinkedAt(m, bs, k - 1);
    assert SameAt(m, m', bs[k - 1].addr);
    LinkMoved(m, m', bs, k - 1, bs', k);
  }

  lemma SetFreeLinks(m: Memory, m': Memory, bs: seq<Block>, i: nat, free: bool, lo: nat, hi: nat)
    requires 0 < lo && Tiles(bs, lo, hi) && Linked(m, bs) && i < |bs|
    requires LinkedAt(m', bs[i := bs[i].(free := free)], i)
    requires OnlyAt(m, m', bs[i].addr, bs[i].addr, bs[i].addr)
    ensures Linked(m', bs[i := bs[i].(free := free)])
  {
    TilesOrdered(bs, lo, hi);
    var bs' := bs[i := bs[i].(free := free)];
    forall k | 0 <= k < |bs'|
      ensures LinkedAt(m', bs', k)
    {
      assert k != i ==> LinkedAt(m, bs, k) && SameAt(m, m', bs[k].addr);
    }
  }

  /** What joining blocks `i` and `i + 1` stores: the first header and the back link after the pair. */
  ghost predicate JoinStores(m: Memory, m': Memory, bs: seq<Block>, i: nat)
    requires i + 1 < |bs| && bs[i].addr in m && bs[i + 1].addr in m
  {
    var b, n, after := bs[i].addr, m[bs[i + 1].addr], AddrAt(bs, i + 2);
    && 0 <= b < 0x1_0000_0000 && m[b].size + HEADER + n.size < 0x1_0000_0000
    && OnlyAt(m, m', b, b, after)
    && b in m' && m'[b] == m[b].(size := m[b].size + HEADER + n.size, next := n.next)
    && (i + 2 < |bs| ==> after in m && after in m' && m'[after] == m[after].(prev := b))
  }

  lemma JoinLinks(m: Memory, m': Memory, bs: seq<Block>, i: nat, lo: nat, hi: nat)
    requires 0 < lo && Tiles(bs, lo, hi) && Linked(m, bs) && i + 1 < |bs|
    requires LinkedAt(m, bs, i) && LinkedAt(m, bs, i + 1) && JoinStores(m, m', bs, i)
    ensures Linked(m', Joined(bs, i)) && PayloadsKept(m, m', Live(bs))
  {
    HeaderMisses(bs, i, bs[i].addr, lo, hi);
    HeaderMisses(bs, i + 2, AddrAt(bs, i + 2), lo, hi);
    forall k | 0 <= k < |Joined(bs, i)|
      ensures LinkedAt(m', Joined(bs, i), k)
    {
      JoinLinkAt(m, m', bs, i, lo, hi, k);
    }
  }

  lemma JoinLinkAt(m: Memory, m': Memory, bs: seq<Block>, i: nat, lo: nat, hi: nat, k: nat)
    requires 0 < lo && Tiles(bs, lo, hi) && Linked(m, bs) && i + 1 < |bs|
    requires LinkedAt(m, bs, i) && LinkedAt(m, bs, i + 1) && JoinStores(m, m', bs, i)
    requires k < |Joined(bs, i)|
    ensures LinkedAt(m', Joined(bs, i), k)
  {
    InOrder(bs, lo, hi, i, i + 1);
    var bs' := Joined(bs, i);
    if k < i {
      InOrder(bs, lo, hi, k, i);
      InOrder(bs, lo, hi, k, if i + 2 < |bs| then i + 2 else i);
      assert SameAt(m, m', bs[k].addr);
      LinkMoved(m, m', bs, k, bs', k);
    } else if k == i + 1 {
      assert bs'[k] == bs[i + 2] && LinkedAt(m, bs, i + 2);
      assert AddrAt(bs', k + 1) == AddrAt(bs, i + 3);
    } else if k > i + 1 {
      assert bs'[k] == bs[k + 1] && bs'[k - 1] == bs[k];
      assert AddrAt(bs', k + 1) == AddrAt(bs, k + 2);
      InOrder(bs, lo, hi, i, k + 1);
      InOrder(bs, lo, hi, i + 2, k + 1);
      assert LinkedAt(m, bs, k + 1);
      assert SameAt(m, m', bs[k + 1].addr);
      LinkMoved(m, m', bs, k + 1, bs', k);
    }
  }

  /** `bs` is what the list from `head` spells out, and it covers the storage exactly. */
  ghost predicate IsHeap(mem: Memory, head: u32, base: u32, bs: seq<Block>) {
    head == base && Tiles(bs, base, base + HEAP_SIZE) && Linked(mem, bs)
  }

  /** The walk has seen `seen`, in line with the headers, and goes on at `b`. */
  ghost predicate WalkedTo(mem: Memory, base: u32, seen: seq<Block>, b: int) {
    && (forall i | 0 <= i < |seen| - 1 :: Abuts(seen, i) && LinkedAt(mem, seen, i))
    && (seen != [] ==> seen[0].addr == base)
    && (seen != [] ==>
          var k := |seen| - 1;
          seen[k].addr in mem &&
          var h := mem[seen[k].addr];
          h.magic == HEAP_MAGIC && h.size == seen[k].size && h.free == (if seen[k].free then 1 else 0)
          && h.next == b && h.prev == AddrAt(seen, k - 1))
  }

  /** Every heap the memory could spell out begins with `seen` and goes on at `b`. */
  ghost predicate AllBegin(mem: Memory, head: u32, base: u32, seen: seq<Block>, b: int) {
    forall bs | IsHeap(mem, head, base, bs) :: seen <= bs && b == AddrAt(bs, |seen|)
  }

  /** Where the walk stands: at `b`, where a block is to start at `expected`, linked back to `prev`. */
  ghost predicate WalkAt(mem: Memory, head: u32, base: u32, seen: seq<Block>, b: int, expected: int, prev: int) {
    && base <= expected <= base + HEAP_SIZE
    && expected == (if seen == [] then base as int else seen[|seen| - 1].End())
    && prev == AddrAt(seen, |seen| - 1)
    && WalkedTo(mem, base, seen, b) && AllBegin(mem, head, base, seen, b)
    && (if seen == [] then b == head else head == base)
  }

  lemma WalkOn(mem: Memory, head: u32, base: u32, seen: seq<Block>, b: u32, expected: int, prev: int, blk: Block)
    requires 0 < base && WalkAt(mem, head, base, seen, b, expected, prev)
    requires b != NULL && b == expected && b in mem && blk.addr == b
    requires mem[b].magic == HEAP_MAGIC && mem[b].prev == prev
    requires mem[b].size == blk.size <= base + HEAP_SIZE - b - HEADER && mem[b].free == (if blk.free then 1 else 0)
    ensures WalkAt(mem, head, base, seen + [blk], mem[b].next, b + HEADER + blk.size, b)
  {
    HeadersOn(mem, base, seen, b, blk);
    HeapsOn(mem, head, base, seen, b, blk);
  }

  lemma HeadersOn(mem: Memory, base: u32, seen: seq<Block>, b: u32, blk: Block)
    requires 0 < base && WalkedTo(mem, base, seen, b) && b != NULL && b in mem && blk.addr == b
    requires b == if seen == [] then base else seen[|seen| - 1].End()
    requires mem[b].magic == HEAP_MAGIC && mem[b].prev == AddrAt(seen, |seen| - 1)
    requires mem[b].size == blk.size && mem[b].free == (if blk.free then 1 else 0)
    ensures WalkedTo(mem, base, seen + [blk], mem[b].next)
  {
    var seen' := seen + [blk];
    forall i | 0 <= i < |seen'| - 1
      ensures Abuts(seen', i) && LinkedAt(mem, seen', i)
    {
      if i + 1 < |seen| {
        assert Abuts(seen, i) && LinkedAt(mem, seen, i);
      }
    }
  }

  lemma HeapsOn(mem: Memory, head: u32, base: u32, seen: seq<Block>, b: u32, blk: Block)
    requires AllBegin(mem, head, base, seen, b) && b != NULL && b in mem && blk.addr == b
    requires mem[b].size == blk.size && mem[b].free == (if blk.free then 1 else 0)
    ensures AllBegin(mem, head, base, seen + [blk], mem[b].next)
  {
    var seen' := seen + [blk];
    forall bs | IsHeap(mem, head, base, bs)
      ensures seen' <= bs && mem[b].next == AddrAt(bs, |seen'|)
    {
      assert LinkedAt(mem, bs, |seen|);
      assert bs[|seen|] == blk;
    }
  }

  lemma WalkEnds(mem: Memory, head: u32, base: u32, seen: seq<Block>)
    requires 0 < base && WalkedTo(mem, base, seen, NULL) && AllBegin(mem, head, base, seen, NULL)
    requires seen != [] ==> head == base
    ensures forall bs | IsHeap(mem, head, base, bs) :: bs == seen
    ensures seen != [] && seen[|seen| - 1].End() == base + HEAP_SIZE <==> IsHeap(mem, head, base, seen)
  {
    forall bs | IsHeap(mem, head, base, bs)
      ensures bs == seen
    {
      if |bs| > |seen| { InOrder(bs, base, base + HEAP_SIZE, |seen|, |seen|); }
    }
    if seen != [] && seen[|seen| - 1].End() == base + HEAP_SIZE {
      forall i | 0 <= i < |seen|
        ensures LinkedAt(mem, seen, i)
      {
      }
    }
  }

  /** Where a heap goes on after `seen`, the next header is in place and sound. */
  ghost predicate NextSound(mem: Memory, base: u32, seen: seq<Block>, b: int) {
    && b == (if seen == [] then base as int else seen[|seen| - 1].End())
    && b <= base + HEAP_SIZE - HEADER && b in mem
    && mem[b].magic == HEAP_MAGIC && mem[b].prev == AddrAt(seen, |seen| - 1) && mem[b].free <= 1
    && mem[b].size <= base + HEAP_SIZE - b - HEADER
  }

  lemma HeapGoesOn(mem: Memory, head: u32, base: u32, seen: seq<Block>, b: u32, bs: seq<Block>)
    requires IsHeap(mem, head, base, bs) && AllBegin(mem, head, base, seen, b) && b != NULL
    ensures NextSound(mem, base, seen, b)
  {
    var k := |seen|;
    assert seen <= bs && b == AddrAt(bs, k);
    assert LinkedAt(mem, bs, k);
    InOrder(bs, base, base + HEAP_SIZE, k, k);
    assert k > 0 ==> Abuts(bs, k - 1);
  }

  /** A walk that meets anything else than the next header in place rules every heap out. */
  lemma WalkRefuted(mem: Memory, head: u32, base: u32, seen: seq<Block>, b: u32)
    requires AllBegin(mem, head, base, seen, b) && b != NULL && !NextSound(mem, base, seen, b)
    ensures forall bs :: !IsHeap(mem, head, base, bs)
  {
    forall bs
      ensures !IsHeap(mem, head, base, bs)
    {
      if IsHeap(mem, head, base, bs) { HeapGoesOn(mem, head, base, seen, b, bs); }
    }
  }

  lemma WalkMisplaced(mem: Memory, head: u32, base: u32, seen: seq<Block>, b: u32, expected: int, prev: int)
    requires WalkAt(mem, head, base, seen, b, expected, prev) && b != NULL
    requires b != expected || b < base || b > base + HEAP_SIZE - HEADER
    ensures forall bs :: !IsHeap(mem, head, base, bs)
  {
    WalkRefuted(mem, head, base, seen, b);
  }

  /** Block addresses (or NULL) and places inside a free block are outside live payloads. */
  lemma HeaderMisses(bs: seq<Block>, i: nat, p: int, lo: nat, hi: nat)
    requires Tiles(bs, lo, hi)
    requires p == AddrAt(bs, i) || (i < |bs| && bs[i].free && bs[i].addr <= p && p + HEADER <= bs[i].End())
    ensures Misses(Live(bs), p)
  {
    TilesOrdered(bs, lo, hi);
  }

  ghost function PayloadsOf(live: set<Block>): set<int> {
    set b | b in live :: b.Payload()
  }

  lemma PayloadsWith(live: set<Block>, b: Block)
    ensures PayloadsOf(live + {b}) == PayloadsOf(live) + {b.Payload()}
  {
    assert forall p | p in PayloadsOf(live) :: exists c :: c in live + {b} && c.Payload() == p;
  }

  lemma PayloadsWithout(bs: seq<Block>, lo: nat, hi: nat, k: nat)
    requires Tiles(bs, lo, hi) && k < |bs|
    ensures PayloadsOf(Live(bs) - {bs[k]}) == PayloadsOf(Live(bs)) - {bs[k].Payload()}
  {
    forall b | b in Live(bs) && b != bs[k]
      ensures b.Payload() != bs[k].Payload()
    {
      var j :| 0 <= j < |bs| && !bs[j].free && bs[j] == b;
      InOrder(bs, lo, hi, j, k);
      InOrder(bs, lo, hi, k, j);
    }
  }

  class Heap {
    const base: u32
    var mem: Memory
    var head: u32
    ghost var blocks: seq<Block>

    ghost predicate Placed() {
      0 < base && base + HEAP_SIZE < 0x1_0000_0000
    }

    /** Whatever lies at an address of the storage can be read as a header. */
    ghost predicate Backed()
      reads this
    {
      forall a: int | base <= a <= base + HEAP_SIZE - HEADER :: a in mem
    }

    ghost predicate Valid()
      reads this
    {
      && Placed() && Backed()
      && head == base
      && Tiles(blocks, base, base + HEAP_SIZE)
      && Coalesced(blocks)
      && Linked(mem, blocks)
    }

    /** `heap_init`. */
    constructor (base: u32, mem: Memory)
      requires 0 < base && base + HEAP_SIZE < 0x1_0000_0000
      requires forall a: int | base <= a <= base + HEAP_SIZE - HEADER :: a in mem
      ensures Valid() && this.base == base
      ensures blocks == [Block(base, 2097132, true)]
      ensures base as int in this.mem && this.mem[base as int] == Header(0xDEADBEEF, 2097132, 1, 0, 0)
    {
      this.base := base;
      head := base;
      this.mem := mem[base as int := Header(HEAP_MAGIC, HEAP_SIZE - HEADER, 1, NULL, NULL)];
      blocks := [Block(base, HEAP_SIZE - HEADER, true)];
    }

    /** Returns the payload of the first block that can hold `size` bytes, or NULL. */
    method Kmalloc(size: u32) returns (ptr: u32)
      requires Valid()
      modifies this`mem, this`blocks
      ensures Valid()
      ensures PayloadsKept(old(mem), mem, Live(old(blocks)))
      ensures ptr == NULL <==> size == 0 || FirstFit(old(blocks), Round8(size)) < 0
      ensures ptr == NULL ==> blocks == old(blocks) && mem == old(mem)
      ensures ptr != NULL ==>
        var k := FirstFit(old(blocks), Round8(size));
        blocks == Allocated(old(blocks), k, Round8(size)) && ptr == old(blocks)[k].Payload()
    {
      if size == 0 { return NULL; }
      var need := Round8(size);
      var b := FindFit(need);
      if b == NULL { return NULL; }
      ghost var k := FirstFit(blocks, need);
      TilesOrdered(blocks, base, base + HEAP_SIZE);
      Take(b, k, need);
      return b + HEADER;
    }

    /** Walks the list to the first block that fits. */
    method FindFit(need: u32) returns (b: u32)
      requires Valid()
      ensures var k := FirstFit(blocks, need);
              if k < 0 then b == NULL else b == blocks[k].addr && b != NULL
    {
      TilesOrdered(blocks, base, base + HEAP_SIZE);
      b := head;
      ghost var i := 0;
      while b != NULL
        invariant 0 <= i <= |blocks| && b == AddrAt(blocks, i)
        invariant forall j | 0 <= j < i :: !Fits(blocks[j], need)
        decreases |blocks| - i
      {
        assert LinkedAt(mem, blocks, i);
        if mem[b as int].free != 0 && mem[b as int].size >= need {
          assert Fits(blocks[i], need);
          return;
        }
        b := mem[b as int].next;
        i := i + 1;
      }
    }

    /** Marks block `b` used, cutting off what is left over if that makes a block. */
    method Take(b: u32, ghost i: nat, need: u32)
      requires Valid() && i < |blocks| && b == blocks[i].addr && Fits(blocks[i], need)
      modifies this`mem, this`blocks
      ensures Valid() && blocks == Allocated(old(blocks), i, need)
      ensures PayloadsKept(old(mem), mem, Live(old(blocks)))
    {
      ghost var bs, m := blocks, mem;
      AllocatedKeeps(bs, i, need, base, base + HEAP_SIZE);
      assert LinkedAt(m, bs, i);
      if mem[b as int].size >= need + HEADER + 8 {
        CutOff(b, i, need);
      } else {
        mem := mem[b as int := mem[b as int].(free := 0)];
        SetFreeLinks(m, mem, bs, i, false, base, base + HEAP_SIZE);
        HeaderMisses(bs, i, b, base, base + HEAP_SIZE);
      }
      blocks := Allocated(bs, i, need);
    }

    /** Writes a header for the left-over space, links it in and marks `b` used. */
    method CutOff(b: u32, ghost i: nat, need: u32)
      requires Valid() && i < |blocks| && b == blocks[i].addr && Fits(blocks[i], need) && Splits(blocks[i], need)
      modifies this`mem
      ensures old(mem).Keys <= mem.Keys
      ensures Linked(mem, Allocated(blocks, i, need)) && PayloadsKept(old(mem), mem, Live(blocks))
    {
      ghost var bs, m := blocks, mem;
      InOrder(bs, base, base + HEAP_SIZE, i, if i + 1 < |bs| then i + 1 else i);
      assert LinkedAt(m, bs, i) && (i + 1 < |bs| ==> LinkedAt(m, bs, i + 1));
      var h := mem[b as int];
      var nb := b + HEADER + need;
      mem := mem[nb as int := Header(HEAP_MAGIC, h.size - need - HEADER, 1, h.next, b)];
      if h.next != NULL {
        mem := mem[h.next as int := mem[h.next as int].(prev := nb)];
      }
      mem := mem[b as int := h.(next := nb, size := need, free := 0)];
      SplitLinks(m, mem, bs, i, need, base, base + HEAP_SIZE);
    }

    /** Gives back a payload handed out by `Kmalloc`; NULL is ignored. */
    method Kfree(ptr: u32, ghost i: nat)
      requires Valid()
      requires ptr != NULL ==> i < |blocks| && !blocks[i].free && ptr == blocks[i].Payload()
      modifies this`mem, this`blocks
      ensures Valid()
      ensures blocks == if ptr == NULL then old(blocks) else Released(old(blocks), i)
      ensures PayloadsKept(old(mem), mem, Live(blocks))
      ensures ptr == NULL ==> mem == old(mem)
    {
      if ptr == NULL { return; }
      var b := ptr - HEADER;
      ghost var bs, m := blocks, mem;
      assert LinkedAt(m, bs, i);
      if mem[b as int].magic != HEAP_MAGIC {
        assert false;
      }
      MarkFree(b, i);
      ReleasedKeeps(bs, i, base, base + HEAP_SIZE);
      ghost var fs, m1 := bs[i := bs[i].(free := true)], mem;
      Merge(b, i, fs);
      KeptTwice(m, m1, mem, Live(fs));
      blocks := Released(bs, i);
    }

    /** Merges a free block with its free neighbours. */
    method Merge(b: u32, ghost i: nat, ghost bs: seq<Block>)
      requires Placed()
      requires Tiles(bs, base, base + HEAP_SIZE) && Linked(mem, bs) && i < |bs| && b == bs[i].addr && bs[i].free
      modifies this`mem
      ensures old(mem).Keys <= mem.Keys
      ensures Linked(mem, MergedPrev(MergedNext(bs, i), i)) && Live(MergedPrev(MergedNext(bs, i), i)) == Live(bs)
      ensures PayloadsKept(old(mem), mem, Live(bs))
    {
      ghost var m, ns := mem, MergedNext(bs, i);
      MergeNext(b, i, bs);
      ghost var m1 := mem;
      MergePrev(b, i, ns);
      KeptTwice(m, m1, mem, Live(bs));
    }

    method MarkFree(b: u32, ghost i: nat)
      requires Valid() && i < |blocks| && b == blocks[i].addr
      modifies this`mem
      ensures old(mem).Keys <= mem.Keys
      ensures var fs := blocks[i := blocks[i].(free := true)];
              Tiles(fs, base, base + HEAP_SIZE) && Linked(mem, fs) && PayloadsKept(old(mem), mem, Live(fs))
    {
      ghost var m, fs := mem, blocks[i := blocks[i].(free := true)];
      assert LinkedAt(m, blocks, i);
      mem := mem[b as int := mem[b as int].(free := 1)];
      SetFreeTiles(blocks, i, true, base, base + HEAP_SIZE);
      SetFreeLinks(m, mem, blocks, i, true, base, base + HEAP_SIZE);
      HeaderMisses(fs, i, b, base, base + HEAP_SIZE);
    }

    /** Swallows the next block if it is free. */
    method MergeNext(b: u32, ghost i: nat, ghost bs: seq<Block>)
      requires Placed()
      requires Tiles(bs, base, base + HEAP_SIZE) && Linked(mem, bs) && i < |bs| && b == bs[i].addr && bs[i].free
      modifies this`mem
      ensures old(mem).Keys <= mem.Keys
      ensures Tiles(MergedNext(bs, i), base, base + HEAP_SIZE) && Linked(mem, MergedNext(bs, i))
      ensures Live(MergedNext(bs, i)) == Live(bs)
      ensures PayloadsKept(old(mem), mem, Live(bs))
    {
      TilesOrdered(bs, base, base + HEAP_SIZE);
      assert LinkedAt(mem, bs, i) && (i + 1 < |bs| ==> LinkedAt(mem, bs, i + 1));
      var next := mem[b as int].next;
      if next != NULL && mem[next as int].free != 0 {
        Absorb(b, next, i, bs);
        JoinedLive(bs, i);
      }
    }

    /** Is swallowed by the previous block if that is free. */
    method MergePrev(b: u32, ghost i: nat, ghost bs: seq<Block>)
      requires Placed()
      requires Tiles(bs, base, base + HEAP_SIZE) && Linked(mem, bs) && i < |bs| && b == bs[i].addr && bs[i].free
      modifies this`mem
      ensures old(mem).Keys <= mem.Keys
      ensures Tiles(MergedPrev(bs, i), base, base + HEAP_SIZE) && Linked(mem, MergedPrev(bs, i))
      ensures Live(MergedPrev(bs, i)) == Live(bs)
      ensures PayloadsKept(old(mem), mem, Live(bs))
    {
      TilesOrdered(bs, base, base + HEAP_SIZE);
      assert LinkedAt(mem, bs, i) && (i > 0 ==> LinkedAt(mem, bs, i - 1));
      var prev := mem[b as int].prev;
      if prev != NULL && mem[prev as int].free != 0 {
        Absorb(prev, b, i - 1, bs);
        JoinedLive(bs, i - 1);
      }
    }

    /** Lets block `b` swallow the block `n` after it. */
    method Absorb(b: u32, n: u32, ghost i: nat, ghost bs: seq<Block>)
      requires Placed()
      requires Tiles(bs, base, base + HEAP_SIZE) && Linked(mem, bs) && i + 1 < |bs|
      requires b == bs[i].addr && n == bs[i + 1].addr && bs[i].free && bs[i + 1].free
      modifies this`mem
      ensures old(mem).Keys <= mem.Keys
      ensures Tiles(Joined(bs, i), base, base + HEAP_SIZE) && Linked(mem, Joined(bs, i))
      ensures PayloadsKept(old(mem), mem, Live(bs))
    {
      ghost var m := mem;
      TilesOrdered(bs, base, base + HEAP_SIZE);
      assert LinkedAt(m, bs, i) && LinkedAt(m, bs, i + 1) && (i + 2 < |bs| ==> LinkedAt(m, bs, i + 2));
      var h, g := mem[b as int], mem[n as int];
      mem := mem[b as int := h.(size := h.size + HEADER + g.size, next := g.next)];
      if g.next != NULL {
        mem := mem[g.next as int := mem[g.next as int].(prev := b)];
      }
      JoinLinks(m, mem, bs, i, base, base + HEAP_SIZE);
      JoinedTiles(bs, i, base, base + HEAP_SIZE);
    }

    /** The integrity walk: 0 exactly when the list in memory is a well-linked tiling of the
        storage, and then the totals are those of its blocks. It trusts nothing it reads. */
    method HeapSnapshot() returns (rc: int, stats: Stats)
      requires Placed() && Backed()
      ensures rc == 0 || rc == -1
      ensures rc == 0 <==> exists bs :: IsHeap(mem, head, base, bs)
      ensures forall bs | IsHeap(mem, head, base, bs) :: stats == StatsOf(bs)
    {
      ghost var seen: seq<Block> := [];
      stats := Stats(0, 0, 0, 0);
      var end, expected, prev, b := base + HEAP_SIZE, base, NULL, head;
      while b != NULL
        invariant WalkAt(mem, head, base, seen, b, expected, prev) && stats == StatsOf(seen)
        decreases end - expected
      {
        if b != expected || b < base || b > end - HEADER {
          WalkMisplaced(mem, head, base, seen, b, expected, prev);
          return -1, stats;
        }
        var h := mem[b as int];
        if h.magic != HEAP_MAGIC || h.prev != prev || h.free > 1 || h.size > end - b - HEADER {
          WalkRefuted(mem, head, base, seen, b);
          return -1, stats;
        }
        ghost var blk := Block(b, h.size, h.free == 1);
        stats := Count(stats, h, seen, blk);
        WalkOn(mem, head, base, seen, b, expected, prev, blk);
        seen := seen + [blk];
        expected := b + HEADER + h.size;
        prev := b;
        b := h.next;
      }
      WalkEnds(mem, head, base, seen);
      rc := if expected == end then 0 else -1;
    }

    /** Adds one block to the totals. */
    static method Count(before: Stats, h: Header, ghost seen: seq<Block>, ghost blk: Block) returns (stats: Stats)
      requires before == StatsOf(seen) && blk.size == h.size && blk.free == (h.free != 0)
      ensures stats == StatsOf(seen + [blk])
    {
      stats := before.(blocks := before.blocks + 1);
      if h.free != 0 {
        stats := stats.(free := stats.free + h.size);
        if h.size > stats.largest { stats := stats.(largest := h.size); }
      } else {
        stats := stats.(used := stats.used + h.size);
      }
    }

    // ----- whole runs -----

    /** The addresses its callers hold. */
    ghost function Payloads(): set<int>
      reads this
    {
      PayloadsOf(Live(blocks))
    }

    /** From initialisation on, any number of callers allocate what they like and release what they
        hold, in any order: they hold exactly the live payloads, the integrity walk then
        succeeds, and its totals account for every byte of the heap. Once everything has been
        released the heap is one free block. */
    static method AnyRun(base: u32, mem: Memory, calls: nat) returns (heap: Heap, rc: int, stats: Stats)
      requires 0 < base && base + HEAP_SIZE < 0x1_0000_0000
      requires forall a: int | base <= a <= base + HEAP_SIZE - HEADER :: a in mem
      ensures heap.Valid() && rc == 0 && stats == StatsOf(heap.blocks)
      ensures stats.used + stats.free + 20 * stats.blocks == 2097152
      ensures heap.Payloads() == {} ==> heap.blocks == [Block(base, 2097132, true)]
      ensures heap.Payloads() == {} ==> stats == Stats(0, 2097132, 2097132, 1)
    {
      heap := new Heap(base, mem);
      var owned: set<u32> := {};
      for n := 0 to calls
        invariant fresh(heap) && heap.base == base && heap.Valid() && owned == heap.Payloads()
      {
        var size: u32 := *;
        var release: bool := *;
        if release && owned != {} {
          var ptr :| ptr in owned;
          heap.Release(ptr);
          owned := owned - {ptr};
        } else {
          var ptr := heap.Obtain(size);
          if ptr != NULL { owned := owned + {ptr}; }
        }
      }
      assert IsHeap(heap.mem, heap.head, base, heap.blocks);
      rc, stats := heap.HeapSnapshot();
      BytesAccounted(heap.blocks, base, base + HEAP_SIZE);
      if heap.Payloads() == {} {
        assert forall b | b in Live(heap.blocks) :: b.Payload() in heap.Payloads();
        NothingLiveIsOneBlock(heap.blocks, base, base + HEAP_SIZE);
        NoneLiveNoneUsed(heap.blocks);
      }
    }

    /** An allocation, as the callers see it. */
    method Obtain(size: u32) returns (ptr: u32)
      requires Valid()
      modifies this`mem, this`blocks
      ensures Valid() && Payloads() == old(Payloads()) + if ptr == NULL then {} else {ptr}
    {
      ghost var bs := blocks;
      ptr := Kmalloc(size);
      if ptr != NULL {
        ghost var k := FirstFit(bs, Round8(size));
        AllocatedLive(bs, k, Round8(size));
        PayloadsWith(Live(bs), blocks[k]);
      }
    }

    /** A release, as the callers see it. */
    method Release(ptr: u32)
      requires Valid() && ptr in Payloads()
      modifies this`mem, this`blocks
      ensures Valid() && Payloads() == old(Payloads()) - {ptr}
    {
      ghost var bs := blocks;
      ghost var k :| 0 <= k < |bs| && !bs[k].free && bs[k].Payload() == ptr;
      TilesOrdered(bs, base, base + HEAP_SIZE);
      Kfree(ptr, k);
      ReleasedLive(bs, k, base, base + HEAP_SIZE);
      PayloadsWithout(bs, base, base + HEAP_SIZE, k);
    }
  }
}
