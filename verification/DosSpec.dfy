/** The conventional-memory blocks of the DOS runtime (kernel/dos.c). */
module DosSpec {

  const DOS_PSP: nat := 0x2000
  const DOS_TOP: nat := 0xA000
  const MAX_BLOCKS: nat := 64

  /** A segment, a number of paragraphs, and whether it is in use. */
  datatype Block = Block(seg: nat, count: nat, used: bool)

  // ----- tables -----

  /** Non-empty blocks that follow each other from `at` to `end`. */
  ghost predicate Tiles(bs: seq<Block>, at: nat, end: nat) {
    if bs == [] then at == end
    else bs[0].seg == at && bs[0].count > 0 && Tiles(bs[1..], at + bs[0].count, end)
  }

  predicate BothFree(a: Block, b: Block) {
    !a.used && !b.used
  }

  /** No two adjacent blocks are free. */
  ghost predicate Coalesced(bs: seq<Block>) {
    |bs| < 2 || (!BothFree(bs[0], bs[1]) && Coalesced(bs[1..]))
  }

  /** The blocks in use, in order. */
  ghost function UsedOf(bs: seq<Block>): seq<Block> {
    if bs == [] then [] else (if bs[0].used then [bs[0]] else []) + UsedOf(bs[1..])
  }

  /** The whole table: the process's own block first and in use. */
  ghost predicate TableOk(bs: seq<Block>) {
    && Tiles(bs, DOS_PSP, DOS_TOP) && Coalesced(bs) && 0 < |bs| <= MAX_BLOCKS
    && bs[0].used
  }

  lemma {:induction false} TilesBounds(bs: seq<Block>, at: nat, end: nat, i: nat)
    requires Tiles(bs, at, end) && i < |bs|
    ensures at + i <= bs[i].seg && bs[i].seg + bs[i].count <= end && bs[i].count > 0
    ensures Tiles(bs[..i], at, bs[i].seg) && Tiles(bs[i + 1..], bs[i].seg + bs[i].count, end)
    decreases |bs|
  {
    if i == 0 {
      assert bs[..0] == [];
      TilesOrder(bs[1..], at + bs[0].count, end);
    } else {
      TilesBounds(bs[1..], at + bs[0].count, end, i - 1);
      assert bs[1..][..i - 1] == bs[..i][1..] && bs[1..][i..] == bs[i + 1..];
    }
  }

  lemma {:induction false} TilesOrder(bs: seq<Block>, at: nat, end: nat)
    requires Tiles(bs, at, end)
    ensures at + |bs| <= end
    decreases |bs|
  {
    if bs != [] { TilesOrder(bs[1..], at + bs[0].count, end); }
  }

  lemma {:induction false} TilesJoin(a: seq<Block>, b: seq<Block>, at: nat, mid: nat, end: nat)
    requires Tiles(a, at, mid) && Tiles(b, mid, end)
    ensures Tiles(a + b, at, end)
    decreases |a|
  {
    if a == [] {
      assert a + b == b;
    } else {
      TilesJoin(a[1..], b, at + a[0].count, mid, end);
      assert (a + b)[1..] == a[1..] + b;
    }
  }

  lemma {:induction false} UsedOfJoin(a: seq<Block>, b: seq<Block>)
    ensures UsedOf(a + b) == UsedOf(a) + UsedOf(b)
    decreases |a|
  {
    if a == [] {
      assert a + b == b;
    } else {
      UsedOfJoin(a[1..], b);
      var first := if a[0].used then [a[0]] else [];
      assert (a + b)[1..] == a[1..] + b && (a + b)[0] == a[0];
      assert UsedOf(a + b) == first + (UsedOf(a[1..]) + UsedOf(b));
    }
  }

  /** Segments are distinct: two blocks of a table are not at the same place. */
  lemma SegmentsDiffer(bs: seq<Block>, at: nat, end: nat, i: nat, j: nat)
    requires Tiles(bs, at, end) && i < j < |bs|
    ensures bs[i].seg + bs[i].count <= bs[j].seg
  {
    TilesBounds(bs, at, end, i);
    TilesBounds(bs[i + 1..], bs[i].seg + bs[i].count, end, j - i - 1);
  }

  // ----- the blocks in use determine the table -----

  lemma {:induction false} FirstUsed(bs: seq<Block>, at: nat, end: nat)
    requires Tiles(bs, at, end) && UsedOf(bs) != []
    ensures at <= UsedOf(bs)[0].seg
    ensures bs[0].used <==> UsedOf(bs)[0].seg == at
    decreases |bs|
  {
    if !bs[0].used { FirstUsed(bs[1..], at + bs[0].count, end); }
  }

  lemma UsedTail(bs: seq<Block>)
    requires bs != []
    ensures if bs[0].used then UsedOf(bs) != [] && UsedOf(bs[1..]) == UsedOf(bs)[1..] else UsedOf(bs[1..]) == UsedOf(bs)
  {
  }

  lemma {:induction false} SameUsedSameTable(a: seq<Block>, b: seq<Block>, at: nat, end: nat)
    requires Tiles(a, at, end) && Coalesced(a) && Tiles(b, at, end) && Coalesced(b)
    requires UsedOf(a) == UsedOf(b)
    ensures a == b
    decreases |a|
  {
    TilesOrder(a, at, end);
    TilesOrder(b, at, end);
    if a != [] && b != [] {
      if UsedOf(a) != [] {
        FirstUsed(a, at, end);
        FirstUsed(b, at, end);
      } else {
        assert !a[0].used && !b[0].used;
      }
      assert a[0].used == b[0].used;
      assert a[0] == b[0];
      UsedTail(a);
      UsedTail(b);
      SameUsedSameTable(a[1..], b[1..], at + a[0].count, end);
    }
  }

  /** Two tables with the same blocks in use are the same table: free space is as merged as it
      can be, so nothing a program did before leaves a trace. */
  lemma TableDetermined(a: seq<Block>, b: seq<Block>)
    requires TableOk(a) && TableOk(b) && UsedOf(a) == UsedOf(b)
    ensures a == b
  {
    SameUsedSameTable(a, b, DOS_PSP, DOS_TOP);
  }

  // ----- merging -----

  function Merge(a: Block, b: Block): Block {
    Block(a.seg, a.count + b.count, false)
  }

  /** Free neighbours merged, from the left. */
  function Merged(bs: seq<Block>): seq<Block>
    decreases |bs|
  {
    if |bs| < 2 then bs
    else if BothFree(bs[0], bs[1]) then Merged([Merge(bs[0], bs[1])] + bs[2..])
    else [bs[0]] + Merged(bs[1..])
  }

  lemma {:induction false} MergedKeeps(bs: seq<Block>, at: nat, end: nat)
    requires Tiles(bs, at, end)
    ensures Tiles(Merged(bs), at, end) && Coalesced(Merged(bs))
    ensures UsedOf(Merged(bs)) == UsedOf(bs)
    ensures |Merged(bs)| <= |bs| && (bs != [] ==> Merged(bs) != [] && Merged(bs)[0].used == bs[0].used)
    decreases |bs|
  {
    if |bs| >= 2 {
      if BothFree(bs[0], bs[1]) {
        var ms := [Merge(bs[0], bs[1])] + bs[2..];
        assert bs[1..][1..] == bs[2..] && ms[1..] == bs[2..];
        MergedKeeps(ms, at, end);
      } else {
        var ms := Merged(bs[1..]);
        MergedKeeps(bs[1..], at + bs[0].count, end);
        assert ([bs[0]] + ms)[1..] == ms;
      }
    }
  }

  lemma {:induction false} MergedCoalesced(bs: seq<Block>)
    requires Coalesced(bs)
    ensures Merged(bs) == bs
    decreases |bs|
  {
    if |bs| >= 2 { MergedCoalesced(bs[1..]); }
  }

  // ----- operations -----

  ghost predicate HeldAt(bs: seq<Block>, i: nat, seg: nat) {
    i < |bs| && bs[i].used && bs[i].seg == seg
  }

  /** Paragraphs block `i` can have: its own and those of a free block after it. */
  function Available(bs: seq<Block>, i: nat): nat
    requires i < |bs|
  {
    bs[i].count + if i + 1 < |bs| && !bs[i + 1].used then bs[i + 1].count else 0
  }

  /** Block `i` is the last thing before a block in use, or before the end. */
  predicate Hemmed(bs: seq<Block>, i: nat)
    requires i < |bs|
  {
    i + 1 == |bs| || bs[i + 1].used
  }

  /** Resizing is refused for nothing, for more than there is, and where splitting a block needs
      an entry the table does not have. */
  predicate ResizeRefused(bs: seq<Block>, i: nat, count: nat)
    requires i < |bs|
  {
    count == 0 || count > Available(bs, i) || (count < bs[i].count && Hemmed(bs, i) && |bs| == MAX_BLOCKS)
  }

  /** Block `i` with `count` paragraphs, the rest of what it could have free behind it. */
  function Fitted(bs: seq<Block>, i: nat, count: nat): seq<Block>
    requires i < |bs| && count <= Available(bs, i)
  {
    if count == bs[i].count then bs
    else
      var rest := Available(bs, i) - count;
      bs[..i] + [Block(bs[i].seg, count, true)]
      + (if rest > 0 then [Block(bs[i].seg + count, rest, false)] else [])
      + bs[if Hemmed(bs, i) then i + 1 else i + 2..]
  }

  function Resized(bs: seq<Block>, i: nat, count: nat): seq<Block>
    requires i < |bs| && count <= Available(bs, i)
  {
    Merged(Fitted(bs, i, count))
  }

  function Freed(bs: seq<Block>, i: nat): seq<Block>
    requires i < |bs|
  {
    Merged(bs[i := bs[i].(used := false)])
  }

  lemma UsedAround(bs: seq<Block>, i: nat)
    requires i < |bs|
    ensures UsedOf(bs) == UsedOf(bs[..i]) + (if bs[i].used then [bs[i]] else []) + UsedOf(bs[i + 1..])
  {
    var a, b, c, at := bs[..i], bs[i..], bs[i + 1..], if bs[i].used then [bs[i]] else [];
    SplitAround(bs, i);
    UsedOfJoin(a, b);
    assert UsedOf(b) == at + UsedOf(c);
    SeqAssoc(UsedOf(a), at, UsedOf(c));
  }

  lemma SplitAround(bs: seq<Block>, i: nat)
    requires i < |bs|
    ensures bs == bs[..i] + bs[i..] && bs[i..][0] == bs[i] && bs[i..][1..] == bs[i + 1..]
  {
  }

  lemma SeqAssoc(a: seq<Block>, b: seq<Block>, c: seq<Block>)
    ensures a + (b + c) == a + b + c
  {
  }

  lemma Replaced(head: seq<Block>, mid: seq<Block>, tail: seq<Block>, at: nat, seg: nat, stop: nat, end: nat)
    requires Tiles(head, at, seg) && Tiles(mid, seg, stop) && Tiles(tail, stop, end)
    ensures Tiles(head + mid + tail, at, end)
    ensures UsedOf(head + mid + tail) == UsedOf(head) + UsedOf(mid) + UsedOf(tail)
  {
    TilesJoin(head, mid, at, seg, stop);
    TilesJoin(head + mid, tail, at, stop, end);
    UsedOfJoin(head + mid, tail);
    UsedOfJoin(head, mid);
  }

  /** After block `i` and what it can have, the table goes on with blocks in use. */
  lemma Behind(bs: seq<Block>, i: nat, at: nat, end: nat)
    requires Tiles(bs, at, end) && i < |bs|
    ensures var k := if Hemmed(bs, i) then i + 1 else i + 2;
      Tiles(bs[k..], bs[i].seg + Available(bs, i), end) && UsedOf(bs[k..]) == UsedOf(bs[i + 1..])
  {
    TilesBounds(bs, at, end, i);
    if !Hemmed(bs, i) {
      assert bs[i + 1..][1..] == bs[i + 2..] && bs[i + 1..][0] == bs[i + 1];
    }
  }

  lemma SeqJoin(a: seq<Block>, b: seq<Block>, c: seq<Block>, d: seq<Block>)
    ensures a + (b + c) + d == a + b + c + d
  {
  }

  /** What replaces block `i` and, where it is free, the block after it. */
  lemma FittedTiles(bs: seq<Block>, i: nat, count: nat, at: nat, end: nat)
    requires Tiles(bs, at, end) && i < |bs| && bs[i].used && 0 < count <= Available(bs, i)
    ensures Tiles(Fitted(bs, i, count), at, end)
    ensures UsedOf(Fitted(bs, i, count)) == UsedOf(bs[..i]) + [Block(bs[i].seg, count, true)] + UsedOf(bs[i + 1..])
  {
    if count == bs[i].count {
      UsedAround(bs, i);
    } else {
      var seg, rest := bs[i].seg, Available(bs, i) - count;
      var k := if Hemmed(bs, i) then i + 1 else i + 2;
      var head := [Block(seg, count, true)];
      var gap := if rest > 0 then [Block(seg + count, rest, false)] else [];
      TilesBounds(bs, at, end, i);
      Behind(bs, i, at, end);
      MiddleTiles(head, gap, seg, count, rest);
      Replaced(bs[..i], head + gap, bs[k..], at, seg, seg + count + rest, end);
      SeqJoin(bs[..i], head, gap, bs[k..]);
    }
  }

  lemma MiddleTiles(head: seq<Block>, gap: seq<Block>, seg: nat, count: nat, rest: nat)
    requires count > 0 && head == [Block(seg, count, true)]
    requires gap == if rest > 0 then [Block(seg + count, rest, false)] else []
    ensures Tiles(head + gap, seg, seg + count + rest) && UsedOf(head + gap) == head
  {
    assert (head + gap)[1..] == gap;
    if rest > 0 {
      assert gap[1..] == [];
      assert UsedOf(gap) == [];
    }
  }

  /** A resize that is not refused gives the block exactly what was asked, moves no other block
      in use, and leaves a table of at most 64 blocks. */
  lemma ResizeKeeps(bs: seq<Block>, i: nat, count: nat)
    requires TableOk(bs) && i < |bs| && bs[i].used && !ResizeRefused(bs, i, count)
    ensures TableOk(Resized(bs, i, count))
    ensures UsedOf(Resized(bs, i, count)) == UsedOf(bs[..i]) + [Block(bs[i].seg, count, true)] + UsedOf(bs[i + 1..])
  {
    FittedTiles(bs, i, count, DOS_PSP, DOS_TOP);
    MergedKeeps(Fitted(bs, i, count), DOS_PSP, DOS_TOP);
    if i > 0 { assert Fitted(bs, i, count)[0] == bs[0]; }
  }

  /** Freeing a block, which is never the first, takes it and nothing else out of use. */
  lemma FreeKeeps(bs: seq<Block>, i: nat)
    requires TableOk(bs) && 0 < i < |bs| && bs[i].used
    ensures TableOk(Freed(bs, i))
    ensures UsedOf(Freed(bs, i)) == UsedOf(bs[..i]) + UsedOf(bs[i + 1..])
  {
    var f := Block(bs[i].seg, bs[i].count, false);
    var fs := bs[i := f];
    TilesBounds(bs, DOS_PSP, DOS_TOP, i);
    assert fs == bs[..i] + ([f] + bs[i + 1..]);
    assert ([f] + bs[i + 1..])[1..] == bs[i + 1..];
    TilesJoin(bs[..i], [f] + bs[i + 1..], DOS_PSP, bs[i].seg, DOS_TOP);
    MergedKeeps(fs, DOS_PSP, DOS_TOP);
    UsedAround(fs, i);
    assert fs[..i] == bs[..i] && fs[i + 1..] == bs[i + 1..];
  }

  // ----- allocation -----

  predicate Suits(b: Block, count: nat) {
    !b.used && b.count >= count
  }

  /** The first free block large enough, or the length of the table. */
  function FirstFit(bs: seq<Block>, count: nat): (i: nat)
    ensures i <= |bs|
    ensures i < |bs| ==> Suits(bs[i], count)
    ensures forall k | 0 <= k < i :: !Suits(bs[k], count)
  {
    if bs == [] || Suits(bs[0], count) then 0 else 1 + FirstFit(bs[1..], count)
  }

  /** Allocation succeeds exactly when some free block is large enough and, unless the first such
      block fits exactly, the table has an entry left for the rest of it. */
  predicate Allocates(bs: seq<Block>, count: nat) {
    var i := FirstFit(bs, count);
    count > 0 && i < |bs| && (bs[i].count == count || |bs| < MAX_BLOCKS)
  }

  function Taken(bs: seq<Block>, count: nat): seq<Block>
    requires Allocates(bs, count)
  {
    var i := FirstFit(bs, count);
    Resized(bs[i := bs[i].(used := true)], i, count)
  }

  lemma {:induction false} CoalescedAt(bs: seq<Block>, i: nat)
    requires Coalesced(bs) && i + 1 < |bs|
    ensures !BothFree(bs[i], bs[i + 1])
    decreases |bs|
  {
    if i > 0 { CoalescedAt(bs[1..], i - 1); }
  }

  lemma {:induction false} UseCoalesced(bs: seq<Block>, i: nat)
    requires Coalesced(bs) && i < |bs|
    ensures Coalesced(bs[i := bs[i].(used := true)])
    decreases |bs|
  {
    var us := bs[i := bs[i].(used := true)];
    if i > 0 {
      UseCoalesced(bs[1..], i - 1);
      assert us[1..] == bs[1..][i - 1 := bs[1..][i - 1].(used := true)];
    } else {
      assert us[1..] == bs[1..];
    }
  }

  /** Marking a free block used keeps everything about the table, and resizing it to fit is then
      refused exactly when the table is full and the fit not exact. */
  lemma MarkKeeps(bs: seq<Block>, i: nat, count: nat)
    requires TableOk(bs) && i < |bs| && Suits(bs[i], count) && count > 0
    ensures var us := bs[i := bs[i].(used := true)];
      TableOk(us) && (ResizeRefused(us, i, count) <==> bs[i].count != count && |bs| == MAX_BLOCKS)
    ensures Hemmed(bs, i)
  {
    var us := bs[i := bs[i].(used := true)];
    if i + 1 < |bs| { CoalescedAt(bs, i); }
    UseCoalesced(bs, i);
    var u := us[i];
    TilesBounds(bs, DOS_PSP, DOS_TOP, i);
    assert us == bs[..i] + ([u] + bs[i + 1..]);
    assert ([u] + bs[i + 1..])[1..] == bs[i + 1..];
    TilesJoin(bs[..i], [u] + bs[i + 1..], DOS_PSP, bs[i].seg, DOS_TOP);
  }

  /** An allocation adds a block of exactly the requested size at the start of the first free
      block that is large enough, and moves nothing. */
  lemma AllocateKeeps(bs: seq<Block>, count: nat)
    requires TableOk(bs) && Allocates(bs, count)
    ensures TableOk(Taken(bs, count))
    ensures var i := FirstFit(bs, count);
      UsedOf(Taken(bs, count)) == UsedOf(bs[..i]) + [Block(bs[i].seg, count, true)] + UsedOf(bs[i + 1..])
  {
    var i := FirstFit(bs, count);
    var us := bs[i := bs[i].(used := true)];
    MarkKeeps(bs, i, count);
    ResizeKeeps(us, i, count);
    assert us[..i] == bs[..i] && us[i + 1..] == bs[i + 1..];
  }

  // ----- what one call undoes -----

  /** Where in a table a block in use is. */
  lemma {:induction false} FindUsed(bs: seq<Block>, k: nat) returns (i: nat)
    requires k < |UsedOf(bs)|
    ensures i < |bs| && bs[i].used && bs[i] == UsedOf(bs)[k]
    ensures UsedOf(bs[..i]) == UsedOf(bs)[..k] && UsedOf(bs[i + 1..]) == UsedOf(bs)[k + 1..]
    decreases |bs|
  {
    if bs[0].used && k == 0 {
      i := 0;
      assert bs[..0] == [];
    } else {
      var head := if bs[0].used then [bs[0]] else [];
      var j := FindUsed(bs[1..], k - |head|);
      i := j + 1;
      assert bs[..i][1..] == bs[1..][..j] && bs[..i][0] == bs[0] && bs[i + 1..] == bs[1..][j + 1..];
      assert UsedOf(bs)[..k] == head + UsedOf(bs[1..])[..k - |head|];
      assert UsedOf(bs)[k + 1..] == UsedOf(bs[1..])[k - |head| + 1..];
    }
  }

  lemma FreeingRestores(bs: seq<Block>, f: nat, ts: seq<Block>, i: nat)
    requires TableOk(bs) && f < |bs| && !bs[f].used && TableOk(ts) && 0 < i < |ts| && ts[i].used
    requires UsedOf(ts[..i]) == UsedOf(bs[..f]) && UsedOf(ts[i + 1..]) == UsedOf(bs[f + 1..])
    ensures Freed(ts, i) == bs
  {
    FreeKeeps(ts, i);
    UsedAround(bs, f);
    TableDetermined(Freed(ts, i), bs);
  }

  /** Freeing what was just allocated gives the very same table back, splits and merges undone. */
  lemma FreeUndoesAllocate(bs: seq<Block>, count: nat) returns (i: nat)
    requires TableOk(bs) && Allocates(bs, count)
    ensures 0 < i < |Taken(bs, count)| && HeldAt(Taken(bs, count), i, bs[FirstFit(bs, count)].seg)
    ensures Freed(Taken(bs, count), i) == bs
  {
    var f, ts := FirstFit(bs, count), Taken(bs, count);
    var b, before := Block(bs[f].seg, count, true), UsedOf(bs[..f]);
    AllocateKeeps(bs, count);
    i := FindUsed(ts, |before|);
    TilesBounds(bs, DOS_PSP, DOS_TOP, f);
    assert ts[i] == b && UsedOf(ts[..i]) == before && UsedOf(ts[i + 1..]) == UsedOf(bs[f + 1..]);
    FreeingRestores(bs, f, ts, i);
  }

  // ----- steps of a resize in the table -----

  /** Block `i` given the free block after it, which leaves the table. */
  function Absorbed(bs: seq<Block>, i: nat): seq<Block>
    requires i + 1 < |bs|
  {
    bs[..i] + [bs[i].(count := bs[i].count + bs[i + 1].count)] + bs[i + 2..]
  }

  /** Block `i` cut to `count`, the rest free in an entry of its own. */
  function Cut(bs: seq<Block>, i: nat, count: nat): seq<Block>
    requires i < |bs| && count <= bs[i].count
  {
    bs[..i] + [bs[i].(count := count), Block(bs[i].seg + count, bs[i].count - count, false)] + bs[i + 1..]
  }

  lemma FittedInSteps(bs: seq<Block>, i: nat, count: nat)
    requires i < |bs| && bs[i].used && 0 < count <= Available(bs, i) && count != bs[i].count
    ensures Hemmed(bs, i) ==> Fitted(bs, i, count) == Cut(bs, i, count)
    ensures !Hemmed(bs, i) && count < Available(bs, i) ==> Fitted(bs, i, count) == Cut(Absorbed(bs, i), i, count)
    ensures !Hemmed(bs, i) && count == Available(bs, i) ==> Fitted(bs, i, count) == Absorbed(bs, i)
  {
    if !Hemmed(bs, i) {
      assert Absorbed(bs, i)[i + 1..] == bs[i + 2..] && Absorbed(bs, i)[..i] == bs[..i];
    }
  }

  // ----- when a call succeeds -----

  /** Some other block in use has a paragraph in `[lo, hi)`. */
  ghost predicate Meets(bs: seq<Block>, i: nat, lo: nat, hi: nat) {
    exists j :: 0 <= j < |bs| && j != i && Overlaps(bs[j], lo, hi)
  }

  predicate Overlaps(b: Block, lo: nat, hi: nat) {
    b.used && b.seg < hi && lo < b.seg + b.count
  }

  /** A free block begins at `seg`. */
  ghost predicate FreeAt(bs: seq<Block>, seg: nat) {
    exists j :: 0 <= j < |bs| && !bs[j].used && bs[j].seg == seg
  }

  /** What follows a block begins where it ends. */
  lemma NextBegins(bs: seq<Block>, at: nat, end: nat, i: nat)
    requires Tiles(bs, at, end) && i < |bs|
    ensures bs[i].seg + bs[i].count == if i + 1 < |bs| then bs[i + 1].seg else end
  {
    TilesBounds(bs, at, end, i);
    if i + 1 < |bs| { assert bs[i + 1..][0] == bs[i + 1]; }
  }

  lemma OthersApart(bs: seq<Block>, i: nat, j: nat)
    requires TableOk(bs) && i < |bs| && j < |bs| && i != j
    ensures if j < i then bs[j].seg + bs[j].count <= bs[i].seg else bs[i].seg + bs[i].count <= bs[j].seg
    ensures bs[j].count > 0
  {
    if j < i { SegmentsDiffer(bs, DOS_PSP, DOS_TOP, j, i); } else { SegmentsDiffer(bs, DOS_PSP, DOS_TOP, i, j); }
    TilesBounds(bs, DOS_PSP, DOS_TOP, j);
  }

  /** What block `i` can have ends where the next block in use begins, or at the top. */
  lemma AvailableEnds(bs: seq<Block>, i: nat)
    requires TableOk(bs) && i < |bs| && bs[i].used
    ensures var k := if Hemmed(bs, i) then i + 1 else i + 2;
      bs[i].seg + Available(bs, i) == (if k < |bs| then bs[k].seg else DOS_TOP) && (k < |bs| ==> bs[k].used)
  {
    NextBegins(bs, DOS_PSP, DOS_TOP, i);
    if !Hemmed(bs, i) {
      NextBegins(bs, DOS_PSP, DOS_TOP, i + 1);
      if i + 2 < |bs| { CoalescedAt(bs, i + 1); }
    }
  }

  /** That is all there is between it and the others. */
  lemma AvailableIff(bs: seq<Block>, i: nat, count: nat)
    requires TableOk(bs) && i < |bs| && bs[i].used && count > 0
    ensures count <= Available(bs, i) <==>
      bs[i].seg + count <= 0xA000 && !Meets(bs, i, bs[i].seg, bs[i].seg + count)
  {
    var k := if Hemmed(bs, i) then i + 1 else i + 2;
    AvailableEnds(bs, i);
    if count > Available(bs, i) {
      if k < |bs| {
        OthersApart(bs, i, k);
        assert Overlaps(bs[k], bs[i].seg, bs[i].seg + count);
      }
    } else {
      if k < |bs| { TilesBounds(bs, DOS_PSP, DOS_TOP, k); }
      forall j | 0 <= j < |bs| && j != i
        ensures !Overlaps(bs[j], bs[i].seg, bs[i].seg + count)
      {
        OthersApart(bs, i, j);
        if k < j { OthersApart(bs, k, j); }
      }
    }
  }

  lemma SegmentBehind(bs: seq<Block>, i: nat, j: nat)
    requires TableOk(bs) && i < |bs| && j < |bs|
    ensures bs[j].seg == bs[i].seg + bs[i].count ==> j == i + 1
  {
    TilesBounds(bs, DOS_PSP, DOS_TOP, i);
    TilesBounds(bs, DOS_PSP, DOS_TOP, j);
    if j < i { OthersApart(bs, i, j); }
    if i + 1 < j {
      OthersApart(bs, i + 1, j);
      NextBegins(bs, DOS_PSP, DOS_TOP, i);
      TilesBounds(bs, DOS_PSP, DOS_TOP, i + 1);
    }
  }

  lemma HemmedIff(bs: seq<Block>, i: nat)
    requires TableOk(bs) && i < |bs|
    ensures Hemmed(bs, i) <==> !FreeAt(bs, bs[i].seg + bs[i].count)
  {
    NextBegins(bs, DOS_PSP, DOS_TOP, i);
    forall j | 0 <= j < |bs|
      ensures bs[j].seg == bs[i].seg + bs[i].count ==> j == i + 1
    {
      SegmentBehind(bs, i, j);
    }
  }

  /** When a resize is granted: the new extent stays below the top and clear of every other block in
      use, and cutting the block down finds an entry for the rest, unless a free block right behind
      it takes that in. */
  lemma ResizeGrantedIff(bs: seq<Block>, i: nat, count: nat)
    requires TableOk(bs) && i < |bs| && bs[i].used
    ensures !ResizeRefused(bs, i, count) <==>
      && count > 0 && bs[i].seg + count <= 0xA000 && !Meets(bs, i, bs[i].seg, bs[i].seg + count)
      && !(count < bs[i].count && |bs| == 64 && !FreeAt(bs, bs[i].seg + bs[i].count))
  {
    if count > 0 { AvailableIff(bs, i, count); }
    HemmedIff(bs, i);
  }

  /** When an allocation is granted, and where: in the first free block large enough, if that fits
      exactly or the table has room for the rest of it. */
  lemma AllocationGrantedIff(bs: seq<Block>, count: nat, i: nat)
    ensures Allocates(bs, count) && FirstFit(bs, count) == i <==>
      && count > 0 && i < |bs| && !bs[i].used && bs[i].count >= count
      && (forall j | 0 <= j < i :: bs[j].used || bs[j].count < count)
      && (bs[i].count == count || |bs| < 64)
  {
    var f := FirstFit(bs, count);
    assert forall k | 0 <= k < f :: !Suits(bs[k], count);
    assert f < |bs| ==> Suits(bs[f], count);
  }
}
