/** The block table of the DOS runtime (kernel/dos.c), shifted, split and merged in place: an array and
    a count of the entries in use. What the table holds is compared with the functions of `DosSpec`
    after every step. */
module Dos {
  import opened Arrays
  import opened DosSpec

  class Arena {
    const blocks: array<Block>
    var blockCount: nat
    /** The word at offset 2 of the program segment prefix: where the program's memory ends. */
    var pspTop: nat

    ghost predicate Shape()
      reads this
    {
      blocks.Length == MAX_BLOCKS && blockCount <= MAX_BLOCKS
    }

    ghost function View(): seq<Block>
      requires Shape()
      reads this, blocks
    {
      blocks[..blockCount]
    }

    ghost predicate Valid()
      reads this, blocks
    {
      Shape() && TableOk(View()) && pspTop == DOS_PSP + View()[0].count
    }

    /** The table of a freshly loaded program of `allocation` paragraphs. */
    constructor (allocation: nat)
      requires 0 < allocation <= 0x8000
      ensures Valid() && fresh(blocks)
      ensures UsedOf(View()) == [Block(0x2000, allocation, true)]
    {
      blocks := new Block[MAX_BLOCKS](_ => Block(0, 0, false));
      blockCount := 1;
      pspTop := DOS_PSP + allocation;
      new;
      var own := Block(DOS_PSP, allocation, true);
      blocks[0] := own;
      if DOS_PSP + allocation < DOS_TOP {
        blocks[1] := Block(DOS_PSP + allocation, DOS_TOP - DOS_PSP - allocation, false);
        blockCount := 2;
      }
      InitialTable(View(), allocation);
    }

    // ----- merging -----

    /** Takes entry `at` out of the table. */
    method Remove(at: nat)
      requires Shape() && at < blockCount
      modifies this`blockCount, blocks
      ensures Shape() && View() == old(View())[..at] + old(View())[at + 1..]
    {
      ShiftLeft(blocks, at, blockCount);
      blockCount := blockCount - 1;
    }

    /** Puts a block into the table before entry `at`. */
    method Insert(at: nat, b: Block)
      requires Shape() && at <= blockCount < MAX_BLOCKS
      modifies this`blockCount, blocks
      ensures Shape() && View() == old(View())[..at] + [b] + old(View())[at..]
    {
      ShiftRight(blocks, at, blockCount);
      blocks[at] := b;
      blockCount := blockCount + 1;
    }

    /** Gives block `i` all it can have. */
    method Absorb(i: nat)
      requires Shape() && i + 1 < blockCount
      modifies this`blockCount, blocks
      ensures Shape() && View() == Absorbed(old(View()), i)
    {
      blocks[i] := blocks[i].(count := blocks[i].count + blocks[i + 1].count);
      Remove(i + 1);
    }

    method Coalesce()
      requires Shape()
      modifies this`blockCount, blocks
      ensures Shape() && View() == Merged(old(View()))
    {
      ghost var was := View();
      var i := 0;
      assert was[0..] == was;
      while i + 1 < blockCount
        invariant Shape() && i <= blockCount
        invariant Merged(was) == MergedFrom(View(), i)
        decreases blockCount - i
      {
        Turns(View(), i);
        if !blocks[i].used && !blocks[i + 1].used {
          Absorb(i);
        } else {
          i := i + 1;
        }
      }
      AllMerged(View(), i);
    }

    method LargestFree() returns (n: nat)
      requires Shape()
      ensures IsLargestFree(View(), n)
    {
      n := 0;
      var i := 0;
      while i < blockCount
        invariant 0 <= i <= blockCount && IsLargestFree(View()[..i], n)
      {
        ghost var v := View()[..i + 1];
        assert v[..i] == View()[..i];
        if !blocks[i].used && blocks[i].count > n { n := blocks[i].count; }
        i := i + 1;
      }
    }

    // ----- calls -----

    /** Finds the block in use at `seg`; `i` is the length of the table if there is none. */
    method FindHeld(seg: nat) returns (i: nat)
      requires Shape()
      ensures i <= blockCount && (i < blockCount ==> HeldAt(View(), i, seg))
      ensures forall k: nat | k < i :: !HeldAt(View(), k, seg)
    {
      i := 0;
      while i < blockCount
        invariant 0 <= i <= blockCount
        invariant forall k: nat | k < i :: !HeldAt(View(), k, seg)
      {
        if blocks[i].seg == seg && blocks[i].used { return; }
        i := i + 1;
      }
    }

    /** Cuts block `i` down, the rest becoming free. */
    method Split(i: nat, count: nat)
      requires Shape() && i < blockCount < MAX_BLOCKS && count <= blocks[i].count
      modifies this`blockCount, blocks
      ensures Shape() && View() == Cut(old(View()), i, count)
    {
      Insert(i + 1, Block(blocks[i].seg + count, blocks[i].count - count, false));
      blocks[i] := blocks[i].(count := count);
    }

    /** Refits block `i`, which is in use, or refuses with the table as it was. */
    method Refit(i: nat, count: nat) returns (rc: nat)
      requires Shape() && i < blockCount && blocks[i].used
      requires 0 < count <= Available(View(), i) && count != blocks[i].count
      modifies this`blockCount, blocks
      ensures Shape() && rc == (if ResizeRefused(old(View()), i, count) then 8 else 0)
      ensures View() == if rc == 0 then Fitted(old(View()), i, count) else old(View())
    {
      ghost var was := View();
      FittedInSteps(was, i, count);
      if i + 1 < blockCount && !blocks[i + 1].used {
        Absorb(i);
      }
      if count < blocks[i].count {
        if blockCount == MAX_BLOCKS { return 8; }
        Split(i, count);
      }
      return 0;
    }

    /** Resizes the block at `seg`. `largest` is what the block could have had. */
    method Resize(seg: nat, count: nat, was: nat) returns (rc: nat, largest: nat, ghost i: nat)
      requires Valid()
      modifies this`blockCount, this`pspTop, blocks
      ensures Valid()
      ensures rc == 9 <==> forall k: nat :: !HeldAt(old(View()), k, seg)
      ensures rc == 9 ==> View() == old(View()) && largest == was
      ensures rc != 9 ==> HeldAt(old(View()), i, seg) && largest == Available(old(View()), i)
      ensures rc != 9 ==> rc == if ResizeRefused(old(View()), i, count) then 8 else 0
      ensures rc == 8 ==> View() == old(View())
      ensures rc == 0 ==> View() == Resized(old(View()), i, count)
    {
      ghost var v := View();
      var at := FindHeld(seg);
      i := at;
      if at == blockCount { return 9, was, i; }
      largest := blocks[at].count;
      if at + 1 < blockCount && !blocks[at + 1].used { largest := largest + blocks[at + 1].count; }
      if count == 0 || count > largest { return 8, largest, i; }
      if count == blocks[at].count {
        MergedCoalesced(v);
        return 0, largest, i;
      }
      rc := Refit(at, count);
      if rc != 0 { return; }
      PlaceOf(v, at);
      ResizeKeeps(v, at, count);
      if seg == DOS_PSP { pspTop := seg + count; }
      Coalesce();
    }

    method Free(seg: nat) returns (rc: nat, ghost i: nat)
      requires Valid()
      modifies this`blockCount, blocks
      ensures Valid() && rc == (if seg != DOS_PSP && exists k: nat :: HeldAt(old(View()), k, seg) then 0 else 9)
      ensures rc == 9 ==> View() == old(View())
      ensures rc == 0 ==> i > 0 && HeldAt(old(View()), i, seg) && View() == Freed(old(View()), i)
    {
      ghost var v := View();
      var at := FindHeld(seg);
      i := at;
      if at == blockCount || seg == DOS_PSP { return 9, i; }
      assert at > 0;
      blocks[at] := blocks[at].(used := false);
      assert View() == v[at := v[at].(used := false)];
      FreeKeeps(v, at);
      Coalesce();
      return 0, i;
    }

    method FindFit(count: nat) returns (i: nat)
      requires Shape()
      ensures i == FirstFit(View(), count)
    {
      i := 0;
      while i < blockCount
        invariant 0 <= i <= blockCount
        invariant FirstFit(View(), count) == i + FirstFit(View()[i..], count)
      {
        assert View()[i..][1..] == View()[i + 1..];
        if !blocks[i].used && blocks[i].count >= count { return; }
        i := i + 1;
      }
    }

    /** Allocates `count` paragraphs, or returns 0 with the table as it was. */
    method Allocate(count: nat) returns (seg: nat, largest: nat)
      requires Valid()
      modifies this`blockCount, this`pspTop, blocks
      ensures Valid()
      ensures seg == 0 <==> !Allocates(old(View()), count)
      ensures seg == 0 ==> View() == old(View())
      ensures seg != 0 ==> seg == old(View())[FirstFit(old(View()), count)].seg && View() == Taken(old(View()), count)
      ensures var i := FirstFit(old(View()), count);
        if count > 0 && i < old(blockCount) then largest == old(View())[i].count
        else IsLargestFree(old(View()), largest)
    {
      largest := LargestFree();
      if count == 0 { return 0, largest; }
      var i := FindFit(count);
      if i == blockCount { return 0, largest; }
      seg, largest := Claim(i, count, largest);
    }

    /** Marks the free block `i` used and fits it, or takes the mark back. */
    method Claim(i: nat, count: nat, was: nat) returns (seg: nat, largest: nat)
      requires Valid() && i < blockCount && Suits(blocks[i], count) && count > 0
      modifies this`blockCount, this`pspTop, blocks
      ensures Valid() && largest == old(blocks[i].count)
      ensures seg == if old(blocks[i].count) == count || old(blockCount) < MAX_BLOCKS then old(blocks[i].seg) else 0
      ensures old(blocks[i].seg) > 0
      ensures var v := old(View());
        View() == if seg != 0 then Resized(v[i := v[i].(used := true)], i, count) else v
    {
      ghost var v := View();
      MarkKeeps(v, i, count);
      PlaceOf(v, i);
      seg := blocks[i].seg;
      blocks[i] := blocks[i].(used := true);
      ghost var marked := View();
      assert marked == v[i := v[i].(used := true)] && HeldAt(marked, i, seg);
      var rc: nat;
      ghost var at: nat;
      rc, largest, at := Resize(seg, count, was);
      SameSegment(marked, i, at);
      if rc != 0 {
        blocks[i] := blocks[i].(used := false);
        assert View() == v;
        seg := 0;
      }
    }
  }

  /** Only the first block starts at the program's own segment. */
  lemma PlaceOf(bs: seq<Block>, i: nat)
    requires TableOk(bs) && i < |bs|
    ensures bs[i].seg > 0 && (bs[i].seg == DOS_PSP <==> i == 0)
  {
    TilesBounds(bs, DOS_PSP, DOS_TOP, i);
  }

  lemma SameSegment(bs: seq<Block>, i: nat, j: nat)
    requires TableOk(bs) && i < |bs| && j < |bs| && bs[i].seg == bs[j].seg
    ensures i == j
  {
    if i < j { SegmentsDiffer(bs, DOS_PSP, DOS_TOP, i, j); TilesBounds(bs, DOS_PSP, DOS_TOP, i); }
    if j < i { SegmentsDiffer(bs, DOS_PSP, DOS_TOP, j, i); TilesBounds(bs, DOS_PSP, DOS_TOP, j); }
  }

  lemma InitialTable(bs: seq<Block>, allocation: nat)
    requires 0 < allocation <= DOS_TOP - DOS_PSP
    requires var rest := DOS_TOP - DOS_PSP - allocation;
      bs == [Block(DOS_PSP, allocation, true)] + (if rest > 0 then [Block(DOS_PSP + allocation, rest, false)] else [])
    ensures TableOk(bs) && UsedOf(bs) == [Block(DOS_PSP, allocation, true)]
  {
    var own := Block(DOS_PSP, allocation, true);
    MiddleTiles([own], bs[1..], DOS_PSP, allocation, DOS_TOP - DOS_PSP - allocation);
    assert bs == [own] + bs[1..];
  }

  /** The most paragraphs a free block has, or 0. */
  ghost predicate IsLargestFree(bs: seq<Block>, n: nat) {
    && (forall k | 0 <= k < |bs| :: bs[k].used || bs[k].count <= n)
    && (n == 0 || exists k :: 0 <= k < |bs| && !bs[k].used && bs[k].count == n)
  }

  /** The table with only what is behind entry `i` still to be merged. */
  ghost function MergedFrom(v: seq<Block>, i: nat): seq<Block>
    requires i <= |v|
  {
    v[..i] + Merged(v[i..])
  }

  lemma Turns(v: seq<Block>, i: nat)
    requires i + 1 < |v|
    ensures MergedFrom(v, i) ==
      if BothFree(v[i], v[i + 1]) then MergedFrom(Absorbed(v, i), i) else MergedFrom(v, i + 1)
  {
    if BothFree(v[i], v[i + 1]) {
      var w := Absorbed(v, i);
      assert v[i..][2..] == v[i + 2..] && w[i..] == [Merge(v[i], v[i + 1])] + v[i + 2..] && w[..i] == v[..i];
    } else {
      assert v[i..][1..] == v[i + 1..];
    }
  }

  lemma AllMerged(v: seq<Block>, i: nat)
    requires i <= |v| <= i + 1
    ensures MergedFrom(v, i) == v && MergedFrom(v, 0) == Merged(v)
  {
    assert v[0..] == v;
  }
}
