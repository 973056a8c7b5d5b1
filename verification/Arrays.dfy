/** Moving stretches of an array in place, as the editor, the program store and the block table
    do when something is inserted or taken out: upwards from the end, downwards from the start,
    or copied from one stretch to another. What each loop has done after any number of turns is a
    function of the sequence the array held before, so that its users need no invariants of
    their own. */
module Arrays {

  /** The cells from `lo` to `hi` moved one place right, or left, and `n` cells copied. */
  ghost function ShiftedRight<T>(s: seq<T>, lo: nat, hi: nat): (t: seq<T>)
    requires lo <= hi < |s|
    ensures |t| == |s|
  {
    seq(|s|, k requires 0 <= k < |s| => if lo < k <= hi then s[k - 1] else s[k])
  }

  ghost function ShiftedLeft<T>(s: seq<T>, lo: nat, hi: nat): (t: seq<T>)
    requires lo < hi <= |s|
    ensures |t| == |s|
  {
    seq(|s|, k requires 0 <= k < |s| => if lo <= k < hi - 1 then s[k + 1] else s[k])
  }

  ghost function Copied<T>(s: seq<T>, to: nat, from: nat, n: nat): (t: seq<T>)
    requires to + n <= |s| && from + n <= |s|
    ensures |t| == |s|
  {
    seq(|s|, k requires 0 <= k < |s| => if to <= k < to + n then s[k - to + from] else s[k])
  }

  /** Moves the cells from `lo` up to `hi` one place right, over the cell at `hi`. */
  method ShiftRight<T>(a: array<T>, lo: nat, hi: nat)
    requires lo <= hi < a.Length
    modifies a
    ensures a[..] == ShiftedRight(old(a[..]), lo, hi)
  {
    var i := hi;
    while i > lo
      invariant lo <= i <= hi
      invariant forall k {:trigger a[k]} | 0 <= k < a.Length ::
        a[k] == if i < k <= hi then old(a[k - 1]) else old(a[k])
    {
      a[i] := a[i - 1];
      i := i - 1;
    }
  }

  /** Moves the cells from `lo + 1` up to `hi` one place left, over the cell at `lo`. */
  method ShiftLeft<T>(a: array<T>, lo: nat, hi: nat)
    requires lo < hi <= a.Length
    modifies a
    ensures a[..] == ShiftedLeft(old(a[..]), lo, hi)
  {
    var i := lo;
    while i < hi - 1
      invariant lo <= i <= hi - 1
      invariant forall k {:trigger a[k]} | 0 <= k < a.Length ::
        a[k] == if lo <= k < i then old(a[k + 1]) else old(a[k])
    {
      a[i] := a[i + 1];
      i := i + 1;
    }
  }

  /** Copies `n` cells from `from` to `to`, where they do not overlap. */
  method CopyCells<T>(a: array<T>, to: nat, from: nat, n: nat)
    requires to + n <= a.Length && from + n <= a.Length && (to + n <= from || from + n <= to)
    modifies a
    ensures a[..] == Copied(old(a[..]), to, from, n)
  {
    var c := 0;
    while c < n
      invariant 0 <= c <= n
      invariant forall k {:trigger a[k]} | 0 <= k < a.Length ::
        a[k] == if to <= k < to + c then old(a[k - to + from]) else old(a[k])
    {
      a[to + c] := a[from + c];
      c := c + 1;
    }
  }
}
