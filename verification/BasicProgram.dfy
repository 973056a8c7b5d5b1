/** The program InteiliBASIC holds, as a finite map (shell/basic.c). */
module BasicProgram {
  const PROG_MAX: nat := 256
  const LINE_MAX: nat := 128

  datatype Line = Line(num: int, text: string)

  ghost predicate Sorted(prog: seq<Line>) {
    forall i, j | 0 <= i < j < |prog| :: prog[i].num < prog[j].num
  }

  /** A stored line holds at most 127 characters. */
  function Clip(text: string): (t: string)
    ensures |t| < LINE_MAX
  {
    if |text| < LINE_MAX then text else text[..LINE_MAX - 1]
  }

  /** The first line numbered `n` or more. */
  function IndexGe(prog: seq<Line>, n: int): (i: nat)
    ensures i <= |prog| && (i < |prog| ==> prog[i].num >= n)
    ensures forall k | 0 <= k < i :: prog[k].num < n
  {
    IndexFrom(prog, 0, n)
  }

  function IndexFrom(prog: seq<Line>, from: nat, n: int): (i: nat)
    requires from <= |prog|
    ensures from <= i <= |prog| && (i < |prog| ==> prog[i].num >= n)
    ensures forall k | from <= k < i :: prog[k].num < n
    decreases |prog| - from
  {
    if from == |prog| || prog[from].num >= n then from else IndexFrom(prog, from + 1, n)
  }

  predicate Holds(prog: seq<Line>, n: int) {
    var i := IndexGe(prog, n);
    i < |prog| && prog[i].num == n
  }

  /** The table with `line` put in before line `g`, and without line `g`. */
  function With(prog: seq<Line>, g: nat, line: Line): (now: seq<Line>)
    requires g <= |prog|
    ensures |now| == |prog| + 1
  {
    seq(|prog| + 1, i requires 0 <= i <= |prog| => if i < g then prog[i] else if i == g then line else prog[i - 1])
  }

  function Without(prog: seq<Line>, g: nat): (now: seq<Line>)
    requires g < |prog|
    ensures |now| == |prog| - 1
  {
    seq(|prog| - 1, i requires 0 <= i < |prog| - 1 => if i < g then prog[i] else prog[i + 1])
  }

  function Inserted(prog: seq<Line>, n: int, text: string): seq<Line> {
    var i, line := IndexGe(prog, n), Line(n, Clip(text));
    if Holds(prog, n) then prog[i := line]
    else if |prog| >= PROG_MAX then prog
    else With(prog, i, line)
  }

  function Deleted(prog: seq<Line>, n: int): seq<Line> {
    if Holds(prog, n) then Without(prog, IndexGe(prog, n)) else prog
  }

  // ----- the map a program stands for -----

  ghost function MapOf(prog: seq<Line>): map<int, string> {
    MapTo(prog, |prog|)
  }

  /** The first `k` lines as a map. */
  ghost function MapTo(prog: seq<Line>, k: nat): map<int, string>
    requires k <= |prog|
  {
    if k == 0 then map[] else MapTo(prog, k - 1)[prog[k - 1].num := prog[k - 1].text]
  }

  ghost predicate NumAt(prog: seq<Line>, i: nat, n: int) {
    i < |prog| && prog[i].num == n
  }

  lemma {:induction false} MapToHolds(prog: seq<Line>, k: nat, n: int)
    requires k <= |prog|
    ensures n in MapTo(prog, k) <==> exists i: nat :: i < k && NumAt(prog, i, n)
    decreases k
  {
    if k > 0 {
      MapToHolds(prog, k - 1, n);
      if prog[k - 1].num == n { assert NumAt(prog, k - 1, n); }
    }
  }

  lemma MapHolds(prog: seq<Line>, n: int)
    ensures n in MapOf(prog) <==> exists i: nat :: NumAt(prog, i, n)
  {
    MapToHolds(prog, |prog|, n);
  }

  lemma {:induction false} MapToText(prog: seq<Line>, k: nat, i: nat)
    requires Sorted(prog) && i < k <= |prog|
    ensures prog[i].num in MapTo(prog, k) && MapTo(prog, k)[prog[i].num] == prog[i].text
    decreases k
  {
    if i + 1 < k {
      MapToText(prog, k - 1, i);
      SortedPair(prog, i, k - 1);
    }
  }

  lemma MapText(prog: seq<Line>, i: nat)
    requires Sorted(prog) && i < |prog|
    ensures prog[i].num in MapOf(prog) && MapOf(prog)[prog[i].num] == prog[i].text
  {
    MapToText(prog, |prog|, i);
  }

  /** A map with a program's lines and no others is the map it stands for. */
  lemma MapIs(prog: seq<Line>, m: map<int, string>)
    requires Sorted(prog)
    requires forall i | 0 <= i < |prog| :: prog[i].num in m && m[prog[i].num] == prog[i].text
    requires forall n | n in m :: exists i: nat :: NumAt(prog, i, n)
    ensures MapOf(prog) == m
  {
    forall n ensures n in MapOf(prog) <==> n in m {
      MapHolds(prog, n);
      if i: nat :| NumAt(prog, i, n) { assert prog[i].num in m; }
    }
    forall n | n in m ensures MapOf(prog)[n] == m[n] {
      var i: nat :| NumAt(prog, i, n);
      MapText(prog, i);
    }
  }

  lemma SortedPair(prog: seq<Line>, i: nat, j: nat)
    requires Sorted(prog)
    ensures i < j < |prog| ==> prog[i].num < prog[j].num
  {
  }

  lemma HoldsIff(prog: seq<Line>, n: int)
    requires Sorted(prog)
    ensures Holds(prog, n) <==> n in MapOf(prog)
    ensures Holds(prog, n) <==> exists i: nat :: NumAt(prog, i, n)
  {
    MapHolds(prog, n);
    var g := IndexGe(prog, n);
    if i: nat :| NumAt(prog, i, n) {
      assert i >= g;
      SortedPair(prog, g, i);
    }
    if Holds(prog, n) { assert NumAt(prog, g, n); }
  }

  lemma IndexGeUnique(prog: seq<Line>, n: int, i: nat)
    requires i <= |prog| && (i < |prog| ==> prog[i].num >= n)
    requires forall k | 0 <= k < i :: prog[k].num < n
    ensures IndexGe(prog, n) == i
  {
  }

  lemma ReplacedEntry(prog: seq<Line>, n: int, text: string, i: nat)
    requires Sorted(prog) && Holds(prog, n) && i < |prog|
    ensures var now, m := Inserted(prog, n, text), MapOf(prog)[n := Clip(text)];
      now[i].num in m && m[now[i].num] == now[i].text
  {
    var g := IndexGe(prog, n);
    MapText(prog, i);
    SortedPair(prog, i, g);
    SortedPair(prog, g, i);
  }

  lemma ReplacedKey(prog: seq<Line>, n: int, text: string, k: int)
    requires Sorted(prog) && Holds(prog, n) && (k == n || k in MapOf(prog))
    ensures exists i: nat :: NumAt(Inserted(prog, n, text), i, k)
  {
    var g, now := IndexGe(prog, n), Inserted(prog, n, text);
    MapHolds(prog, k);
    if k == n {
      assert NumAt(now, g, k);
    } else {
      var i: nat :| NumAt(prog, i, k);
      assert NumAt(now, i, k);
    }
  }

  lemma ReplacedMap(prog: seq<Line>, n: int, text: string)
    requires Sorted(prog) && Holds(prog, n)
    ensures Sorted(Inserted(prog, n, text)) && MapOf(Inserted(prog, n, text)) == MapOf(prog)[n := Clip(text)]
  {
    var now, m := Inserted(prog, n, text), MapOf(prog)[n := Clip(text)];
    forall i | 0 <= i < |now|
      ensures now[i].num in m && m[now[i].num] == now[i].text
    {
      ReplacedEntry(prog, n, text, i);
    }
    forall k | k in m
      ensures exists i: nat :: NumAt(now, i, k)
    {
      ReplacedKey(prog, n, text, k);
    }
    MapIs(now, m);
  }

  lemma WithSorted(prog: seq<Line>, g: nat, line: Line)
    requires Sorted(prog) && g <= |prog|
    requires forall k | 0 <= k < g :: prog[k].num < line.num
    requires g < |prog| ==> prog[g].num > line.num
    ensures Sorted(With(prog, g, line))
  {
    var now := With(prog, g, line);
    forall i, j | 0 <= i < j < |now|
      ensures now[i].num < now[j].num
    {
      SortedPair(prog, if i <= g then i else i - 1, if j <= g then j else j - 1);
      if i == g { SortedPair(prog, g, j - 1); }
    }
  }

  lemma WithEntry(prog: seq<Line>, g: nat, line: Line, i: nat)
    requires Sorted(prog) && g <= |prog| && i < |prog| + 1 && line.num !in MapOf(prog)
    ensures var l, m := With(prog, g, line)[i], MapOf(prog)[line.num := line.text];
      l.num in m && m[l.num] == l.text
  {
    if i != g { MapText(prog, if i < g then i else i - 1); }
  }

  lemma WithKey(prog: seq<Line>, g: nat, line: Line, k: int)
    requires Sorted(prog) && g <= |prog| && (k == line.num || k in MapOf(prog))
    ensures exists i: nat :: NumAt(With(prog, g, line), i, k)
  {
    var now := With(prog, g, line);
    MapHolds(prog, k);
    if k == line.num {
      assert NumAt(now, g, k);
    } else {
      var i: nat :| NumAt(prog, i, k);
      assert NumAt(now, if i < g then i else i + 1, k);
    }
  }

  lemma WithMap(prog: seq<Line>, g: nat, line: Line)
    requires Sorted(prog) && g <= |prog| && line.num !in MapOf(prog) && Sorted(With(prog, g, line))
    ensures MapOf(With(prog, g, line)) == MapOf(prog)[line.num := line.text]
  {
    var now, m := With(prog, g, line), MapOf(prog)[line.num := line.text];
    forall i | 0 <= i < |now|
      ensures now[i].num in m && m[now[i].num] == now[i].text
    {
      WithEntry(prog, g, line, i);
    }
    forall k | k in m
      ensures exists i: nat :: NumAt(now, i, k)
    {
      WithKey(prog, g, line, k);
    }
    MapIs(now, m);
  }

  /** Entering a line is setting it in the map, except that a full program takes no new number. */
  lemma InsertIsUpdate(prog: seq<Line>, n: int, text: string)
    requires Sorted(prog) && |prog| <= PROG_MAX
    ensures Sorted(Inserted(prog, n, text)) && |Inserted(prog, n, text)| <= PROG_MAX
    ensures MapOf(Inserted(prog, n, text)) ==
      if n !in MapOf(prog) && |prog| >= 256 then MapOf(prog)
      else MapOf(prog)[n := if |text| < 128 then text else text[..127]]
  {
    HoldsIff(prog, n);
    if Holds(prog, n) {
      ReplacedMap(prog, n, text);
    } else if |prog| < PROG_MAX {
      WithSorted(prog, IndexGe(prog, n), Line(n, Clip(text)));
      WithMap(prog, IndexGe(prog, n), Line(n, Clip(text)));
    }
  }

  /** Deleting a line removes its number from the map. */
  lemma DeleteIsRemove(prog: seq<Line>, n: int)
    requires Sorted(prog)
    ensures Sorted(Deleted(prog, n)) && MapOf(Deleted(prog, n)) == MapOf(prog) - {n}
  {
    HoldsIff(prog, n);
    if Holds(prog, n) {
      WithoutMap(prog, IndexGe(prog, n));
    } else {
      assert MapOf(prog) - {n} == MapOf(prog);
    }
  }

  lemma WithoutMap(prog: seq<Line>, g: nat)
    requires Sorted(prog) && g < |prog|
    ensures Sorted(Without(prog, g)) && MapOf(Without(prog, g)) == MapOf(prog) - {prog[g].num}
  {
    var now, m := Without(prog, g), MapOf(prog) - {prog[g].num};
    forall i, j | 0 <= i < j < |now|
      ensures now[i].num < now[j].num
    {
      SortedPair(prog, if i < g then i else i + 1, if j < g then j else j + 1);
    }
    forall i | 0 <= i < |now|
      ensures now[i].num in m && m[now[i].num] == now[i].text
    {
      WithoutEntry(prog, g, i);
    }
    forall k | k in m
      ensures exists i: nat :: NumAt(now, i, k)
    {
      WithoutKey(prog, g, k);
    }
    MapIs(now, m);
  }

  lemma WithoutEntry(prog: seq<Line>, g: nat, i: nat)
    requires Sorted(prog) && g < |prog| && i < |prog| - 1
    ensures var l, m := Without(prog, g)[i], MapOf(prog) - {prog[g].num}; l.num in m && m[l.num] == l.text
  {
    var k := if i < g then i else i + 1;
    MapText(prog, k);
    SortedPair(prog, g, k);
    SortedPair(prog, k, g);
  }

  lemma WithoutKey(prog: seq<Line>, g: nat, k: int)
    requires Sorted(prog) && g < |prog| && k != prog[g].num && k in MapOf(prog)
    ensures exists i: nat :: NumAt(Without(prog, g), i, k)
  {
    MapHolds(prog, k);
    var i: nat :| NumAt(prog, i, k);
    assert NumAt(Without(prog, g), if i < g then i else i - 1, k);
  }

  lemma LastIsLargest(prog: seq<Line>, n: int)
    requires Sorted(prog) && prog != [] && n in MapOf(prog)
    ensures n <= prog[|prog| - 1].num
  {
    MapHolds(prog, n);
  }

  /** A program is determined by its map: entering the same lines in any order gives the same
      table. */
  lemma {:induction false} ProgramDetermined(a: seq<Line>, b: seq<Line>)
    requires Sorted(a) && Sorted(b) && MapOf(a) == MapOf(b)
    ensures a == b
    decreases |a|
  {
    if a == [] || b == [] {
      if a != [] { MapText(a, 0); }
      if b != [] { MapText(b, 0); }
    } else {
      var i, j := |a| - 1, |b| - 1;
      MapText(a, i);
      MapText(b, j);
      LastIsLargest(a, b[j].num);
      LastIsLargest(b, a[i].num);
      InitMap(a);
      InitMap(b);
      ProgramDetermined(a[..i], b[..j]);
    }
  }

  lemma {:induction false} MapPrefix(prog: seq<Line>, k: nat, n: nat)
    requires k <= n <= |prog|
    ensures MapTo(prog[..n], k) == MapTo(prog, k)
    decreases k
  {
    if k > 0 { MapPrefix(prog, k - 1, n); }
  }

  lemma InitMap(prog: seq<Line>)
    requires Sorted(prog) && prog != []
    ensures MapOf(prog[..|prog| - 1]) == MapOf(prog) - {prog[|prog| - 1].num}
  {
    var k := |prog| - 1;
    MapPrefix(prog, k, k);
    MapToHolds(prog, k, prog[k].num);
  }
}
