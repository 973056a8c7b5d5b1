/** The editor itself (shell/iedit.c): a table of rows edited in place by shifting loops, proved
    to act on its lines as `IEditSpec` says. The rows are stretches of one array, as the code's
    two-dimensional array is; an operation on a line moves part of a row, and one that makes or
    removes a line moves whole rows and their lengths. What lies beyond the length of a row is
    never part of the text. */
module IEdit {
  import opened Arrays
  import opened IEditSpec

  /** Where row `r` begins in the table; a row has 75 characters, the terminator included. */
  function Start(r: nat): nat {
    75 * r
  }

  // ----- the table as rows -----

  /** The table: all rows one after the other, and how long the line in each row is. */
  datatype Grid = Grid(cells: seq<char>, lens: seq<nat>)

  ghost predicate Sized(g: Grid) {
    |g.cells| == Start(MAX_LINES) && |g.lens| == MAX_LINES
  }

  /** A row holds a line that fits and ends in a terminator. */
  ghost predicate RowOk(g: Grid, r: nat)
    requires Sized(g) && r < MAX_LINES
  {
    g.lens[r] <= MAX_COL && g.cells[Start(r) + g.lens[r]] == '\0'
  }

  ghost predicate GridOk(g: Grid) {
    Sized(g) && forall r | 0 <= r < MAX_LINES :: RowOk(g, r)
  }

  ghost function LineOf(g: Grid, r: nat): string
    requires Sized(g) && r < MAX_LINES && RowOk(g, r)
  {
    g.cells[Start(r)..Start(r) + g.lens[r]]
  }

  /** The lines in the first `n` rows. */
  ghost function LinesOf(g: Grid, n: nat): (ls: seq<string>)
    requires GridOk(g) && n <= MAX_LINES
    ensures |ls| == n
  {
    if n == 0 then [] else LinesOf(g, n - 1) + [LineOf(g, n - 1)]
  }

  lemma {:induction false} LineAt(g: Grid, n: nat, r: nat)
    requires GridOk(g) && r < n <= MAX_LINES
    ensures RowOk(g, r) && LinesOf(g, n)[r] == LineOf(g, r)
    decreases n
  {
    assert RowOk(g, r);
    if r + 1 < n { LineAt(g, n - 1, r); }
  }

  /** Only cells of row `r`, and its length, differ. */
  ghost predicate OnlyRow(g: Grid, h: Grid, r: nat) {
    && Sized(g) && Sized(h)
    && (forall k | 0 <= k < Start(MAX_LINES) && !(Start(r) <= k < Start(r) + 75) :: h.cells[k] == g.cells[k])
    && (forall s | 0 <= s < MAX_LINES && s != r :: h.lens[s] == g.lens[s])
  }

  lemma OtherRow(g: Grid, h: Grid, r: nat, s: nat)
    requires GridOk(g) && OnlyRow(g, h, r) && s < MAX_LINES && s != r
    ensures RowOk(h, s) && LineOf(h, s) == LineOf(g, s)
  {
    var b := Start(s);
    assert s < r ==> b + 75 <= Start(r);
    assert s > r ==> Start(r) + 75 <= b;
    assert RowOk(g, s);
    assert h.cells[b..b + g.lens[s]] == g.cells[b..b + g.lens[s]];
  }

  /** When one row changed and is well-formed, so is the table, and the other lines are as before. */
  lemma RowReplaced(g: Grid, h: Grid, r: nat)
    requires GridOk(g) && OnlyRow(g, h, r) && r < MAX_LINES && RowOk(h, r)
    ensures GridOk(h)
    ensures LinesOf(h, MAX_LINES) == LinesOf(g, MAX_LINES)[r := LineOf(h, r)]
  {
    forall s | 0 <= s < MAX_LINES ensures RowOk(h, s) {
      if s != r { OtherRow(g, h, r, s); }
    }
    var was, now := LinesOf(g, MAX_LINES), LinesOf(h, MAX_LINES);
    forall s | 0 <= s < MAX_LINES ensures now[s] == was[r := LineOf(h, r)][s] {
      LineAt(g, MAX_LINES, s);
      LineAt(h, MAX_LINES, s);
      if s != r { OtherRow(g, h, r, s); }
    }
  }

  /** A line written into row `r` with its terminator, and nothing outside that row. */
  lemma RowWritten(g: Grid, h: Grid, r: nat, line: string)
    requires GridOk(g) && r < MAX_LINES && |line| <= MAX_COL
    requires |h.cells| == |g.cells| && h.lens == g.lens[r := |line|]
    requires WritesLine(g.cells, h.cells, Start(r), line)
    ensures GridOk(h) && LinesOf(h, MAX_LINES) == LinesOf(g, MAX_LINES)[r := line]
  {
    RowReplaced(g, h, r);
  }

  ghost predicate WritesLine(c: seq<char>, e: seq<char>, b: nat, line: string) {
    && b + 75 <= |c| == |e| && |line| <= MAX_COL
    && e[b..b + |line|] == line && e[b + |line|] == '\0'
    && forall k | 0 <= k < |c| && !(b <= k < b + 75) :: e[k] == c[k]
  }

  lemma ErasedCells(c: seq<char>, e: seq<char>, b: nat, len: nat, at: nat)
    requires b + 75 <= |c| && at < len <= MAX_COL
    requires e == ShiftedLeft(c, b + at, b + len)[b + len - 1 := '\0']
    ensures WritesLine(c, e, b, DeleteAt(c[b..b + len], at))
  {
    assert e[b..b + len - 1] == DeleteAt(c[b..b + len], at);
  }

  lemma CopiedCells(c: seq<char>, e: seq<char>, d: nat, f: nat, len: nat)
    requires d + 75 <= |c| && f + 75 <= |c| && len <= MAX_COL && c[f + len] == '\0'
    requires e == Copied(c, d, f, len + 1)
    ensures WritesLine(c, e, d, c[f..f + len])
  {
    var m := c[f..f + len + 1];
    assert e[d..d + len + 1] == m && m[len] == c[f + len];
    assert e[d..d + len] == m[..len] && m[..len] == c[f..f + len];
    assert e[d + len] == e[d..d + len + 1][len];
  }

  lemma SplicedCells(c: seq<char>, m: seq<char>, e: seq<char>, d: nat, to: nat, f: nat, n: nat)
    requires d + 75 <= |c| && to + n <= MAX_COL && f + n <= |c|
    requires m == Copied(c, d + to, f, n) && e == m[d + to + n := '\0']
    ensures WritesLine(c, e, d, c[d..d + to] + c[f..f + n])
  {
    assert e[d..d + to + n] == m[d..d + to + n];
    assert m[d..d + to + n] == c[d..d + to] + c[f..f + n];
  }

  lemma RowSlice(g: Grid, r: nat, a: nat, b: nat)
    requires GridOk(g) && r < MAX_LINES && a <= b <= g.lens[r]
    ensures |LinesOf(g, MAX_LINES)[r]| == g.lens[r] <= MAX_COL && Start(r) + b <= |g.cells|
    ensures LinesOf(g, MAX_LINES)[r][a..b] == g.cells[Start(r) + a..Start(r) + b]
  {
    LineAt(g, MAX_LINES, r);
    var o, n := Start(r), g.lens[r];
    assert LinesOf(g, MAX_LINES)[r] == g.cells[o..o + n];
    SliceOfSlice(g.cells, o, n, a, b);
  }

  lemma SliceOfSlice<T>(s: seq<T>, o: nat, n: nat, a: nat, b: nat)
    requires o + n <= |s| && a <= b <= n
    ensures s[o..o + n][a..b] == s[o + a..o + b]
  {
    var u := s[o..o + n];
    forall k | 0 <= k < b - a
      ensures u[a..b][k] == s[o + a..o + b][k]
    {
      assert u[a..b][k] == u[a + k] == s[o + a + k];
    }
  }

  lemma TypedRow(g: Grid, m: seq<char>, h: Grid, r: nat, at: nat, c: char)
    requires GridOk(g) && r < MAX_LINES && at <= g.lens[r] < MAX_COL
    requires h.lens == g.lens[r := g.lens[r] + 1]
    requires var b, len := Start(r), g.lens[r];
      && m == ShiftedRight(g.cells, b + at, b + len)
      && h.cells == m[b + at := c][b + len + 1 := '\0']
    ensures GridOk(h) && at <= |LinesOf(g, MAX_LINES)[r]|
    ensures LinesOf(h, MAX_LINES) == LinesOf(g, MAX_LINES)[r := InsertAt(LinesOf(g, MAX_LINES)[r], at, c)]
  {
    var b, len := Start(r), g.lens[r];
    var line := g.cells[b..b + len];
    var typed := InsertAt(line, at, c);
    assert |typed| == len + 1;
    RowWritten(g, h, r, typed);
    LineAt(g, MAX_LINES, r);
    assert LinesOf(g, MAX_LINES)[r] == line;
  }

  lemma ErasedRow(g: Grid, m: seq<char>, h: Grid, r: nat, at: nat)
    requires GridOk(g) && r < MAX_LINES && at < g.lens[r] <= MAX_COL
    requires h.lens == g.lens[r := g.lens[r] - 1]
    requires var b, len := Start(r), g.lens[r];
      && m == ShiftedLeft(g.cells, b + at, b + len)
      && h.cells == m[b + len - 1 := '\0']
    ensures GridOk(h) && at < |LinesOf(g, MAX_LINES)[r]|
    ensures LinesOf(h, MAX_LINES) == LinesOf(g, MAX_LINES)[r := DeleteAt(LinesOf(g, MAX_LINES)[r], at)]
  {
    var b, len := Start(r), g.lens[r];
    ErasedCells(g.cells, h.cells, b, len, at);
    var line := g.cells[b..b + len];
    var erased := DeleteAt(line, at);
    assert |erased| == len - 1;
    RowWritten(g, h, r, erased);
    LineAt(g, MAX_LINES, r);
    assert LinesOf(g, MAX_LINES)[r] == line;
  }

  lemma CopiedRow(g: Grid, h: Grid, dst: nat, src: nat)
    requires GridOk(g) && dst < MAX_LINES && src < MAX_LINES && g.lens[src] <= MAX_COL
    requires h.lens == g.lens[dst := g.lens[src]]
    requires h.cells == Copied(g.cells, Start(dst), Start(src), g.lens[src] + 1)
    ensures GridOk(h) && LinesOf(h, MAX_LINES) == LinesOf(g, MAX_LINES)[dst := LinesOf(g, MAX_LINES)[src]]
  {
    var d, f, len := Start(dst), Start(src), g.lens[src];
    LineAt(g, MAX_LINES, src);
    CopiedCells(g.cells, h.cells, d, f, len);
    var line := g.cells[f..f + len];
    assert |line| == len;
    RowWritten(g, h, dst, line);
  }

  lemma SplicedLine(g: Grid, dst: nat, to: nat, src: nat, from: nat, n: nat)
    requires GridOk(g) && dst < MAX_LINES && src < MAX_LINES
    requires from + n <= g.lens[src] && to <= g.lens[dst]
    ensures to <= |LinesOf(g, MAX_LINES)[dst]| && from + n <= |LinesOf(g, MAX_LINES)[src]|
    ensures Start(dst) + to <= |g.cells| && Start(src) + from + n <= |g.cells|
    ensures LinesOf(g, MAX_LINES)[dst][..to] == g.cells[Start(dst)..Start(dst) + to]
    ensures LinesOf(g, MAX_LINES)[src][from..from + n] == g.cells[Start(src) + from..Start(src) + from + n]
  {
    RowSlice(g, dst, 0, to);
    RowSlice(g, src, from, from + n);
  }

  lemma SplicedRow(g: Grid, m: seq<char>, h: Grid, dst: nat, to: nat, src: nat, from: nat, n: nat)
    requires GridOk(g) && dst < MAX_LINES && src < MAX_LINES
    requires to + n <= MAX_COL && from + n <= g.lens[src] <= MAX_COL && to <= g.lens[dst] <= MAX_COL
    requires h.lens == g.lens[dst := to + n]
    requires var d, f := Start(dst) + to, Start(src) + from;
      && m == Copied(g.cells, d, f, n)
      && h.cells == m[d + n := '\0']
    ensures GridOk(h) && to <= |LinesOf(g, MAX_LINES)[dst]| && from + n <= |LinesOf(g, MAX_LINES)[src]|
    ensures var rows := LinesOf(g, MAX_LINES);
      LinesOf(h, MAX_LINES) == rows[dst := rows[dst][..to] + rows[src][from..from + n]]
  {
    var d, f := Start(dst), Start(src) + from;
    SplicedCells(g.cells, m, h.cells, d, to, f, n);
    var head, tail := g.cells[d..d + to], g.cells[f..f + n];
    assert |head + tail| == to + n;
    RowWritten(g, h, dst, head + tail);
    SplicedLine(g, dst, to, src, from, n);
  }

  // ----- rows as lines -----

  /** Cells from `from + 1` to `r` have moved one place up; or those from `r` to `n` down. */
  ghost predicate MovedUp(s: seq<string>, t: seq<string>, from: nat, r: nat) {
    |t| == |s| && r < |s| && forall k {:trigger t[k]} | 0 <= k < |s| ::
      t[k] == if from <= k < r then s[k + 1] else s[k]
  }

  ghost predicate MovedDown(s: seq<string>, t: seq<string>, r: nat, n: nat) {
    |t| == |s| && forall k {:trigger t[k]} | 0 <= k < |s| ::
      t[k] == if r < k <= n then s[k - 1] else s[k]
  }

  lemma UpTurn(s: seq<string>, t: seq<string>, from: nat, r: nat)
    requires MovedUp(s, t, from, r) && from <= r && r + 1 < |s|
    ensures MovedUp(s, t[r := t[r + 1]], from, r + 1)
  {
  }

  lemma DownTurn(s: seq<string>, t: seq<string>, r: nat, n: nat)
    requires MovedDown(s, t, r, n) && 0 < r <= n < |s|
    ensures MovedDown(s, t[r := t[r - 1]], r - 1, n)
  {
  }

  lemma UpDone(s: seq<string>, t: seq<string>, from: nat, n: nat)
    requires from < n <= |s| && MovedUp(s, t, from, n - 1)
    ensures t[..n - 1] == s[..from] + s[from + 1..n]
  {
    assert t[..from] == s[..from];
    assert t[from..n - 1] == s[from + 1..n];
    assert t[..n - 1] == t[..from] + t[from..n - 1];
  }

  lemma DownDone(s: seq<string>, t: seq<string>, from: nat, n: nat)
    requires from < n < |s| && MovedDown(s, t, from + 1, n)
    ensures t[..from + 1] == s[..from + 1] && t[from + 2..n + 1] == s[from + 1..n]
  {
  }

  lemma RowsJoined(g: seq<string>, h: seq<string>, k: seq<string>, row: nat, n: nat, prLen: nat, len: nat)
    requires 0 < row < n <= |g| == |k| && prLen == |g[row - 1]| && len == |g[row]|
    requires h == g[row - 1 := g[row - 1][..prLen] + g[row][0..len]]
    requires k[..n - 1] == h[..row] + h[row + 1..n]
    ensures k[..n - 1] == JoinedUp(g[..n], row) && k[row - 1] == g[row - 1] + g[row]
  {
    var joined := g[row - 1] + g[row];
    assert h[row - 1] == joined;
    assert h[..row] == g[..row - 1] + [joined] && h[row + 1..n] == g[row + 1..n];
    assert JoinedUp(g[..n], row) == g[..row - 1] + [joined] + g[row + 1..n];
    assert k[row - 1] == k[..n - 1][row - 1];
  }

  lemma RowsBroken(g: seq<string>, h: seq<string>, m: seq<string>, row: nat, col: nat, n: nat)
    requires row < n < |g| == |h| == |m| && col <= |g[row]|
    requires h[..row + 1] == g[..row + 1] && h[row + 2..n + 1] == g[row + 1..n]
    requires m == h[row + 1 := h[row + 1][..0] + g[row][col..|g[row]|]][row := g[row][..col]]
    ensures m[..n + 1] == Broken(g[..n], row, col)
  {
    assert forall i | 0 <= i <= row :: h[i] == h[..row + 1][i];
    assert m[..row] == g[..row] && m[row + 2..n + 1] == g[row + 1..n];
    assert m[row + 1] == g[row][col..];
    assert Broken(g[..n], row, col) == g[..row] + [g[row][..col], g[row][col..]] + g[row + 1..n];
    assert m[..n + 1] == m[..row] + [m[row], m[row + 1]] + m[row + 2..n + 1];
  }

  lemma RowGone(g: seq<string>, k: seq<string>, row: nat, n: nat)
    requires row < n <= |g| == |k| && n > 1
    requires k[..n - 1] == g[..row] + g[row + 1..n]
    ensures k[..n - 1] == g[..n][..row] + g[..n][row + 1..]
  {
  }

  class Editor {
    const text: array<char>
    const tlen: array<nat>
    var nlines: nat
    var row: nat
    var col: nat
    var dirty: bool

    ghost function Table(): Grid
      reads text, tlen
    {
      Grid(text[..], tlen[..])
    }

    ghost function Rows(): seq<string>
      requires GridOk(Table())
      reads text, tlen
    {
      LinesOf(Table(), MAX_LINES)
    }

    ghost predicate Valid()
      reads this, text, tlen
    {
      && GridOk(Table())
      && 1 <= nlines <= MAX_LINES
      && row < nlines && col <= tlen[row]
    }

    ghost function View(): (b: Buffer)
      requires Valid()
      reads this, text, tlen
      ensures CursorIn(b.lines, b.row, b.col)
    {
      RowLen(row);
      Buffer(Rows()[..nlines], row, col)
    }

    lemma RowLen(r: nat)
      requires GridOk(Table()) && r < MAX_LINES
      ensures |Rows()[r]| == tlen[r] <= MAX_COL
    {
      LineAt(Table(), MAX_LINES, r);
    }

    /** An empty buffer of one line. */
    constructor ()
      ensures Valid() && fresh(text) && fresh(tlen)
      ensures View() == Buffer([""], 0, 0) && !dirty
    {
      text := new char[Start(MAX_LINES)](_ => '\0');
      tlen := new nat[MAX_LINES](_ => 0);
      nlines, row, col, dirty := 1, 0, 0, false;
      new;
      assert forall r | 0 <= r < MAX_LINES :: RowOk(Table(), r);
      LineAt(Table(), MAX_LINES, 0);
      assert Rows()[..1] == [""];
    }

    // ----- one row -----

    method InsertInRow(r: nat, at: nat, c: char)
      requires GridOk(Table()) && r < MAX_LINES && at <= tlen[r] < MAX_COL
      modifies text, tlen
      ensures GridOk(Table()) && at <= |old(Rows())[r]|
      ensures Rows() == old(Rows())[r := InsertAt(old(Rows())[r], at, c)]
    {
      ghost var g := Table();
      var b, len := Start(r), tlen[r];
      RowLen(r);
      ShiftRight(text, b + at, b + len);
      ghost var m := text[..];
      text[b + at] := c;
      text[b + len + 1] := '\0';
      assert text[..] == m[b + at := c][b + len + 1 := '\0'];
      tlen[r] := tlen[r] + 1;
      TypedRow(g, m, Table(), r, at, c);
    }

    method EraseInRow(r: nat, at: nat)
      requires GridOk(Table()) && r < MAX_LINES && at < tlen[r]
      modifies text, tlen
      ensures GridOk(Table()) && at < |old(Rows())[r]|
      ensures Rows() == old(Rows())[r := DeleteAt(old(Rows())[r], at)]
    {
      ghost var g := Table();
      var b, len := Start(r), tlen[r];
      RowLen(r);
      ShiftLeft(text, b + at, b + len);
      ghost var m := text[..];
      text[b + len - 1] := '\0';
      assert text[..] == m[b + len - 1 := '\0'];
      tlen[r] := tlen[r] - 1;
      ErasedRow(g, m, Table(), r, at);
    }

    /** Copies row `src` over row `dst`, terminator included. */
    method CopyRow(dst: nat, src: nat)
      requires GridOk(Table()) && dst < MAX_LINES && src < MAX_LINES && dst != src
      modifies text, tlen
      ensures GridOk(Table()) && Rows() == old(Rows())[dst := old(Rows())[src]]
    {
      ghost var g := Table();
      var d, f, len := Start(dst), Start(src), tlen[src];
      RowLen(src);
      tlen[dst] := len;
      CopyCells(text, d, f, len + 1);
      CopiedRow(g, Table(), dst, src);
    }

    /** Cuts row `dst` at column `to` and appends `n` characters of row `src` from column `from`. */
    method SpliceRow(dst: nat, to: nat, src: nat, from: nat, n: nat)
      requires GridOk(Table()) && dst < MAX_LINES && src < MAX_LINES && dst != src
      requires to <= tlen[dst] && from + n <= tlen[src] && to + n <= MAX_COL
      modifies text, tlen
      ensures GridOk(Table()) && to <= |old(Rows())[dst]| && from + n <= |old(Rows())[src]|
      ensures Rows() == old(Rows())[dst := old(Rows())[dst][..to] + old(Rows())[src][from..from + n]]
    {
      ghost var g := Table();
      var d, f := Start(dst), Start(src);
      RowLen(dst);
      RowLen(src);
      CopyCells(text, d + to, f + from, n);
      ghost var c := text[..];
      text[d + to + n] := '\0';
      assert text[..] == c[d + to + n := '\0'];
      tlen[dst] := to + n;
      SplicedRow(g, c, Table(), dst, to, src, from, n);
    }

    /** Cuts row `r` at column `at`. */
    method CutRow(r: nat, at: nat)
      requires GridOk(Table()) && r < MAX_LINES && at <= tlen[r]
      modifies text, tlen
      ensures GridOk(Table()) && at <= |old(Rows())[r]|
      ensures Rows() == old(Rows())[r := old(Rows())[r][..at]]
    {
      ghost var g := Table();
      var b := Start(r);
      RowSlice(g, r, 0, at);
      text[b + at] := '\0';
      tlen[r] := at;
      assert text[b..b + at] == g.cells[b..b + at];
      RowWritten(g, Table(), r, g.cells[b..b + at]);
    }

    // ----- whole rows -----

    /** Lines from `from + 1` on move up one row; row `from` is lost. */
    method ShiftUp(from: nat)
      requires GridOk(Table()) && from < nlines <= MAX_LINES
      modifies text, tlen
      ensures GridOk(Table())
      ensures Rows()[..nlines - 1] == old(Rows())[..from] + old(Rows())[from + 1..nlines]
    {
      ghost var s := Rows();
      var r := from;
      while r < nlines - 1
        invariant from <= r <= nlines - 1 && GridOk(Table()) && MovedUp(s, Rows(), from, r)
      {
        UpTurn(s, Rows(), from, r);
        CopyRow(r, r + 1);
        r := r + 1;
      }
      UpDone(s, Rows(), from, nlines);
    }

    /** Lines after `from` move down one row, leaving row `from + 1` to be filled. */
    method ShiftDown(from: nat)
      requires GridOk(Table()) && from < nlines < MAX_LINES
      modifies text, tlen
      ensures GridOk(Table())
      ensures Rows()[..from + 1] == old(Rows())[..from + 1]
      ensures Rows()[from + 2..nlines + 1] == old(Rows())[from + 1..nlines]
    {
      ghost var s := Rows();
      var r := nlines;
      while r > from + 1
        invariant from + 1 <= r <= nlines && GridOk(Table()) && MovedDown(s, Rows(), r, nlines)
      {
        DownTurn(s, Rows(), r, nlines);
        CopyRow(r, r - 1);
        r := r - 1;
      }
      DownDone(s, Rows(), from, nlines);
    }

    // ----- keys -----

    method InsertChar(c: char)
      requires Valid()
      modifies this`col, this`dirty, text, tlen
      ensures Valid() && View() == Type(old(View()), c)
      ensures dirty == (old(dirty) || old(tlen[row]) < MAX_COL)
    {
      RowLen(row);
      if tlen[row] >= MAX_COL { return; }
      InsertInRow(row, col, c);
      RowLen(row);
      col := col + 1;
      dirty := true;
    }

    method Backspace()
      requires Valid()
      modifies this, text, tlen
      ensures Valid() && View() == IEditSpec.Backspace(old(View()))
      ensures dirty == (old(dirty) || View() != old(View()))
    {
      RowLen(row);
      if row > 0 { RowLen(row - 1); }
      if col > 0 {
        EraseBefore();
      } else if row > 0 {
        if tlen[row - 1] + tlen[row] <= MAX_COL {
          MergeUp();
        }
      }
    }

    method EraseBefore()
      requires Valid() && col > 0
      modifies this`col, this`dirty, text, tlen
      ensures Valid() && col == old(col) - 1 && dirty
      ensures View().lines == Erased(old(View()).lines, row, old(col))
      ensures View().lines != old(View()).lines
    {
      ghost var was := View().lines;
      RowLen(row);
      EraseInRow(row, col - 1);
      RowLen(row);
      col := col - 1;
      dirty := true;
      assert |View().lines[row]| == |was[row]| - 1;
    }

    method MergeUp()
      requires Valid() && row > 0 && tlen[row - 1] + tlen[row] <= MAX_COL
      modifies this, text, tlen
      ensures Valid() && View().lines == JoinedUp(old(View()).lines, old(row))
      ensures row == old(row) - 1 && col == old(tlen[row - 1]) && dirty
    {
      ghost var g := Rows();
      var prLen, len := tlen[row - 1], tlen[row];
      RowLen(row - 1);
      RowLen(row);
      SpliceRow(row - 1, prLen, row, 0, len);
      ghost var h := Rows();
      ShiftUp(row);
      RowsJoined(g, h, Rows(), row, nlines, prLen, len);
      RowLen(row - 1);
      nlines := nlines - 1;
      row := row - 1;
      col := prLen;
      dirty := true;
    }

    method Enter()
      requires Valid()
      modifies this, text, tlen
      ensures Valid() && View() == IEditSpec.Enter(old(View()))
      ensures dirty == (old(dirty) || old(nlines) < MAX_LINES)
    {
      if nlines >= MAX_LINES { return; }
      ghost var g := Rows();
      var split, restLen := col, tlen[row] - col;
      RowLen(row);
      ShiftDown(row);
      ghost var h := Rows();
      assert h[row] == h[..row + 1][row] == g[..row + 1][row];
      RowLen(row);
      RowLen(row + 1);
      SpliceRow(row + 1, 0, row, split, restLen);
      RowLen(row);
      CutRow(row, split);
      RowsBroken(g, h, Rows(), row, split, nlines);
      nlines := nlines + 1;
      row := row + 1;
      col := 0;
      dirty := true;
    }

    method ClearLine()
      requires Valid() && nlines == 1
      modifies this`col, this`dirty, text, tlen
      ensures Valid() && View() == Buffer([""], 0, 0) && dirty
    {
      CutRow(0, 0);
      col := 0;
      dirty := true;
    }

    method DeleteLine()
      requires Valid()
      modifies this, text, tlen
      ensures Valid() && View() == IEditSpec.DeleteLine(old(View())) && dirty
    {
      if nlines == 1 {
        ClearLine();
        return;
      }
      ghost var g := Rows();
      ShiftUp(row);
      RowGone(g, Rows(), row, nlines);
      nlines := nlines - 1;
      if row >= nlines { row := nlines - 1; }
      RowLen(row);
      if col > tlen[row] { col := tlen[row]; }
      dirty := true;
    }

    // ----- the file -----

    /** Appends line `r` to the save buffer and a newline after it. */
    method SaveLine(buf: array<char>, r: nat, start: nat) returns (bp: nat)
      requires Valid() && r < nlines && buf != text && start + MAX_COL + 1 < IEDIT_SAVE_BUF == buf.Length
      modifies buf
      ensures |Rows()[r]| <= MAX_COL && bp == start + |Rows()[r]| + 1 < IEDIT_SAVE_BUF
      ensures buf[..bp] == old(buf[..start]) + Rows()[r] + "\n"
    {
      ghost var was, line := buf[..start], Rows()[r];
      LineAt(Table(), MAX_LINES, r);
      bp := start;
      var c := 0;
      while c < tlen[r] && bp < IEDIT_SAVE_BUF - 1
        invariant 0 <= c <= tlen[r] == |line| && bp == start + c
        invariant buf[..bp] == was + line[..c]
      {
        buf[bp] := text[Start(r) + c];
        bp := bp + 1;
        c := c + 1;
      }
      if bp < IEDIT_SAVE_BUF - 1 {
        buf[bp] := '\n';
        bp := bp + 1;
      }
    }

    /** Writes the text out; the limits of the buffer, checked on the way, are never met. */
    method Serialise(buf: array<char>) returns (bp: nat)
      requires Valid() && buf != text && buf.Length == 16384
      modifies buf
      ensures bp < 16383 && buf[..bp] == Saved(View().lines)
    {
      ghost var rows := Rows();
      bp := 0;
      var r := 0;
      while r < nlines && bp < IEDIT_SAVE_BUF - 1
        invariant 0 <= r <= nlines && bp <= r * 75
        invariant buf[..bp] == Ended(rows[..r])
      {
        bp := SaveLine(buf, r, bp);
        r := r + 1;
        assert rows[..r][..r - 1] == rows[..r - 1];
      }
      SavedEnded(rows[..nlines]);
    }

    /** The table as it would be if the row being read ended here. */
    ghost function Finished(r: nat, c: nat): Grid
      requires text.Length == Start(MAX_LINES) && tlen.Length == MAX_LINES && r < MAX_LINES && c <= MAX_COL
      reads text, tlen
    {
      Grid(text[..][Start(r) + c := '\0'], tlen[..][r := c])
    }

    /** While a file is read: `done` lines are complete and `cur` is in row `r`. */
    ghost predicate Reading(r: nat, c: nat, done: seq<string>, cur: string)
      reads text, tlen
    {
      && text.Length == Start(MAX_LINES) && tlen.Length == MAX_LINES && |done| == r <= MAX_LINES && |cur| == c
      && if r == MAX_LINES then c == 0 && GridOk(Table()) && Rows() == done else
           && c <= MAX_COL && GridOk(Finished(r, c))
           && LinesOf(Finished(r, c), MAX_LINES)[..r] == done
           && LinesOf(Finished(r, c), MAX_LINES)[r] == cur
           && (c == 0 ==> text[Start(r)] == '\0')
           && forall s | r <= s < MAX_LINES :: tlen[s] == 0
    }

    method ClearTable()
      requires text.Length == Start(MAX_LINES) && tlen.Length == MAX_LINES
      modifies text, tlen
      ensures Reading(0, 0, [], "")
    {
      var i := 0;
      while i < MAX_LINES
        invariant 0 <= i <= MAX_LINES
        invariant forall s | 0 <= s < i :: tlen[s] == 0 && text[Start(s)] == '\0'
      {
        text[Start(i)] := '\0';
        tlen[i] := 0;
        i := i + 1;
      }
      var g := Finished(0, 0);
      assert forall s | 0 <= s < MAX_LINES :: RowOk(g, s);
      LineAt(g, MAX_LINES, 0);
    }

    /** Ends the row being read. */
    method EndRow(r: nat, c: nat, ghost done: seq<string>, ghost cur: string)
      requires r < MAX_LINES && Reading(r, c, done, cur)
      modifies text, tlen
      ensures GridOk(Table()) && Rows()[..r + 1] == done + [cur]
      ensures Reading(r + 1, 0, done + [cur], "")
    {
      ghost var g := Finished(r, c);
      text[Start(r) + c] := '\0';
      tlen[r] := c;
      assert Table() == g;
      if r + 1 < MAX_LINES {
        assert RowOk(g, r + 1);
        assert Finished(r + 1, 0) == g;
        LineAt(g, MAX_LINES, r + 1);
      }
    }

    method ReadChar(ch: char, r: nat, c: nat, ghost done: seq<string>, ghost cur: string) returns (next: nat)
      requires r < MAX_LINES && Reading(r, c, done, cur)
      modifies text
      ensures next == (if c < MAX_COL then c + 1 else c)
      ensures Reading(r, next, done, if |cur| < MAX_COL then cur + [ch] else cur)
    {
      next := c;
      if c < MAX_COL {
        ghost var g := Finished(r, c);
        text[Start(r) + c] := ch;
        next := c + 1;
        ghost var h := Finished(r, next);
        LineAt(g, MAX_LINES, r);
        assert h.cells[Start(r)..Start(r) + next] == cur + [ch];
        RowWritten(g, h, r, cur + [ch]);
      }
    }

    lemma NothingPending(r: nat, c: nat, done: seq<string>, cur: string)
      requires Reading(r, c, done, cur)
      ensures c == 0 ==> GridOk(Table()) && Rows()[..r] == done
    {
      if c == 0 && r < MAX_LINES {
        assert Finished(r, 0) == Table();
      }
    }

    lemma ParsedNext(s: string, i: nat, done: seq<string>, cur: string)
      requires i < |s| && |done| < MAX_LINES
      ensures Parsed(s[i..], done, cur) ==
        if IsLineEnd(s[i]) then Parsed(s[i + 1..], done + [cur], "")
        else Parsed(s[i + 1..], done, if |cur| < MAX_COL then cur + [s[i]] else cur)
    {
      assert s[i..][0] == s[i] && s[i..][1..] == s[i + 1..];
    }

    /** Reads a file into the table, as the parser of lines does. */
    method ParseBuf(buf: array<char>, readLen: nat)
      requires text.Length == Start(MAX_LINES) && tlen.Length == MAX_LINES && buf != text && readLen <= buf.Length
      modifies this, text, tlen
      ensures Valid() && View() == Buffer(Parsed(buf[..readLen], [], ""), 0, 0)
    {
      ClearTable();
      ghost var s := buf[..readLen];
      ghost var done: seq<string>, cur := [], "";
      var r, c, i := 0, 0, 0;
      while i < readLen && r < MAX_LINES
        invariant 0 <= i <= readLen && buf[..readLen] == s && Reading(r, c, done, cur)
        invariant Parsed(s, [], "") == Parsed(s[i..], done, cur)
      {
        var ch := buf[i];
        ParsedNext(s, i, done, cur);
        if ch == '\n' || ch == '\r' {
          EndRow(r, c, done, cur);
          done, cur := done + [cur], "";
          r := r + 1;
          c := 0;
        } else {
          c := ReadChar(ch, r, c, done, cur);
          cur := if |cur| < MAX_COL then cur + [ch] else cur;
        }
        i := i + 1;
      }
      ParsedEnd(s[i..], done, cur);
      EndParse(r, c, done, cur);
    }

    lemma ParsedEnd(s: string, done: seq<string>, cur: string)
      requires s == "" || |done| >= MAX_LINES
      ensures Parsed(s, done, cur) == if cur != "" || done == [] then done + [cur] else done
    {
    }

    /** Ends the row being read, if there is one, and puts the cursor at the start. */
    method EndParse(r: nat, c: nat, ghost done: seq<string>, ghost cur: string)
      requires Reading(r, c, done, cur)
      modifies this, text, tlen
      ensures Valid() && View() == Buffer(if cur != "" || done == [] then done + [cur] else done, 0, 0)
    {
      NothingPending(r, c, done, cur);
      nlines := r;
      if c > 0 || r == 0 {
        EndRow(r, c, done, cur);
        nlines := r + 1;
      } // at least one row by now: the code's fallback of one line is never needed
      row, col, dirty := 0, 0, false;
    }
  }
}
