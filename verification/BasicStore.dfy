/** The program store of InteiliBASIC (shell/basic.c): a table of lines shifted in place, and the
    loops that write it out and read it back. */
module BasicStore {
  import opened Arrays
  import opened BasicExpr
  import opened BasicRoundTrip
  import opened BasicProgram
  import opened BasicFile

  // ----- numbers, written backwards and turned round -----

  function Reverse(s: string): (t: string)
    ensures |t| == |s|
  {
    if s == "" then "" else Reverse(s[1..]) + [s[0]]
  }

  lemma {:induction false} ReverseAt(s: string, k: nat)
    requires k < |s|
    ensures Reverse(s)[k] == s[|s| - 1 - k]
  {
    if k < |s| - 1 { ReverseAt(s[1..], k); }
  }

  lemma {:induction false} ReverseAppend(s: string, c: char)
    ensures Reverse(s + [c]) == [c] + Reverse(s)
  {
    if s == "" {
      assert [c][1..] == "";
    } else {
      assert (s + [c])[1..] == s[1..] + [c];
      ReverseAppend(s[1..], c);
    }
  }

  method ReverseInPlace(a: array<char>, n: nat)
    requires n <= a.Length
    modifies a
    ensures a[..n] == Reverse(old(a[..n]))
  {
    ghost var s := a[..n];
    var lo, hi: int := 0, n - 1;
    while lo < hi
      invariant 0 <= lo <= hi + 1 && lo + hi == n - 1
      invariant forall k | 0 <= k < lo :: a[k] == s[n - 1 - k]
      invariant forall k | hi < k < n :: a[k] == s[n - 1 - k]
      invariant forall k | lo <= k <= hi :: a[k] == s[k]
    {
      a[lo], a[hi] := a[hi], a[lo];
      lo := lo + 1;
      hi := hi - 1;
    }
    forall k | 0 <= k < n ensures a[..n][k] == Reverse(s)[k] { ReverseAt(s, k); }
  }

  /** Storing the last digit of what is left of a number. */
  lemma DigitStored(num: nat, v: nat, was: string, c: char)
    requires v > 0 && c == DigitChar(v % 10) && Digits(num) == Digits(v) + Reverse(was)
    ensures Digits(num) == (if v / 10 == 0 then "" else Digits(v / 10)) + Reverse(was + [c])
  {
    ReverseAppend(was, c);
    if v >= 10 {
      MoveOver(Digits(v / 10), c, Reverse(was));
    } else {
      assert "" + ([c] + Reverse(was)) == [c] + Reverse(was);
    }
  }

  /** The decimal digits of a line number. Only eight characters are kept for them: `fits` says
      whether that was enough, that is, whether the loop ended before it came to store a ninth. */
  method FormatNumber(num: nat) returns (fits: bool, nbuf: array<char>, ni: nat)
    ensures fresh(nbuf) && nbuf.Length == 8 && ni <= 8
    ensures fits <==> num <= NUM_MAX
    ensures fits ==> nbuf[..ni] == Digits(num)
  {
    DigitsFitIff(num);
    nbuf := new char[8];
    ni := 0;
    if num == 0 {
      nbuf[0] := '0';
      ni := 1;
    } else {
      var v := num;
      while v != 0
        invariant ni <= 8 && 0 <= v && Digits(num) == (if v == 0 then "" else Digits(v)) + Reverse(nbuf[..ni])
      {
        if ni == nbuf.Length { return false, nbuf, ni; }
        ghost var was := nbuf[..ni];
        var c := DigitChar(v % 10);
        nbuf[ni] := c;
        ni := ni + 1;
        assert nbuf[..ni] == was + [c];
        DigitStored(num, v, was, c);
        v := v / 10;
      }
    }
    ReverseInPlace(nbuf, ni);
    fits := true;
  }

  class Store {
    const lines: array<Line>
    var size: nat

    ghost predicate Valid()
      reads this, lines
    {
      lines.Length == PROG_MAX && size <= PROG_MAX && Sorted(lines[..size])
    }

    ghost function View(): seq<Line>
      requires Valid()
      reads this, lines
    {
      lines[..size]
    }

    constructor ()
      ensures Valid() && View() == [] && fresh(lines)
    {
      lines := new Line[PROG_MAX](_ => Line(0, ""));
      size := 0;
    }

    method FindLine(n: int) returns (i: int)
      requires Valid()
      ensures i == if Holds(View(), n) then IndexGe(View(), n) else -1
    {
      i := 0;
      HoldsIff(View(), n);
      while i < size
        invariant 0 <= i <= size
        invariant forall k: nat | k < i :: !NumAt(View(), k, n)
      {
        if lines[i].num == n {
          assert NumAt(View(), i, n);
          IndexGeUnique(View(), n, i);
          return;
        }
        i := i + 1;
      }
      return -1;
    }

    method FindLineGe(n: int) returns (i: nat)
      requires Valid()
      ensures i == IndexGe(View(), n)
    {
      i := 0;
      while i < size && lines[i].num < n
        invariant 0 <= i <= size
        invariant forall k | 0 <= k < i :: lines[k].num < n
      {
        i := i + 1;
      }
      IndexGeUnique(View(), n, i);
    }

    /** Enters a line: replaces it, or makes room for it unless the program is full. */
    method InsertLine(n: int, text: string)
      requires Valid()
      modifies this`size, lines
      ensures Valid() && View() == Inserted(old(View()), n, text)
    {
      ghost var v := View();
      InsertIsUpdate(v, n, text);
      var idx := FindLine(n);
      if idx >= 0 {
        lines[idx] := Line(n, Clip(text));
        assert lines[..size] == v[idx := Line(n, Clip(text))];
        return;
      }
      if size >= PROG_MAX { return; }
      var at := FindLineGe(n);
      PutLine(at, Line(n, Clip(text)));
    }

    /** Makes room in the table and puts a line there. */
    method PutLine(at: nat, line: Line)
      requires Valid() && at <= size < PROG_MAX && Sorted(With(View(), at, line))
      modifies this`size, lines
      ensures Valid() && View() == With(old(View()), at, line)
    {
      ghost var v := View();
      ShiftRight(lines, at, size);
      lines[at] := line;
      size := size + 1;
      assert lines[..size] == With(v, at, line);
    }

    method DeleteLine(n: int)
      requires Valid()
      modifies this`size, lines
      ensures Valid() && View() == Deleted(old(View()), n)
    {
      ghost var v := View();
      DeleteIsRemove(v, n);
      var idx := FindLine(n);
      if idx < 0 { return; }
      ShiftLeft(lines, idx, size);
      size := size - 1;
      assert lines[..size] == Without(v, idx);
    }

    // ----- saving -----

    /** Appends characters, none of which are lost while the buffer has room for them all. */
    method Append(buf: array<char>, start: nat, s: seq<char>) returns (bp: nat)
      requires buf.Length == BASIC_SAVE_BUF && start + |s| < BASIC_SAVE_BUF - 2
      modifies buf
      ensures bp == start + |s| && buf[..bp] == old(buf[..start]) + s
    {
      ghost var was := buf[..start];
      bp := start;
      var i := 0;
      while i < |s| && bp < BASIC_SAVE_BUF - 2
        invariant 0 <= i <= |s| && bp == start + i
        invariant buf[..bp] == was + s[..i]
      {
        buf[bp] := s[i];
        bp := bp + 1;
        i := i + 1;
      }
    }

    method SaveLine(buf: array<char>, start: nat, l: Line) returns (fits: bool, bp: nat)
      requires LineOk(l) && buf.Length == BASIC_SAVE_BUF && start + 139 < BASIC_SAVE_BUF - 2
      modifies buf
      ensures fits <==> l.num <= NUM_MAX
      ensures fits ==> bp == start + |LineText(l)| <= start + 139 && buf[..bp] == old(buf[..start]) + LineText(l)
    {
      ghost var was := buf[..start];
      LineTextSize(l);
      var nbuf, ni;
      fits, nbuf, ni := FormatNumber(l.num);
      bp := start;
      if !fits { return; }
      bp := Append(buf, bp, nbuf[..ni]);
      bp := Append(buf, bp, " ");
      bp := Append(buf, bp, l.text);
      bp := Append(buf, bp, "\n");
      assert buf[..bp] == was + (Digits(l.num) + " " + l.text + "\n");
    }

    /** Writes the program out, whole: the buffer is never filled. A number of more than eight digits
        has no room. */
    method Save(buf: array<char>) returns (fits: bool, bp: nat)
      requires Valid() && ProgramOk(View()) && buf.Length == 40960
      modifies buf
      ensures Valid() && (fits <==> Savable(View()))
      ensures fits ==> bp < 40958 && buf[..bp] == Serial(View())
    {
      ghost var v := View();
      fits, bp := true, 0;
      var i := 0;
      assert v[0..] == v;
      while i < size && bp < BASIC_SAVE_BUF - 2
        invariant 0 <= i <= size && bp <= 139 * i && Valid() && View() == v
        invariant fits && forall k | 0 <= k < i :: v[k].num <= NUM_MAX
        invariant buf[..bp] + Serial(v[i..]) == Serial(v)
      {
        ghost var was := buf[..bp];
        assert LineOk(v[i]);
        fits, bp := SaveLine(buf, bp, lines[i]);
        if !fits { return; }
        LineSaved(was, buf[..bp], v, i);
        i := i + 1;
      }
      assert v[i..] == [];
    }

    // ----- loading -----

    /** Reads a file into an emptied program. */
    method Load(buf: array<char>, len: nat)
      requires Valid() && len <= buf.Length
      modifies this`size, lines
      ensures Valid() && View() == Loaded(buf[..len], [])
    {
      ghost var s := buf[..len];
      size := 0;
      var i := 0;
      while i < len && size < PROG_MAX
        invariant 0 <= i <= len && Valid()
        invariant Loaded(s[i..], View()) == Loaded(s, [])
        decreases len - i
      {
        i := SkipBlank(buf, i, len, View());
        if i >= len { break; }
        if !IsDigit(buf[i]) {
          i := SkipToEnd(buf, i, len);
        } else {
          i := LoadLine(buf, i, len);
        }
      }
    }

    method SkipBlank(buf: array<char>, start: nat, len: nat, ghost prog: seq<Line>) returns (i: nat)
      requires start < len <= buf.Length && |prog| < PROG_MAX
      ensures start <= i <= len && (i < len ==> !EndsLine(buf[i]))
      ensures Loaded(buf[i..len], prog) == Loaded(buf[start..len], prog)
    {
      i := start;
      while i < len && (buf[i] == '\n' || buf[i] == '\r')
        invariant start <= i <= len
        invariant Loaded(buf[i..len], prog) == Loaded(buf[start..len], prog)
      {
        assert buf[i..len][1..] == buf[i + 1..len];
        i := i + 1;
      }
    }

    method SkipToEnd(buf: array<char>, start: nat, len: nat) returns (i: nat)
      requires start < len <= buf.Length && !EndsLine(buf[start])
      ensures start < i <= len && buf[i..len] == SkipLine(buf[start..len])
    {
      i := start;
      while i < len && buf[i] != '\n'
        invariant start <= i <= len && (i == start ==> !EndsLine(buf[i]))
        invariant SkipLine(buf[i..len]) == SkipLine(buf[start..len])
      {
        assert buf[i..len][1..] == buf[i + 1..len];
        i := i + 1;
      }
    }

    method ReadNumber(buf: array<char>, start: nat, len: nat) returns (ln: int, i: nat)
      requires start < len <= buf.Length && IsDigit(buf[start])
      ensures start < i <= len && Decimal(0, buf[start..len]) == R(ln, buf[i..len], false)
    {
      ln, i := 0, start;
      while i < len && IsDigit(buf[i])
        invariant start <= i <= len && (i == start ==> IsDigit(buf[i]))
        invariant Decimal(ln, buf[i..len]) == Decimal(0, buf[start..len])
      {
        assert buf[i..len][1..] == buf[i + 1..len];
        ln := Wrap32(Wrap32(ln * 10) + (buf[i] - '0') as int);
        i := i + 1;
      }
    }

    method SkipSpace(buf: array<char>, start: nat, len: nat) returns (i: nat)
      requires start <= len <= buf.Length
      ensures start <= i <= len && buf[i..len] == SkipOne(buf[start..len])
    {
      i := start;
      if i < len && buf[i] == ' ' { i := i + 1; }
    }

    method ReadText(buf: array<char>, start: nat, len: nat) returns (stmt: string, i: nat)
      requires start <= len <= buf.Length
      ensures var n := TextLen(buf[start..len], LINE_MAX - 1);
        i == start + n && stmt == buf[start..len][..n] && buf[i..len] == buf[start..len][n..]
    {
      stmt, i := "", start;
      while i < len && buf[i] != '\n' && buf[i] != '\r' && |stmt| < LINE_MAX - 1
        invariant start <= i <= len && |stmt| == i - start <= LINE_MAX - 1 && stmt == buf[start..i]
        invariant |stmt| + TextLen(buf[i..len], LINE_MAX - 1 - |stmt|) == TextLen(buf[start..len], LINE_MAX - 1)
      {
        assert buf[i..len][1..] == buf[i + 1..len];
        stmt := stmt + [buf[i]];
        i := i + 1;
      }
      assert buf[start..len][..i - start] == buf[start..i];
    }

    method LoadLine(buf: array<char>, start: nat, len: nat) returns (i: nat)
      requires Valid() && size < PROG_MAX && start < len <= buf.Length && IsDigit(buf[start])
      modifies this`size, lines
      ensures Valid() && start < i <= len
      ensures Loaded(buf[i..len], View()) == Loaded(buf[start..len], old(View()))
    {
      ghost var s, v := buf[start..len], View();
      var ln: int, stmt: string;
      ln, i := ReadNumber(buf, start, len);
      ghost var r := buf[i..len];
      i := SkipSpace(buf, i, len);
      ghost var n := TextLen(SkipOne(r), LINE_MAX - 1);
      stmt, i := ReadText(buf, i, len);
      assert s[0] == buf[start];
      LoadedStep(s, v, ln, r, n);
      if ln > 0 { InsertLine(ln, CString(stmt)); }
    }
  }

  lemma LineSaved(was: string, now: string, v: seq<Line>, i: nat)
    requires (forall k | 0 <= k < |v| :: v[k].num >= 0) && i < |v| && now == was + LineText(v[i])
    ensures now + Serial(v[i + 1..]) == was + Serial(v[i..])
  {
    assert v[i..][1..] == v[i + 1..];
  }
}
