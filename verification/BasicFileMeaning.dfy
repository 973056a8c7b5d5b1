/** How InteiliBASIC reads any file, and the look of the files it writes: what a line enters, which
    lines are skipped, and how the text of a whole program is put together from its lines, written
    out character by character. */
module BasicFileMeaning {
  import opened BasicExpr
  import opened BasicRoundTrip
  import opened BasicProgram
  import opened BasicFile
  import opened BasicMeaning

  predicate NoLineEnd(s: string) {
    forall i | 0 <= i < |s| :: s[i] != '\n' && s[i] != '\r'
  }

  // ----- what is skipped -----

  /** Empty lines, and carriage returns, mean nothing. */
  lemma BlankSkipped(s: string, prog: seq<Line>)
    ensures Loaded("\n" + s, prog) == Loaded(s, prog) && Loaded("\r" + s, prog) == Loaded(s, prog)
  {
    assert ("\n" + s)[1..] == s && ("\r" + s)[1..] == s;
  }

  lemma {:induction false} LineSkipped(junk: string, s: string)
    requires forall i | 0 <= i < |junk| :: junk[i] != '\n'
    ensures SkipLine(junk + ("\n" + s)) == "\n" + s && SkipLine(junk) == ""
    decreases |junk|
  {
    if junk == "" {
      assert junk + ("\n" + s) == "\n" + s;
    } else {
      assert (junk + ("\n" + s))[1..] == junk[1..] + ("\n" + s);
      LineSkipped(junk[1..], s);
    }
  }

  /** A line that does not begin with a digit means nothing, up to its newline. */
  lemma JunkSkipped(junk: string, s: string, prog: seq<Line>)
    requires junk != "" && !('0' <= junk[0] <= '9') && junk[0] != '\r'
    requires forall i | 0 <= i < |junk| :: junk[i] != '\n'
    ensures Loaded(junk + ("\n" + s), prog) == Loaded(s, prog) && Loaded(junk, prog) == prog
  {
    LineSkipped(junk, s);
    BlankSkipped(s, prog);
    assert (junk + ("\n" + s))[0] == junk[0];
  }

  // ----- numbered lines -----

  /** Decimal digits added one by one. */
  function DecFold(v: nat, s: string): (n: nat)
    requires AllDigits(s, 10)
    ensures n >= v
    decreases |s|
  {
    if s == "" then v else DecFold(v * 10 + DigitOf(s[0]), s[1..])
  }

  lemma FoldFirst(v: nat, d: string) returns (u: nat)
    requires AllDigits(d, 10) && d != ""
    ensures 0 <= DigitOf(d[0]) < 10 && u == v * 10 + DigitOf(d[0]) && AllDigits(d[1..], 10)
    ensures DecFold(v, d) == DecFold(u, d[1..]) >= u
  {
    u := v * 10 + DigitOf(d[0]);
  }

  lemma FirstApart(d: string, after: string)
    requires d != ""
    ensures d + after == [d[0]] + (d[1..] + after)
  {
  }

  lemma DigitRead(v: nat, c: char, u: string)
    requires 0 <= DigitOf(c) < 10 && v * 10 + DigitOf(c) <= MAX32
    ensures Decimal(v, [c] + u) == Decimal(v * 10 + DigitOf(c), u)
  {
    assert ([c] + u)[1..] == u;
  }

  lemma {:induction false} NumeralRead(v: nat, d: string, after: string)
    requires AllDigits(d, 10) && (after == "" || !('0' <= after[0] <= '9')) && DecFold(v, d) <= MAX32
    ensures Decimal(v, d + after) == R(DecFold(v, d), after, false)
    decreases |d|
  {
    if d == "" {
      assert d + after == after;
    } else {
      var u := FoldFirst(v, d);
      FirstApart(d, after);
      DigitRead(v, d[0], d[1..] + after);
      NumeralRead(u, d[1..], after);
    }
  }

  lemma {:induction false} DecFoldIs(v: nat, s: string)
    requires AllDigits(s, 10)
    ensures DecFold(v, s) == v * Power(10, |s|) + Denotes(s, 10)
    decreases |s|
  {
    if s != "" {
      var c, t := s[0], s[1..];
      assert s == [c] + t;
      DecFoldIs(v * 10 + DigitOf(c), t);
      DenotesFirst(t, 10, c);
      DecGlue(v, DigitOf(c), Power(10, |t|), Denotes(t, 10), Power(10, |s|), Denotes(s, 10));
    }
  }

  lemma DecGlue(v: int, d: int, p: int, x: int, q: int, n: int)
    requires q == 10 * p && n == p * d + x
    ensures (v * 10 + d) * p + x == v * q + n
  {
    Distribute(10, v, p, 0);
  }

  /** A numeral's number. */
  lemma NumberIs(d: string)
    requires AllDigits(d, 10)
    ensures DecFold(0, d) == Denotes(d, 10)
  {
    DecFoldIs(0, d);
  }

  /** A string up to its first terminator. */
  lemma {:induction false} CStringIs(s: string) returns (k: nat)
    ensures k <= |s| && CString(s) == s[..k] && '\0' !in s[..k] && (k < |s| ==> s[k] == '\0')
    decreases |s|
  {
    if s == "" || s[0] == '\0' {
      k := 0;
    } else {
      var j := CStringIs(s[1..]);
      k := j + 1;
      assert s[..k] == [s[0]] + s[1..][..j];
    }
  }

  lemma {:induction false} StatementTaken(text: string, rest: string, room: nat)
    requires NoLineEnd(text) && |text| <= room
    requires |text| == room || rest == "" || rest[0] == '\n' || rest[0] == '\r'
    ensures TextLen(text + rest, room) == |text|
    decreases |text|
  {
    if text == "" {
      assert text + rest == rest;
    } else {
      assert (text + rest)[1..] == text[1..] + rest && (text + rest)[0] == text[0];
      StatementTaken(text[1..], rest, room - 1);
    }
  }

  /** A statement that has to be set off from a number. */
  predicate Touches(s: string) {
    s != "" && (s[0] == ' ' || '0' <= s[0] <= '9')
  }

  /** A numbered line: its digits, one space at most that does not belong to the statement, and the statement,
      up to the end of the line or 127 characters, whichever comes first; what follows is read as if
      it began a line. Number 0 is dropped, any other is entered as if typed. */
  lemma LineEntered(d: string, gap: string, text: string, rest: string, prog: seq<Line>)
    requires AllDigits(d, 10) && d != "" && Denotes(d, 10) <= MAX32 && |prog| < 256
    requires gap == " " || (gap == "" && !Touches(text + rest))
    requires NoLineEnd(text) && |text| <= 127
    requires |text| == 127 || rest == "" || rest[0] == '\n' || rest[0] == '\r'
    ensures Loaded(d + (gap + (text + rest)), prog) ==
      Loaded(rest, if Denotes(d, 10) > 0 then Inserted(prog, Denotes(d, 10), CString(text)) else prog)
  {
    var t := text + rest;
    NumberIs(d);
    GapSkipped(gap, t);
    NumeralRead(0, d, gap + t);
    StatementTaken(text, rest, LINE_MAX - 1);
    Parts(text, rest);
    StartsWithDigit(d, gap + t);
    LoadedStep(d + (gap + t), prog, Denotes(d, 10), gap + t, |text|);
  }

  lemma GapSkipped(gap: string, t: string)
    requires gap == " " || (gap == "" && !Touches(t))
    ensures SkipOne(gap + t) == t && (gap + t == "" || !('0' <= (gap + t)[0] <= '9'))
  {
    if gap == "" { assert gap + t == t; } else { assert (gap + t)[0] == ' ' && (gap + t)[1..] == t; }
  }

  lemma Parts(a: string, b: string)
    ensures (a + b)[..|a|] == a && (a + b)[|a|..] == b
  {
  }

  lemma StartsWithDigit(d: string, after: string)
    requires AllDigits(d, 10) && d != ""
    ensures d + after != "" && IsDigit((d + after)[0])
  {
    assert (d + after)[0] == d[0] && 0 <= DigitOf(d[0]) < 10;
  }

  /** A full program takes no more. */
  lemma FullTakesNoMore(s: string, prog: seq<Line>)
    requires |prog| >= 256
    ensures Loaded(s, prog) == prog
  {
  }

  // ----- what is written -----

  lemma SampleNumbers()
    ensures Digits(10) == "10" && Digits(2000) == "2000"
  {
    assert Digits(1) == "1" && Digits(2) == "2" && Digits(20) == "2" + "0";
    assert Digits(200) == "20" + "0";
    assert Digits(2000) == "200" + "0";
  }

  /** What a saved program looks like. */
  lemma Sample()
    ensures Serial([Line(10, "PRINT A"), Line(2000, "GOTO 10")]) == "10 PRINT A\n2000 GOTO 10\n"
  {
    var (a, b) := (Line(10, "PRINT A"), Line(2000, "GOTO 10"));
    SampleNumbers();
    assert [a, b][1..] == [b] && [b][1..] == [];
    assert LineText(a) == "10 PRINT A\n";
    assert LineText(b) == "2000 GOTO 10\n";
    assert Serial([b]) == LineText(b) + "" && Serial([a, b]) == LineText(a) + Serial([b]);
  }

  /** A program's text is that of its lines, one after the other. */
  lemma {:induction false} SerialIsLines(a: seq<Line>, b: seq<Line>)
    requires forall i | 0 <= i < |a| :: a[i].num >= 0
    requires forall i | 0 <= i < |b| :: b[i].num >= 0
    ensures Serial(a + b) == Serial(a) + Serial(b)
    decreases |a|
  {
    if a == [] {
      assert a + b == b;
    } else {
      assert (a + b)[1..] == a[1..] + b && (a + b)[0] == a[0];
      SerialIsLines(a[1..], b);
    }
  }
}
