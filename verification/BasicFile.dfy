/** Saving and loading InteiliBASIC programs as text (shell/basic.c): "<number> <statement>"
    lines, to disk or to tape. */
module BasicFile {
  import opened BasicExpr
  import opened BasicRoundTrip
  import opened BasicProgram

  const BASIC_SAVE_BUF: nat := 40960
  /** The largest number whose digits fit the eight characters kept for them. */
  const NUM_MAX: int := 99_999_999

  predicate EndsLine(c: char) { c == '\n' || c == '\r' }

  /** A string without line ends or terminators. */
  predicate Plain(s: string) {
    forall i | 0 <= i < |s| :: !EndsLine(s[i]) && s[i] != '\0'
  }

  predicate LineOk(l: Line) {
    0 <= l.num <= MAX32 && |l.text| < LINE_MAX && Plain(l.text)
  }

  /** What lines entered at the prompt make up: it takes every number that fits an `int`. */
  ghost predicate ProgramOk(prog: seq<Line>) {
    Sorted(prog) && |prog| <= PROG_MAX && forall i | 0 <= i < |prog| :: LineOk(prog[i])
  }

  /** Saving has room for all its numbers. */
  predicate Savable(prog: seq<Line>) {
    forall i | 0 <= i < |prog| :: prog[i].num <= NUM_MAX
  }

  /** No number is one that saving has no room for, or that loading leaves out. */
  predicate Keepable(prog: seq<Line>) {
    forall i | 0 <= i < |prog| :: 1 <= prog[i].num <= NUM_MAX
  }

  // ----- writing -----

  function LineText(l: Line): string
    requires l.num >= 0
  {
    Digits(l.num) + " " + l.text + "\n"
  }

  function Serial(prog: seq<Line>): string
    requires forall i | 0 <= i < |prog| :: prog[i].num >= 0
  {
    if prog == [] then "" else LineText(prog[0]) + Serial(prog[1..])
  }

  function Pow10(k: nat): (p: nat)
    ensures p > 0
  {
    if k == 0 then 1 else 10 * Pow10(k - 1)
  }

  lemma {:induction false} DigitsCount(n: nat, k: nat)
    requires 0 < k
    ensures 1 <= |Digits(n)| && (|Digits(n)| <= k <==> n < Pow10(k))
    decreases n
  {
    if n >= 10 { DigitsCount(n / 10, if k > 1 then k - 1 else k); }
  }

  /** The room kept for a number is exactly enough for numbers of up to eight digits; the prompt
      takes longer ones as well. */
  lemma DigitsFitIff(n: nat)
    ensures |Digits(n)| <= 8 <==> n <= NUM_MAX
  {
    assert Pow10(4) == 10_000 && Pow10(8) == 100_000_000;
    DigitsCount(n, 8);
  }

  lemma LineTextSize(l: Line)
    requires LineOk(l)
    ensures |LineText(l)| <= 10 + 1 + 127 + 1
  {
    assert Pow10(5) == 100_000 && Pow10(10) == 10_000_000_000;
    DigitsCount(l.num, 10);
  }

  /** No program is too large for the buffer. */
  lemma {:induction false} SerialSize(prog: seq<Line>)
    requires forall i | 0 <= i < |prog| :: prog[i].num >= 0 && LineOk(prog[i])
    ensures |Serial(prog)| <= 139 * |prog|
    decreases |prog|
  {
    if prog != [] {
      LineTextSize(prog[0]);
      SerialSize(prog[1..]);
    }
  }

  // ----- reading -----

  /** The statement at the start of a text: up to a line end, or as much as a line holds. */
  function TextLen(s: string, room: nat): (n: nat)
    ensures n <= |s| && n <= room
  {
    if s == "" || EndsLine(s[0]) || room == 0 then 0 else 1 + TextLen(s[1..], room - 1)
  }

  function SkipLine(s: string): (t: string)
    ensures |t| <= |s|
    ensures s != "" && s[0] != '\n' ==> |t| < |s|
  {
    if s == "" || s[0] == '\n' then s else SkipLine(s[1..])
  }

  function SkipOne(s: string): (t: string)
    ensures |t| <= |s|
  {
    if s != "" && s[0] == ' ' then s[1..] else s
  }

  /** A string up to its first terminator. */
  function CString(s: string): string {
    if s == "" || s[0] == '\0' then "" else [s[0]] + CString(s[1..])
  }

  /** The program after reading `s` into one that holds `prog`; lines numbered 0 are dropped. */
  function Loaded(s: string, prog: seq<Line>): seq<Line>
    decreases |s|
  {
    if s == "" || |prog| >= PROG_MAX then prog
    else if EndsLine(s[0]) then Loaded(s[1..], prog)
    else if !IsDigit(s[0]) then Loaded(SkipLine(s), prog)
    else
      var r := Decimal(0, s);
      var t := SkipOne(r.rest);
      var n := TextLen(t, LINE_MAX - 1);
      Loaded(t[n..], if r.v > 0 then Inserted(prog, r.v, CString(t[..n])) else prog)
  }

  // ----- the round trip -----

  lemma {:induction false} TextTaken(text: string, rest: string, room: nat)
    requires Plain(text) && |text| <= room && rest != "" && EndsLine(rest[0])
    ensures TextLen(text + rest, room) == |text|
    decreases |text|
  {
    if text == "" {
      assert text + rest == rest;
    } else {
      assert (text + rest)[1..] == text[1..] + rest && (text + rest)[0] == text[0];
      assert !EndsLine(text[0]);
      TextTaken(text[1..], rest, room - 1);
    }
  }

  lemma {:induction false} PlainCString(s: string)
    requires Plain(s)
    ensures CString(s) == s
    decreases |s|
  {
    if s != "" {
      assert s[0] != '\0';
      PlainCString(s[1..]);
    }
  }

  lemma LoadedStep(s: string, prog: seq<Line>, num: int, after: string, n: nat)
    requires s != "" && IsDigit(s[0]) && |prog| < PROG_MAX && Decimal(0, s) == R(num, after, false)
    requires n == TextLen(SkipOne(after), LINE_MAX - 1)
    ensures Loaded(s, prog) ==
      Loaded(SkipOne(after)[n..], if num > 0 then Inserted(prog, num, CString(SkipOne(after)[..n])) else prog)
  {
  }

  lemma NumberRead(num: nat, after: string)
    requires num <= MAX32 && after != "" && !IsDigit(after[0])
    ensures Decimal(0, Digits(num) + after) == R(num, after, false)
    ensures Digits(num) != "" && IsDigit(Digits(num)[0])
  {
    DigitsRead(num, after);
  }

  lemma LineParts(l: Line, rest: string)
    requires l.num >= 0
    ensures LineText(l) + rest == Digits(l.num) + (" " + (l.text + ("\n" + rest)))
  {
  }

  /** Reading one saved line. */
  lemma LineRead(l: Line, rest: string, prog: seq<Line>)
    requires LineOk(l) && |prog| < PROG_MAX
    ensures Loaded(LineText(l) + rest, prog) ==
      Loaded("\n" + rest, if l.num > 0 then Inserted(prog, l.num, l.text) else prog)
  {
    var end := "\n" + rest;
    var t := l.text + end;
    var after := " " + t;
    var s := LineText(l) + rest;
    LineParts(l, rest);
    NumberRead(l.num, after);
    assert s[0] == Digits(l.num)[0];
    TextTaken(l.text, end, LINE_MAX - 1);
    PlainCString(l.text);
    assert SkipOne(after) == t;
  }

  lemma AppendLine(prog: seq<Line>, k: nat)
    requires ProgramOk(prog) && k < |prog|
    ensures Inserted(prog[..k], prog[k].num, prog[k].text) == prog[..k + 1]
  {
    IndexGeUnique(prog[..k], prog[k].num, k);
    assert With(prog[..k], k, prog[k]) == prog[..k + 1];
  }

  lemma {:induction false} RestLoaded(prog: seq<Line>, k: nat)
    requires ProgramOk(prog) && k <= |prog| && (forall i | k <= i < |prog| :: prog[i].num > 0)
    ensures Loaded(Serial(prog[k..]), prog[..k]) == prog
    decreases |prog| - k
  {
    if k == |prog| {
      assert prog[k..] == [] && prog[..k] == prog;
    } else {
      var l, rest := prog[k], Serial(prog[k + 1..]);
      assert prog[k..][1..] == prog[k + 1..];
      assert LineOk(l);
      LineRead(l, rest, prog[..k]);
      AppendLine(prog, k);
      RestLoaded(prog, k + 1);
    }
  }

  /** Saving a program and loading it gives it back exactly when all its numbers lie between 1 and
      99999999: longer ones can be entered, but saving has no room for their digits, and a line
      numbered 0 can be entered and is saved, but is not loaded. */
  lemma LoadUndoesSaveIff(prog: seq<Line>)
    requires ProgramOk(prog)
    ensures Savable(prog) && Loaded(Serial(prog), []) == prog <==> Keepable(prog)
  {
    ReadBackIff(prog);
    if prog != [] {
      assert forall i | 0 < i < |prog| :: prog[0].num < prog[i].num;
      assert LineOk(prog[0]);
    }
  }

  /** The text of a program reads back exactly when it does not begin with a line 0. */
  lemma ReadBackIff(prog: seq<Line>)
    requires ProgramOk(prog)
    ensures Loaded(Serial(prog), []) == prog <==> prog == [] || prog[0].num > 0
  {
    if prog == [] {
    } else if prog[0].num > 0 {
      assert forall i | 0 < i < |prog| :: prog[0].num < prog[i].num;
      assert prog[0..] == prog && prog[..0] == [];
      RestLoaded(prog, 0);
    } else {
      ZeroDropped(prog);
    }
  }

  /** Of a program with a line 0, everything else is loaded. */
  lemma ZeroDropped(prog: seq<Line>)
    requires ProgramOk(prog) && prog != [] && prog[0].num == 0
    ensures Loaded(Serial(prog), []) == prog[1..]
  {
    var rest := prog[1..];
    LineRead(prog[0], Serial(rest), []);
    assert rest[0..] == rest && rest[..0] == [];
    RestLoaded(rest, 0);
  }
}
