/** What InteiliBASIC expressions are worth, in plain numbers, and how their texts are grouped: the
    operators without the functions that compute them, the precedences as a table, the names and
    numerals as they are written, and which texts are no expressions. */
module BasicMeaning {
  import opened BasicExpr
  import opened BasicRoundTrip

  const MIN: int := -0x8000_0000
  const MAX: int := 0x7fff_ffff

  // ----- values -----

  /** Truncating division: the quotient and what is left, which is smaller than the divisor and on
      the dividend's side of zero. */
  predicate Divides(a: int, b: int, q: int, r: int) {
    a == q * b + r && Smaller(r, b) && (r == 0 || (r > 0 && a > 0) || (r < 0 && a < 0))
  }

  function Size(x: int): nat { if x < 0 then -x else x }

  predicate Smaller(r: int, b: int) {
    Size(r) < Size(b)
  }

  lemma Euclid(n: nat, b: int)
    requires b != 0
    ensures n == n / b * b + n % b && 0 <= n % b < Size(b)
  {
  }

  lemma Product(q: int, b: int)
    ensures (-q) * b == -(q * b) && b * q == q * b
  {
  }

  lemma Mirrored(a: int, b: int, q: int, r: int)
    requires Divides(-a, b, q, r)
    ensures Divides(a, b, -q, -r)
  {
    Product(q, b);
  }

  lemma LeftOver(a: int, b: int, q: int, r: int)
    requires a == q * b + r
    ensures a - b * q == r
  {
    Product(q, b);
  }

  lemma DividesNat(n: nat, b: int)
    requires b != 0
    ensures Divides(n, b, n / b, n % b)
  {
    Euclid(n, b);
    if n == 0 { assert n % b == 0; }
  }

  lemma TruncatesTo(a: int, b: int, q: int, r: int, t: int)
    requires Divides(Size(a), b, q, r) && t == if a >= 0 then q else -q
    ensures Divides(a, b, t, a - b * t)
  {
    if a >= 0 {
      LeftOver(a, b, q, r);
    } else {
      Mirrored(a, b, q, r);
      LeftOver(a, b, -q, -r);
    }
  }

  lemma DivisionTruncates(a: int, b: int)
    requires b != 0
    ensures Divides(a, b, TDiv(a, b), TMod(a, b))
  {
    DividesNat(Size(a), b);
    TruncatesTo(a, b, Size(a) / b, Size(a) % b, TDiv(a, b));
  }

  /** A multiple of `b` has at least the size of `d` times that of `b`. */
  lemma Multiple(d: int, b: int, n: nat)
    requires Size(b) >= n
    ensures Size(d * b) >= n * Size(d) && (d != 0 ==> Size(d * b) >= Size(b))
  {
    var e, c := Size(d), Size(b);
    Product(d, b);
    Product(b, d);
    Product(-d, b);
    assert Size(d * b) == e * c;
    AtLeast(e, c, n);
  }

  lemma AtLeast(e: nat, c: nat, n: nat)
    requires c >= n
    ensures e * c >= n * e && (e != 0 ==> e * c >= c)
  {
  }

  lemma Difference(q: int, q': int, b: int)
    ensures (q - q') * b == q * b - q' * b
  {
  }

  /** No other pair of numbers is. */
  lemma DivisionUnique(a: int, b: int, q: int, r: int, q': int, r': int)
    requires b != 0 && Divides(a, b, q, r) && Divides(a, b, q', r')
    ensures q == q' && r == r'
  {
    Difference(q, q', b);
    Multiple(q - q', b, 0);
  }

  predicate Fits(v: int) { MIN <= v <= MAX }

  /** A number, unless it takes more than 32 bits. */
  predicate Is(m: Val, v: int) {
    if Fits(v) then m == Num(v) else m == Overflow
  }

  /** -1 when it holds, 0 when not. */
  predicate Holds(m: Val, b: bool) {
    m == if b then Num(-1) else Num(0)
  }

  /** What an operator makes of two numbers. */
  ghost predicate OpMeans(op: Op, a: int, b: int, m: Val) {
    match op
    case Or => Holds(m, !(a == 0 && b == 0))
    case And => Holds(m, !(a == 0 || b == 0))
    case Ne => Holds(m, a < b || a > b)
    case Le => Holds(m, !(a > b))
    case Ge => Holds(m, !(a < b))
    case Lt => Holds(m, b - a > 0)
    case Gt => Holds(m, a - b > 0)
    case Eq => Holds(m, a - b == 0)
    case Add => Is(m, a + b)
    case Sub => Is(m, a - b)
    case Mul => Is(m, a * b)
    case Div | IDiv =>
      if b == 0 then m == Fault
      else if a == MIN && b == -1 then m == Overflow
      else m.Num? && exists r :: Divides(a, b, m.v, r)
    case Mod =>
      if b == 0 then m == Fault
      else if a == MIN && b == -1 then m == Overflow
      else m.Num? && exists q :: Divides(a, b, q, m.v)
  }

  lemma QuotientFits(a: int, b: int)
    requires Fits(a) && Fits(b) && b != 0
    ensures Fits(TDiv(a, b)) <==> !(a == MIN && b == -1)
    ensures Fits(TMod(a, b))
  {
    DivisionTruncates(a, b);
    var q := TDiv(a, b);
    if b == -1 {
      DivisionUnique(a, b, q, TMod(a, b), -a, 0);
    } else if b == 1 {
      DivisionUnique(a, b, q, TMod(a, b), a, 0);
    } else {
      SmallQuotient(a, b, q, TMod(a, b));
    }
  }

  lemma SmallQuotient(a: int, b: int, q: int, r: int)
    requires Fits(a) && Divides(a, b, q, r) && Size(b) >= 2
    ensures Fits(q)
  {
    Multiple(q, b, 2);
  }

  /** The value of an operator's node, from those of its operands. */
  function Result(op: Op, a: int, b: int): Val {
    if ZeroDivides(op, b) then Fault
    else if op.Mod? && !Fits32(TDiv(a, b)) then Overflow
    else InRange(Exact(op, a, b))
  }

  predicate Divider(op: Op) { op.Div? || op.IDiv? || op.Mod? }

  lemma DividerMeans(op: Op, a: int, b: int)
    requires Divider(op) && Fits(a) && Fits(b)
    ensures OpMeans(op, a, b, Result(op, a, b))
  {
    if b != 0 {
      DivisionTruncates(a, b);
      QuotientFits(a, b);
    }
  }

  lemma OtherMeans(op: Op, a: int, b: int)
    requires !Divider(op) && Fits(a) && Fits(b)
    ensures OpMeans(op, a, b, Result(op, a, b))
  {
  }

  lemma OperatorMeans(op: Op, l: Expr, r: Expr, env: Vars)
    requires WellFormed(l) && WellFormed(r) && Meaning(l, env).Num? && Meaning(r, env).Num?
    ensures OpMeans(op, Meaning(l, env).v, Meaning(r, env).v, Meaning(Bin(op, l, r), env))
  {
    var a, b := Meaning(l, env).v, Meaning(r, env).v;
    assert Meaning(Bin(op, l, r), env) == Result(op, a, b);
    if Divider(op) { DividerMeans(op, a, b); } else { OtherMeans(op, a, b); }
  }

  /** The other constructs; an operand that faults or overflows decides, the left one first. */
  lemma OthersMean(e: Expr, x: Expr, i: nat, fn: Fn, env: Vars)
    requires WellFormed(x) && i < 26 && Meaning(x, env).Num?
    ensures var (v, m) := (Meaning(x, env).v, Meaning(e, env));
      && (e == Plus(x) ==> m == Num(v))
      && (e == Neg(x) ==> Is(m, 0 - v))
      && (e == Not(x) ==> Holds(m, v == 0))
      && (e == Var(i) ==> m == Num(env.num[i]))
      && (e == Elem(i, x) ==> if v >= 1 && v <= env.dim[i] then m == Num(env.arr[i][v - 1]) else m == Fault)
      && (e == Call(Abs, x) ==> Is(m, if v < 0 then 0 - v else v))
      && (e == Call(Int, x) ==> m == Num(v))
      && (e == Call(Sgn, x) ==> m == Num(if v < 0 then -1 else if v == 0 then 0 else 1))
      && (e == Call(Pos, x) ==> m == Num(env.col))
      && (e == Call(Fre, x) ==> m == Num(128 * 1024))
    requires WellFormed(e)
  {
  }

  /** An operand without a value decides, the left one first. */
  lemma OperandsDecide(op: Op, l: Expr, r: Expr, fn: Fn, i: nat, env: Vars)
    requires WellFormed(l) && WellFormed(r) && i < 26
    ensures !Meaning(l, env).Num? ==>
      && Meaning(Bin(op, l, r), env) == Meaning(l, env) && Meaning(Neg(l), env) == Meaning(l, env)
      && Meaning(Plus(l), env) == Meaning(l, env) && Meaning(Not(l), env) == Meaning(l, env)
      && Meaning(Call(fn, l), env) == Meaning(l, env) && Meaning(Elem(i, l), env) == Meaning(l, env)
    ensures Meaning(l, env).Num? && !Meaning(r, env).Num? ==> Meaning(Bin(op, l, r), env) == Meaning(r, env)
  {
  }

  // ----- how texts are grouped -----

  /** What binds more tightly: first OR, then AND, the comparisons, sums, and products. */
  function Tightness(op: Op): nat {
    if op == Or then 1
    else if op == And then 2
    else if op in {Eq, Ne, Lt, Gt, Le, Ge} then 3
    else if op in {Add, Sub} then 4
    else 5
  }

  lemma TightnessIs(lo: Op, hi: Op)
    ensures Tightness(lo) < Tightness(hi) <==> OpLevel(lo) < OpLevel(hi)
  {
  }

  /** The text of an operator. */
  function Written(op: Op): string {
    if op == Or then "OR" else if op == And then "AND"
    else if op == Eq then "=" else if op == Ne then "<>" else if op == Lt then "<" else if op == Gt then ">"
    else if op == Le then "<=" else if op == Ge then ">="
    else if op == Add then "+" else if op == Sub then "-" else if op == Mul then "*" else if op == Div then "/"
    else if op == IDiv then "\\" else "MOD"
  }

  lemma WrittenIs(op: Op)
    ensures OpText(op) == " " + Written(op) + " "
  {
  }

  lemma Text(e: Expr, level: nat)
    requires WellFormed(e)
    ensures Print(e, level) == if Level(e) >= level then Bare(e) else "(" + Bare(e) + ")"
  {
  }

  lemma BinText(op: Op, l: Expr, r: Expr)
    requires WellFormed(l) && WellFormed(r)
    ensures Print(Bin(op, l, r), 0) == Print(l, OpLevel(op)) + OpText(op) + Print(r, OpLevel(op) + 1)
  {
    Text(Bin(op, l, r), 0);
  }

  /** A name, a numeral or a call. */
  predicate Leaf(x: Expr) {
    WellFormed(x) && Level(x) == 7
  }

  /** "x op y", and the same in brackets where something that binds more tightly is expected. */
  function Pair(op: Op, x: Expr, y: Expr): string
    requires Leaf(x) && Leaf(y)
  {
    Bare(x) + OpText(op) + Bare(y)
  }

  lemma PairText(op: Op, x: Expr, y: Expr, level: nat)
    requires Leaf(x) && Leaf(y)
    ensures Print(Bin(op, x, y), level) == if OpLevel(op) >= level then Pair(op, x, y) else "(" + Pair(op, x, y) + ")"
  {
    Text(Bin(op, x, y), level);
    Text(x, OpLevel(op));
    Text(y, OpLevel(op) + 1);
  }

  /** "x lo y hi z" means "x lo (y hi z)" when `hi` binds more tightly, and not otherwise. */
  lemma GroupsRight(lo: Op, hi: Op, x: Expr, y: Expr, z: Expr)
    requires Leaf(x) && Leaf(y) && Leaf(z)
    ensures Print(Bin(lo, x, Bin(hi, y, z)), 0) ==
      Bare(x) + OpText(lo) + (if Tightness(lo) < Tightness(hi) then Pair(hi, y, z) else "(" + Pair(hi, y, z) + ")")
  {
    TightnessIs(lo, hi);
    BinText(lo, x, Bin(hi, y, z));
    Text(x, OpLevel(lo));
    PairText(hi, y, z, OpLevel(lo) + 1);
  }

  /** "x hi y lo z" means "(x hi y) lo z" when `hi` binds as tightly or more, and not otherwise. */
  lemma GroupsLeft(lo: Op, hi: Op, x: Expr, y: Expr, z: Expr)
    requires Leaf(x) && Leaf(y) && Leaf(z)
    ensures Print(Bin(lo, Bin(hi, x, y), z), 0) ==
      (if Tightness(lo) <= Tightness(hi) then Pair(hi, x, y) else "(" + Pair(hi, x, y) + ")") + OpText(lo) + Bare(z)
  {
    TightnessIs(hi, lo);
    BinText(lo, Bin(hi, x, y), z);
    PairText(hi, x, y, OpLevel(lo));
    Text(z, OpLevel(lo) + 1);
  }

  lemma NotText(x: Expr, level: nat)
    requires WellFormed(x)
    ensures Print(Not(x), level) == if level <= 2 then "NOT " + Print(x, 3) else "(" + ("NOT " + Print(x, 3)) + ")"
  {
    Text(Not(x), level);
  }

  /** NOT takes a whole comparison, but no AND and no OR. */
  lemma NotGroups(op: Op, x: Expr, y: Expr)
    requires Leaf(x) && Leaf(y)
    ensures Print(Not(Bin(op, x, y)), 0) ==
      "NOT " + (if Tightness(op) >= 3 then Pair(op, x, y) else "(" + Pair(op, x, y) + ")")
    ensures Tightness(op) < 3 ==> Print(Bin(op, Not(x), y), 0) == "NOT " + Bare(x) + OpText(op) + Bare(y)
  {
    NotText(Bin(op, x, y), 0);
    PairText(op, x, y, 3);
    BinText(op, Not(x), y);
    NotText(x, OpLevel(op));
    Text(x, 3);
    Text(y, OpLevel(op) + 1);
  }

  lemma NegText(x: Expr, level: nat)
    requires WellFormed(x) && level <= 6
    ensures Print(Neg(x), level) == "-" + Print(x, 7)
  {
    Text(Neg(x), level);
  }

  /** A sign takes only what follows at once. */
  lemma SignGroups(op: Op, x: Expr, y: Expr)
    requires Leaf(x) && Leaf(y)
    ensures Print(Bin(op, Neg(x), y), 0) == "-" + Bare(x) + OpText(op) + Bare(y)
    ensures Print(Neg(Bin(op, x, y)), 0) == "-" + ("(" + Pair(op, x, y) + ")")
  {
    BinText(op, Neg(x), y);
    NegText(x, OpLevel(op));
    Text(x, 7);
    Text(y, OpLevel(op) + 1);
    NegText(Bin(op, x, y), 0);
    PairText(op, x, y, 7);
  }

  /** Names and brackets. */
  lemma Names(i: nat, x: Expr)
    requires i < 26 && WellFormed(x)
    ensures Bare(Var(i)) == ["ABCDEFGHIJKLMNOPQRSTUVWXYZ"[i]]
    ensures Bare(Elem(i, x)) == ["ABCDEFGHIJKLMNOPQRSTUVWXYZ"[i]] + "(" + Print(x, 0) + ")"
    ensures Bare(Call(Abs, x)) == "ABS" + "(" + Print(x, 0) + ")"
    ensures Bare(Call(Int, x)) == "INT" + "(" + Print(x, 0) + ")"
    ensures Bare(Call(Sgn, x)) == "SGN" + "(" + Print(x, 0) + ")"
    ensures Bare(Call(Pos, x)) == "POS" + "(" + Print(x, 0) + ")"
    ensures Bare(Call(Fre, x)) == "FRE" + "(" + Print(x, 0) + ")"
  {
    LetterIs(i);
  }

  lemma LetterIs(i: nat)
    requires i < 26
    ensures Letter(i) == "ABCDEFGHIJKLMNOPQRSTUVWXYZ"[i]
  {
  }

  // ----- tokens -----

  /** White space is spaces and tabs. */
  lemma {:induction false} SkipWsIs(s: string) returns (k: nat)
    ensures k <= |s| && SkipWs(s) == s[k..] && forall i | 0 <= i < k :: s[i] == ' ' || s[i] == '\t'
    ensures k < |s| ==> s[k] != ' ' && s[k] != '\t'
    decreases |s|
  {
    k := 0;
    if s != "" && (s[0] == ' ' || s[0] == '\t') {
      var j := SkipWsIs(s[1..]);
      k := j + 1;
      assert s[1..][j..] == s[k..];
      forall i | 0 <= i < k ensures s[i] == ' ' || s[i] == '\t' { assert i > 0 ==> s[i] == s[1..][i - 1]; }
    }
  }

  /** A character that goes on with a word. */
  predicate GoesOn(c: char) {
    '0' <= c <= '9' || 'a' <= c <= 'z' || 'A' <= c <= 'Z' || c == '$'
  }

  /** A keyword is its letters in either case, and then the word must end. */
  lemma KeywordIs(s: string, kw: string)
    requires forall i | 0 <= i < |kw| :: 'A' <= kw[i] <= 'Z'
    ensures MatchKw(s, kw) <==>
      && |kw| <= |s| && (forall i | 0 <= i < |kw| :: s[i] == kw[i] || s[i] as int == kw[i] as int + 32)
      && (|kw| < |s| ==> !GoesOn(s[|kw|]))
  {
    if |kw| <= |s| {
      forall i | 0 <= i < |kw|
        ensures Upper(s[i]) == Upper(kw[i]) <==> s[i] == kw[i] || s[i] as int == kw[i] as int + 32
      {
      }
    }
  }

  /** Symbols need no spaces; a comparison whose character comes twice is none. */
  lemma SymbolsRead(u: string)
    ensures MatchOp(3, "<>" + u) == Some(Ne) && MatchOp(3, "<=" + u) == Some(Le) && MatchOp(3, ">=" + u) == Some(Ge)
    ensures MatchOp(4, "+" + u) == Some(Add) && MatchOp(4, "-" + u) == Some(Sub)
    ensures MatchOp(5, "*" + u) == Some(Mul) && MatchOp(5, "/" + u) == Some(Div) && MatchOp(5, "\\" + u) == Some(IDiv)
    ensures u == "" || u[0] !in {'<', '=', '>'} ==>
      MatchOp(3, "<" + u) == Some(Lt) && MatchOp(3, ">" + u) == Some(Gt) && MatchOp(3, "=" + u) == Some(Eq)
    ensures MatchOp(3, "<<" + u) == None && MatchOp(3, ">>" + u) == None && MatchOp(3, "==" + u) == None
    ensures MatchOp(3, "=<" + u) == Some(Eq) && MatchOp(3, "=>" + u) == Some(Eq) && MatchOp(3, "><" + u) == Some(Gt)
  {
    assert At("<" + u, 1) == At(u, 0) && At(">" + u, 1) == At(u, 0) && At("=" + u, 1) == At(u, 0);
  }

  // ----- numerals -----

  function DigitOf(c: char): int {
    if '0' <= c <= '9' then (c as int) - 48
    else if 'A' <= c <= 'F' then (c as int) - 55
    else if 'a' <= c <= 'f' then (c as int) - 87
    else -1
  }

  /** The number a string of digits denotes in a base, the last digit counting least. */
  function Denotes(s: string, base: nat): int {
    if s == "" then 0 else base * Denotes(s[..|s| - 1], base) + DigitOf(s[|s| - 1])
  }

  predicate AllDigits(s: string, base: int) {
    forall i | 0 <= i < |s| :: 0 <= DigitOf(s[i]) < base
  }

  /** A numeral is the decimal one, without leading zeros. */
  lemma {:induction false} NumeralIs(n: nat)
    ensures Denotes(Digits(n), 10) == n && AllDigits(Digits(n), 10) && Digits(n) != ""
    ensures n > 0 ==> Digits(n)[0] != '0'
  {
    var s := Digits(n);
    if n >= 10 {
      NumeralIs(n / 10);
      assert s[..|s| - 1] == Digits(n / 10) && s[|s| - 1] == DigitChar(n % 10);
    } else {
      assert s[..0] == "";
    }
  }

  /** Wrapping keeps a number modulo 2^32. */
  lemma WrapKeeps(x: int)
    ensures (Wrap32(x) - x) % 0x1_0000_0000 == 0 && Fits(Wrap32(x))
  {
  }

  lemma {:induction false} DenotesFirst(s: string, base: nat, c: char)
    ensures Denotes([c] + s, base) == Power(base, |s|) * DigitOf(c) + Denotes(s, base)
    decreases |s|
  {
    var t := [c] + s;
    if s == "" {
      assert t[..0] == "" && t[0] == c;
    } else {
      var init := s[..|s| - 1];
      assert t[..|t| - 1] == [c] + init;
      DenotesFirst(init, base, c);
      Distribute(base, Power(base, |init|), DigitOf(c), Denotes(init, base));
    }
  }

  function Power(base: nat, n: nat): nat {
    if n == 0 then 1 else base * Power(base, n - 1)
  }

  lemma Distribute(b: int, p: int, d: int, r: int)
    ensures b * (p * d + r) == b * p * d + b * r
  {
  }

  lemma ModStep(u: int, m: int, p: int, x: int)
    requires m > 0
    ensures (u % m * p + x) % m == (u * p + x) % m
  {
    var k := u / m;
    assert u == k * m + u % m;
    ModMultiple(u % m * p + x, k * p, m);
    Distribute2(k, m, u % m, p);
  }

  lemma Distribute2(k: int, m: int, r: int, p: int)
    ensures (k * m + r) * p == r * p + k * p * m
  {
  }

  lemma ModMultiple(x: int, k: int, m: int)
    requires m > 0
    ensures (x + k * m) % m == x % m
  {
    var q := x / m;
    Collect(q, k, m);
    IntQuotient(x + k * m, m, q + k, x % m);
  }

  lemma Collect(q: int, k: int, m: int)
    ensures (q + k) * m == q * m + k * m
  {
  }

  lemma IntQuotient(n: int, m: int, q: int, r: int)
    requires m > 0 && n == q * m + r && 0 <= r < m
    ensures n % m == r
  {
    var d := n / m - q;
    Collect(n / m, -q, m);
    assert d * m == r - n % m;
    Multiple(d, m, 0);
  }

  /** Hexadecimal digits added one by one, in 32 bits. */
  function HexFold(v: nat, s: string): (n: nat)
    requires v < 0x1_0000_0000 && AllDigits(s, 16)
    ensures n < 0x1_0000_0000
    decreases |s|
  {
    if s == "" then v else HexFold((v * 16 + DigitOf(s[0])) % 0x1_0000_0000, s[1..])
  }

  lemma {:induction false} HexRead(v: nat, s: string, rest: string)
    requires v < 0x1_0000_0000 && AllDigits(s, 16) && (rest == "" || DigitOf(rest[0]) < 0)
    ensures Hexadecimal(v, s + rest) == R(Wrap32(HexFold(v, s)), rest, false)
    decreases |s|
  {
    if s == "" {
      assert s + rest == rest;
      if rest != "" { HexDigitIs(rest[0]); }
    } else {
      assert s == [s[0]] + s[1..];
      HexFirst(v, s[0], s[1..], rest);
      HexRead((v * 16 + DigitOf(s[0])) % 0x1_0000_0000, s[1..], rest);
    }
  }

  lemma HexNext(v: nat, s: string) returns (u: nat)
    requires v < 0x1_0000_0000 && AllDigits(s, 16) && s != ""
    ensures 0 <= DigitOf(s[0]) < 16 && u == (v * 16 + DigitOf(s[0])) % 0x1_0000_0000 && AllDigits(s[1..], 16)
    ensures HexFold(v, s) == HexFold(u, s[1..])
  {
    u := (v * 16 + DigitOf(s[0])) % 0x1_0000_0000;
  }

  lemma {:induction false} HexFoldIs(v: nat, s: string)
    requires v < 0x1_0000_0000 && AllDigits(s, 16)
    ensures HexFold(v, s) == (v * Power(16, |s|) + Denotes(s, 16)) % 0x1_0000_0000
    decreases |s|
  {
    if s != "" {
      var u := HexNext(v, s);
      HexFoldIs(u, s[1..]);
      HexJoined(v, u, s, HexFold(v, s));
    }
  }

  lemma HexJoined(v: nat, u: nat, s: string, f: nat)
    requires s != "" && u == (v * 16 + DigitOf(s[0])) % 0x1_0000_0000
    requires f == (u * Power(16, |s[1..]|) + Denotes(s[1..], 16)) % 0x1_0000_0000
    ensures f == (v * Power(16, |s|) + Denotes(s, 16)) % 0x1_0000_0000
  {
    var c, t := s[0], s[1..];
    assert s == [c] + t;
    DenotesFirst(t, 16, c);
    HexGlue(v, DigitOf(c), u, Power(16, |t|), Denotes(t, 16), Power(16, |s|), Denotes(s, 16), 0x1_0000_0000, f);
  }

  lemma HexGlue(v: int, d: int, u: int, p: int, x: int, q: int, n: int, m: int, f: int)
    requires m > 0 && q == 16 * p && n == p * d + x && u == (v * 16 + d) % m && f == (u * p + x) % m
    ensures f == (v * q + n) % m
  {
    HexSum(v, d, p, x, m);
  }

  lemma HexFirst(v: nat, c: char, t: string, rest: string)
    requires 0 <= DigitOf(c) < 16
    ensures Hexadecimal(v, [c] + t + rest) == Hexadecimal((v * 16 + DigitOf(c)) % 0x1_0000_0000, t + rest)
  {
    HexDigitIs(c);
    var s := [c] + t + rest;
    assert s[0] == c && s[1..] == t + rest;
  }

  lemma HexSum(v: int, d: int, p: int, x: int, m: int)
    requires m > 0
    ensures ((v * 16 + d) % m * p + x) % m == (v * (16 * p) + (p * d + x)) % m
  {
    ModStep(v * 16 + d, m, p, x);
    HexProduct(v, d, p);
  }

  lemma HexProduct(v: int, d: int, p: int)
    ensures (v * 16 + d) * p == v * (16 * p) + p * d
  {
  }

  lemma HexDigitIs(c: char)
    ensures HexDigit(c) == DigitOf(c)
  {
  }

  /** A hexadecimal literal denotes its number modulo 2^32, as a number of 32 bits with sign. */
  lemma HexLiteral(s: string, rest: string, env: Vars)
    requires AllDigits(s, 16) && (rest == "" || DigitOf(rest[0]) < 0)
    ensures var r := Eval(7, "&H" + (s + rest), false, env);
      r.rest == rest && !r.err && Fits(r.v) && (r.v - Denotes(s, 16)) % 0x1_0000_0000 == 0
  {
    var t := "&H" + (s + rest);
    assert t[0] == '&' && t[1] == 'H' && t[2..] == s + rest;
    HexRead(0, s, rest);
    HexValue(s);
  }

  lemma HexValue(s: string)
    requires AllDigits(s, 16)
    ensures var w := Wrap32(HexFold(0, s)); Fits(w) && (w - Denotes(s, 16)) % 0x1_0000_0000 == 0
  {
    HexFoldIs(0, s);
    var n := Denotes(s, 16);
    WrapKeeps(n % 0x1_0000_0000);
    SameRemainder(Wrap32(n % 0x1_0000_0000), n, 0x1_0000_0000);
  }

  lemma SameRemainder(w: int, n: int, m: int)
    requires m > 0 && (w - n % m) % m == 0
    ensures (w - n) % m == 0
  {
    var k, o := n / m, n % m;
    Product(k, m);
    assert w - n == (w - o) + (-k) * m;
    ModMultiple(w - o, -k, m);
  }

  // ----- what is not an expression -----

  /** An operand begins with a digit, a letter, an opening parenthesis, `&H` or a sign. */
  predicate Begins(s: string) {
    && s != ""
    && ('0' <= s[0] <= '9' || 'a' <= s[0] <= 'z' || 'A' <= s[0] <= 'Z' || s[0] in {'(', '+', '-'}
        || (|s| > 1 && s[0] == '&' && (s[1] == 'H' || s[1] == 'h')))
  }

  lemma NothingBegins(t: string, env: Vars)
    requires !Begins(t)
    ensures !MatchKw(t, "NOT") && At(t, 0) != '-' && At(t, 0) != '+' && Primary(t, env).err
  {
    if t != "" { assert At(t, 0) == t[0]; }
    if |t| > 1 { assert At(t, 1) == t[1]; }
  }

  /** Anything else is an error, at every level of the grammar. */
  lemma {:induction false} NoOperandFails(level: nat, s: string, env: Vars)
    requires level <= 7 && !Begins(SkipWs(s))
    ensures Eval(level, s, false, env).err
    decreases 8 - level
  {
    NothingBegins(SkipWs(s), env);
    SkipTwice(s);
    if level == 2 || level == 6 {
      NoOperandFails(level + 1, SkipWs(s), env);
    } else if level < 6 {
      NoOperandFails(level + 1, s, env);
      var r := Eval(level + 1, s, false, env);
      LoopKeepsError(level, r.v, r.rest, env);
    }
  }

  /** A parenthesis that is not closed is an error. */
  lemma UnclosedFails(e: Expr, env: Vars)
    requires WellFormed(e) && Meaning(e, env).Num?
    ensures Eval(7, "(" + Print(e, 0), false, env).err
  {
    assert Print(e, 0) + "" == Print(e, 0);
    PrintedEvaluates(e, 0, "", env);
    assert ("(" + Print(e, 0))[1..] == Print(e, 0);
    SkipTwice(Eval(0, Print(e, 0), false, env).rest);
  }

  /** A name of several letters that is no function, or any name with a dollar sign, is an error. */
  lemma UnknownNameFails(name: string, rest: string, env: Vars)
    requires |name| > 1 && 'A' <= name[0] <= 'Z' && Ident(name + rest, 7) == name
    requires At(rest, 0) == '$' || name !in {"ABS", "INT", "SGN", "POS", "FRE"}
    ensures Eval(7, name + rest, false, env).err
  {
    if At(rest, 0) != '$' {
      NameDecides(name, rest, env);
    } else {
      assert (name + rest)[0] == name[0] && (name + rest)[|name|..] == rest;
    }
  }
}
