/** Numeric expressions of InteiliBASIC (shell/basic.c): what the evaluator does with a text,
    as a function of the text left to read, and what an expression tree means. */
module BasicExpr {

  // ----- characters -----

  function Upper(c: char): char {
    if 'a' <= c <= 'z' then c - 'a' + 'A' else c
  }

  predicate IsAlpha(c: char) {
    'A' <= c <= 'Z' || 'a' <= c <= 'z'
  }

  predicate IsDigit(c: char) {
    '0' <= c <= '9'
  }

  /** The character at `i`, or the terminating NUL. */
  function At(s: string, i: nat): char {
    if i < |s| then s[i] else '\0'
  }

  function SkipWs(s: string): (t: string)
    ensures |t| <= |s|
  {
    if s != [] && (s[0] == ' ' || s[0] == '\t') then SkipWs(s[1..]) else s
  }

  predicate HasPrefixUpper(s: string, kw: string) {
    |kw| <= |s| && forall i | 0 <= i < |kw| :: Upper(s[i]) == Upper(kw[i])
  }

  /** A keyword, in any case, that no letter, digit or `$` continues. */
  predicate MatchKw(s: string, kw: string) {
    && HasPrefixUpper(s, kw)
    && !IsAlpha(At(s, |kw|)) && !IsDigit(At(s, |kw|)) && At(s, |kw|) != '$'
  }

  // ----- 32-bit integers -----

  const TWO32 := 0x1_0000_0000
  const MAX32 := 0x7fff_ffff

  predicate Fits32(x: int) {
    -MAX32 - 1 <= x <= MAX32
  }

  /** Two's complement reduction to 32 bits. */
  function Wrap32(x: int): (r: int)
    ensures Fits32(r)
    ensures Fits32(x) ==> r == x
  {
    if Fits32(x) then x else (x + MAX32 + 1) % TWO32 - MAX32 - 1
  }

  /** Division and remainder that truncate toward zero. */
  function TDiv(a: int, b: int): int
    requires b != 0
  {
    if a >= 0 then a / b else -(-a / b)
  }

  function TMod(a: int, b: int): int
    requires b != 0
  {
    a - b * TDiv(a, b)
  }

  function Truth(b: bool): int {
    if b then -1 else 0
  }

  // ----- operators -----

  datatype Op = Or | And | Ne | Le | Ge | Lt | Gt | Eq | Add | Sub | Mul | Div | IDiv | Mod

  /** The grammar level that reads the operator; level 2 is NOT, 6 the signs, 7 primaries. */
  function OpLevel(op: Op): nat {
    match op
    case Or => 0
    case And => 1
    case Ne | Le | Ge | Lt | Gt | Eq => 3
    case Add | Sub => 4
    case Mul | Div | IDiv | Mod => 5
  }

  function OpToken(op: Op): string {
    match op
    case Or => "OR" case And => "AND" case Mod => "MOD"
    case Ne => "<>" case Le => "<=" case Ge => ">=" case Lt => "<" case Gt => ">" case Eq => "="
    case Add => "+" case Sub => "-" case Mul => "*" case Div => "/" case IDiv => "\\"
  }

  predicate ZeroDivides(op: Op, b: int) {
    (op.Div? || op.IDiv? || op.Mod?) && b == 0
  }

  /** The exact value of an operator. */
  function Exact(op: Op, a: int, b: int): int
    requires !ZeroDivides(op, b)
  {
    match op
    case Or => Truth(a != 0 || b != 0)
    case And => Truth(a != 0 && b != 0)
    case Ne => Truth(a != b)
    case Le => Truth(a <= b)
    case Ge => Truth(a >= b)
    case Lt => Truth(a < b)
    case Gt => Truth(a > b)
    case Eq => Truth(a == b)
    case Add => a + b
    case Sub => a - b
    case Mul => a * b
    case Div | IDiv => TDiv(a, b)
    case Mod => TMod(a, b)
  }

  datatype Option<+T> = None | Some(value: T)

  /** The operator of this level that the text begins with, tried in the order of the code. */
  function MatchOp(level: nat, s: string): Option<Op> {
    if level == 0 then (if MatchKw(s, "OR") then Some(Or) else None)
    else if level == 1 then (if MatchKw(s, "AND") then Some(And) else None)
    else if level == 3 then
      if At(s, 0) == '<' && At(s, 1) == '>' then Some(Ne)
      else if At(s, 0) == '<' && At(s, 1) == '=' then Some(Le)
      else if At(s, 0) == '>' && At(s, 1) == '=' then Some(Ge)
      else if At(s, 0) == '<' && At(s, 1) != '<' then Some(Lt)
      else if At(s, 0) == '>' && At(s, 1) != '>' then Some(Gt)
      else if At(s, 0) == '=' && At(s, 1) != '=' then Some(Eq)
      else None
    else if level == 4 then
      if At(s, 0) == '+' then Some(Add)
      else if At(s, 0) == '-' then Some(Sub)
      else None
    else if level == 5 then
      if At(s, 0) == '*' then Some(Mul)
      else if At(s, 0) == '/' then Some(Div)
      else if At(s, 0) == '\\' then Some(IDiv)
      else if MatchKw(s, "MOD") then Some(Mod)
      else None
    else None
  }

  lemma MatchOpFits(level: nat, s: string)
    requires MatchOp(level, s).Some?
    ensures OpLevel(MatchOp(level, s).value) == level
    ensures 0 < |OpToken(MatchOp(level, s).value)| <= |s|
  {
  }

  // ----- the evaluator -----

  /** Variables, arrays with their declared sizes, and the print column. */
  datatype Env = Env(num: seq<int>, arr: seq<seq<int>>, dim: seq<int>, col: int)

  predicate EnvOk(env: Env) {
    && |env.num| == 26 && |env.arr| == 26 && |env.dim| == 26
    && (forall i | 0 <= i < 26 :: Fits32(env.num[i]))
    && (forall i | 0 <= i < 26 :: 0 <= env.dim[i] <= |env.arr[i]|)
    && (forall i, k | 0 <= i < 26 && 0 <= k < |env.arr[i]| :: Fits32(env.arr[i][k]))
    && Fits32(env.col)
  }

  type Vars = env: Env | EnvOk(env)
    witness Env(seq(26, _ => 0), seq(26, _ => []), seq(26, _ => 0), 0)

  /** A value, the text not yet read, and whether an error has been raised. */
  datatype R = R(v: int, rest: string, err: bool)

  /** Steps over `c`, or raises a syntax error where it stands. */
  function Expect(c: char, s: string, err: bool): (r: R)
    ensures |r.rest| <= |s|
  {
    var t := SkipWs(s);
    if At(t, 0) == c && t != [] then R(0, t[1..], err) else R(0, t, true)
  }

  function Decimal(v: int, s: string): (r: R)
    ensures |r.rest| <= |s|
    ensures s != [] && IsDigit(s[0]) ==> |r.rest| < |s|
    decreases |s|
  {
    if s != [] && IsDigit(s[0]) then Decimal(Wrap32(Wrap32(v * 10) + (s[0] - '0') as int), s[1..])
    else R(v, s, false)
  }

  function HexDigit(c: char): int {
    if '0' <= Upper(c) <= '9' then (Upper(c) - '0') as int
    else if 'A' <= Upper(c) <= 'F' then (Upper(c) - 'A') as int + 10
    else -1
  }

  function Hexadecimal(v: nat, s: string): (r: R)
    ensures |r.rest| <= |s|
    decreases |s|
  {
    if s != [] && HexDigit(s[0]) >= 0 then Hexadecimal((v * 16 + HexDigit(s[0])) % TWO32, s[1..])
    else R(Wrap32(v), s, false)
  }

  /** At most `room` letters, upper-cased. */
  function Ident(s: string, room: nat): (n: string)
    ensures |n| <= |s| && |n| <= room
    ensures forall i | 0 <= i < |n| :: 'A' <= n[i] <= 'Z'
    ensures s != [] && IsAlpha(s[0]) && room > 0 ==> |n| > 0
  {
    if room > 0 && s != [] && IsAlpha(s[0]) then [Upper(s[0])] + Ident(s[1..], room - 1) else []
  }

  datatype Fn = Abs | Int | Sgn | Pos | Fre

  function FnName(fn: Fn): string {
    match fn case Abs => "ABS" case Int => "INT" case Sgn => "SGN" case Pos => "POS" case Fre => "FRE"
  }

  function FnNamed(name: string): Option<Fn> {
    if name == "ABS" then Some(Abs)
    else if name == "INT" then Some(Int)
    else if name == "SGN" then Some(Sgn)
    else if name == "POS" then Some(Pos)
    else if name == "FRE" then Some(Fre)
    else None
  }

  function FnValue(fn: Fn, v: int, env: Vars): int {
    match fn
    case Abs => if v < 0 then Wrap32(-v) else v
    case Int => v
    case Sgn => if v > 0 then 1 else if v < 0 then -1 else 0
    case Pos => env.col
    case Fre => 131072
  }

  /** The evaluator for one grammar level; `err` is the error flag it starts with. */
  function Eval(level: nat, s: string, err: bool, env: Vars): (r: R)
    requires level <= 7
    ensures |r.rest| <= |s|
    decreases |s|, 1, 8 - level
  {
    if level == 2 then
      var t := SkipWs(s);
      if MatchKw(t, "NOT") then
        var r := Eval(3, t[3..], err, env);
        R(Truth(r.v == 0), r.rest, r.err)
      else Eval(3, t, err, env)
    else if level <= 5 then
      var r := Eval(level + 1, s, err, env);
      Loop(level, r.v, r.rest, r.err, env)
    else if level == 6 then
      var t := SkipWs(s);
      if At(t, 0) == '-' then
        var r := Eval(7, t[1..], err, env);
        R(Wrap32(-r.v), r.rest, r.err)
      else if At(t, 0) == '+' then Eval(7, t[1..], err, env)
      else Eval(7, t, err, env)
    else
      var t := SkipWs(s);
      if err then R(0, t, true) else Primary(t, env)
  }

  /** The loop of a level, with the value so far. */
  function Loop(level: nat, a: int, s: string, err: bool, env: Vars): (r: R)
    requires level <= 5
    ensures |r.rest| <= |s|
    decreases |s|, 0, 0
  {
    var t := SkipWs(s);
    match MatchOp(level, t)
    case None => R(a, t, err)
    case Some(op) =>
      MatchOpFits(level, t);
      var r := Eval(level + 1, t[|OpToken(op)|..], err, env);
      if ZeroDivides(op, r.v) then R(0, r.rest, true)
      else Loop(level, Wrap32(Exact(op, a, r.v)), r.rest, r.err, env)
  }

  lemma LoopExits(level: nat, a: int, s: string, err: bool, env: Vars)
    requires level <= 5 && MatchOp(level, SkipWs(s)) == None
    ensures Loop(level, a, s, err, env) == R(a, SkipWs(s), err)
  {
  }

  lemma LoopTurns(level: nat, a: int, s: string, err: bool, env: Vars, op: Op)
    requires level <= 5 && MatchOp(level, SkipWs(s)) == Some(op)
    ensures |OpToken(op)| <= |SkipWs(s)| && OpLevel(op) == level
    ensures Loop(level, a, s, err, env) ==
      var r := Eval(level + 1, SkipWs(s)[|OpToken(op)|..], err, env);
      if ZeroDivides(op, r.v) then R(0, r.rest, true)
      else Loop(level, Wrap32(Exact(op, a, r.v)), r.rest, r.err, env)
  {
    MatchOpFits(level, SkipWs(s));
  }

  /** A parenthesis, literal, variable, array element or function call. */
  function Primary(s: string, env: Vars): (r: R)
    ensures |r.rest| <= |s|
    decreases |s|, 1, 0
  {
    if At(s, 0) == '(' then
      var r := Eval(0, s[1..], false, env);
      var c := Expect(')', SkipWs(r.rest), r.err);
      R(r.v, c.rest, c.err)
    else if IsDigit(At(s, 0)) then Decimal(0, s)
    else if At(s, 0) == '&' && Upper(At(s, 1)) == 'H' then Hexadecimal(0, s[2..])
    else if IsAlpha(At(s, 0)) then
      var name := Ident(s, 7);
      var t := s[|name|..];
      if At(t, 0) == '$' then R(0, t[1..], true) else Named(name, t, env)
    else R(0, s, true)
  }

  /** What follows an identifier. */
  function Named(name: string, s: string, env: Vars): (r: R)
    requires forall i | 0 <= i < |name| :: 'A' <= name[i] <= 'Z'
    ensures |r.rest| <= |s|
    decreases |s|, 2, 0
  {
    match FnNamed(name)
    case Some(fn) =>
      var o := Expect('(', s, false);
      var r := Eval(0, o.rest, o.err, env);
      var c := Expect(')', r.rest, r.err);
      R(FnValue(fn, r.v, env), c.rest, c.err)
    case None =>
      if |name| != 1 then R(0, s, true) else
      var idx := (name[0] - 'A') as int;
      var t := SkipWs(s);
      if At(t, 0) != '(' then R(env.num[idx], t, false) else
      var r := Eval(0, t[1..], false, env);
      var c := Expect(')', r.rest, r.err);
      if c.err then R(0, c.rest, true)
      else if r.v < 1 || r.v > env.dim[idx] then R(0, c.rest, true)
      else R(env.arr[idx][r.v - 1], c.rest, false)
  }

  // ----- expression trees -----

  datatype Expr =
    | Lit(n: nat)
    | Var(idx: nat)
    | Elem(arr: nat, sub: Expr)
    | Call(fn: Fn, arg: Expr)
    | Neg(e: Expr)
    | Plus(e: Expr)
    | Not(e: Expr)
    | Bin(op: Op, l: Expr, r: Expr)

  predicate WellFormed(e: Expr) {
    match e
    case Lit(n) => n <= MAX32
    case Var(i) => i < 26
    case Elem(i, x) => i < 26 && WellFormed(x)
    case Call(_, x) => WellFormed(x)
    case Neg(x) => WellFormed(x)
    case Plus(x) => WellFormed(x)
    case Not(x) => WellFormed(x)
    case Bin(_, l, r) => WellFormed(l) && WellFormed(r)
  }

  /** The value of a tree: a number, a fault (zero divisor or subscript out of bounds), or a
      number that does not fit 32 bits, about which nothing is claimed. */
  datatype Val = Num(v: int) | Fault | Overflow

  function InRange(v: int): Val {
    if Fits32(v) then Num(v) else Overflow
  }

  /** Evaluates both operands, left first; the first fault or overflow decides. */
  function Meaning(e: Expr, env: Vars): (m: Val)
    requires WellFormed(e)
    ensures m.Num? ==> Fits32(m.v)
  {
    match e
    case Lit(n) => Num(n)
    case Var(i) => Num(env.num[i])
    case Elem(i, x) =>
      var m := Meaning(x, env);
      if !m.Num? then m
      else if 1 <= m.v <= env.dim[i] then Num(env.arr[i][m.v - 1]) else Fault
    case Call(fn, x) =>
      var m := Meaning(x, env);
      if !m.Num? then m
      else if fn == Abs && m.v < 0 then InRange(-m.v) else Num(FnValue(fn, m.v, env))
    case Neg(x) =>
      var m := Meaning(x, env);
      if m.Num? then InRange(-m.v) else m
    case Plus(x) => Meaning(x, env)
    case Not(x) =>
      var m := Meaning(x, env);
      if m.Num? then Num(Truth(m.v == 0)) else m
    case Bin(op, l, r) =>
      var a := Meaning(l, env);
      if !a.Num? then a else
      var b := Meaning(r, env);
      if !b.Num? then b
      else if ZeroDivides(op, b.v) then Fault
      else if op.Mod? && !Fits32(TDiv(a.v, b.v)) then Overflow
      else InRange(Exact(op, a.v, b.v))
  }

  // ----- printing -----

  function Level(e: Expr): nat {
    match e
    case Bin(op, _, _) => OpLevel(op)
    case Not(_) => 2
    case Neg(_) | Plus(_) => 6
    case _ => 7
  }

  function DigitChar(d: nat): char
    requires d < 10
  {
    '0' + d as char
  }

  function Digits(n: nat): string {
    if n < 10 then [DigitChar(n)] else Digits(n / 10) + [DigitChar(n % 10)]
  }

  function Letter(i: nat): char
    requires i < 26
  {
    'A' + i as char
  }

  /** Operators are set off by spaces, so that words stay apart. */
  function OpText(op: Op): string {
    " " + OpToken(op) + " "
  }

  /** The text of a tree where the grammar expects `level`: parenthesised only if it must be. */
  function Print(e: Expr, level: nat): string
    requires WellFormed(e)
    decreases e, 1
  {
    if Level(e) >= level then Bare(e) else "(" + Bare(e) + ")"
  }

  function Bare(e: Expr): string
    requires WellFormed(e)
    decreases e, 0
  {
    match e
    case Lit(n) => Digits(n)
    case Var(i) => [Letter(i)]
    case Elem(i, x) => [Letter(i)] + "(" + Print(x, 0) + ")"
    case Call(fn, x) => FnName(fn) + "(" + Print(x, 0) + ")"
    case Neg(x) => "-" + Print(x, 7)
    case Plus(x) => "+" + Print(x, 7)
    case Not(x) => "NOT " + Print(x, 3)
    case Bin(op, l, r) => Print(l, OpLevel(op)) + OpText(op) + Print(r, OpLevel(op) + 1)
  }
}
