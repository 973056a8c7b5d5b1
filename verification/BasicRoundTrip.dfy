/** Reading back a printed expression: `eval_num` computes the meaning of every tree. */
module BasicRoundTrip {
  import opened BasicExpr

  /** Texts that may follow an operand read at `level`: nothing, a closing parenthesis, or an
      operator that only a lower level reads. */
  ghost predicate Follows(rest: string, level: nat) {
    rest == "" || rest[0] == ')' || exists op :: OpLevel(op) < level && OpText(op) <= rest
  }

  // ----- white space and errors -----

  lemma SkipTwice(s: string)
    ensures SkipWs(SkipWs(s)) == SkipWs(s)
  {
  }

  lemma {:induction false} EvalSkips(level: nat, s: string, err: bool, env: Vars)
    requires level <= 7
    ensures Eval(level, s, err, env) == Eval(level, SkipWs(s), err, env)
    decreases 8 - level
  {
    SkipTwice(s);
    if level <= 5 && level != 2 {
      EvalSkips(level + 1, s, err, env);
    }
  }

  /** Nothing clears the error flag. */
  lemma {:induction false} EvalKeepsError(level: nat, s: string, env: Vars)
    requires level <= 7
    ensures Eval(level, s, true, env).err
    decreases |s|, 1, 8 - level
  {
    var t := SkipWs(s);
    if level == 2 {
      EvalKeepsError(3, if MatchKw(t, "NOT") then t[3..] else t, env);
    } else if level <= 5 {
      EvalKeepsError(level + 1, s, env);
      var r := Eval(level + 1, s, true, env);
      LoopKeepsError(level, r.v, r.rest, env);
    } else if level == 6 {
      EvalKeepsError(7, if At(t, 0) == '-' || At(t, 0) == '+' then t[1..] else t, env);
    }
  }

  lemma {:induction false} LoopKeepsError(level: nat, a: int, s: string, env: Vars)
    requires level <= 5
    ensures Loop(level, a, s, true, env).err
    decreases |s|, 0, 0
  {
    var t := SkipWs(s);
    match MatchOp(level, t)
    case None =>
    case Some(op) =>
      MatchOpFits(level, t);
      EvalKeepsError(level + 1, t[|OpToken(op)|..], env);
      var r := Eval(level + 1, t[|OpToken(op)|..], true, env);
      if !ZeroDivides(op, r.v) {
        LoopKeepsError(level, Wrap32(Exact(op, a, r.v)), r.rest, env);
      }
  }

  // ----- tokens -----

  lemma TokenRead(op: Op, u: string)
    ensures SkipWs(OpText(op) + u) == OpToken(op) + " " + u
    ensures MatchOp(OpLevel(op), OpToken(op) + " " + u) == Some(op)
  {
    var s := OpToken(op) + " " + u;
    assert OpText(op) + u == " " + s;
    assert (" " + s)[1..] == s;
    assert s[|OpToken(op)|] == ' ';
  }

  lemma TokenPassed(op: Op, u: string, level: nat)
    requires OpLevel(op) < level
    ensures MatchOp(level, OpToken(op) + " " + u) == None
  {
    var s := OpToken(op) + " " + u;
    assert s[0] == OpToken(op)[0];
  }

  /** No loop from `level` up goes on at a text that may follow. */
  lemma LoopStops(rest: string, level: nat, k: nat)
    requires Follows(rest, level) && level <= k
    ensures MatchOp(k, SkipWs(rest)) == None
  {
    if rest != "" && rest[0] != ')' {
      var op :| OpLevel(op) < level && OpText(op) <= rest;
      var u := rest[|OpText(op)|..];
      assert rest == OpText(op) + u;
      TokenRead(op, u);
      TokenPassed(op, u, k);
    }
  }

  lemma FollowsMore(rest: string, level: nat, k: nat)
    requires Follows(rest, level) && level <= k
    ensures Follows(rest, k)
  {
    if rest != "" && rest[0] != ')' {
      var op :| OpLevel(op) < level && OpText(op) <= rest;
      assert OpLevel(op) < k;
    }
  }

  lemma OpTextFollows(op: Op, u: string, level: nat)
    requires OpLevel(op) < level
    ensures Follows(OpText(op) + u, level)
  {
    assert OpText(op) <= OpText(op) + u;
  }

  /** What may follow is never part of a number or a name, nor opens a subscript. */
  lemma FollowsEndsToken(rest: string, level: nat)
    requires Follows(rest, level)
    ensures !IsDigit(At(rest, 0)) && !IsAlpha(At(rest, 0)) && At(rest, 0) != '$'
    ensures At(SkipWs(rest), 0) != '('
  {
    if rest != "" && rest[0] != ')' {
      var op :| OpLevel(op) < level && OpText(op) <= rest;
      assert At(rest, 0) == OpText(op)[0] == ' ';
      TokenBegins(op, rest[|OpText(op)|..]);
      assert rest == OpText(op) + rest[|OpText(op)|..];
    }
  }

  lemma TokenBegins(op: Op, u: string)
    ensures At(SkipWs(OpText(op) + u), 0) != '('
  {
    TokenRead(op, u);
    assert (OpToken(op) + " " + u)[0] == OpToken(op)[0];
  }

  // ----- numbers and names -----

  lemma MoveOver(s: string, c: char, t: string)
    ensures s + [c] + t == s + ([c] + t)
  {
  }

  lemma {:induction false} DigitsRead(n: nat, rest: string)
    requires n <= MAX32
    ensures Decimal(0, Digits(n) + rest) == Decimal(n, rest)
    ensures Digits(n) != "" && IsDigit(Digits(n)[0])
  {
    var d := DigitChar(n % 10);
    assert ([d] + rest)[1..] == rest;
    if n >= 10 {
      DigitsRead(n / 10, [d] + rest);
      MoveOver(Digits(n / 10), d, rest);
    }
  }

  lemma LetterRead(i: nat, rest: string)
    requires i < 26 && !IsAlpha(At(rest, 0))
    ensures Ident([Letter(i)] + rest, 7) == [Letter(i)]
  {
    assert ([Letter(i)] + rest)[1..] == rest;
  }

  lemma FnNameRead(fn: Fn, rest: string)
    ensures Ident(FnName(fn) + "(" + rest, 7) == FnName(fn)
    ensures FnNamed(FnName(fn)) == Some(fn)
  {
    var name := FnName(fn);
    var s := name + "(" + rest;
    assert s[1..] == name[1..] + "(" + rest;
    assert s[1..][1..] == name[2..] + "(" + rest;
    assert s[1..][1..][1..] == "(" + rest;
    assert Ident("(" + rest, 4) == "";
    assert Ident(s[1..][1..], 5) == [name[2]] + "";
    assert Ident(s[1..], 6) == [name[1]] + ([name[2]] + "");
    assert Ident(s, 7) == [name[0]] + ([name[1]] + ([name[2]] + ""));
  }

  /** The ways a printed operand above NOT can begin. */
  ghost predicate BeginsOperand(s: string) {
    && s != ""
    && (IsDigit(s[0]) || s[0] in {'(', '-', '+'}
        || (IsAlpha(s[0]) && !IsAlpha(At(s, 1)))
        || exists fn :: FnName(fn) <= s)
  }

  lemma Join(a: string, b: string, c: string, d: string)
    ensures a + b + c + d == a + (b + (c + d)) && a + (b + c) + d == a + (b + (c + d))
  {
  }

  lemma {:induction false} PrintBegins(e: Expr, level: nat, rest: string)
    requires WellFormed(e) && 3 <= level && Follows(rest, 8)
    ensures BeginsOperand(Print(e, level) + rest)
    decreases e
  {
    if Level(e) < level {
      assert (Print(e, level) + rest)[0] == '(';
    } else if e.Bin? {
      var op := e.op;
      var tail := Print(e.r, OpLevel(op) + 1) + rest;
      OpTextFollows(op, tail, 8);
      PrintBegins(e.l, OpLevel(op), OpText(op) + tail);
      Join(Print(e.l, OpLevel(op)), OpText(op), Print(e.r, OpLevel(op) + 1), rest);
    } else {
      LeafBegins(e, rest);
    }
  }

  lemma LeafBegins(e: Expr, rest: string)
    requires WellFormed(e) && !e.Bin? && !e.Not? && Follows(rest, 8)
    ensures BeginsOperand(Bare(e) + rest)
  {
    FollowsEndsToken(rest, 8);
    var s := Bare(e) + rest;
    match e
    case Lit(n) =>
      DigitsRead(n, rest);
      assert s[0] == Digits(n)[0];
    case Var(i) => assert s[1..] == rest;
    case Elem(i, x) => assert s[0] == Letter(i) && s[1] == '(';
    case Call(fn, x) => assert FnName(fn) <= s;
    case Neg(x) => assert s[0] == '-';
    case Plus(x) => assert s[0] == '+';
  }

  lemma OperandIsNotNot(s: string)
    requires BeginsOperand(s)
    ensures SkipWs(s) == s && !MatchKw(s, "NOT")
  {
    if exists fn :: FnName(fn) <= s {
      var fn :| FnName(fn) <= s;
      assert s[0] == FnName(fn)[0] && s[1] == FnName(fn)[1];
    }
  }

  // ----- the main theorem -----

  function Size(e: Expr): nat {
    match e
    case Lit(_) => 1
    case Var(_) => 1
    case Elem(_, x) => 1 + Size(x)
    case Call(_, x) => 1 + Size(x)
    case Neg(x) => 1 + Size(x)
    case Plus(x) => 1 + Size(x)
    case Not(x) => 1 + Size(x)
    case Bin(_, l, r) => 1 + Size(l) + Size(r)
  }

  /** Inside parentheses the same tree is read again from the lowest level. */
  function Rank(e: Expr, level: nat): int {
    if Level(e) < level then 100 - level else 10 - level
  }

  /** The tree has been read to its end, with its value and no error. */
  ghost predicate ReadAs(r: R, v: int, rest: string) {
    r.v == v && !r.err && SkipWs(r.rest) == SkipWs(rest)
  }

  // How each unary construct reads, whatever its operand.

  lemma NotRead(e: Expr, rest: string, env: Vars)
    requires WellFormed(e) && e.Not?
    ensures var r := Eval(3, Print(e.e, 3) + rest, false, env);
            Eval(2, Print(e, 2) + rest, false, env) == R(Truth(r.v == 0), r.rest, r.err)
  {
    var u := Print(e.e, 3) + rest;
    var s := "NOT " + u;
    assert Print(e, 2) == Bare(e) == "NOT " + Print(e.e, 3);
    assert Print(e, 2) + rest == s;
    assert s[3..] == " " + u;
    EvalSkipsSpace(3, u, env);
  }

  lemma SignRead(e: Expr, rest: string, env: Vars)
    requires WellFormed(e) && (e.Neg? || e.Plus?)
    ensures var r := Eval(7, Print(e.e, 7) + rest, false, env);
            Eval(6, Print(e, 6) + rest, false, env) == R(if e.Neg? then Wrap32(-r.v) else r.v, r.rest, r.err)
  {
    var sign := if e.Neg? then "-" else "+";
    var u := Print(e.e, 7) + rest;
    assert Print(e, 6) == Bare(e) == sign + Print(e.e, 7);
    assert Print(e, 6) + rest == sign + u && (sign + u)[1..] == u;
  }

  lemma ParenthesesRead(e: Expr, rest: string, env: Vars)
    requires WellFormed(e) && Level(e) < 7
    ensures var r := Eval(0, Print(e, 0) + (")" + rest), false, env);
            var c := Expect(')', SkipWs(r.rest), r.err);
            Eval(7, Print(e, 7) + rest, false, env) == R(r.v, c.rest, c.err)
  {
    var u := Print(e, 0) + (")" + rest);
    assert Print(e, 7) + rest == "(" + u && ("(" + u)[1..] == u;
  }

  /** Above its own level a tree begins with no NOT and, at the top, with no sign. */
  lemma NoPrefixRead(e: Expr, level: nat, rest: string, env: Vars)
    requires WellFormed(e) && Follows(rest, 8)
    requires (level == 2 && Level(e) != 2) || (level == 6 && Level(e) != 6)
    ensures Eval(level, Print(e, level) + rest, false, env) == Eval(level + 1, Print(e, level + 1) + rest, false, env)
  {
    assert Print(e, level) == Print(e, level + 1);
    if level == 2 {
      PrintBegins(e, 3, rest);
      OperandIsNotNot(Print(e, 3) + rest);
    } else {
      PrimaryHasNoSign(e, rest);
    }
  }

  /** A printed tree is read completely and evaluates to its meaning. */
  lemma {:induction false} PrintedEvaluates(e: Expr, level: nat, rest: string, env: Vars)
    requires WellFormed(e) && level <= 7 && Follows(rest, level) && Meaning(e, env).Num?
    ensures ReadAs(Eval(level, Print(e, level) + rest, false, env), Meaning(e, env).v, rest)
    decreases Size(e), Rank(e, level), 1
  {
    if level <= 5 && level != 2 {
      LoopLevelEvaluates(e, level, rest, env);
    } else if level < 7 && Level(e) != level {
      FollowsMore(rest, level, level + 1);
      FollowsMore(rest, level, 8);
      NoPrefixRead(e, level, rest, env);
      PrintedEvaluates(e, level + 1, rest, env);
    } else if level == 2 {
      NegationEvaluates(e, rest, env);
    } else if level == 6 {
      SignedEvaluates(e, rest, env);
    } else if Level(e) < 7 {
      ParenthesesEvaluate(e, rest, env);
    } else {
      PrimaryEvaluates(e, rest, env);
    }
  }

  lemma {:induction false} LoopLevelEvaluates(e: Expr, level: nat, rest: string, env: Vars)
    requires WellFormed(e) && level <= 5 && level != 2 && Follows(rest, level) && Meaning(e, env).Num?
    ensures ReadAs(Eval(level, Print(e, level) + rest, false, env), Meaning(e, env).v, rest)
    decreases Size(e), Rank(e, level), 0, 1
  {
    FollowsMore(rest, level, level + 1);
    var at := PrintedReachesLoop(e, level, rest, env);
    LoopStops(rest, level, level);
    SkipTwice(at);
  }

  lemma {:induction false} NegationEvaluates(e: Expr, rest: string, env: Vars)
    requires WellFormed(e) && e.Not? && Follows(rest, 2) && Meaning(e, env).Num?
    ensures ReadAs(Eval(2, Print(e, 2) + rest, false, env), Meaning(e, env).v, rest)
    decreases Size(e), Rank(e, 2), 0
  {
    NotRead(e, rest, env);
    FollowsMore(rest, 2, 3);
    PrintedEvaluates(e.e, 3, rest, env);
  }

  lemma {:induction false} SignedEvaluates(e: Expr, rest: string, env: Vars)
    requires WellFormed(e) && (e.Neg? || e.Plus?) && Follows(rest, 6) && Meaning(e, env).Num?
    ensures ReadAs(Eval(6, Print(e, 6) + rest, false, env), Meaning(e, env).v, rest)
    decreases Size(e), Rank(e, 6), 0
  {
    SignRead(e, rest, env);
    FollowsMore(rest, 6, 7);
    PrintedEvaluates(e.e, 7, rest, env);
  }

  lemma EvalSkipsSpace(level: nat, u: string, env: Vars)
    requires level <= 7
    ensures Eval(level, " " + u, false, env) == Eval(level, u, false, env)
  {
    assert (" " + u)[1..] == u;
    EvalSkips(level, " " + u, false, env);
    EvalSkips(level, u, false, env);
  }

  lemma PrimaryHasNoSign(e: Expr, rest: string)
    requires WellFormed(e)
    ensures var s := Print(e, 7) + rest; s != "" && s[0] != '-' && s[0] != '+' && SkipWs(s) == s
  {
    var p := Print(e, 7);
    if Level(e) == 7 {
      BareBegins(e);
    }
    assert (p + rest)[0] == p[0];
  }

  lemma BareBegins(e: Expr)
    requires WellFormed(e) && Level(e) == 7
    ensures Bare(e) != "" && (IsDigit(Bare(e)[0]) || IsAlpha(Bare(e)[0]))
  {
    match e
    case Lit(n) => DigitsRead(n, "");
    case Var(i) =>
    case Elem(i, x) => assert Bare(e) == [Letter(i)] + ("(" + Print(x, 0) + ")");
    case Call(fn, x) => assert Bare(e) == FnName(fn) + ("(" + Print(x, 0) + ")");
  }

  lemma {:induction false} ParenthesesEvaluate(e: Expr, rest: string, env: Vars)
    requires WellFormed(e) && Level(e) < 7 && Meaning(e, env).Num?
    ensures ReadAs(Eval(7, Print(e, 7) + rest, false, env), Meaning(e, env).v, rest)
    decreases Size(e), Rank(e, 7), 0
  {
    PrintedEvaluates(e, 0, ")" + rest, env);
    var r := Eval(0, Print(e, 0) + (")" + rest), false, env);
    ClosingRead(r.rest, rest);
    SkipTwice(r.rest);
    ParenthesesRead(e, rest, env);
  }

  /** A text that continues with a parenthesis, spaces aside, lets `expect_char` step over it. */
  lemma ClosingRead(t: string, rest: string)
    requires SkipWs(t) == SkipWs(")" + rest)
    ensures Expect(')', t, false) == R(0, rest, false)
  {
    assert SkipWs(")" + rest) == ")" + rest && (")" + rest)[1..] == rest;
  }

  lemma {:induction false} PrimaryEvaluates(e: Expr, rest: string, env: Vars)
    requires WellFormed(e) && Level(e) == 7 && Follows(rest, 7) && Meaning(e, env).Num?
    ensures ReadAs(Eval(7, Print(e, 7) + rest, false, env), Meaning(e, env).v, rest)
    decreases Size(e), Rank(e, 7), 0
  {
    match e
    case Lit(n) => LiteralEvaluates(n, rest, env);
    case Var(i) => VariableEvaluates(i, rest, env);
    case Elem(i, x) => ElementEvaluates(e, rest, env);
    case Call(fn, x) => CallEvaluates(e, rest, env);
  }

  lemma LiteralEvaluates(n: nat, rest: string, env: Vars)
    requires n <= MAX32 && Follows(rest, 7)
    ensures Eval(7, Digits(n) + rest, false, env) == R(n, rest, false)
  {
    FollowsEndsToken(rest, 7);
    DigitsRead(n, rest);
    assert (Digits(n) + rest)[0] == Digits(n)[0];
  }

  /** A primary that begins with a letter is decided by its name and what follows. */
  lemma NameDecides(name: string, t: string, env: Vars)
    requires name != "" && 'A' <= name[0] <= 'Z' && Ident(name + t, 7) == name && At(t, 0) != '$'
    ensures Eval(7, name + t, false, env) == Named(Ident(name + t, 7), t, env)
  {
    assert (name + t)[0] == name[0] && (name + t)[|name|..] == t;
  }

  lemma VariableEvaluates(i: nat, rest: string, env: Vars)
    requires i < 26 && Follows(rest, 7)
    ensures Eval(7, [Letter(i)] + rest, false, env) == R(env.num[i], SkipWs(rest), false)
    ensures SkipWs(SkipWs(rest)) == SkipWs(rest)
  {
    FollowsEndsToken(rest, 7);
    LetterRead(i, rest);
    NameDecides([Letter(i)], rest, env);
    SkipTwice(rest);
    assert FnNamed([Letter(i)]) == None;
  }

  lemma {:induction false} ElementEvaluates(e: Expr, rest: string, env: Vars)
    requires WellFormed(e) && e.Elem? && Meaning(e.sub, env).Num?
    ensures var r := Eval(7, Bare(e) + rest, false, env);
            var v := Meaning(e.sub, env).v;
            if 1 <= v <= env.dim[e.arr] then r == R(env.arr[e.arr][v - 1], rest, false) else r.err
    decreases Size(e), 0, 1
  {
    var u := "(" + (Print(e.sub, 0) + (")" + rest));
    assert Bare(e) + rest == [Letter(e.arr)] + u;
    LetterRead(e.arr, u);
    NameDecides([Letter(e.arr)], u, env);
    SubscriptEvaluates(e.arr, e.sub, rest, env);
  }

  lemma {:induction false} CallEvaluates(e: Expr, rest: string, env: Vars)
    requires WellFormed(e) && e.Call? && Meaning(e.arg, env).Num?
    ensures Eval(7, Bare(e) + rest, false, env) == R(FnValue(e.fn, Meaning(e.arg, env).v, env), rest, false)
    decreases Size(e), 0, 1
  {
    var u := Print(e.arg, 0) + (")" + rest);
    assert Bare(e) + rest == FnName(e.fn) + ("(" + u) == FnName(e.fn) + "(" + u;
    FnNameRead(e.fn, u);
    NameDecides(FnName(e.fn), "(" + u, env);
    ArgumentEvaluates(e.fn, e.arg, rest, env);
  }

  lemma {:induction false} SubscriptEvaluates(i: nat, x: Expr, rest: string, env: Vars)
    requires i < 26 && WellFormed(x) && Meaning(x, env).Num?
    ensures var r := Named([Letter(i)], "(" + (Print(x, 0) + (")" + rest)), env);
            var v := Meaning(x, env).v;
            if 1 <= v <= env.dim[i] then r == R(env.arr[i][v - 1], rest, false) else r.err
    decreases Size(x) + 1, 0, 0
  {
    var u := Print(x, 0) + (")" + rest);
    assert ("(" + u)[1..] == u;
    assert FnNamed([Letter(i)]) == None;
    PrintedEvaluates(x, 0, ")" + rest, env);
    ClosingRead(Eval(0, u, false, env).rest, rest);
  }

  lemma {:induction false} ArgumentEvaluates(fn: Fn, x: Expr, rest: string, env: Vars)
    requires WellFormed(x) && Meaning(x, env).Num?
    ensures Named(FnName(fn), "(" + (Print(x, 0) + (")" + rest)), env)
         == R(FnValue(fn, Meaning(x, env).v, env), rest, false)
    decreases Size(x) + 1, 0, 0
  {
    var u := Print(x, 0) + (")" + rest);
    assert ("(" + u)[1..] == u;
    FnNameRead(fn, "");
    PrintedEvaluates(x, 0, ")" + rest, env);
    ClosingRead(Eval(0, u, false, env).rest, rest);
  }

  /** Reading a printed tree at a level with a loop brings that loop to the end of the tree,
      with the tree's value; what follows may still be an operator of the same level. */
  lemma {:induction false} PrintedReachesLoop(e: Expr, level: nat, rest: string, env: Vars) returns (at: string)
    requires WellFormed(e) && level <= 5 && level != 2 && Follows(rest, level + 1) && Meaning(e, env).Num?
    ensures Eval(level, Print(e, level) + rest, false, env) == Loop(level, Meaning(e, env).v, at, false, env)
    ensures SkipWs(at) == SkipWs(rest)
    decreases Size(e), Rank(e, level), 0, 0
  {
    if Level(e) == level {
      at := BinaryReachesLoop(e, rest, env);
    } else {
      assert Print(e, level) == Print(e, level + 1);
      PrintedEvaluates(e, level + 1, rest, env);
      at := Eval(level + 1, Print(e, level) + rest, false, env).rest;
    }
  }

  lemma PrintBinary(e: Expr, rest: string)
    requires WellFormed(e) && e.Bin?
    ensures var level := OpLevel(e.op);
      Print(e, level) + rest == Print(e.l, level) + (OpText(e.op) + (Print(e.r, level + 1) + rest))
  {
  }

  lemma {:induction false} BinaryReachesLoop(e: Expr, rest: string, env: Vars) returns (at: string)
    requires WellFormed(e) && e.Bin? && Follows(rest, OpLevel(e.op) + 1) && Meaning(e, env).Num?
    ensures Eval(OpLevel(e.op), Print(e, OpLevel(e.op)) + rest, false, env)
         == Loop(OpLevel(e.op), Meaning(e, env).v, at, false, env)
    ensures SkipWs(at) == SkipWs(rest)
    decreases Size(e), 0, 1
  {
    var op, level := e.op, OpLevel(e.op);
    var right := Print(e.r, level + 1) + rest;
    PrintBinary(e, rest);
    OpTextFollows(op, right, level + 1);
    var at1 := PrintedReachesLoop(e.l, level, OpText(op) + right, env);
    at := LoopTakesOperand(e, at1, rest, env);
  }

  /** At an operator, the loop reads the right operand and goes on with the combined value. */
  lemma {:induction false} LoopTakesOperand(e: Expr, at1: string, rest: string, env: Vars) returns (at: string)
    requires WellFormed(e) && e.Bin? && Follows(rest, OpLevel(e.op) + 1) && Meaning(e, env).Num?
    requires SkipWs(at1) == SkipWs(OpText(e.op) + (Print(e.r, OpLevel(e.op) + 1) + rest))
    ensures Loop(OpLevel(e.op), Meaning(e.l, env).v, at1, false, env)
         == Loop(OpLevel(e.op), Meaning(e, env).v, at, false, env)
    ensures SkipWs(at) == SkipWs(rest)
    decreases Size(e), 0, 0
  {
    var op, level := e.op, OpLevel(e.op);
    var right := Print(e.r, level + 1) + rest;
    PrintedEvaluates(e.r, level + 1, rest, env);
    at := Eval(level + 1, right, false, env).rest;
    LoopAtOperator(op, Meaning(e.l, env).v, at1, right, env);
  }

  /** One turn of a loop that stands, spaces aside, at an operator of its level. */
  lemma LoopAtOperator(op: Op, a: int, at1: string, right: string, env: Vars)
    requires SkipWs(at1) == SkipWs(OpText(op) + right)
    ensures Loop(OpLevel(op), a, at1, false, env) ==
      var r := Eval(OpLevel(op) + 1, right, false, env);
      if ZeroDivides(op, r.v) then R(0, r.rest, true)
      else Loop(OpLevel(op), Wrap32(Exact(op, a, r.v)), r.rest, r.err, env)
  {
    TokenRead(op, right);
    var t := OpToken(op) + " " + right;
    assert t[|OpToken(op)|..] == " " + right;
    EvalSkipsSpace(OpLevel(op) + 1, right, env);
  }

  // ----- faults -----

  /** Reading a printed tree that divides by zero or leaves an array raises the error flag. */
  lemma {:induction false} PrintedFaults(e: Expr, level: nat, rest: string, env: Vars)
    requires WellFormed(e) && level <= 7 && Follows(rest, level + 1) && Meaning(e, env).Fault?
    ensures Eval(level, Print(e, level) + rest, false, env).err
    decreases Size(e), Rank(e, level), 1
  {
    if level <= 5 && level != 2 {
      LoopLevelFaults(e, level, rest, env);
    } else if level < 7 && Level(e) != level {
      FollowsMore(rest, level + 1, level + 2);
      FollowsMore(rest, level + 1, 8);
      NoPrefixRead(e, level, rest, env);
      PrintedFaults(e, level + 1, rest, env);
    } else if level == 2 || level == 6 {
      PrefixedFaults(e, rest, env);
    } else if Level(e) < 7 {
      PrintedFaults(e, 0, ")" + rest, env);
      ParenthesesRead(e, rest, env);
    } else if e.Elem? {
      ElementFaults(e, rest, env);
    } else {
      CallFaults(e, rest, env);
    }
  }

  lemma {:induction false} LoopLevelFaults(e: Expr, level: nat, rest: string, env: Vars)
    requires WellFormed(e) && level <= 5 && level != 2 && Follows(rest, level + 1) && Meaning(e, env).Fault?
    ensures Eval(level, Print(e, level) + rest, false, env).err
    decreases Size(e), Rank(e, level), 0
  {
    if Level(e) == level {
      BinaryFaults(e, rest, env);
    } else {
      var s := Print(e, level) + rest;
      assert s == Print(e, level + 1) + rest;
      FollowsMore(rest, level + 1, level + 2);
      PrintedFaults(e, level + 1, rest, env);
      var r := Eval(level + 1, s, false, env);
      LoopKeepsError(level, r.v, r.rest, env);
    }
  }

  lemma {:induction false} PrefixedFaults(e: Expr, rest: string, env: Vars)
    requires WellFormed(e) && (e.Not? || e.Neg? || e.Plus?) && Follows(rest, Level(e) + 1) && Meaning(e, env).Fault?
    ensures Eval(Level(e), Print(e, Level(e)) + rest, false, env).err
    decreases Size(e), Rank(e, Level(e)), 0
  {
    FollowsMore(rest, Level(e) + 1, Level(e) + 2);
    if e.Not? {
      NotRead(e, rest, env);
      PrintedFaults(e.e, 3, rest, env);
    } else {
      SignRead(e, rest, env);
      PrintedFaults(e.e, 7, rest, env);
    }
  }

  lemma {:induction false} ElementFaults(e: Expr, rest: string, env: Vars)
    requires WellFormed(e) && e.Elem? && Meaning(e, env).Fault?
    ensures Eval(7, Bare(e) + rest, false, env).err
    decreases Size(e), 0, 1
  {
    if Meaning(e.sub, env).Num? {
      ElementEvaluates(e, rest, env);
    } else {
      var u := Print(e.sub, 0) + (")" + rest);
      assert Bare(e) + rest == [Letter(e.arr)] + ("(" + u);
      LetterRead(e.arr, "(" + u);
      NameDecides([Letter(e.arr)], "(" + u, env);
      PrintedFaults(e.sub, 0, ")" + rest, env);
      ArgumentFaults([Letter(e.arr)], u, env);
    }
  }

  lemma {:induction false} CallFaults(e: Expr, rest: string, env: Vars)
    requires WellFormed(e) && e.Call? && Meaning(e, env).Fault?
    ensures Eval(7, Bare(e) + rest, false, env).err
    decreases Size(e), 0, 1
  {
    var u := Print(e.arg, 0) + (")" + rest);
    assert Bare(e) + rest == FnName(e.fn) + ("(" + u) == FnName(e.fn) + "(" + u;
    FnNameRead(e.fn, u);
    NameDecides(FnName(e.fn), "(" + u, env);
    PrintedFaults(e.arg, 0, ")" + rest, env);
    ArgumentFaults(FnName(e.fn), u, env);
  }

  lemma ArgumentFaults(name: string, u: string, env: Vars)
    requires forall i | 0 <= i < |name| :: 'A' <= name[i] <= 'Z'
    requires Eval(0, u, false, env).err
    ensures Named(name, "(" + u, env).err
  {
    assert ("(" + u)[1..] == u;
  }

  lemma {:induction false} BinaryFaults(e: Expr, rest: string, env: Vars)
    requires WellFormed(e) && e.Bin? && Follows(rest, OpLevel(e.op) + 1) && Meaning(e, env).Fault?
    ensures Eval(OpLevel(e.op), Print(e, OpLevel(e.op)) + rest, false, env).err
    decreases Size(e), 0, 1
  {
    var op, level := e.op, OpLevel(e.op);
    var right := Print(e.r, level + 1) + rest;
    PrintBinary(e, rest);
    OpTextFollows(op, right, level + 1);
    if Meaning(e.l, env).Fault? {
      PrintedFaults(e.l, level, OpText(op) + right, env);
    } else {
      var at1 := PrintedReachesLoop(e.l, level, OpText(op) + right, env);
      LoopAtOperator(op, Meaning(e.l, env).v, at1, right, env);
      RightOperandFaults(e, rest, env);
    }
  }

  /** The turn of the loop that reads the right operand ends with an error. */
  lemma {:induction false} RightOperandFaults(e: Expr, rest: string, env: Vars)
    requires WellFormed(e) && e.Bin? && Follows(rest, OpLevel(e.op) + 1)
    requires Meaning(e, env).Fault? && Meaning(e.l, env).Num?
    ensures var r := Eval(OpLevel(e.op) + 1, Print(e.r, OpLevel(e.op) + 1) + rest, false, env);
            ZeroDivides(e.op, r.v)
            || Loop(OpLevel(e.op), Wrap32(Exact(e.op, Meaning(e.l, env).v, r.v)), r.rest, r.err, env).err
    decreases Size(e), 0, 0
  {
    var op, level := e.op, OpLevel(e.op);
    if Meaning(e.r, env).Fault? {
      FollowsMore(rest, level + 1, level + 2);
      PrintedFaults(e.r, level + 1, rest, env);
      var r := Eval(level + 1, Print(e.r, level + 1) + rest, false, env);
      if !ZeroDivides(op, r.v) {
        LoopKeepsError(level, Wrap32(Exact(op, Meaning(e.l, env).v, r.v)), r.rest, env);
      }
    } else {
      PrintedEvaluates(e.r, level + 1, rest, env);
    }
  }

  /** `eval_num` on the whole text of a tree whose numbers fit 32 bits: it reads all of it and
      returns the meaning, or raises an error, exactly when the meaning is a fault. */
  lemma EvaluatorIsCorrect(e: Expr, env: Vars)
    requires WellFormed(e) && !Meaning(e, env).Overflow?
    ensures var r := Eval(0, Print(e, 0), false, env);
            && (r.err <==> Meaning(e, env).Fault?)
            && (!r.err ==> r.v == Meaning(e, env).v && SkipWs(r.rest) == "")
  {
    assert Print(e, 0) + "" == Print(e, 0);
    if Meaning(e, env).Num? {
      PrintedEvaluates(e, 0, "", env);
    } else {
      PrintedFaults(e, 0, "", env);
    }
  }
}
