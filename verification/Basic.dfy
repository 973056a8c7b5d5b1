/** The recursive-descent evaluator of InteiliBASIC over its cursor (shell/basic.c). Each level of
    the grammar is a method that moves the cursor and may raise the error flag; each is proved
    to do what `BasicExpr.Eval` says of its level. */
module Basic {
  import opened BasicExpr

  class Interpreter {
    /** The statement being parsed, without its terminating NUL. */
    var text: string
    /** The parse cursor `g_p`. */
    var p: nat
    var hadError: bool
    /** `g_num`, `g_arr`, `g_arr_dim` and `g_col`. */
    var env: Vars

    ghost predicate Valid()
      reads this
    {
      p <= |text|
    }

    function Rest(): string
      requires p <= |text|
      reads this
    {
      text[p..]
    }

    constructor (text: string, env: Vars)
      ensures Valid() && this.text == text && this.env == env && p == 0 && !hadError
      ensures Rest() == text
    {
      this.text := text;
      this.env := env;
      p := 0;
      hadError := false;
    }

    /** `*(g_p + i)`, NUL past the end. */
    function Peek(i: nat): (c: char)
      requires p <= |text|
      reads this
      ensures c == At(Rest(), i)
    {
      if p + i < |text| then text[p + i] else '\0'
    }

    /** Moving the cursor drops a prefix of what is left. */
    method Advance(n: nat)
      requires Valid() && p + n <= |text|
      modifies this`p
      ensures Valid() && p == old(p) + n && Rest() == old(Rest())[n..]
    {
      p := p + n;
    }

    method SkipSpaces()
      requires Valid()
      modifies this`p
      ensures Valid() && old(p) <= p && Rest() == SkipWs(old(Rest()))
    {
      while Peek(0) == ' ' || Peek(0) == '\t'
        invariant Valid() && old(p) <= p && SkipWs(Rest()) == SkipWs(old(Rest()))
        decreases |text| - p
      {
        assert Rest()[0] == Peek(0) && Rest()[1..] == text[p + 1..];
        p := p + 1;
      }
      assert Rest() != "" ==> Rest()[0] == Peek(0);
    }

    /** Steps over a keyword if it stands here and is not part of a longer word. */
    method Keyword(kw: string) returns (matched: bool)
      requires Valid() && '\0' !in kw
      modifies this`p
      ensures Valid() && matched == MatchKw(old(Rest()), kw)
      ensures p == old(p) + (if matched then |kw| else 0)
      ensures Rest() == old(Rest())[if matched then |kw| else 0..]
    {
      ghost var s := Rest();
      var i := 0;
      while i < |kw|
        invariant 0 <= i <= |kw| && i <= |s|
        invariant forall j | 0 <= j < i :: Upper(s[j]) == Upper(kw[j])
      {
        if Upper(Peek(i)) != Upper(kw[i]) {
          assert i < |s| ==> s[i] == Peek(i);
          return false;
        }
        assert kw[i] in kw;
        i := i + 1;
      }
      if IsAlpha(Peek(i)) || IsDigit(Peek(i)) || Peek(i) == '$' { return false; }
      Advance(|kw|);
      return true;
    }

    method BasicError()
      modifies this`hadError
      ensures hadError
    {
      hadError := true;
    }

    method ExpectChar(c: char)
      requires Valid() && c != '\0'
      modifies this`p, this`hadError
      ensures Valid() && old(p) <= p
      ensures R(0, Rest(), hadError) == Expect(c, old(Rest()), old(hadError))
    {
      SkipSpaces();
      if Peek(0) == c {
        Advance(1);
        return;
      }
      BasicError();
    }

    // ----- the grammar, loosest first -----

    method EvalNum() returns (a: int)
      requires Valid()
      modifies this`p, this`hadError
      ensures Valid() && old(p) <= p
      ensures R(a, Rest(), hadError) == Eval(0, old(Rest()), old(hadError), env)
      decreases |text| - p, 8
    {
      ghost var whole := Eval(0, Rest(), hadError, env);
      a := EvalAnd();
      var more := true;
      while more
        invariant Valid() && old(p) <= p
        invariant whole == if more then Loop(0, a, Rest(), hadError, env) else R(a, Rest(), hadError)
        decreases |text| - p, more
      {
        a, more := OrTurn(a);
      }
    }

    /** One turn of the OR loop; `more` says whether an operator was read. */
    method OrTurn(a: int) returns (b: int, more: bool)
      requires Valid()
      modifies this`p, this`hadError
      ensures Valid() && old(p) <= p && (more ==> old(p) < p)
      ensures Loop(0, a, old(Rest()), old(hadError), env)
           == if more then Loop(0, b, Rest(), hadError, env) else R(b, Rest(), hadError)
      decreases |text| - p, 8, 0
    {
      ghost var s, err := Rest(), hadError;
      SkipSpaces();
      var matched := Keyword("OR");
      if !matched {
        LoopExits(0, a, s, err, env);
        return a, false;
      }
      LoopTurns(0, a, s, err, env, Or);
      var v := EvalAnd();
      return Truth(a != 0 || v != 0), true;
    }

    method EvalAnd() returns (a: int)
      requires Valid()
      modifies this`p, this`hadError
      ensures Valid() && old(p) <= p
      ensures R(a, Rest(), hadError) == Eval(1, old(Rest()), old(hadError), env)
      decreases |text| - p, 7
    {
      ghost var whole := Eval(1, Rest(), hadError, env);
      a := EvalNot();
      var more := true;
      while more
        invariant Valid() && old(p) <= p
        invariant whole == if more then Loop(1, a, Rest(), hadError, env) else R(a, Rest(), hadError)
        decreases |text| - p, more
      {
        a, more := AndTurn(a);
      }
    }

    /** One turn of the AND loop. */
    method AndTurn(a: int) returns (b: int, more: bool)
      requires Valid()
      modifies this`p, this`hadError
      ensures Valid() && old(p) <= p && (more ==> old(p) < p)
      ensures Loop(1, a, old(Rest()), old(hadError), env)
           == if more then Loop(1, b, Rest(), hadError, env) else R(b, Rest(), hadError)
      decreases |text| - p, 7, 0
    {
      ghost var s, err := Rest(), hadError;
      SkipSpaces();
      var matched := Keyword("AND");
      if !matched {
        LoopExits(1, a, s, err, env);
        return a, false;
      }
      LoopTurns(1, a, s, err, env, And);
      var v := EvalNot();
      return Truth(a != 0 && v != 0), true;
    }

    method EvalNot() returns (a: int)
      requires Valid()
      modifies this`p, this`hadError
      ensures Valid() && old(p) <= p
      ensures R(a, Rest(), hadError) == Eval(2, old(Rest()), old(hadError), env)
      decreases |text| - p, 6
    {
      SkipSpaces();
      var matched := Keyword("NOT");
      if matched {
        var v := EvalCmp();
        return Truth(v == 0);
      }
      a := EvalCmp();
    }

    method EvalCmp() returns (a: int)
      requires Valid()
      modifies this`p, this`hadError
      ensures Valid() && old(p) <= p
      ensures R(a, Rest(), hadError) == Eval(3, old(Rest()), old(hadError), env)
      decreases |text| - p, 5
    {
      ghost var whole := Eval(3, Rest(), hadError, env);
      a := EvalAdd();
      var more := true;
      while more
        invariant Valid() && old(p) <= p
        invariant whole == if more then Loop(3, a, Rest(), hadError, env) else R(a, Rest(), hadError)
        decreases |text| - p, more
      {
        a, more := CmpTurn(a);
      }
    }

    /** Reads a comparison operator, longer ones first. */
    method ReadComparison() returns (op: Option<Op>)
      requires Valid()
      modifies this`p
      ensures Valid() && op == MatchOp(3, old(Rest()))
      ensures op.None? ==> p == old(p)
      ensures op.Some? ==> p == old(p) + |OpToken(op.value)| && Rest() == old(Rest())[|OpToken(op.value)|..]
    {
      if Peek(0) == '<' && Peek(1) == '>' { op := Some(Ne); Advance(2); }
      else if Peek(0) == '<' && Peek(1) == '=' { op := Some(Le); Advance(2); }
      else if Peek(0) == '>' && Peek(1) == '=' { op := Some(Ge); Advance(2); }
      else if Peek(0) == '<' && Peek(1) != '<' { op := Some(Lt); Advance(1); }
      else if Peek(0) == '>' && Peek(1) != '>' { op := Some(Gt); Advance(1); }
      else if Peek(0) == '=' && Peek(1) != '=' { op := Some(Eq); Advance(1); }
      else { op := None; }
    }

    static method Compare(op: Op, a: int, b: int) returns (v: int)
      requires OpLevel(op) == 3
      ensures v == Wrap32(Exact(op, a, b))
    {
      match op {
        case Ne => v := Truth(a != b);
        case Le => v := Truth(a <= b);
        case Ge => v := Truth(a >= b);
        case Lt => v := Truth(a < b);
        case Gt => v := Truth(a > b);
        case Eq => v := Truth(a == b);
      }
    }

    /** One turn of the comparison loop. */
    method CmpTurn(a: int) returns (b: int, more: bool)
      requires Valid()
      modifies this`p, this`hadError
      ensures Valid() && old(p) <= p && (more ==> old(p) < p)
      ensures Loop(3, a, old(Rest()), old(hadError), env)
           == if more then Loop(3, b, Rest(), hadError, env) else R(b, Rest(), hadError)
      decreases |text| - p, 5, 0
    {
      ghost var s, err := Rest(), hadError;
      SkipSpaces();
      var op := ReadComparison();
      if op.None? {
        LoopExits(3, a, s, err, env);
        return a, false;
      }
      LoopTurns(3, a, s, err, env, op.value);
      var v := EvalAdd();
      b := Compare(op.value, a, v);
      return b, true;
    }

    method EvalAdd() returns (a: int)
      requires Valid()
      modifies this`p, this`hadError
      ensures Valid() && old(p) <= p
      ensures R(a, Rest(), hadError) == Eval(4, old(Rest()), old(hadError), env)
      decreases |text| - p, 4
    {
      ghost var whole := Eval(4, Rest(), hadError, env);
      a := EvalMul();
      var more := true;
      while more
        invariant Valid() && old(p) <= p
        invariant whole == if more then Loop(4, a, Rest(), hadError, env) else R(a, Rest(), hadError)
        decreases |text| - p, more
      {
        a, more := AddTurn(a);
      }
    }

    /** Reads a plus or minus sign. */
    method ReadSumOp() returns (op: Option<Op>)
      requires Valid()
      modifies this`p
      ensures Valid() && op == MatchOp(4, old(Rest()))
      ensures op.None? ==> p == old(p)
      ensures op.Some? ==> p == old(p) + |OpToken(op.value)| && Rest() == old(Rest())[|OpToken(op.value)|..]
    {
      if Peek(0) == '+' { op := Some(Add); Advance(1); }
      else if Peek(0) == '-' { op := Some(Sub); Advance(1); }
      else { op := None; }
    }

    /** One turn of the sum loop. */
    method AddTurn(a: int) returns (b: int, more: bool)
      requires Valid()
      modifies this`p, this`hadError
      ensures Valid() && old(p) <= p && (more ==> old(p) < p)
      ensures Loop(4, a, old(Rest()), old(hadError), env)
           == if more then Loop(4, b, Rest(), hadError, env) else R(b, Rest(), hadError)
      decreases |text| - p, 4, 0
    {
      ghost var s, err := Rest(), hadError;
      SkipSpaces();
      var op := ReadSumOp();
      if op.None? {
        LoopExits(4, a, s, err, env);
        return a, false;
      }
      LoopTurns(4, a, s, err, env, op.value);
      var v := EvalMul();
      return Wrap32(if op.value == Add then a + v else a - v), true;
    }

    method EvalMul() returns (a: int)
      requires Valid()
      modifies this`p, this`hadError
      ensures Valid() && old(p) <= p
      ensures R(a, Rest(), hadError) == Eval(5, old(Rest()), old(hadError), env)
      decreases |text| - p, 3
    {
      ghost var whole := Eval(5, Rest(), hadError, env);
      a := EvalUnary();
      var more := true;
      while more
        invariant Valid() && old(p) <= p
        invariant whole == if more then Loop(5, a, Rest(), hadError, env) else R(a, Rest(), hadError)
        decreases |text| - p, more
      {
        a, more := MulTurn(a);
      }
    }

    /** Reads a multiplicative operator. */
    method ReadFactorOp() returns (op: Option<Op>)
      requires Valid()
      modifies this`p
      ensures Valid() && op == MatchOp(5, old(Rest()))
      ensures op.None? ==> p == old(p)
      ensures op.Some? ==> p == old(p) + |OpToken(op.value)| && Rest() == old(Rest())[|OpToken(op.value)|..]
    {
      if Peek(0) == '*' { op := Some(Mul); Advance(1); }
      else if Peek(0) == '/' { op := Some(Div); Advance(1); }
      else if Peek(0) == '\\' { op := Some(IDiv); Advance(1); }
      else {
        var matched := Keyword("MOD");
        op := if matched then Some(Mod) else None;
      }
    }

    /** One turn of the product loop; a zero divisor ends it with an error. */
    method MulTurn(a: int) returns (b: int, more: bool)
      requires Valid()
      modifies this`p, this`hadError
      ensures Valid() && old(p) <= p && (more ==> old(p) < p)
      ensures Loop(5, a, old(Rest()), old(hadError), env)
           == if more then Loop(5, b, Rest(), hadError, env) else R(b, Rest(), hadError)
      decreases |text| - p, 3, 0
    {
      ghost var s, err := Rest(), hadError;
      SkipSpaces();
      var op := ReadFactorOp();
      if op.None? {
        LoopExits(5, a, s, err, env);
        return a, false;
      }
      LoopTurns(5, a, s, err, env, op.value);
      var v := EvalUnary();
      if op.value == Mul { return Wrap32(a * v), true; }
      if v == 0 {
        BasicError();
        return 0, false;
      }
      return Wrap32(if op.value == Mod then TMod(a, v) else TDiv(a, v)), true;
    }

    method EvalUnary() returns (a: int)
      requires Valid()
      modifies this`p, this`hadError
      ensures Valid() && old(p) <= p
      ensures R(a, Rest(), hadError) == Eval(6, old(Rest()), old(hadError), env)
      decreases |text| - p, 2
    {
      SkipSpaces();
      if Peek(0) == '-' {
        Advance(1);
        a := EvalPrimary();
        return Wrap32(-a);
      }
      if Peek(0) == '+' {
        Advance(1);
        a := EvalPrimary();
        return;
      }
      a := EvalPrimary();
    }

    method EvalPrimary() returns (v: int)
      requires Valid()
      modifies this`p, this`hadError
      ensures Valid() && old(p) <= p
      ensures R(v, Rest(), hadError) == Eval(7, old(Rest()), old(hadError), env)
      decreases |text| - p, 1
    {
      SkipSpaces();
      if hadError { return 0; }
      if Peek(0) == '(' {
        Advance(1);
        v := EvalNum();
        SkipSpaces();
        ExpectChar(')');
        return;
      }
      if IsDigit(Peek(0)) {
        v := ReadDecimal();
        return;
      }
      if Peek(0) == '&' && Upper(Peek(1)) == 'H' {
        Advance(2);
        v := ReadHexadecimal();
        return;
      }
      if IsAlpha(Peek(0)) {
        var name := ReadName();
        if Peek(0) == '$' {
          Advance(1);
          BasicError();
          return 0;
        }
        v := EvalNamed(name);
        return;
      }
      BasicError();
      return 0;
    }

    method ReadDecimal() returns (v: int)
      requires Valid() && !hadError
      modifies this`p
      ensures Valid() && old(p) <= p
      ensures R(v, Rest(), false) == Decimal(0, old(Rest()))
    {
      v := 0;
      while IsDigit(Peek(0))
        invariant Valid() && old(p) <= p && Decimal(v, Rest()) == Decimal(0, old(Rest()))
        decreases |text| - p
      {
        v := Wrap32(Wrap32(v * 10) + (Peek(0) - '0') as int);
        Advance(1);
      }
    }

    method ReadHexadecimal() returns (v: int)
      requires Valid() && !hadError
      modifies this`p
      ensures Valid() && old(p) <= p
      ensures R(v, Rest(), false) == Hexadecimal(0, old(Rest()))
    {
      var u := 0;
      while HexDigit(Peek(0)) >= 0
        invariant Valid() && old(p) <= p && 0 <= u && Hexadecimal(u, Rest()) == Hexadecimal(0, old(Rest()))
        decreases |text| - p
      {
        u := (u * 16 + HexDigit(Peek(0))) % TWO32;
        Advance(1);
      }
      v := Wrap32(u);
    }

    /** Reads at most seven letters, upper-cased. */
    method ReadName() returns (name: string)
      requires Valid()
      modifies this`p
      ensures Valid() && name == Ident(old(Rest()), 7)
      ensures p == old(p) + |name| && Rest() == old(Rest())[|name|..]
    {
      ghost var s := Rest();
      name := "";
      while IsAlpha(Peek(0)) && |name| < 7
        invariant Valid() && |name| <= 7 && |name| <= |s| && p == old(p) + |name|
        invariant Ident(s, 7) == name + Ident(Rest(), 7 - |name|)
        decreases |text| - p
      {
        var c := Upper(Peek(0));
        IdentStep(Rest(), Ident(s, 7), name, c);
        name := name + [c];
        Advance(1);
      }
      assert Rest() == s[|name|..];
    }

    /** One more letter of a name of which `t` is still to be read. */
    static lemma IdentStep(t: string, whole: string, name: string, c: char)
      requires |name| < 7 && t != "" && IsAlpha(t[0]) && c == Upper(t[0])
      requires whole == name + Ident(t, 7 - |name|)
      ensures whole == name + [c] + Ident(t[1..], 6 - |name|)
    {
      assert Ident(t, 7 - |name|) == [c] + Ident(t[1..], 6 - |name|);
    }

    /** A function call, a variable or an array element. */
    method EvalNamed(name: string) returns (v: int)
      requires Valid() && !hadError
      requires forall i | 0 <= i < |name| :: 'A' <= name[i] <= 'Z'
      modifies this`p, this`hadError
      ensures Valid() && old(p) <= p
      ensures R(v, Rest(), hadError) == Named(name, old(Rest()), env)
      decreases |text| - p, 9
    {
      var fn := FnNamed(name);
      if fn.Some? {
        ExpectChar('(');
        v := EvalNum();
        ExpectChar(')');
        return FnValue(fn.value, v, env);
      }
      if |name| != 1 {
        BasicError();
        return 0;
      }
      var idx := (name[0] - 'A') as int;
      SkipSpaces();
      if Peek(0) != '(' { return env.num[idx]; }
      Advance(1);
      var i := EvalNum();
      ExpectChar(')');
      if hadError { return 0; }
      if i < 1 || i > env.dim[idx] {
        BasicError();
        return 0;
      }
      return env.arr[idx][i - 1];
    }
  }
}
