/** The RPN branch of the interpreter: an operand stack run over the tokens of
    `.( ... ).` from left to right, reading (never writing) the environment. */
module Rpn {
  import opened Ast
  import PyMath

  /** The integer result of `a op b` for one of the four operators. */
  function Apply(op: string, a: int, b: int): (r: Result<int>)
    requires IsOperator(op)
    ensures op == "+" ==> r == Ok(a + b)
    ensures op == "-" ==> r == Ok(a - b)
    ensures op == "*" ==> r == Ok(a * b)
    ensures op == "mod" ==> (r.Err? <==> b == 0)
    ensures op == "mod" && b != 0 ==> r == Ok(PyMath.FloorMod(a, b))
  {
    match op
    case "+" => Ok(a + b)
    case "-" => Ok(a - b)
    case "*" => Ok(a * b)
    case _ => if b == 0 then Err(ModuloByZero) else Ok(PyMath.FloorMod(a, b))
  }

  /** One token applied to the stack (its top is the last element). An integer is
      pushed; a bound name pushes its binding; an operator pops the top as `b` and
      the next as `a` and pushes `a op b`; anything else is an unknown token.
      Only unbound words fail. The stack grows by one, or shrinks by one for an
      operator, and nothing below the operands changes. */
  function Step(stack: seq<Value>, tok: RpnToken, env: Env): (r: Result<seq<Value>>)
    ensures r.Err? ==> tok.Word? && tok.w !in env
    ensures r.Ok? ==> |r.value| == |stack| + 1 - (if IsOperatorToken(tok, env) then 2 else 0)
    ensures tok.IntToken? ==> r.Ok? && r.value[|stack|] == Integer(tok.n)
    ensures r.Ok? && !IsOperatorToken(tok, env) ==> r.value[..|stack|] == stack
    ensures r.Ok? && IsOperatorToken(tok, env) ==>
      |stack| >= 2 && r.value[..|stack| - 2] == stack[..|stack| - 2]
  {
    match tok
    case IntToken(n) => Ok(stack + [Integer(n)])
    case Word(w) =>
      if w in env then Ok(stack + [env[w]])
      else if IsOperator(w) then
        if |stack| < 2 then Err(StackUnderflow)
        else
          var b, a := stack[|stack| - 1], stack[|stack| - 2];
          if !a.Integer? || !b.Integer? then Err(OperandTypeError(w))
          else
            match Apply(w, a.i, b.i)
            case Ok(c) => Ok(stack[..|stack| - 2] + [Integer(c)])
            case Err(e) => Err(e)
      else Err(UnknownRpnToken(w))
  }

  /** The tokens applied left to right; the first failing token aborts the run.
      A successful run grows the stack by one per operand token and shrinks it by
      one per operator token. */
  function Exec(stack: seq<Value>, tokens: seq<RpnToken>, env: Env): (r: Result<seq<Value>>)
    ensures r.Ok? ==> |r.value| == |stack| + |tokens| - 2 * Operators(tokens, env)
    decreases |tokens|
  {
    if tokens == [] then Ok(stack)
    else
      match Step(stack, tokens[0], env)
      case Ok(s) => Exec(s, tokens[1..], env)
      case Err(e) => Err(e)
  }

  /** The value of an RPN expression: the single value left on the stack. A
      valid expression has exactly one more operand than operators. */
  function Eval(tokens: seq<RpnToken>, env: Env): (r: Result<Value>)
    ensures r.Ok? ==> |tokens| == 2 * Operators(tokens, env) + 1
  {
    match Exec([], tokens, env)
    case Err(e) => Err(e)
    case Ok(s) => if |s| != 1 then Err(InvalidRpnExpression) else Ok(s[0])
  }

  /** The interpreter's loop: push and pop a local stack token by token. */
  method Run(tokens: seq<RpnToken>, env: Env) returns (r: Result<Value>)
    ensures r == Eval(tokens, env)
  {
    var stack: seq<Value> := [];
    var i := 0;
    while i < |tokens|
      invariant 0 <= i <= |tokens|
      invariant Exec(stack, tokens[i..], env) == Exec([], tokens, env)
    {
      var tok := tokens[i];
      ghost var before := stack;
      assert tokens[i..][0] == tok && tokens[i..][1..] == tokens[i + 1..];
      match tok {
        case IntToken(n) =>
          stack := stack + [Integer(n)];
        case Word(w) =>
          if w in env {
            stack := stack + [env[w]];
          } else if IsOperator(w) {
            if |stack| < 1 {
              return Err(StackUnderflow);
            }
            var b := stack[|stack| - 1];
            stack := stack[..|stack| - 1];
            if |stack| < 1 {
              return Err(StackUnderflow);
            }
            var a := stack[|stack| - 1];
            stack := stack[..|stack| - 1];
            assert a == before[|before| - 2] && stack == before[..|before| - 2];
            if !a.Integer? || !b.Integer? {
              return Err(OperandTypeError(w));
            }
            if w == "+" {
              stack := stack + [Integer(a.i + b.i)];
            } else if w == "-" {
              stack := stack + [Integer(a.i - b.i)];
            } else if w == "*" {
              stack := stack + [Integer(a.i * b.i)];
            } else {
              if b.i == 0 {
                return Err(ModuloByZero);
              }
              stack := stack + [Integer(PyMath.FloorMod(a.i, b.i))];
            }
          } else {
            return Err(UnknownRpnToken(w));
          }
      }
      assert Step(before, tok, env) == Ok(stack);
      i := i + 1;
    }
    if |stack| != 1 {
      return Err(InvalidRpnExpression);
    }
    r := Ok(stack[0]);
  }

  /** Running `t1 + t2` runs `t1`, then `t2` on the stack `t1` left. */
  lemma {:induction false} ExecAppend(stack: seq<Value>, t1: seq<RpnToken>, t2: seq<RpnToken>, env: Env)
    ensures Exec(stack, t1 + t2, env) ==
      match Exec(stack, t1, env)
      case Ok(s) => Exec(s, t2, env)
      case Err(e) => Err(e)
    decreases |t1|
  {
    if t1 == [] {
      assert t1 + t2 == t2;
    } else {
      assert (t1 + t2)[0] == t1[0] && (t1 + t2)[1..] == t1[1..] + t2;
      match Step(stack, t1[0], env)
      case Ok(s) =>
        ExecAppend(s, t1[1..], t2, env);
        assert Exec(stack, t1 + t2, env) == Exec(s, t1[1..] + t2, env);
        assert Exec(stack, t1, env) == Exec(s, t1[1..], env);
      case Err(e) =>
        assert Exec(stack, t1 + t2, env) == Err(e);
        assert Exec(stack, t1, env) == Err(e);
    }
  }

  /** The expression succeeds exactly when the run leaves one value, and then
      yields that value. */
  lemma EvalSingleValue(tokens: seq<RpnToken>, env: Env)
    ensures Eval(tokens, env).Ok? <==> Exec([], tokens, env).Ok? && |Exec([], tokens, env).value| == 1
    ensures Eval(tokens, env).Ok? ==> Eval(tokens, env).value == Exec([], tokens, env).value[0]
  {
  }

  /** `.(a b op).` yields `a op b` as `Apply` computes it (so `a + b`, `a - b`,
      `a * b`, or Python's floor modulo), or `Apply`'s error for `mod` by zero. */
  lemma BinaryExpression(a: int, b: int, op: string, env: Env)
    requires IsOperator(op) && op !in env
    ensures Eval([IntToken(a), IntToken(b), Word(op)], env) ==
      match Apply(op, a, b)
      case Ok(c) => Ok(Integer(c))
      case Err(e) => Err(e)
  {
    var t := [IntToken(a), IntToken(b), Word(op)];
    var s2 := [Integer(a), Integer(b)];
    assert t[1..] == [IntToken(b), Word(op)] && t[1..][1..] == [Word(op)];
    assert [] + [Integer(a)] == [Integer(a)];
    assert [Integer(a)] + [Integer(b)] == s2;
    assert Exec([], t, env) == Exec(s2, [Word(op)], env);
    OperatorStep([], a, b, op, env);
    assert [] + s2 == s2;
    match Apply(op, a, b)
    case Ok(c) =>
      assert [] + [Integer(c)] == [Integer(c)];
      assert Exec(s2, [Word(op)], env) == Exec([Integer(c)], [], env);
    case Err(e) =>
  }

  /** An operator on top of the operands `a` and `b` replaces them by `a op b`;
      nothing below them changes. */
  lemma OperatorStep(below: seq<Value>, a: int, b: int, op: string, env: Env)
    requires IsOperator(op) && op !in env
    ensures Step(below + [Integer(a), Integer(b)], Word(op), env) ==
      match Apply(op, a, b)
      case Ok(c) => Ok(below + [Integer(c)])
      case Err(e) => Err(e)
  {
    var s := below + [Integer(a), Integer(b)];
    assert s[..|s| - 2] == below;
  }

  /** An operator applied to fewer than two operands is a stack underflow. */
  lemma UnderflowStep(stack: seq<Value>, op: string, env: Env)
    requires IsOperator(op) && op !in env && |stack| < 2
    ensures Step(stack, Word(op), env) == Err(StackUnderflow)
  {
  }

  /** A bound name pushes its current binding; a word that is neither bound nor
      an operator is an unknown token. */
  lemma WordStep(stack: seq<Value>, w: string, env: Env)
    ensures w in env ==> Step(stack, Word(w), env) == Ok(stack + [env[w]])
    ensures w !in env && !IsOperator(w) ==> Step(stack, Word(w), env) == Err(UnknownRpnToken(w))
  {
  }

  /** An integer token pushes that integer onto the stack, whatever the stack
      and the environment hold. */
  lemma IntStep(stack: seq<Value>, n: int, env: Env)
    ensures Step(stack, IntToken(n), env) == Ok(stack + [Integer(n)])
  {
  }

  /** Whether a token pops two operands (an operator that is not a bound name). */
  predicate IsOperatorToken(tok: RpnToken, env: Env) {
    tok.Word? && tok.w !in env && IsOperator(tok.w)
  }

  /** The number of operator tokens in `tokens`. */
  function Operators(tokens: seq<RpnToken>, env: Env): nat {
    if tokens == [] then 0
    else (if IsOperatorToken(tokens[0], env) then 1 else 0) + Operators(tokens[1..], env)
  }

  /** The stack only ever holds integers and bindings of the environment, so a
      valid environment keeps a valid stack valid. */
  lemma {:induction false} ExecValid(stack: seq<Value>, tokens: seq<RpnToken>, env: Env)
    requires ValidValues(stack) && ValidEnv(env)
    ensures Exec(stack, tokens, env).Ok? ==> ValidValues(Exec(stack, tokens, env).value)
    decreases |tokens|
  {
    if tokens != [] {
      match Step(stack, tokens[0], env)
      case Err(_) =>
      case Ok(s) =>
        StepValid(stack, tokens[0], env);
        ExecValid(s, tokens[1..], env);
    }
  }

  lemma StepValid(stack: seq<Value>, tok: RpnToken, env: Env)
    requires ValidValues(stack) && ValidEnv(env)
    ensures Step(stack, tok, env).Ok? ==> ValidValues(Step(stack, tok, env).value)
  {
  }
}
