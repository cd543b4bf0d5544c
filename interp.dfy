/** The interpreter: values evaluate against the global environment, and a program
    runs its statements left to right, binding globals as it meets them and
    collecting the values of the other statements. */
module Interp {
  import opened Ast
  import Rpn
  import Dicts

  // ---------------------------------------------------------------------------
  // Specification: evaluation as functions
  // ---------------------------------------------------------------------------

  /** The value of an expression in `env`. A dict keeps the key sequence of its
      literal. */
  function EvalExpr(e: Expr, env: Env): (r: Result<Value>)
    ensures e.DictLit? && r.Ok? ==> r.value.Mapping? && Dicts.Keys(r.value.entries) == Dicts.Keys(e.pairs)
    decreases e, 1
  {
    match e
    case Number(n) => Ok(Integer(n))
    case Str(s) => Ok(Text(s))
    case Ref(name) => if name in env then Ok(env[name]) else Err(UnknownIdentifier(name))
    case DictLit(pairs) =>
      (match EvalPairs(e, 0, env)
       case Ok(entries) =>
         assert pairs[0..] == pairs;
         Ok(Mapping(entries))
       case Err(err) => Err(err))
    case Rpn(tokens) => Rpn.Eval(tokens, env)
  }

  /** The values of the pairs of the dict literal `d` from index `i` on, front to
      back; the first failure aborts. The keys are those of the literal. */
  function EvalPairs(d: Expr, i: nat, env: Env): (r: Result<seq<(string, Value)>>)
    requires d.DictLit? && i <= |d.pairs|
    ensures r.Ok? ==> Dicts.Keys(r.value) == Dicts.Keys(d.pairs[i..])
    decreases d, 0, |d.pairs| - i
  {
    if i == |d.pairs| then Ok([])
    else
      match EvalExpr(d.pairs[i].1, env)
      case Err(err) => Err(err)
      case Ok(v) =>
        match EvalPairs(d, i + 1, env)
        case Err(err) => Err(err)
        case Ok(rest) =>
          Dicts.KeysCons((d.pairs[i].0, v), rest);
          Dicts.KeysSuffix(d.pairs, i);
          Ok([(d.pairs[i].0, v)] + rest)
  }

  /** One statement: a global binds its value and yields nothing; any other
      statement yields its value and leaves the environment alone. */
  function EvalStmt(s: Stmt, env: Env): (r: Result<(Option<Value>, Env)>)
    ensures r.Ok? ==> (r.value.0.None? <==> s.GlobalDecl?)
  {
    match s
    case GlobalDecl(name, value) =>
      (match EvalExpr(value, env)
       case Ok(v) => Ok((None, env[name := v]))
       case Err(err) => Err(err))
    case ValueStmt(e) =>
      match EvalExpr(e, env)
      case Ok(v) => Ok((Some(v), env))
      case Err(err) => Err(err)
  }

  /** The outcome of a program run: the environment it leaves behind (on failure,
      the one in force at the failing statement) and its output or error. */
  datatype Outcome = Outcome(env: Env, result: Result<seq<Value>>)

  /** `out` in front of a successful result; an error stays as it is. Both the
      dict loop and the program loop build their results this way. */
  function PrefixOk<T>(out: seq<T>, r: Result<seq<T>>): Result<seq<T>> {
    match r
    case Ok(rest) => Ok(out + rest)
    case Err(err) => Err(err)
  }

  lemma PrefixOkAssoc<T>(a: seq<T>, b: seq<T>, r: Result<seq<T>>)
    ensures PrefixOk(a, PrefixOk(b, r)) == PrefixOk(a + b, r)
  {
    if r.Ok? {
      assert a + (b + r.value) == (a + b) + r.value;
    }
  }

  lemma PrefixOkEmpty<T>(r: Result<seq<T>>)
    ensures PrefixOk([], r) == r
  {
    if r.Ok? {
      assert [] + r.value == r.value;
    }
  }

  /** `out` in front of a run's output. */
  function Prefix(out: seq<Value>, run: Outcome): Outcome {
    Outcome(run.env, PrefixOk(out, run.result))
  }

  /** A program run left to right from `env`, dropping the `None` of each global:
      a successful run outputs one value per non-declaration statement. */
  function Evaluate(program: Program, env: Env): (o: Outcome)
    ensures o.result.Ok? ==> |o.result.value| == ValueCount(program)
  {
    if program == [] then Outcome(env, Ok([]))
    else
      match EvalStmt(program[0], env)
      case Err(err) => Outcome(env, Err(err))
      case Ok((res, env')) =>
        var run := Evaluate(program[1..], env');
        if res.Some? then Prefix([res.value], run) else run
  }

  // ---------------------------------------------------------------------------
  // The interpreter as it runs: a mutable environment and loops
  // ---------------------------------------------------------------------------

  /** The environment dict the caller passes in and reads back afterwards. */
  class Environment {
    var bindings: Env

    constructor ()
      ensures bindings == map[]
    {
      bindings := map[];
    }
  }

  /** A value-position node; reads the environment and never changes it. */
  method InterpExpr(e: Expr, env: Environment) returns (r: Result<Value>)
    ensures r == EvalExpr(e, env.bindings)
    decreases e, 1
  {
    match e {
      case Number(n) =>
        r := Ok(Integer(n));
      case Str(s) =>
        r := Ok(Text(s));
      case Ref(name) =>
        if name !in env.bindings {
          return Err(UnknownIdentifier(name));
        }
        r := Ok(env.bindings[name]);
      case DictLit(pairs) =>
        var entries := InterpPairs(e, env);
        match entries {
          case Ok(es) => r := Ok(Mapping(es));
          case Err(err) => r := Err(err);
        }
      case Rpn(tokens) =>
        r := Rpn.Run(tokens, env.bindings);
    }
  }

  /** The dict comprehension: each value evaluated front to back, the first
      failure aborting. */
  method InterpPairs(d: Expr, env: Environment) returns (r: Result<seq<(string, Value)>>)
    requires d.DictLit?
    ensures r == EvalPairs(d, 0, env.bindings)
    decreases d, 0
  {
    var entries: seq<(string, Value)> := [];
    var i := 0;
    PrefixOkEmpty(EvalPairs(d, 0, env.bindings));
    while i < |d.pairs|
      invariant 0 <= i <= |d.pairs|
      invariant EvalPairs(d, 0, env.bindings) == PrefixOk(entries, EvalPairs(d, i, env.bindings))
    {
      var v := InterpExpr(d.pairs[i].1, env);
      if v.Err? {
        return Err(v.error);
      }
      PrefixOkAssoc(entries, [(d.pairs[i].0, v.value)], EvalPairs(d, i + 1, env.bindings));
      entries := entries + [(d.pairs[i].0, v.value)];
      i := i + 1;
    }
    assert entries + [] == entries;
    r := Ok(entries);
  }

  /** One statement: a global evaluates its right-hand side, binds the name and
      yields `None`; any other statement yields its value. */
  method InterpStmt(s: Stmt, env: Environment) returns (r: Result<Option<Value>>)
    modifies env
    ensures
      match EvalStmt(s, old(env.bindings))
      case Ok((res, env')) => r == Ok(res) && env.bindings == env'
      case Err(err) => r == Err(err) && env.bindings == old(env.bindings)
  {
    match s {
      case GlobalDecl(name, value) =>
        var v := InterpExpr(value, env);
        if v.Err? {
          return Err(v.error);
        }
        env.bindings := env.bindings[name := v.value];
        r := Ok(None);
      case ValueStmt(e) =>
        var v := InterpExpr(e, env);
        if v.Err? {
          return Err(v.error);
        }
        r := Ok(Some(v.value));
    }
  }

  /** The top-level list: each statement in turn, appending every result that is
      not `None`. The caller's environment holds the globals afterwards. */
  method Interp(program: Program, env: Environment) returns (r: Result<seq<Value>>)
    modifies env
    ensures r == Evaluate(program, old(env.bindings)).result
    ensures env.bindings == Evaluate(program, old(env.bindings)).env
  {
    var result: seq<Value> := [];
    var i := 0;
    PrefixEmpty(Evaluate(program, env.bindings));
    while i < |program|
      invariant 0 <= i <= |program|
      invariant Evaluate(program, old(env.bindings)) == Prefix(result, Evaluate(program[i..], env.bindings))
    {
      assert program[i..][0] == program[i] && program[i..][1..] == program[i + 1..];
      ghost var before := env.bindings;
      var res := InterpStmt(program[i], env);
      if res.Err? {
        return Err(res.error);
      }
      if res.value.Some? {
        PrefixAssoc(result, [res.value.value], Evaluate(program[i + 1..], env.bindings));
        result := result + [res.value.value];
      } else {
        assert Evaluate(program[i..], before) == Evaluate(program[i + 1..], env.bindings);
      }
      i := i + 1;
    }
    assert Evaluate(program[i..], env.bindings) == Outcome(env.bindings, Ok([]));
    assert result + [] == result;
    r := Ok(result);
  }

  lemma PrefixAssoc(a: seq<Value>, b: seq<Value>, run: Outcome)
    ensures Prefix(a, Prefix(b, run)) == Prefix(a + b, run)
  {
    PrefixOkAssoc(a, b, run.result);
  }

  // ---------------------------------------------------------------------------
  // Properties of the specification
  // ---------------------------------------------------------------------------

  /** Literals evaluate to themselves; a reference yields its current binding, or
      fails when the name is not bound. */
  lemma AtomSemantics(n: int, s: string, name: string, env: Env)
    ensures EvalExpr(Number(n), env) == Ok(Integer(n))
    ensures EvalExpr(Str(s), env) == Ok(Text(s))
    ensures name in env ==> EvalExpr(Ref(name), env) == Ok(env[name])
    ensures name !in env ==> EvalExpr(Ref(name), env) == Err(UnknownIdentifier(name))
  {
  }

  /** The pairs of a dict literal from index `i` on evaluate exactly when each of
      their values does. */
  lemma {:induction false} EvalPairsSucceeds(d: Expr, i: nat, env: Env)
    requires d.DictLit? && i <= |d.pairs|
    ensures EvalPairs(d, i, env).Ok? <==> forall j :: i <= j < |d.pairs| ==> EvalExpr(d.pairs[j].1, env).Ok?
    decreases |d.pairs| - i
  {
    if i < |d.pairs| {
      EvalPairsSucceeds(d, i + 1, env);
      EvalPairsStep(d, i, env);
      var head, tail := EvalExpr(d.pairs[i].1, env), EvalPairs(d, i + 1, env);
      if head.Ok? && tail.Err? {
        var j :| i + 1 <= j < |d.pairs| && !EvalExpr(d.pairs[j].1, env).Ok?;
      }
    }
  }

  /** One pair evaluated in front of the rest. */
  lemma EvalPairsStep(d: Expr, i: nat, env: Env)
    requires d.DictLit? && i < |d.pairs|
    ensures EvalPairs(d, i, env) ==
      match EvalExpr(d.pairs[i].1, env)
      case Err(err) => Err(err)
      case Ok(v) => PrefixOk([(d.pairs[i].0, v)], EvalPairs(d, i + 1, env))
  {
  }

  /** The `j`-th pair of a dict that evaluates is its `j`-th key with that
      pair's value evaluated. */
  lemma {:induction false} EvalPairsAt(d: Expr, i: nat, env: Env, j: nat)
    requires d.DictLit? && i <= j < |d.pairs|
    requires EvalPairs(d, i, env).Ok?
    ensures |EvalPairs(d, i, env).value| == |d.pairs| - i
    ensures EvalExpr(d.pairs[j].1, env).Ok?
    ensures EvalPairs(d, i, env).value[j - i] == (d.pairs[j].0, EvalExpr(d.pairs[j].1, env).value)
    decreases j - i
  {
    EvalPairsStep(d, i, env);
    var head, tail := EvalExpr(d.pairs[i].1, env), EvalPairs(d, i + 1, env);
    assert head.Ok? && tail.Ok?;
    if j > i {
      EvalPairsAt(d, i + 1, env, j);
      assert EvalPairs(d, i, env).value[j - i] == tail.value[j - (i + 1)];
    }
  }

  /** When they evaluate, the result has their keys in their order, each with its
      value evaluated. */
  lemma EvalPairsEntries(d: Expr, i: nat, env: Env)
    requires d.DictLit? && i <= |d.pairs|
    requires EvalPairs(d, i, env).Ok?
    ensures |EvalPairs(d, i, env).value| == |d.pairs| - i
    ensures forall j :: i <= j < |d.pairs| ==>
      EvalExpr(d.pairs[j].1, env).Ok? &&
      EvalPairs(d, i, env).value[j - i] == (d.pairs[j].0, EvalExpr(d.pairs[j].1, env).value)
  {
    assert |Dicts.Keys(EvalPairs(d, i, env).value)| == |Dicts.Keys(d.pairs[i..])|;
    forall j | i <= j < |d.pairs|
      ensures EvalExpr(d.pairs[j].1, env).Ok? &&
        EvalPairs(d, i, env).value[j - i] == (d.pairs[j].0, EvalExpr(d.pairs[j].1, env).value)
    {
      EvalPairsAt(d, i, env, j);
    }
  }

  /** Otherwise the error is that of the first failing value. */
  lemma {:induction false} EvalPairsFirstError(d: Expr, i: nat, env: Env)
    requires d.DictLit? && i <= |d.pairs|
    requires EvalPairs(d, i, env).Err?
    ensures exists k ::
      i <= k < |d.pairs| && EvalExpr(d.pairs[k].1, env) == Err(EvalPairs(d, i, env).error) &&
      forall j :: i <= j < k ==> EvalExpr(d.pairs[j].1, env).Ok?
    decreases |d.pairs| - i
  {
    var head := EvalExpr(d.pairs[i].1, env);
    if head.Err? {
      assert EvalPairs(d, i, env) == Err(head.error);
    } else {
      var tail := EvalPairs(d, i + 1, env);
      assert tail.Err? && EvalPairs(d, i, env) == Err(tail.error);
      EvalPairsFirstError(d, i + 1, env);
      var k :| i + 1 <= k < |d.pairs| && EvalExpr(d.pairs[k].1, env) == Err(tail.error) &&
        forall j :: i + 1 <= j < k ==> EvalExpr(d.pairs[j].1, env).Ok?;
      assert forall j :: i <= j < k ==> EvalExpr(d.pairs[j].1, env).Ok?;
    }
  }

  /** A dict literal keeps its key sequence exactly: same keys, same order (so
      unique keys stay unique), each value evaluated; it fails exactly when one of
      its values does. */
  lemma DictLiteral(pairs: seq<(string, Expr)>, env: Env)
    ensures EvalExpr(DictLit(pairs), env).Ok? <==> forall j :: 0 <= j < |pairs| ==> EvalExpr(pairs[j].1, env).Ok?
    ensures EvalExpr(DictLit(pairs), env).Ok? ==>
      var v := EvalExpr(DictLit(pairs), env).value;
      v.Mapping? && Dicts.Keys(v.entries) == Dicts.Keys(pairs) &&
      (forall j :: 0 <= j < |pairs| ==> v.entries[j].1 == EvalExpr(pairs[j].1, env).value) &&
      (Dicts.UniqueKeys(pairs) ==> Dicts.UniqueKeys(v.entries))
  {
    var d := DictLit(pairs);
    DictResult(d, env);
    var r := EvalPairs(d, 0, env);
    if r.Ok? {
      DictEntries(d, env);
      Dicts.SameKeysUnique(pairs, r.value);
    }
  }

  /** A dict literal evaluates exactly when each of its values does, to the
      mapping of its evaluated pairs. */
  lemma DictResult(d: Expr, env: Env)
    requires d.DictLit?
    ensures EvalExpr(d, env).Ok? <==> forall j :: 0 <= j < |d.pairs| ==> EvalExpr(d.pairs[j].1, env).Ok?
    ensures EvalExpr(d, env).Ok? ==> EvalPairs(d, 0, env).Ok? && EvalExpr(d, env).value == Mapping(EvalPairs(d, 0, env).value)
  {
    EvalPairsSucceeds(d, 0, env);
  }

  /** The entries of a dict literal that evaluates: its keys, each value evaluated. */
  lemma DictEntries(d: Expr, env: Env)
    requires d.DictLit? && EvalPairs(d, 0, env).Ok?
    ensures Dicts.Keys(EvalPairs(d, 0, env).value) == Dicts.Keys(d.pairs)
    ensures forall j :: 0 <= j < |d.pairs| ==>
      EvalExpr(d.pairs[j].1, env).Ok? && EvalPairs(d, 0, env).value[j].1 == EvalExpr(d.pairs[j].1, env).value
  {
    var entries := EvalPairs(d, 0, env).value;
    assert d.pairs[0..] == d.pairs;
    assert Dicts.Keys(entries) == Dicts.Keys(d.pairs);
    EvalPairsEntries(d, 0, env);
    forall j | 0 <= j < |d.pairs|
      ensures EvalExpr(d.pairs[j].1, env).Ok? && entries[j].1 == EvalExpr(d.pairs[j].1, env).value
    {
      assert entries[j - 0] == (d.pairs[j].0, EvalExpr(d.pairs[j].1, env).value);
    }
  }

  /** A global declaration evaluates its right-hand side in the current
      environment, binds the name to the result (replacing any earlier binding)
      and contributes no output; when the right-hand side fails, so does the run. */
  lemma GlobalDeclaration(name: string, value: Expr, rest: Program, env: Env)
    ensures EvalExpr(value, env).Ok? ==>
      Evaluate([GlobalDecl(name, value)] + rest, env) == Evaluate(rest, env[name := EvalExpr(value, env).value])
    ensures EvalExpr(value, env).Err? ==>
      Evaluate([GlobalDecl(name, value)] + rest, env) == Outcome(env, Err(EvalExpr(value, env).error))
  {
    var p := [GlobalDecl(name, value)] + rest;
    assert p[0] == GlobalDecl(name, value) && p[1..] == rest;
  }

  /** Running `p + q` runs `p`, then `q` from the environment `p` left, and the
      outputs are concatenated; a failure in `p` ends the run. */
  lemma {:induction false} EvaluateAppend(p: Program, q: Program, env: Env)
    ensures Evaluate(p + q, env) ==
      var r := Evaluate(p, env);
      match r.result
      case Ok(out) => Prefix(out, Evaluate(q, r.env))
      case Err(_) => r
  {
    if p == [] {
      assert p + q == q;
      PrefixEmpty(Evaluate(q, env));
    } else {
      assert (p + q)[0] == p[0] && (p + q)[1..] == p[1..] + q;
      match EvalStmt(p[0], env)
      case Err(_) =>
      case Ok((res, env')) =>
        EvaluateAppend(p[1..], q, env');
        var r1 := Evaluate(p[1..], env');
        if res.Some? && r1.result.Ok? {
          PrefixAssoc([res.value], r1.result.value, Evaluate(q, r1.env));
        }
    }
  }

  lemma PrefixEmpty(run: Outcome)
    ensures Prefix([], run) == run
  {
    PrefixOkEmpty(run.result);
  }

  /** The number of statements that are not global declarations. */
  function ValueCount(p: Program): nat {
    if p == [] then 0 else (if p[0].ValueStmt? then 1 else 0) + ValueCount(p[1..])
  }

  lemma ValueCountAppend(p: Program, q: Program)
    ensures ValueCount(p + q) == ValueCount(p) + ValueCount(q)
  {
    if p == [] {
      assert p + q == q;
    } else {
      assert (p + q)[1..] == p[1..] + q;
      ValueCountAppend(p[1..], q);
    }
  }

  /** Statement order is kept: in a successful run, the `m`-th output value is the
      value of the `m`-th non-declaration statement, evaluated in the environment
      the statements before it left. */
  lemma OutputInOrder(p: Program, k: nat, env: Env)
    requires k < |p| && p[k].ValueStmt?
    requires Evaluate(p, env).result.Ok?
    ensures Evaluate(p[..k], env).result.Ok?
    ensures ValueCount(p[..k]) < |Evaluate(p, env).result.value|
    ensures EvalExpr(p[k].e, Evaluate(p[..k], env).env) ==
            Ok(Evaluate(p, env).result.value[ValueCount(p[..k])])
  {
    var front, rest := p[..k], p[k + 1..];
    assert p == front + ([p[k]] + rest);
    EvaluateAppend(front, [p[k]] + rest, env);
    var r1 := Evaluate(front, env);
    assert r1.result.Ok?;
    var tail := [p[k]] + rest;
    assert tail[0] == p[k] && tail[1..] == rest;
    var v := EvalExpr(p[k].e, r1.env);
    assert v.Ok?;
    assert Evaluate(tail, r1.env) == Prefix([v.value], Evaluate(rest, r1.env));
    ValueCountAppend(front, tail);
  }

  /** The names a program declares. */
  function DeclaredNames(p: Program): set<string> {
    if p == [] then {}
    else (if p[0].GlobalDecl? then {p[0].name} else {}) + DeclaredNames(p[1..])
  }

  lemma DeclaredNamesAppend(p: Program, q: Program)
    ensures DeclaredNames(p + q) == DeclaredNames(p) + DeclaredNames(q)
  {
    if p == [] {
      assert p + q == q;
    } else {
      assert (p + q)[1..] == p[1..] + q;
      DeclaredNamesAppend(p[1..], q);
    }
  }

  /** No binding is ever removed, new bindings are only for declared names, and a
      name the program does not declare keeps its binding (or its absence). */
  lemma {:induction false} EnvironmentFrame(p: Program, env: Env)
    ensures env.Keys <= Evaluate(p, env).env.Keys
    ensures Evaluate(p, env).env.Keys <= env.Keys + DeclaredNames(p)
    ensures forall n :: n in env && n !in DeclaredNames(p) ==> Evaluate(p, env).env[n] == env[n]
  {
    if p != [] {
      match EvalStmt(p[0], env)
      case Err(_) =>
      case Ok((res, env')) =>
        EnvironmentFrame(p[1..], env');
    }
  }

  /** The last declaration of a name wins: after a successful run of
      `p + [global n = e] + q` where `q` does not declare `n`, `n` is bound to the
      value `e` had where it was declared. */
  lemma LastDeclarationWins(p: Program, n: string, e: Expr, q: Program, env: Env)
    requires n !in DeclaredNames(q)
    requires Evaluate(p + [GlobalDecl(n, e)] + q, env).result.Ok?
    ensures Evaluate(p, env).result.Ok?
    ensures EvalExpr(e, Evaluate(p, env).env).Ok?
    ensures n in Evaluate(p + [GlobalDecl(n, e)] + q, env).env
    ensures Evaluate(p + [GlobalDecl(n, e)] + q, env).env[n] == EvalExpr(e, Evaluate(p, env).env).value
  {
    assert p + [GlobalDecl(n, e)] + q == p + ([GlobalDecl(n, e)] + q);
    EvaluateAppend(p, [GlobalDecl(n, e)] + q, env);
    var r1 := Evaluate(p, env);
    GlobalDeclaration(n, e, q, r1.env);
    var v := EvalExpr(e, r1.env).value;
    EnvironmentFrame(q, r1.env[n := v]);
  }

  /** Use before declaration fails: a reference to a name that is neither bound at
      the start nor declared earlier in the program stops the run with "unknown
      identifier" (unless an earlier statement already failed). */
  lemma UseBeforeDeclaration(p: Program, n: string, q: Program, env: Env)
    requires n !in env && n !in DeclaredNames(p)
    ensures Evaluate(p + [ValueStmt(Ref(n))] + q, env).result.Err?
    ensures Evaluate(p, env).result.Ok? ==>
      Evaluate(p + [ValueStmt(Ref(n))] + q, env).result == Err(UnknownIdentifier(n))
  {
    assert p + [ValueStmt(Ref(n))] + q == p + ([ValueStmt(Ref(n))] + q);
    EvaluateAppend(p, [ValueStmt(Ref(n))] + q, env);
    EnvironmentFrame(p, env);
    var tail := [ValueStmt(Ref(n))] + q;
    assert tail[0] == ValueStmt(Ref(n));
  }

  // ---------------------------------------------------------------------------
  // Every value a transformed program computes is a real Python value
  // ---------------------------------------------------------------------------

  /** A valid expression evaluated in a valid environment has a valid value: each
      mapping keeps the unique keys of its literal. */
  lemma ExprValid(e: Expr, env: Env)
    requires ValidExpr(e) && ValidEnv(env)
    ensures EvalExpr(e, env).Ok? ==> ValidValue(EvalExpr(e, env).value)
    decreases e, 1
  {
    match e
    case DictLit(pairs) =>
      if EvalExpr(e, env).Ok? {
        var entries := EvalPairs(e, 0, env).value;
        PairsValid(e, 0, env);
        assert pairs[0..] == pairs;
        Dicts.SameKeysUnique(pairs, entries);
      }
    case Rpn(tokens) =>
      RpnValid(tokens, env);
    case _ =>
  }

  lemma PairsValid(d: Expr, i: nat, env: Env)
    requires d.DictLit? && i <= |d.pairs| && ValidExpr(d) && ValidEnv(env)
    ensures EvalPairs(d, i, env).Ok? ==>
      forall j | 0 <= j < |EvalPairs(d, i, env).value| :: ValidValue(EvalPairs(d, i, env).value[j].1)
    decreases d, 0, |d.pairs| - i
  {
    if i < |d.pairs| && EvalPairs(d, i, env).Ok? {
      ExprValid(d.pairs[i].1, env);
      PairsValid(d, i + 1, env);
      var v, rest := EvalExpr(d.pairs[i].1, env).value, EvalPairs(d, i + 1, env).value;
      var r := EvalPairs(d, i, env).value;
      assert r == [(d.pairs[i].0, v)] + rest;
      forall j | 0 <= j < |r|
        ensures ValidValue(r[j].1)
      {
        if j > 0 {
          assert r[j] == rest[j - 1];
        }
      }
    }
  }

  /** An RPN expression only ever holds integers and bindings of the environment. */
  lemma RpnValid(tokens: seq<RpnToken>, env: Env)
    requires ValidEnv(env)
    ensures Rpn.Eval(tokens, env).Ok? ==> ValidValue(Rpn.Eval(tokens, env).value)
  {
    Rpn.ExecValid([], tokens, env);
  }

  /** A valid statement leaves a valid environment and yields a valid value. */
  lemma StmtValid(s: Stmt, env: Env)
    requires ValidStmt(s) && ValidEnv(env)
    ensures EvalStmt(s, env).Ok? ==>
      ValidEnv(EvalStmt(s, env).value.1) &&
      (EvalStmt(s, env).value.0.Some? ==> ValidValue(EvalStmt(s, env).value.0.value))
  {
    match s
    case GlobalDecl(name, value) =>
      ExprValid(value, env);
    case ValueStmt(e) =>
      ExprValid(e, env);
  }

  /** A valid program run from a valid environment outputs only valid values and
      leaves only valid bindings, on success and on failure. */
  lemma {:induction false} EvaluateValid(p: Program, env: Env)
    requires ValidProgram(p) && ValidEnv(env)
    ensures ValidEnv(Evaluate(p, env).env)
    ensures Evaluate(p, env).result.Ok? ==> ValidValues(Evaluate(p, env).result.value)
  {
    if p != [] {
      StmtValid(p[0], env);
      match EvalStmt(p[0], env)
      case Err(_) =>
      case Ok((res, env')) =>
        assert ValidProgram(p[1..]) by {
          forall i | 0 <= i < |p[1..]| ensures ValidStmt(p[1..][i]) {
            assert p[1..][i] == p[i + 1];
          }
        }
        EvaluateValid(p[1..], env');
        var run := Evaluate(p[1..], env');
        if res.Some? && run.result.Ok? {
          var out := [res.value] + run.result.value;
          forall i | 0 <= i < |out| ensures ValidValue(out[i]) {
            if i > 0 {
              assert out[i] == run.result.value[i - 1];
            }
          }
        }
    }
  }
}
