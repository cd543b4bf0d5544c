/** Programs and expressions from the repository's tests and further examples,
    some starting from the parse tree, some from the AST, and some single RPN
    expressions. */
module Scenarios {
  import opened Ast
  import opened Transformer
  import opened Interp
  import Rpn

  function Num(t: string): Lexeme { Lexeme(NumberTok, t) }
  function Name(t: string): Lexeme { Lexeme(NameTok, t) }
  function Op(t: string): Lexeme { Lexeme(OpTok, t) }

  /** `.(2 3 +).` outputs `[5]`. */
  lemma AddProgram()
    ensures Evaluate(Transform([ValueTreeStmt(RpnTree([Num("2"), Num("3"), Op("+")]))]), map[])
            == Outcome(map[], Ok([Integer(5)]))
  {
    var items := [Num("2"), Num("3"), Op("+")];
    var tree := [ValueTreeStmt(RpnTree(items))];
    var t := [IntToken(2), IntToken(3), Word("+")];
    RpnTreeOf(items, t);
    var p := Transform(tree);
    assert p == [ValueStmt(Rpn(t))];
    Rpn.BinaryExpression(2, 3, "+", map[]);
    assert p[1..] == [];
    assert EvalStmt(p[0], map[]) == Ok((Some(Integer(5)), map[]));
    assert [Integer(5)] + [] == [Integer(5)];
  }

  /** The AST of an RPN tree whose items transform to `t`. */
  lemma RpnTreeOf(items: seq<Lexeme>, t: seq<RpnToken>)
    requires WellFormed(RpnTree(items)) && |t| == |items|
    requires forall i :: 0 <= i < |items| ==> RpnItem(items[i]) == t[i]
    ensures TransformValue(RpnTree(items)) == Rpn(t)
  {
  }

  /** Read literally, the same program stops at its first token. */
  lemma AddProgramAsWritten()
    ensures Rpn.Eval([RpnItemAsWritten(Num("2")), RpnItemAsWritten(Num("3")), RpnItemAsWritten(Op("+"))], map[])
            == Err(UnknownRpnToken("2"))
  {
    var items := [Num("2"), Num("3"), Op("+")];
    RpnNumberAsWritten(items, map[]);
    assert seq(|items|, i requires 0 <= i < |items| => RpnItemAsWritten(items[i])) ==
      [RpnItemAsWritten(Num("2")), RpnItemAsWritten(Num("3")), RpnItemAsWritten(Op("+"))];
  }

  /** `global A = 5` then `.(A 2 *).` outputs `[10]` and leaves `A` bound to 5. */
  lemma GlobalProgram()
    ensures Evaluate(Transform(GlobalProgramTree()), map[]) == Outcome(map["A" := Integer(5)], Ok([Integer(10)]))
  {
    var t := [Word("A"), IntToken(2), Word("*")];
    var env := map["A" := Integer(5)];
    GlobalProgramTransform();
    TimesGlobal();
    var p := [GlobalDecl("A", Number(5)), ValueStmt(Rpn(t))];
    assert p[1..] == [ValueStmt(Rpn(t))] && p[1..][1..] == [];
    assert EvalStmt(p[0], map[]) == Ok((None, env));
    assert EvalStmt(p[1], env) == Ok((Some(Integer(10)), env));
    assert Evaluate(p[1..], env) == Outcome(env, Ok([Integer(10)])) by {
      assert [Integer(10)] + [] == [Integer(10)];
    }
  }

  function GlobalProgramTree(): seq<StatementTree> {
    [GlobalTree(Name("A"), NumberTree(Num("5"))), ValueTreeStmt(RpnTree([Name("A"), Num("2"), Op("*")]))]
  }

  lemma GlobalProgramTransform()
    ensures Transform(GlobalProgramTree()) == [GlobalDecl("A", Number(5)), ValueStmt(Rpn([Word("A"), IntToken(2), Word("*")]))]
  {
    RpnTreeOf([Name("A"), Num("2"), Op("*")], [Word("A"), IntToken(2), Word("*")]);
    assert ParseNumber("5") == 5;
  }

  /** `.(A 2 *).` with `A` bound to 5 is 10. */
  lemma TimesGlobal()
    ensures Rpn.Eval([Word("A"), IntToken(2), Word("*")], map["A" := Integer(5)]) == Ok(Integer(10))
  {
    var t := [Word("A"), IntToken(2), Word("*")];
    var env := map["A" := Integer(5)];
    assert t[1..] == [IntToken(2), Word("*")] && t[1..][1..] == [Word("*")];
    assert [] + [Integer(5)] == [Integer(5)];
    assert [Integer(5)] + [Integer(2)] == [Integer(5), Integer(2)];
    assert Rpn.Exec([], t, env) == Rpn.Exec([Integer(5), Integer(2)], [Word("*")], env);
    Rpn.OperatorStep([], 5, 2, "*", env);
    assert [] + [Integer(5), Integer(2)] == [Integer(5), Integer(2)];
    assert [] + [Integer(10)] == [Integer(10)];
  }

  /** Too few operands and leftover operands are both errors. */
  lemma MalformedRpn()
    ensures Rpn.Eval([IntToken(1), Word("+")], map[]) == Err(StackUnderflow)
    ensures Rpn.Eval([IntToken(1), IntToken(2)], map[]) == Err(InvalidRpnExpression)
  {
    var t1 := [IntToken(1), Word("+")];
    assert t1[1..] == [Word("+")];
    assert [] + [Integer(1)] == [Integer(1)];
    var t2 := [IntToken(1), IntToken(2)];
    assert t2[1..] == [IntToken(2)];
    assert [Integer(1)] + [Integer(2)] == [Integer(1), Integer(2)];
  }

  /** `mod` is Python's: the result takes the sign of the divisor. */
  lemma FloorModulo()
    ensures Rpn.Eval([IntToken(7), IntToken(-2), Word("mod")], map[]) == Ok(Integer(-1))
    ensures Rpn.Eval([IntToken(-7), IntToken(2), Word("mod")], map[]) == Ok(Integer(1))
    ensures Rpn.Eval([IntToken(7), IntToken(0), Word("mod")], map[]) == Err(ModuloByZero)
  {
    Rpn.BinaryExpression(7, -2, "mod", map[]);
    Rpn.BinaryExpression(-7, 2, "mod", map[]);
    Rpn.BinaryExpression(7, 0, "mod", map[]);
  }

  /** `global A = 1`, `global A = 2`, `.(A).` outputs `[2]`. */
  lemma OverwriteProgram()
    ensures Evaluate([GlobalDecl("A", Number(1)), GlobalDecl("A", Number(2)), ValueStmt(Rpn([Word("A")]))], map[])
            == Outcome(map["A" := Integer(2)], Ok([Integer(2)]))
  {
    var p := [GlobalDecl("A", Number(1)), GlobalDecl("A", Number(2)), ValueStmt(Rpn([Word("A")]))];
    assert p[1..] == [GlobalDecl("A", Number(2)), ValueStmt(Rpn([Word("A")]))];
    assert p[1..][1..] == [ValueStmt(Rpn([Word("A")]))] && p[1..][1..][1..] == [];
    assert map["A" := Integer(1)]["A" := Integer(2)] == map["A" := Integer(2)];
    assert [Word("A")][1..] == [];
    assert [] + [Integer(2)] == [Integer(2)];
    assert [Integer(2)] + [] == [Integer(2)];
  }

  /** `([K: 1, J: 2, K: 3])` is the dict `{K: 3, J: 2}`: a repeated key keeps its
      first position and its last value. */
  lemma DuplicateKeyProgram()
    ensures Evaluate(Transform([ValueTreeStmt(DuplicateKeyTree())]), map[])
            == Outcome(map[], Ok([Mapping([("K", Integer(3)), ("J", Integer(2))])]))
  {
    var e := DictLit([("K", Number(3)), ("J", Number(2))]);
    DuplicateKeyAst();
    DuplicateKeyEval();
    var p := [ValueStmt(e)];
    assert p[1..] == [];
    assert [Mapping([("K", Integer(3)), ("J", Integer(2))])] + [] == [Mapping([("K", Integer(3)), ("J", Integer(2))])];
  }

  lemma DuplicateKeyAst()
    ensures WellFormedStatement(ValueTreeStmt(DuplicateKeyTree()))
    ensures Transform([ValueTreeStmt(DuplicateKeyTree())]) == [ValueStmt(DictLit([("K", Number(3)), ("J", Number(2))]))]
  {
    DuplicateKeyTransform();
  }

  function DuplicateKeyTree(): ValueTree {
    DictTree([PairTree(Name("K"), NumberTree(Num("1"))),
              PairTree(Name("J"), NumberTree(Num("2"))),
              PairTree(Name("K"), NumberTree(Num("3")))])
  }

  lemma DuplicateKeyTransform()
    ensures WellFormed(DuplicateKeyTree())
    ensures TransformValue(DuplicateKeyTree()) == DictLit([("K", Number(3)), ("J", Number(2))])
  {
    var d := DuplicateKeyTree();
    assert ParseNumber("1") == 1 && ParseNumber("2") == 2 && ParseNumber("3") == 3;
    var written := [("K", Number(1)), ("J", Number(2)), ("K", Number(3))];
    assert PairsAsWritten(d, 3) == [];
    assert PairsAsWritten(d, 2) == [("K", Number(3))];
    assert PairsAsWritten(d, 1) == [("J", Number(2)), ("K", Number(3))];
    assert PairsAsWritten(d, 0) == written;
    DuplicateKeyBuild();
  }

  lemma DuplicateKeyBuild()
    ensures Dicts.FromPairs([("K", Number(1)), ("J", Number(2)), ("K", Number(3))])
            == [("K", Number(3)), ("J", Number(2))]
  {
    var written := [("K", Number(1)), ("J", Number(2)), ("K", Number(3))];
    assert written[..2] == [("K", Number(1)), ("J", Number(2))];
    assert written[..2][..1] == [("K", Number(1))] && written[..2][..1][..0] == [];
    assert Dicts.FromPairs([("K", Number(1))]) == [("K", Number(1))];
    assert Dicts.FromPairs(written[..2]) == [("K", Number(1)), ("J", Number(2))];
  }

  lemma DuplicateKeyEval()
    ensures EvalExpr(DictLit([("K", Number(3)), ("J", Number(2))]), map[])
            == Ok(Mapping([("K", Integer(3)), ("J", Integer(2))]))
  {
    var e := DictLit([("K", Number(3)), ("J", Number(2))]);
    assert EvalPairs(e, 2, map[]) == Ok([]);
    assert [("J", Integer(2))] + [] == [("J", Integer(2))];
    assert EvalPairs(e, 1, map[]) == Ok([("J", Integer(2))]);
    assert [("K", Integer(3))] + [("J", Integer(2))] == [("K", Integer(3)), ("J", Integer(2))];
    assert EvalPairs(e, 0, map[]) == Ok([("K", Integer(3)), ("J", Integer(2))]);
  }

  /** A reference before its declaration fails. */
  lemma ForwardReferenceProgram()
    ensures Evaluate([ValueStmt(Ref("A")), GlobalDecl("A", Number(5))], map[]).result == Err(UnknownIdentifier("A"))
  {
  }

  /** The interpreter as it runs: the caller's environment holds `A` afterwards. */
  method GlobalProgramRun() returns (r: Result<seq<Value>>, globals: Env)
    ensures r == Ok([Integer(10)]) && globals == map["A" := Integer(5)]
  {
    var env := new Environment();
    GlobalProgram();
    var p := Transform(GlobalProgramTree());
    r := Interp.Interp(p, env);
    globals := env.bindings;
  }
}
