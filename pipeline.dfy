/** The front end and the interpreter together: transform the parse tree, then
    interpret the program from an empty environment, as the command line does
    before it dumps the result. */
module Pipeline {
  import opened Ast
  import opened Transformer
  import opened Interp

  /** Every value a transformed program outputs, and every binding it leaves, is
      something a Python dict can hold: each mapping, at any depth, has unique
      keys. */
  lemma ProgramYieldsDicts(tree: seq<StatementTree>)
    requires forall i :: 0 <= i < |tree| ==> WellFormedStatement(tree[i])
    ensures ValidEnv(Evaluate(Transform(tree), map[]).env)
    ensures Evaluate(Transform(tree), map[]).result.Ok? ==> ValidValues(Evaluate(Transform(tree), map[]).result.value)
  {
    ProgramValid(tree);
    EvaluateValid(Transform(tree), map[]);
  }

  /** Transform, create the empty environment and interpret: the result and the
      globals are those of `Evaluate`, and hold only valid values. */
  method Compile(tree: seq<StatementTree>) returns (r: Result<seq<Value>>, globals: Env)
    requires forall i :: 0 <= i < |tree| ==> WellFormedStatement(tree[i])
    ensures r == Evaluate(Transform(tree), map[]).result
    ensures globals == Evaluate(Transform(tree), map[]).env
    ensures ValidEnv(globals) && (r.Ok? ==> ValidValues(r.value))
  {
    var ast := Transform(tree);
    var env := new Environment();
    r := Interp.Interp(ast, env);
    globals := env.bindings;
    ProgramYieldsDicts(tree);
  }
}
