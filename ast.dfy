/** The abstract syntax the transformer hands to the interpreter, the values the
    interpreter produces, and the errors that abort an evaluation. */
module Ast {
  import Dicts

  /** One item of an RPN expression. The interpreter tells integers apart from
      text: `Word` is any textual token (a global name, `+`, `-`, `*` or `mod`). */
  datatype RpnToken = IntToken(n: int) | Word(w: string)

  /** A value-position node: an int, a string, `("ref", name)`, a dict of
      `(key, value)` pairs, or `("rpn", tokens)`. Every dict the transformer
      builds has unique keys (`ValidExpr`). */
  datatype Expr =
    | Number(n: int)
    | Str(s: string)
    | Ref(name: string)
    | DictLit(pairs: seq<(string, Expr)>)
    | Rpn(tokens: seq<RpnToken>)

  /** A top-level statement: `("global", name, value)` or a bare value. */
  datatype Stmt = GlobalDecl(name: string, value: Expr) | ValueStmt(e: Expr)

  type Program = seq<Stmt>

  /** What evaluation produces: ints, strings and (ordered) dicts; a Python dict
      has unique keys (`ValidValue`). */
  datatype Value =
    | Integer(i: int)
    | Text(s: string)
    | Mapping(entries: seq<(string, Value)>)

  /** The global environment, name to value. */
  type Env = map<string, Value>

  /** Every way an evaluation can abort. */
  datatype Error =
    | UnknownIdentifier(name: string)   // a reference to a name that is not bound
    | UnknownRpnToken(token: string)    // an RPN word that is neither bound nor an operator
    | StackUnderflow                    // an operator popped from a stack with fewer than two values
    | InvalidRpnExpression              // the final stack does not hold exactly one value
    | ModuloByZero                      // `a mod 0`
    | OperandTypeError(op: string)      // an operator applied to a non-integer operand

  datatype Result<T> = Ok(value: T) | Err(error: Error)

  datatype Option<T> = None | Some(value: T)

  /** Every dict literal in `e`, at any depth, has unique keys. */
  predicate ValidExpr(e: Expr) {
    match e
    case DictLit(pairs) => Dicts.UniqueKeys(pairs) && forall i | 0 <= i < |pairs| :: ValidExpr(pairs[i].1)
    case _ => true
  }

  predicate ValidStmt(s: Stmt) {
    match s
    case GlobalDecl(_, value) => ValidExpr(value)
    case ValueStmt(e) => ValidExpr(e)
  }

  predicate ValidProgram(p: Program) {
    forall i | 0 <= i < |p| :: ValidStmt(p[i])
  }

  /** Every mapping in `v`, at any depth, has unique keys: `v` is a value a
      Python dict can hold. */
  predicate ValidValue(v: Value) {
    match v
    case Mapping(entries) => Dicts.UniqueKeys(entries) && forall i | 0 <= i < |entries| :: ValidValue(entries[i].1)
    case _ => true
  }

  predicate ValidValues(vs: seq<Value>) {
    forall i | 0 <= i < |vs| :: ValidValue(vs[i])
  }

  predicate ValidEnv(env: Env) {
    forall n | n in env :: ValidValue(env[n])
  }

  /** The operators an RPN expression may contain. */
  predicate IsOperator(w: string) {
    w == "+" || w == "-" || w == "*" || w == "mod"
  }
}
