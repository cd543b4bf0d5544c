/** The transformer: the parse tree the LALR parser produces, and the rules that
    turn each of its nodes into the AST the interpreter walks. Lexemes keep their
    text exactly as the grammar matched it. */
module Transformer {
  import opened Ast
  import Dicts
  import Rpn

  /** The terminals that reach the transformer. */
  datatype TokenKind = NumberTok | StringTok | NameTok | OpTok | FuncTok

  /** A terminal and its matched text: NUMBER `[+-]?\d+`, STRING `'[^']*'`,
      NAME `[_A-Z][_a-zA-Z0-9]*`, OP `+ - *`, FUNC `mod`. */
  datatype Lexeme = Lexeme(kind: TokenKind, text: string)

  /** The `value` productions. */
  datatype ValueTree =
    | NumberTree(tok: Lexeme)       // `NUMBER -> number`
    | StringTree(tok: Lexeme)       // `STRING -> string`
    | ReferenceTree(tok: Lexeme)    // `NAME -> reference`
    | DictTree(pairs: seq<PairTree>)
    | RpnTree(items: seq<Lexeme>)   // each item is one `rpn_item`

  datatype PairTree = PairTree(key: Lexeme, value: ValueTree)

  /** The `statement` production: a `global_decl` or a value. */
  datatype StatementTree = GlobalTree(name: Lexeme, value: ValueTree) | ValueTreeStmt(value: ValueTree)

  // ---------------------------------------------------------------------------
  // Integer literals: `int(text)` on the text the NUMBER terminal matched
  // ---------------------------------------------------------------------------

  predicate IsDigit(c: char) {
    '0' <= c <= '9'
  }

  predicate AllDigits(t: string) {
    forall i :: 0 <= i < |t| ==> IsDigit(t[i])
  }

  /** Text that NUMBER matches (ASCII digits): an optional sign, then digits. */
  predicate IsNumberText(t: string) {
    (|t| > 0 && AllDigits(t)) ||
    (|t| > 1 && (t[0] == '+' || t[0] == '-') && AllDigits(t[1..]))
  }

  /** The value of a string of decimal digits. */
  function DigitsValue(t: string): nat
    requires AllDigits(t)
  {
    if t == [] then 0
    else DigitsValue(t[..|t| - 1]) * 10 + (t[|t| - 1] as int - '0' as int)
  }

  /** `int(text)` for a NUMBER: a leading `-` negates, a leading `+` does not. */
  function ParseNumber(t: string): (n: int)
    requires IsNumberText(t)
    ensures t[0] == '-' ==> n <= 0
    ensures t[0] != '-' ==> n >= 0
  {
    if t[0] == '-' then -(DigitsValue(t[1..]) as int)
    else if t[0] == '+' then DigitsValue(t[1..])
    else DigitsValue(t)
  }

  /** Decimal digits of a natural number, most significant first, no leading zero. */
  function ShowNat(n: nat): (t: string)
    ensures |t| > 0 && AllDigits(t)
  {
    if n < 10 then ['0' + n as char]
    else ShowNat(n / 10) + ['0' + (n % 10) as char]
  }

  /** The shortest NUMBER text for `n`. */
  function Show(n: int): string {
    if n < 0 then "-" + ShowNat(-n) else ShowNat(n)
  }

  lemma {:induction false} DigitsOfShowNat(n: nat)
    ensures DigitsValue(ShowNat(n)) == n
  {
    if n >= 10 {
      DigitsOfShowNat(n / 10);
      var t := ShowNat(n);
      assert t[..|t| - 1] == ShowNat(n / 10);
    }
  }

  /** Every integer has a NUMBER text, and `int` reads it back. */
  lemma ParseShow(n: int)
    ensures IsNumberText(Show(n))
    ensures ParseNumber(Show(n)) == n
  {
    if n < 0 {
      var t := Show(n);
      assert t[1..] == ShowNat(-n);
      DigitsOfShowNat(-n);
    } else {
      DigitsOfShowNat(n);
    }
  }

  // ---------------------------------------------------------------------------
  // String literals: `text[1:-1]`
  // ---------------------------------------------------------------------------

  /** Python's `text[1:-1]`: all but the first and last character, or the empty
      string for text shorter than two characters. */
  function Unquote(t: string): (s: string)
    ensures |t| >= 2 ==> |s| == |t| - 2 && forall i :: 0 <= i < |s| ==> s[i] == t[i + 1]
    ensures |t| < 2 ==> s == ""
  {
    if |t| >= 2 then t[1..|t| - 1] else ""
  }

  /** A string literal's value is the text between its quotes. */
  lemma UnquoteQuoted(s: string)
    ensures Unquote("'" + s + "'") == s
  {
    var t := "'" + s + "'";
    assert t[1..|t| - 1] == s;
  }

  // ---------------------------------------------------------------------------
  // The transformer methods
  // ---------------------------------------------------------------------------

  /** What the parse tree guarantees and `int` relies on: every NUMBER text, in
      a value or in an RPN expression, is a number. */
  predicate WellFormed(v: ValueTree) {
    match v
    case NumberTree(tok) => IsNumberText(tok.text)
    case StringTree(_) => true
    case ReferenceTree(_) => true
    case DictTree(pairs) => forall i :: 0 <= i < |pairs| ==> WellFormed(pairs[i].value)
    case RpnTree(items) => forall i :: 0 <= i < |items| ==> WellNumbered(items[i])
  }

  predicate WellNumbered(l: Lexeme) {
    l.kind == NumberTok ==> IsNumberText(l.text)
  }

  /** `rpn_item` as the interpreter needs it: a NUMBER becomes the integer it
      denotes (as in the `number` rule), every other terminal stays its text. */
  function RpnItem(l: Lexeme): (t: RpnToken)
    requires WellNumbered(l)
    ensures t.IntToken? <==> l.kind == NumberTok
    ensures t.IntToken? ==> t.n == ParseNumber(l.text)
    ensures t.Word? ==> t.w == l.text
  {
    if l.kind == NumberTok then IntToken(ParseNumber(l.text)) else Word(l.text)
  }

  /** `rpn_item` as written: the raw terminal, whose text is a string even for a
      NUMBER, and a number's text is never an operator. */
  function RpnItemAsWritten(l: Lexeme): (t: RpnToken)
    ensures t.Word? && t.w == l.text
    ensures l.kind == NumberTok && IsNumberText(l.text) ==> !IsOperator(t.w)
  {
    if l.kind == NumberTok && IsNumberText(l.text) then
      NumberNotOperator(l.text);
      Word(l.text)
    else Word(l.text)
  }

  /** The text of a NUMBER is never one of the operators. */
  lemma NumberNotOperator(t: string)
    requires IsNumberText(t)
    ensures !IsOperator(t)
  {
    assert IsDigit(t[0]) || (|t| > 1 && IsDigit(t[1]));
  }

  /** The key/value pairs of the dict tree `d` from index `i` on, as the `pair`
      rule builds them before `dict(items)`: each key's text with its value
      transformed, in source order. */
  function PairsAsWritten(d: ValueTree, i: nat): (r: seq<(string, Expr)>)
    requires d.DictTree? && WellFormed(d) && i <= |d.pairs|
    ensures |r| == |d.pairs| - i
    decreases d, 0, |d.pairs| - i
  {
    if i == |d.pairs| then []
    else [(d.pairs[i].key.text, TransformValue(d.pairs[i].value))] + PairsAsWritten(d, i + 1)
  }

  /** The `pair` rule: the key's text with its value transformed, in source order. */
  lemma {:induction false} PairsAsWrittenAt(d: ValueTree, i: nat, j: nat)
    requires d.DictTree? && WellFormed(d) && i <= j < |d.pairs|
    ensures PairsAsWritten(d, i)[j - i] == (d.pairs[j].key.text, TransformValue(d.pairs[j].value))
    decreases j - i
  {
    if i < j {
      PairsAsWrittenAt(d, i + 1, j);
    }
  }

  /** The value rules: `number`, `string`, `reference`, `dict` (over `pair`) and
      `rpn_expr` (over `rpn_item`). A dict gets unique keys; an RPN expression
      one token per item. */
  function TransformValue(v: ValueTree): (e: Expr)
    requires WellFormed(v)
    ensures v.DictTree? ==> e.DictLit? && Dicts.UniqueKeys(e.pairs)
    ensures v.RpnTree? ==> e.Rpn? && |e.tokens| == |v.items|
    ensures v.ReferenceTree? ==> e == Ref(v.tok.text)
    decreases v, 1
  {
    match v
    case NumberTree(tok) => Number(ParseNumber(tok.text))
    case StringTree(tok) => Str(Unquote(tok.text))
    case ReferenceTree(tok) => Ref(tok.text)
    case DictTree(pairs) => DictLit(Dicts.FromPairs(PairsAsWritten(v, 0)))
    case RpnTree(items) => Rpn(seq(|items|, i requires 0 <= i < |items| => RpnItem(items[i])))
  }

  predicate WellFormedStatement(s: StatementTree) {
    WellFormed(s.value)
  }

  /** `global_decl` and `statement`: a declaration stays a declaration of the
      same name. */
  function TransformStatement(s: StatementTree): (r: Stmt)
    requires WellFormedStatement(s)
    ensures r.GlobalDecl? <==> s.GlobalTree?
    ensures s.GlobalTree? ==> r.name == s.name.text
  {
    match s
    case GlobalTree(name, value) => GlobalDecl(name.text, TransformValue(value))
    case ValueTreeStmt(value) => ValueStmt(TransformValue(value))
  }

  /** `start`: the statements in source order, each kept in its place. */
  function Transform(program: seq<StatementTree>): (p: Program)
    requires forall i :: 0 <= i < |program| ==> WellFormedStatement(program[i])
    ensures |p| == |program|
    ensures forall i :: 0 <= i < |p| ==> (p[i].GlobalDecl? <==> program[i].GlobalTree?)
  {
    seq(|program|, i requires 0 <= i < |program| => TransformStatement(program[i]))
  }

  // ---------------------------------------------------------------------------
  // Properties of the transformer
  // ---------------------------------------------------------------------------

  /** The AST keeps every statement in place: a declaration stays a declaration
      of the same name, a value stays a value. */
  lemma TransformKeepsStatements(program: seq<StatementTree>, i: nat)
    requires forall j :: 0 <= j < |program| ==> WellFormedStatement(program[j])
    requires i < |program|
    ensures |Transform(program)| == |program|
    ensures Transform(program)[i].GlobalDecl? <==> program[i].GlobalTree?
    ensures program[i].GlobalTree? ==> Transform(program)[i].name == program[i].name.text
    ensures (if Transform(program)[i].GlobalDecl? then Transform(program)[i].value else Transform(program)[i].e)
            == TransformValue(program[i].value)
  {
  }

  /** An integer literal denotes the integer it spells. */
  lemma NumberLiteral(n: int)
    ensures WellFormed(NumberTree(Lexeme(NumberTok, Show(n))))
    ensures TransformValue(NumberTree(Lexeme(NumberTok, Show(n)))) == Number(n)
  {
    ParseShow(n);
  }

  /** A string literal denotes the text between its quotes. */
  lemma StringLiteral(s: string)
    ensures TransformValue(StringTree(Lexeme(StringTok, "'" + s + "'"))) == Str(s)
  {
    UnquoteQuoted(s);
  }

  /** A dict literal in the AST has unique keys: each key written in the source,
      in the order of its first occurrence, with the value of its last. */
  lemma DictTransform(pairs: seq<PairTree>, k: string)
    requires WellFormed(DictTree(pairs))
    ensures TransformValue(DictTree(pairs)).DictLit?
    ensures Dicts.UniqueKeys(TransformValue(DictTree(pairs)).pairs)
    ensures Dicts.Keys(TransformValue(DictTree(pairs)).pairs) == Dicts.Distinct(Dicts.Keys(PairsAsWritten(DictTree(pairs), 0)))
    ensures k in Dicts.Keys(PairsAsWritten(DictTree(pairs), 0)) ==>
      k in Dicts.Keys(TransformValue(DictTree(pairs)).pairs) &&
      Dicts.LastValue(TransformValue(DictTree(pairs)).pairs, k) == Dicts.LastValue(PairsAsWritten(DictTree(pairs), 0), k)
  {
    var written := PairsAsWritten(DictTree(pairs), 0);
    Dicts.FromPairsKeys(written);
    if k in Dicts.Keys(written) {
      Dicts.FromPairsValues(written, k);
    }
  }

  /** An RPN expression keeps its items in order, one token per item; a NUMBER
      item is the integer it spells. */
  lemma RpnTransform(items: seq<Lexeme>, i: nat, n: int)
    requires WellFormed(RpnTree(items)) && i < |items|
    ensures |TransformValue(RpnTree(items)).tokens| == |items|
    ensures items[i].kind != NumberTok ==> TransformValue(RpnTree(items)).tokens[i] == Word(items[i].text)
    ensures items[i] == Lexeme(NumberTok, Show(n)) ==> TransformValue(RpnTree(items)).tokens[i] == IntToken(n)
  {
    ParseShow(n);
  }

  /** Taken literally, `rpn_item` hands a NUMBER to the interpreter as text, which
      is neither bound nor an operator: an RPN expression that starts with a
      number fails with "Unknown RPN token". The corrected rule pushes the number. */
  lemma RpnNumberAsWritten(items: seq<Lexeme>, env: Env)
    requires |items| > 0 && items[0].kind == NumberTok && IsNumberText(items[0].text)
    requires items[0].text !in env
    ensures Rpn.Eval(seq(|items|, i requires 0 <= i < |items| => RpnItemAsWritten(items[i])), env)
            == Err(UnknownRpnToken(items[0].text))
    ensures Rpn.Step([], RpnItem(items[0]), env) == Ok([Integer(ParseNumber(items[0].text))])
  {
    var t := items[0].text;
    assert [] + [Integer(ParseNumber(t))] == [Integer(ParseNumber(t))];
  }

  // ---------------------------------------------------------------------------
  // Every dict the transformer builds is a real Python dict
  // ---------------------------------------------------------------------------

  /** `dict(items)` over valid values is a valid dict literal. */
  lemma FromPairsValid(items: seq<(string, Expr)>)
    requires forall j :: 0 <= j < |items| ==> ValidExpr(items[j].1)
    ensures ValidExpr(DictLit(Dicts.FromPairs(items)))
  {
    Dicts.FromPairsValuesGiven(items);
    ValuesFromValid(Dicts.FromPairs(items), items);
  }

  /** A key-unique literal whose values are all taken from valid ones is valid. */
  lemma ValuesFromValid(r: seq<(string, Expr)>, items: seq<(string, Expr)>)
    requires Dicts.UniqueKeys(r)
    requires forall j :: 0 <= j < |items| ==> ValidExpr(items[j].1)
    requires forall j :: 0 <= j < |r| ==> r[j].1 in Dicts.Values(items)
    ensures ValidExpr(DictLit(r))
  {
    forall j | 0 <= j < |r|
      ensures ValidExpr(r[j].1)
    {
      var i :| 0 <= i < |items| && Dicts.Values(items)[i] == r[j].1;
    }
  }

  /** The transformer builds only valid expressions: every dict literal, at any
      depth, has unique keys. */
  lemma TransformValid(v: ValueTree)
    requires WellFormed(v)
    ensures ValidExpr(TransformValue(v))
    decreases v
  {
    if v.DictTree? {
      var written := PairsAsWritten(v, 0);
      forall j | 0 <= j < |written|
        ensures ValidExpr(written[j].1)
      {
        PairsAsWrittenAt(v, 0, j);
        TransformValid(v.pairs[j].value);
      }
      FromPairsValid(written);
    }
  }

  /** Every program the transformer builds is valid. */
  lemma ProgramValid(program: seq<StatementTree>)
    requires forall i :: 0 <= i < |program| ==> WellFormedStatement(program[i])
    ensures ValidProgram(Transform(program))
  {
    var p := Transform(program);
    forall i | 0 <= i < |p|
      ensures ValidStmt(p[i])
    {
      TransformValid(program[i].value);
    }
  }
}
