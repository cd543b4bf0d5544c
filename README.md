# config_tool evaluator in Dafny

This project models the evaluator of `config_tool.py`, a small configuration
language that compiles to a YAML value tree. It covers two parts:

- the abstract syntax tree that `ASTTransformer` builds from the parse tree:
  global declarations, integers, strings, `("ref", name)` references,
  dictionaries, and `("rpn", tokens)` postfix expressions;
- the interpreter `interp`, which walks that tree against a mutable global
  environment.

The model is split into modules:

- `Ast`: the AST, the values evaluation produces, and the errors that abort an
  evaluation. Python exceptions become `Err` results.
- `PyMath`: Python floor `//` and `%`. Dafny's `%` is Euclidean, so Python's
  is written out. `QuotientGap` is a helper for the uniqueness proof.
- `Dicts`: Python dicts as key-unique sequences of pairs in insertion order.
  `FromPairs` is `dict(items)`.
- `Rpn`: the operand-stack machine.
  - `Step`, `Exec` and `Eval` are its specification as functions.
  - `Run` is the interpreter's loop, with a local stack, proved equal to
    `Eval`.
- `Interp`: evaluation of values, statements and whole programs.
  - `EvalExpr`, `EvalStmt` and `Evaluate` are the specification.
  - `DictLiteral` states what a dict literal evaluates to. `DictResult` and
    `DictEntries` are the two steps of its proof.
  - `PrefixOk` (an output placed in front of a successful result) is a helper
    shared by the dict loop and the program loop. `EvalPairsStep` unfolds
    `EvalPairs` by one pair.
  - `Environment` is the caller's `env` dict as an object.
  - `InterpExpr` (with `InterpPairs` for a dict), `InterpStmt` and `Interp`
    are the imperative interpreter that updates that object. They are proved
    against the specification.
- `Transformer`: the parse tree the parser produces (terminals with their
  matched text) and the `ASTTransformer` rules over it. `ShowNat` and `Show`
  are helpers that spell an integer as NUMBER text.
- `Pipeline`: the transformer followed by the interpreter from an empty
  environment, as the command line runs them.
- `Scenarios`: programs and expressions from the repository's tests and
  further examples, some starting from the parse tree, some from the AST.

`Dicts.Keys`, `Dicts.Values`, `Dicts.KeysCons` and `Dicts.KeysSuffix` are
helpers for stating and proving the dict properties.

Facts about the language as the code implements it:

- It has no `/` operator. Its operators are `+ - *` and `mod`
  (`config_tool.py:28-29`, `config_tool.py:132`).
- It has no list literal. A list occurs only as the top-level statement list.
- A repeated dict key keeps the position of its first occurrence, because that
  is what `dict(items)` does.
- On failure, the caller's environment keeps the bindings made before the
  failing statement.
- Every dict the transformer builds has unique keys, and so does every mapping
  evaluation produces, at any depth (`Ast.ValidExpr`, `Ast.ValidValue`).

## Model

| member | source | states |
|---|---|---|
| PyMath.FloorMod | config_tool.py:141-142 | `a % b` for a non-zero divisor: zero or of the divisor's sign, smaller than the divisor in magnitude, and `a == (a // b) * b + a % b` |
| PyMath.FloorDivModUnique | config_tool.py:142 | any quotient and remainder meeting those conditions are Python's `//` and `%`, so the contract pins `%` down completely |
| Rpn.Apply | config_tool.py:135-142 | `+`, `-` and `*` give `a+b`, `a-b` and `a*b`; `mod` fails exactly when `b == 0` and otherwise gives the floor modulo |
| Rpn.Step | config_tool.py:127-144 | one token: an integer token always succeeds and puts that integer on top; it can fail only when it is a word that is not bound (an unknown token, or an operator that fails); an operand grows the stack by one and keeps it underneath; an operator needs two operands, shrinks the stack by one and keeps everything below them |
| Rpn.Exec | config_tool.py:127-144 | a successful run changes the stack height by +1 per operand token and -1 per operator token |
| Rpn.Eval | config_tool.py:123-149 | a valid expression has exactly one more operand than operators |
| Rpn.Run | config_tool.py:123-149 | the loop with its local stack computes exactly the stack-machine specification `Eval`, including each error (underflow, operand type, `mod` by zero, unknown token, leftover operands) |
| Rpn.ExecAppend | config_tool.py:127-144 | running `t1 + t2` is running `t1` and then `t2` on the stack it left; a failure in `t1` ends the run |
| Rpn.EvalSingleValue | config_tool.py:146-149 | an expression succeeds exactly when the run leaves exactly one value, and then yields that value |
| Rpn.BinaryExpression | config_tool.py:132-142 | `.(a b op).` yields `a op b` for each operator, or the zero-divisor error for `mod` |
| Rpn.OperatorStep | config_tool.py:132-142 | an operator pops the top as `b` and the next as `a`, pushes `a op b`, and leaves everything below unchanged |
| Rpn.UnderflowStep | config_tool.py:132-134 | an operator applied to fewer than two operands is a stack underflow |
| Rpn.WordStep | config_tool.py:127-144 | a bound name pushes its current binding; a token that is neither bound nor an operator is an unknown RPN token |
| Rpn.IntStep | config_tool.py:128-129 | an integer token pushes that integer onto any stack, in any environment |
| Rpn.StepValid | config_tool.py:127-144 | a step pushes only integers, results of integer arithmetic or bindings, so a valid stack in a valid environment stays valid |
| Rpn.ExecValid | config_tool.py:127-144 | a whole run keeps a valid stack valid in a valid environment |
| Dicts.Insert | config_tool.py:72-73 | `d[k] = v`: an existing key keeps its position and a new key is appended; keys stay unique; `k` maps to `v`; every other key keeps its value |
| Dicts.Replace | config_tool.py:72-73 | overwriting a present key keeps the key sequence and every other value |
| Dicts.ReplaceValues | config_tool.py:72-73 | overwriting a key brings in no value but the new one |
| Dicts.FromPairs | config_tool.py:72-73 | `dict(items)` has unique keys |
| Dicts.FromPairsKeys | config_tool.py:72-73 | the keys of `dict(items)` are the distinct keys of `items` in order of first occurrence |
| Dicts.FromPairsValues | config_tool.py:72-73 | each key of `dict(items)` carries the last value given for it |
| Dicts.FromPairsValuesGiven | config_tool.py:72-73 | every value of `dict(items)` is one of the values given in `items` |
| Dicts.FromPairsHasKey | config_tool.py:72-73 | a key is in `dict(items)` exactly when `items` gives it |
| Dicts.DistinctMembers | config_tool.py:72-73 | removing duplicates keeps every key and adds none |
| Dicts.SameKeysUnique | config_tool.py:98-99 | whether keys are unique depends on the key sequence alone, so evaluating the values keeps a dict's keys unique |
| Dicts.FromPairsOfUnique | config_tool.py:72-73 | a literal without repeated keys is kept exactly as written |
| Interp.EvalExpr | config_tool.py:92-99 | a dict literal that evaluates gives a mapping with the literal's key sequence |
| Interp.EvalPairs | config_tool.py:98-99 | the evaluated pairs of a dict from index `i` on have the keys of the literal from `i` on, in order |
| Interp.EvalStmt | config_tool.py:109-115 | a statement that evaluates yields no value exactly when it is a global declaration |
| Interp.Evaluate | config_tool.py:101-107 | a successful run outputs one value per non-global statement |
| Interp.Environment.constructor | config_tool.py:177 | the environment starts empty |
| Interp.InterpExpr | config_tool.py:92-99 | evaluating a value node, with its dict and RPN branches, computes exactly `EvalExpr` and reads the environment without writing it |
| Interp.InterpPairs | config_tool.py:98-99 | the dict comprehension's loop, evaluating each value front to back and stopping at the first failure, computes exactly `EvalPairs` |
| Interp.InterpStmt | config_tool.py:109-115 | a global binds its evaluated right-hand side and yields `None`; any other statement yields its value; on failure the environment is unchanged |
| Interp.Interp | config_tool.py:101-107 | the top-level loop returns `Evaluate`'s output and leaves the caller's environment as `Evaluate` says |
| Interp.AtomSemantics | config_tool.py:92-96 | integer and string literals evaluate to themselves |
| Interp.EvalPairsSucceeds | config_tool.py:98-99 | the pairs of a dict evaluate exactly when every value does |
| Interp.EvalPairsAt | config_tool.py:98-99 | the `j`-th entry of an evaluated dict is the literal's `j`-th key with that value evaluated |
| Interp.EvalPairsEntries | config_tool.py:98-99 | evaluated pairs keep the literal's keys in order, each with its value evaluated |
| Interp.EvalPairsFirstError | config_tool.py:98-99 | a failing dict fails with the error of its first failing value, every value before it having evaluated |
| Interp.DictLiteral | config_tool.py:98-99 | a dict literal keeps its key sequence exactly, evaluates each value, keeps unique keys unique, and fails exactly when a value does |
| Interp.GlobalDeclaration | config_tool.py:112-115 | a global evaluates its right-hand side in the current environment, overwrites the name's binding with the result, and yields no output; a failing right-hand side ends the run |
| Interp.EvaluateAppend | config_tool.py:101-107 | running `p + q` runs `p` and then `q` in the environment `p` left, concatenating the outputs |
| Interp.ValueCountAppend | config_tool.py:101-107 | the number of non-global statements adds up over concatenation |
| Interp.OutputInOrder | config_tool.py:101-107 | the m-th output value is the value of the m-th non-global statement, evaluated in the environment left by the statements before it |
| Interp.DeclaredNamesAppend | config_tool.py:112-115 | the declared names add up over concatenation |
| Interp.EnvironmentFrame | config_tool.py:112-115 | no binding is ever removed, new bindings are only for declared names, and an undeclared name keeps its binding |
| Interp.LastDeclarationWins | config_tool.py:112-115 | after the last declaration of a name, the name stays bound to the value that declaration computed |
| Interp.UseBeforeDeclaration | config_tool.py:117-121 | referencing a name before any declaration of it fails with "unknown identifier" |
| Interp.ExprValid | config_tool.py:92-99 | a valid expression evaluated in a valid environment has a valid value: every mapping in it, at any depth, has unique keys |
| Interp.PairsValid | config_tool.py:98-99 | each evaluated value of a valid dict is valid |
| Interp.RpnValid | config_tool.py:123-149 | an RPN expression in a valid environment yields a valid value |
| Interp.StmtValid | config_tool.py:109-115 | a valid statement leaves a valid environment and yields a valid value |
| Interp.EvaluateValid | config_tool.py:101-107 | a valid program run from a valid environment outputs only valid values and leaves only valid bindings, on success and on failure |
| Transformer.ParseNumber | config_tool.py:60-61 | `int(text)` of a NUMBER: a leading `-` gives a non-positive value, no `-` gives a non-negative one |
| Transformer.DigitsOfShowNat | config_tool.py:60-61 | reading the digits of `n` back gives `n` |
| Transformer.ParseShow | config_tool.py:60-61 | every integer has a NUMBER spelling, and `int` reads it back to the same integer |
| Transformer.Unquote | config_tool.py:63-64 | Python's `text[1:-1]`: all but the first and last character, empty for text shorter than two |
| Transformer.UnquoteQuoted | config_tool.py:63-64 | a quoted string literal's value is the text between its quotes |
| Transformer.RpnItem | config_tool.py:78-79 | the corrected `rpn_item`: a NUMBER becomes exactly the integer it spells, and any other terminal becomes a word with its text |
| Transformer.RpnItemAsWritten | config_tool.py:78-79 | `rpn_item` as written: every item, a NUMBER included, stays a word with its text, and a NUMBER's text is never an operator |
| Transformer.NumberNotOperator | config_tool.py:28-33 | no NUMBER text is one of the operator spellings |
| Transformer.PairsAsWritten | config_tool.py:69-70 | one key/value pair per `pair` node |
| Transformer.PairsAsWrittenAt | config_tool.py:69-70 | each pair is the key's text with its value transformed, in source order |
| Transformer.TransformValue | config_tool.py:60-79 | a dict becomes a literal with unique keys; an RPN expression keeps one token per item; a reference becomes `("ref", name)` with the name's text |
| Transformer.TransformStatement | config_tool.py:51-58 | a statement becomes a declaration exactly when it is a `global_decl`, with the name's text |
| Transformer.Transform | config_tool.py:48-49 | the AST has one statement per parsed statement, and the declarations stay in place |
| Transformer.TransformKeepsStatements | config_tool.py:48-58 | the AST has one statement per parsed statement, in place; a declaration stays a declaration of the same name, and the value is transformed |
| Transformer.NumberLiteral | config_tool.py:60-61 | an integer literal denotes the integer it spells |
| Transformer.StringLiteral | config_tool.py:63-64 | a string literal denotes the text between its quotes |
| Transformer.DictTransform | config_tool.py:69-73 | a dict literal has unique keys, in the order of their first occurrence, each with the value of its last occurrence |
| Transformer.RpnTransform | config_tool.py:75-79 | an RPN expression keeps its items in order; a NUMBER item becomes the integer it spells, other items keep their text |
| Transformer.RpnNumberAsWritten | config_tool.py:78-79 | taken literally, an RPN expression that starts with a number fails with "Unknown RPN token"; the corrected rule pushes the number |
| Transformer.FromPairsValid | config_tool.py:72-73 | `dict(items)` over valid values is a valid literal |
| Transformer.ValuesFromValid | config_tool.py:72-73 | a key-unique literal whose values all come from valid ones is valid |
| Transformer.TransformValid | config_tool.py:60-79 | every expression the transformer builds is valid: each dict literal, at any depth, has unique keys |
| Transformer.ProgramValid | config_tool.py:48-58 | every program the transformer builds is valid |
| Pipeline.ProgramYieldsDicts | config_tool.py:174-178 | transforming a parse tree and interpreting it from an empty environment outputs only valid values and leaves only valid globals |
| Pipeline.Compile | config_tool.py:174-178 | transform, create the empty environment and interpret: the result and the globals are `Evaluate`'s, and hold only valid values |
| Scenarios.AddProgram | tests/test_basic.py:12-13 | `.(2 3 +).` outputs `[5]` |
| Scenarios.RpnTreeOf | config_tool.py:75-79 | an RPN tree whose items transform to `t` becomes the expression over `t` |
| Scenarios.AddProgramAsWritten | tests/test_basic.py:12-13 | with the rule as written, the same expression stops at its first token |
| Scenarios.GlobalProgram | tests/test_basic.py:16-18 | `global A = 5` then `.(A 2 *).` outputs `[10]` and leaves `A` bound to 5 |
| Scenarios.GlobalProgramTransform | tests/test_basic.py:16-18 | the AST of that program |
| Scenarios.TimesGlobal | config_tool.py:130-140 | `.(A 2 *).` with `A` bound to 5 is 10 |
| Scenarios.GlobalProgramRun | config_tool.py:177-178 | running the interpreter on that program returns `[10]` and leaves the caller's environment holding `A = 5` |
| Scenarios.MalformedRpn | config_tool.py:133-147 | `.(1 +).` underflows and `.(1 2).` is an invalid expression |
| Scenarios.FloorModulo | config_tool.py:141-142 | `7 mod -2` is -1, `-7 mod 2` is 1, and `7 mod 0` fails |
| Scenarios.OverwriteProgram | config_tool.py:112-115 | after `global A = 1` and `global A = 2`, `.(A).` outputs `[2]` |
| Scenarios.DuplicateKeyProgram | config_tool.py:72-73 | `([K: 1, J: 2, K: 3])` is the dict `{K: 3, J: 2}` |
| Scenarios.DuplicateKeyAst | config_tool.py:69-73 | that literal's parse tree is well formed and transforms to `[(K, 3), (J, 2)]` |
| Scenarios.DuplicateKeyTransform | config_tool.py:69-73 | that literal's AST keeps `K` first with value 3, then `J` |
| Scenarios.DuplicateKeyBuild | config_tool.py:72-73 | `dict` over those pairs gives `[(K, 3), (J, 2)]` |
| Scenarios.DuplicateKeyEval | config_tool.py:98-99 | evaluating that dict gives the mapping `{K: 3, J: 2}` |
| Scenarios.ForwardReferenceProgram | config_tool.py:117-121 | a reference before its declaration fails with "unknown identifier" |

## Left out

- The Lark grammar and LALR parsing (`config_tool.py:8-39`, `config_tool.py:171-172`) and the syntax-error test. Parsing is done by a library outside the model, so the model starts from the parse tree the transformer receives. `Transformer.WellFormed` states the one property of that tree it relies on: NUMBER text is a number.
- The `Tree` unwrapping branch of `interp` (`config_tool.py:86-90`). It cannot be reached from the closed AST datatype.
- The "Unsupported AST node" error (`config_tool.py:151`). It cannot be reached from the closed AST datatype.
- The transformer's `self.globals` side table (`config_tool.py:46`, `config_tool.py:57`). `interp` never reads it.
- The command line, file reading and writing, the YAML dump, console output and exit codes (`config_tool.py:157-205`). These are I/O.
- `tests/test_all.py`. It runs the program as a subprocess.
- Python's dynamic typing in the RPN machine. An operator with a string or dict operand (a name bound to one) fails here with `OperandTypeError`. In Python, `+` concatenates two strings, `*` repeats a string (or raises for a count too large), and `mod` with a string left operand is printf-style formatting, which gives a string or raises an exception when the format does not fit its argument: after `global G = 5` and `global F = 'v%d'`, `.(F G mod).` yields `'v5'`. The other mixes raise.
- Transformer.ParseNumber: accepts NUMBER text of any length. CPython 3.11 and later raise a `ValueError` in `int()` for more than 4300 digits by default (`config_tool.py:61`); that limit is an interpreter setting, not part of the language.
- `Transformer.IsNumberText`: accepts ASCII digits only. Python's `\d` also matches other Unicode decimal digits.
- The exception messages. Each Python `ValueError` (and the `IndexError` and `ZeroDivisionError`) is an `Error` constructor, not text.

## Findings

| source | as written | input that shows it | evidently intended | confidence | as-written member | corrected member |
|---|---|---|---|---|---|---|
| config_tool.py:78-79 | `rpn_item` returns the raw NUMBER terminal, which is a string. `interp` pushes only `int` tokens (`config_tool.py:128`), so a numeric RPN operand is neither bound nor an operator. | `.(2 3 +).` fails with "Unknown RPN token: 2" instead of yielding `[5]` | a NUMBER inside an RPN expression becomes the integer it spells, as in the `number` rule | not executed | Transformer.RpnNumberAsWritten | Transformer.RpnTransform |
