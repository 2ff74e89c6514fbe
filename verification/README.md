# rlox expression front end, modelled in Dafny

This project models the part of the rlox front end that has code behind it:

- the **token model**: the closed `TokenType` enumeration, the `Literal`
  payload (a string or a number) and the immutable `Token` record built by
  `Token::new`;
- the **expression tree**: the four node records (`BinaryExpr`,
  `LiteralExpr`, `GroupingExpr`, `UnaryExpr`), the `Expr` sum over them, the
  `Expr::binary` smart constructor, and visitor dispatch by `Expr::accept`,
  which walks the tree in post-order;
- the **parser cursor** over a token vector (`new`, `at_end`, `peek`,
  `previous`, `advance`, `check`, `matches_any`) and the **equality rule**
  (`equality`, with `expression` above it), which folds operands separated by
  `==` / `!=` into a left-associated tree.

Files: `wrappers.dfy` (an `Option` type), `tokens.dfy` (module `Tokens`),
`exprs.dfy` (module `Exprs`), `parsing.dfy` (module `Parsing`).

How the model is shaped:

- Tokens and trees are immutable values. The parser state is a record
  `Parser(tokens, current)`; a primitive that moves the cursor returns the
  next state.
- A visitor is a record of four functions, one per node kind. Each takes the
  visitor's state and the node and returns the next state and a result.
  `Accept` threads the state through the children before it calls the
  parent's own method, and it returns only that method's result. A visitor
  with no state uses the unit type as its state; state kept by a `&self`
  visitor through interior mutability is threaded explicitly. The counting visitor that the source's tests describe keeps four
  counters as its state.
- The traversal is checked against an independent reference, `PostOrder`,
  and a fold `Run` that dispatches each node once in order.
  `AcceptIsPostOrder` shows that `Accept` is exactly that fold, and that it
  returns the root's own visit.
- The cursor invariant is `Valid`: the stream contains an end-of-input token,
  and the cursor has not passed the first one. `EofIndex` gives that first
  position.
- The operand rule `comparison` has no body in the source (`todo!()`). It is
  passed as a parameter. The predicate `OperandParser` says the only things
  assumed about it: it keeps the token sequence, keeps the cursor valid, and
  never moves the cursor back.
- `Equality` is a loop, like the source. Its ghost results name the first
  operand and the `Link`s (operator, position, operand) of the fold. The
  predicate `Folded` ties those to the token stream and to the operand rule.
  `FoldedUnique` shows that this postcondition, together with the stop
  condition, fixes the result exactly.

## Model

| member | source | states |
|---|---|---|
| Tokens.NewToken | src/token.rs:16-23 | the token built has exactly the given kind, lexeme, literal and line |
| Tokens.NewTokenRoundTrip | src/token.rs:15-24 | every token is the one `Token::new` builds from its own fields, and two constructions give the same token only when all four arguments agree |
| Tokens.Discriminant | src/token.rs:26-47 | every kind has a declaration position below 39, and only `Eof`, declared last, has position 38, so `Eof` differs from every other kind |
| Tokens.LiteralExclusive | src/token.rs:2-5 | a literal payload is exactly one of a string or a number |
| Exprs.MakeBinary | src/expr.rs:35-41 | `Expr::binary` gives a Binary node whose left, operator and right are exactly the arguments, one node larger than its two children together |
| Exprs.PostOrder | src/expr.rs:43-60 | the reference traversal lists every node once (its length is the tree's size) and ends with the root |
| Exprs.AcceptIsPostOrder | src/expr.rs:43-60 | `accept` changes the visitor's state as if each node were dispatched once in post-order, and returns the root's own visit, made after all its descendants |
| Exprs.AcceptLiteral | src/expr.rs:50 | on a Literal, `accept` makes one `visit_literal` call and visits nothing else |
| Exprs.AcceptStateless | src/expr.rs:43-60 | for a visitor without state, the children's results are discarded: `accept` returns exactly the root's own visit |
| Exprs.ChildrenVisitedFirst | src/expr.rs:45-58 | every child of a node in the post-order sequence occurs earlier in that sequence, with nodes compared as values (the exact order is fixed by `AcceptIsPostOrder`) |
| Exprs.NodeCounts | src/expr.rs:26-32 | the per-kind node counts add up to the tree's size, and every tree has at least one Literal leaf |
| Exprs.SumOwnAppend | src/expr.rs:26-32 | the per-kind counts of two node sequences laid end to end are the sums of their counts |
| Exprs.NodeCountsOfPostOrder | src/expr.rs:26-32 | the post-order node sequence holds, per kind, exactly as many nodes as the tree |
| Exprs.RunCounts | src/expr.rs:43-60 | a visitor whose every method adds one to the counter of its node kind, fed a node sequence, adds exactly that sequence's per-kind counts |
| Exprs.CountsNodes | src/expr.rs:43-60 | `accept` with any such counting visitor adds exactly the tree's per-kind node counts: each node is visited once |
| Exprs.CountingVisitorCountsNodes | src/expr.rs:43-60 | each node is visited exactly once: the counting visitor's per-kind counts grow by the tree's per-kind node counts |
| Exprs.RunTraces | src/expr.rs:43-60 | a visitor that records each node it is shown, fed a node sequence, appends exactly that sequence to its record |
| Exprs.TraceIsPostOrder | src/expr.rs:43-60 | a visitor that records each node it is shown records exactly the post-order node sequence |
| Exprs.OnePlusTwoCounts | src/expr.rs:109-130 | the tree for `1 + 2` gets 1 binary, 2 literal, 0 grouping and 0 unary visits |
| Exprs.MinusTwoCounts | src/expr.rs:132-147 | the tree for `-2` gets 0 binary, 1 literal, 0 grouping and 1 unary visit |
| Parsing.New | src/parser.rs:12-14 | a new parser holds the given tokens with the cursor at 0, and it satisfies the cursor invariant exactly when the stream contains an end-of-input token |
| Parsing.EofIndex | src/parser.rs:16-22 | the position it gives is within the stream, no token before it is end of input, and when it is inside the stream the token there is end of input |
| Parsing.EofIndexIsFirstEof | src/parser.rs:16-22 | a position holding end of input with no end of input before it is the position `EofIndex` gives |
| Parsing.Peek | src/parser.rs:20-22 | in a valid state, the token under the cursor is end of input exactly when the cursor is on the first end-of-input token |
| Parsing.AtEnd | src/parser.rs:16-18 | in a valid state, `at_end` holds exactly when the cursor is on the first end-of-input token |
| Parsing.Previous | src/parser.rs:24-26 | `previous` reads the token before the cursor, which must exist. In a valid state that token is never end of input, so the operator `equality` reads back at src/parser.rs:66 is a real token |
| Parsing.Advance | src/parser.rs:28-33 | the cursor moves forward by one unless it is at end of input, where it stays put. The token returned is the one just consumed, or the one before end of input. The cursor invariant is kept |
| Parsing.Check | src/parser.rs:35-41 | `check(ty)` holds exactly when `ty` is not `Eof` and the current token has kind `ty`, so `check(Eof)` is always false |
| Parsing.MatchesAny | src/parser.rs:43-52 | the result is true exactly when some kind in the list passes `check`, which means the current token is not end of input and its kind is in the list. On true the cursor moves forward by exactly one. On false the parser is unchanged. An empty list gives false without reading any token |
| Parsing.AdvanceTimes | src/parser.rs:24-33 | any number of `advance` calls keeps the invariant: the cursor moves forward one token per call and stops on the first end-of-input token. Every call is a real `advance`, so when the stream starts with end of input only zero calls are allowed, because a call would read position -1 |
| Parsing.AdvanceAtEndIsFixed | src/parser.rs:28-41 | at end of input, `advance` changes nothing and neither `==` nor `!=` passes `check` |
| Parsing.AdvanceOnEofOnlyStreamUnderflows | src/parser.rs:24-33 | on a stream with only the end-of-input token, a new parser is valid and at end but has no previous token, so `advance` there would read position -1 |
| Parsing.FoldedExtend | src/parser.rs:65-69 | one loop iteration (an `==`/`!=` token, then an operand) extends the fold's derivation by exactly one link |
| Parsing.OperandStep | src/parser.rs:58-60 | the assumption `OperandParser` made about the operand rule, taken at one valid state: it is assumed to keep the tokens, keep the cursor invariant and not move the cursor back |
| Parsing.OperandAfterOperator | src/parser.rs:65-67 | the operand parsed just after an operator token ends past that token and no later than the first end-of-input token |
| Parsing.LinkStep | src/parser.rs:65-68 | the last operator of the fold sits where the operand before it ended, and the operand after it ends later, still within the stream |
| Parsing.LastLinkOperator | src/parser.rs:65-66 | the operand before the fold's last operator ends on an `==` or `!=` token |
| Parsing.DerivationEndBound | src/parser.rs:62-72 | the operands of the fold end at or after the cursor and no later than the first end-of-input token |
| Parsing.DerivationLinks | src/parser.rs:65-68 | each operator of the fold is the `==` or `!=` token at its recorded position, and each right operand is what the operand rule returns just after that operator |
| Parsing.DerivationBetween | src/parser.rs:62-72 | every consumed operator lies at or after the starting cursor and before the end of the last operand |
| Parsing.DerivationIncreasing | src/parser.rs:62-72 | the operators are consumed at strictly increasing positions |
| Parsing.DerivationDeterministic | src/parser.rs:62-72 | two derivations of the same length from the same state are equal: each link is forced by the one before |
| Parsing.NextOperator | src/parser.rs:65 | a derivation that is a proper prefix of another ends on an `==` or `!=` token |
| Parsing.FoldedUnique | src/parser.rs:62-72 | the postcondition of `equality` (the derivation, and stopping on a token that is neither `==` nor `!=`) determines its result uniquely |
| Parsing.Equality | src/parser.rs:62-72 | the result is the left-associated tree `Binary(...Binary(e0, o1, e1)..., on, en)` of the operands and the operators consumed. The loop stops on the first token that is neither `==` nor `!=` (or at end of input) and does not consume it. The cursor never moves back and the cursor invariant is kept |
| Parsing.Expression | src/parser.rs:54-56 | `expression` has exactly the contract of `equality` |
| Parsing.ChainDerivation | src/parser.rs:62-72 | for `a == b != c`, the fold with the `==` link at position 1 and the `!=` link at position 3 follows the stream and ends on end of input at position 5 |
| Parsing.EqualityChainExample | src/parser.rs:62-72 | for `a == b != c`, where the operand rule reads one token per operand, every possible result of `equality` is `Binary(Binary(a, ==, b), !=, c)`, with the cursor left on end of input |

## Left out

- src/scanner.rs: `scan` returns an empty vector and holds no lexing logic. Operator disambiguation, string and number literals, comments and keyword lookup are not modelled, because the code does not contain them.
- src/main.rs: file reading, the REPL loop, printing, argument handling and the process exit are I/O. `run` only calls the scanner and discards the result.
- `comparison` and every higher precedence level: the source has only `todo!()` (src/parser.rs:58-60). It is a parameter of `Equality`, and nothing is assumed about it beyond `OperandParser`.
- Parsing.Equality: its precondition `OperandParser` assumes three things of the operand rule: it keeps the token sequence, keeps the cursor invariant, and never moves the cursor back. The source's `comparison` has no body, so nothing weaker is available. Without such an assumption the loop need not terminate.
- Tokens.Discriminant: states that every kind has a position below 39 and that `Eof` alone has the last one, but not that all 39 positions are pairwise distinct. The constructors of the datatype are distinct by definition, and a pairwise proof over all 39 kinds is out of proportion to what it adds.
- `Literal::Number` holds an `f64`. The model keeps its 64-bit pattern as an opaque value and does no floating-point arithmetic.
- Lifetimes and borrowing (`&'a Token`, `Box`) are ownership details. Tokens and trees are plain values, and the lexeme is an owned string.
- `usize` widths: the line number and the cursor are unbounded naturals. The cursor never exceeds the vector length, so this loses nothing.
- Panics on out-of-range indexing: `peek` and `previous` index the token vector, and Rust panics out of range. The model turns these bounds into preconditions of `Peek`, `Previous`, `AtEnd`, `Advance`, `Check` and `MatchesAny`. `MatchesAny` needs the bound only for a non-empty list of kinds, since the source loop never calls `check` on an empty one. `MatchesAny` calls `Advance` only after `Check` succeeds, so the parser itself never hits the `advance` underflow.
- The source's test `CountingVisitor` has `todo!()` bodies and commented-out asserts. Its intended counts are stated as `OnePlusTwoCounts` and `MinusTwoCounts`, using a counting visitor the model defines.
- Rust visitors take `&self`. They can still change state through interior mutability (`Cell`, `RefCell`). In the model, a visitor threads a state value instead, which covers both that case and the stateless one. A stateless visitor is the unit-state case (`AcceptStateless`).
- The code has no `parse` entry point, no `primary` or `unary` rule, and no parse errors. Only the equality level exists, so the model has no error results for parsing.
- src/main.rs does not declare the `expr` and `parser` modules, so those two files are not compiled into the program. The model follows their code as written.
- The code does not enforce that only String and Number tokens carry a literal. Any token may carry one, and the model follows the code here.
