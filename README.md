# rcalc core in Dafny

A model of the expression engine of **rcalc**, a small command-line
calculator written in Rust (src/main.rs). The engine takes one line of text
that has had its whitespace removed. It does one of two things:

- **Evaluate.** Text with no comparator is tokenized (`tokenize`) and then
  evaluated by an operator-stack algorithm (`parse_tokens`, `precedence`,
  `apply_operator`).
- **Compare.** Text that contains `=`, `<` or `>` is split on its first
  comparator (`equation_comparison`). The empty pieces are dropped, exactly
  two sides must remain, and each side is interpreted again with the
  register `ans` set to 0.0.

The model follows the source's own shape:

- `Tokenize`, `ParseTokens`, `ApplyOperator`, `EquationComparison` and
  `ParseTxt` are methods, and the source's loops are `while` loops in
  them or in their helpers (`ReadRun`, `ApplyPending`, `ApplyAll`,
  `FindComparator`, `Retain`).
  - The value vector that `apply_operator` mutates in place is the
    `ValueStack` class.
  - The in-place `sides.retain` call is rendered as the loop `Retain`,
    which collects the kept sides into a new sequence.
- Each method is proved equal to a specification function: `Tokenized`,
  `Parse`, `ApplyOp`, `Compared` and `Interpret`.
- The properties are stated about those functions.

Numbers are symbolic. A `Value` is the expression tree that the source
would compute with `f64`:

- `Lit(s)` is the float parsed from the lexeme `s`.
- `Pi` and `Euler` are the two constants.
- `Binary(op, a, b)` and `Call(f, a)` are an operator and a library
  function applied to values.

So "evaluates to `Binary('+', Lit("2"), Binary('*', Lit("3"), Lit("4")))`"
means the source computes `2.0 + 3.0 * 4.0`, grouped that way. The boolean
a comparison yields is kept as `Comp(c, lhs, rhs)`.

The main results:

- **Tokenizer.** A successful scan splits the input into lexemes. They come
  in input order, with no gaps, each one spelling its token.
  - The context rules hold: `ans` and `pi` as prefixes, `e` unless `exp`
    follows, minus as a sign or as an operator, and maximal number and name
    runs.
  - A character outside the alphabet makes the scan fail
    (`LexerFacts.LexSplitsInput`, `LexerFacts.ForeignCharacterFails`).
  - Once the scanner reaches a `-` read as a sign, the end of the input,
    a following character that is not a digit or `.`, and a signed run that
    does not parse each give their own error (`LexerFacts.SignErrors`).
    Once the scanner reaches an unsigned run that does not parse, it fails
    with "Invalid number format" (`LexerFacts.MalformedNumberFails`).
  - The lexemes that parse as floats are exactly Rust's decimal grammar
    `Digit+ | Digit* '.' Digit*` with at least one digit
    (`LexerFacts.FloatGrammar`).
- **Precedence.** `Climbing.Climb` is a reference meaning that does not
  use a stack: the root of a flat expression is its rightmost operator of
  lowest precedence.
  - `Climbing.FlatEvaluation` proves that the operator-stack algorithm
    builds exactly that tree.
  - Hence operators of one level group to the left, including `^`
    (`Climbing.ChainsGroupLeft`). The two-operator rule is
    `Climbing.TwoOperators`.
- **Scopes.** Counting `(` and function names as openers and `)` as a
  closer, `parse_tokens(tokens, start)` returns the index just past the `)`
  that closes the scope opened at `start`, or the end of the tokens when
  that scope is never closed (`EvaluatorFacts.ParseCloses`).
- **Comparison layer.** On a text `l c r`, where `c` is the first
  comparator and does not occur in `r`, and `l` and `r` are both
  non-empty, `parse_txt` interprets `l` and
  then `r`, each with `ans` = 0.0 whatever the outer `ans` is, and
  compares the two results with `c` (`Dispatcher.CompareSides`).
  - Any other number of non-empty sides fails with "Can only compare 2
    equations" (`Dispatcher.Compared`). So does a text with an empty side
    such as `=2`: the empty piece is dropped, not interpreted
    (`Dispatcher.EmptySideFails`).
  - The split loses nothing (`Dispatcher.JoinSplit`, `Dispatcher.SplitJoin`).
  - Dropping the empty pieces keeps the others in order, repeats included
    (`Dispatcher.NonEmptyConcat`, `Dispatcher.NonEmptyOne`).

The model reproduces these behaviours of the source as written. The module
`Scenarios` proves each of them on the input shown:

- A function's argument runs to the end of the enclosing scope, so
  `sqrt(16)+1` is `sqrt(16+1)`.
- A `)` with no matching `(` ends the top-level evaluation and the rest is
  ignored: `2)+3` is 2.
- An unclosed `(` is accepted: `(2` is 2.
- Values left over without an operator are dropped: `2(3)` evaluates to 3.
- Equal-precedence chains group to the left, so `2^3^2` is `(2^3)^2`.
- `1==1` compares 1 with 1, because the empty piece between the two `=`
  is dropped.
- `2+` fails with "Insufficient values in expression": draining the
  pending `+` finds one value only. The error "Invalid expression" is
  reported only when a scope ends with no value at all, as in the empty
  input or `sqrt` at the end.

## Model

| member | source | states |
|---|---|---|
| Lexer.ParseFloat | src/main.rs:131 | `num_str.parse()` on a lexeme of digits and dots succeeds exactly when `IsFloatLexeme` holds (at least one digit, at most one dot), and then yields the float of that very lexeme |
| LexerFacts.FloatShapes | src/main.rs:148-158 | a run of digits, signed or not, parses; a run of dots alone, or a run with two dots, does not |
| LexerFacts.FloatGrammar | src/main.rs:131 | a signed or unsigned run of digits and dots parses exactly when, after the sign, it is `Digit+` or `Digit* '.' Digit*` with a digit on at least one side of the dot, Rust's decimal float grammar without exponent |
| Lexer.RunEnd | src/main.rs:122-130 | the inner peek loop stops at the end of the longest run of matching characters: every character before the end matches, the one at the end does not |
| Lexer.MinusIsUnary | src/main.rs:145 | a `-` is a sign exactly when no token was emitted yet or the last one is an operator or `(`; it is binary exactly after a number, `)`, constant or function name |
| Lexer.NextLexeme | src/main.rs:119-201 | one pass of the outer loop reads a non-empty lexeme that starts at the current position and stays within the input, or fails |
| Lexer.LexFrom | src/main.rs:119-202 | the scan of the rest of the input from a position yields at most one lexeme per remaining character, and none exactly when nothing remains |
| Lexer.Lex | src/main.rs:115-204 | the scan of the whole input yields at most one lexeme per character, and none exactly for the empty input |
| Lexer.Tokenized | src/main.rs:115-204 | what `tokenize` returns: at most one token per character, and no tokens exactly for the empty input |
| Lexer.ReadRun | src/main.rs:186-196 | the character-collecting loop returns exactly the longest run and the position after it |
| Lexer.ScanToken | src/main.rs:120-201 | the match on the next character yields the lexeme the scanner specification gives for the last token pushed so far |
| Lexer.Tokenize | src/main.rs:115-204 | `tokenize` returns the tokens of the whole scan, or the first error it meets |
| LexerFacts.NextLexemeFacts | src/main.rs:133-185 | each lexeme spells its token; `ans` and `pi` prefixes win; `e` is the constant exactly when `exp` does not follow; `-` is the binary operator exactly after an operand or `)`; number and name runs are maximal |
| LexerFacts.LexFromFacts | src/main.rs:119-202 | a successful scan from any position tiles the rest of the input with correctly chosen lexemes |
| LexerFacts.LexSplitsInput | src/main.rs:115-204 | a successful scan splits the whole input into lexemes, in order, without gaps or overlaps, each chosen as the scanner chooses |
| LexerFacts.SpellingInAlphabet | src/main.rs:121-197 | every character of a correctly spelled lexeme is a digit, `.`, an operator, a parenthesis or a letter |
| LexerFacts.ForeignCharacterFails | src/main.rs:198-200 | any character outside that alphabet, anywhere in the input, makes tokenizing fail |
| LexerFacts.ScanFailsAt | src/main.rs:119-203 | once the scanner has reached a position, a step that fails there is the error `tokenize` returns |
| LexerFacts.SignErrors | src/main.rs:143-164 | at a `-` read as a sign, `tokenize` fails with "Unexpected end of input after '-'" at the end of the input, with "Unexpected character after '-'" before anything but a digit or `.`, and with "Invalid number format" when the signed run does not parse |
| LexerFacts.MalformedNumberFails | src/main.rs:121-131 | once the scanner has reached a maximal run of digits and dots that does not parse, `tokenize` fails with "Invalid number format" |
| Evaluator.Precedence | src/main.rs:276-283 | precedence is between 0 and 3 and positive exactly for the five operators |
| Evaluator.ConstantValue | src/main.rs:222-226 | a constant has a value exactly when it is `pi` (the value π) or `e` (Euler's number) |
| Evaluator.FunctionValue | src/main.rs:232-243 | a function applies exactly when its name is one of the ten the evaluator knows |
| Evaluator.ApplyOp | src/main.rs:285-298 | applying succeeds exactly with two values and an operator character; it then replaces the top two values `a`, `b` by `a op b` and keeps the rest; otherwise it fails with "Insufficient values" or "Unexpected operator" |
| Evaluator.Reduce | src/main.rs:249-251 | the pop-and-apply loop leaves a prefix of the operator stack whose top is below the threshold; it adds no values and removes one per operator applied, and leaves the bottom of the value stack untouched |
| Evaluator.Scope | src/main.rs:215-273 | the rest of a scan ends at or after its start; it ends within the tokens, and just after a `)` when before their end; every constant and function it consumed is known |
| Evaluator.Parse | src/main.rs:211-274 | a successful `parse_tokens` consumes at least one token; it stops at the end of the tokens or just after a `)`, and every name it consumed is known |
| Evaluator.Evaluation | src/main.rs:206-209 | `evaluate_expression` yields a number result, and only for a non-empty token list; no tokens fail with "Invalid expression" |
| Evaluator.ValueStack.constructor | src/main.rs:212 | the value vector starts empty |
| Evaluator.ValueStack.Push | src/main.rs:218 | `push` puts the value on top and keeps the rest |
| Evaluator.ValueStack.Pop | src/main.rs:286-287 | `pop` on an empty vector gives nothing and changes nothing; otherwise it removes and returns the top value |
| Evaluator.ApplyOperator | src/main.rs:285-298 | `apply_operator` on the vector in place: on success the new stack is that of `ApplyOp`; on failure the values popped before the failure are gone |
| Evaluator.ApplyPending | src/main.rs:249-251 | the loop before pushing an operator leaves the value stack and operator stack of `Reduce` at that operator's precedence, or its error |
| Evaluator.ApplyAll | src/main.rs:269-271 | the draining loop empties the operator stack, leaving the values of `Reduce` at precedence 0, or its error |
| Evaluator.ParseStep | src/main.rs:215-266 | one pass of the token loop either finishes the scope with the result `Scope` gives (an error, or the value closed by a `)`), or moves strictly forward to a position and stacks from which the scope has the same outcome |
| Evaluator.ParseTokens | src/main.rs:211-274 | the imperative `parse_tokens`, recursing for function arguments and parentheses, returns what `Parse` specifies |
| Evaluator.EvaluateExpression | src/main.rs:206-209 | `evaluate_expression` returns the value of the scope at 0 as a number result |
| EvaluatorFacts.EmptyScopeAtEnd | src/main.rs:269-273 | a scope that starts at the end of the tokens fails with "Invalid expression" |
| EvaluatorFacts.EmptyScopeAtParen | src/main.rs:260-264 | a scope that is closed where it starts fails with "Mismatched parentheses" |
| EvaluatorFacts.EmptyInput | src/main.rs:206-209 | evaluating no tokens fails with "Invalid expression" |
| EvaluatorFacts.ScopeCloses | src/main.rs:215-273 | the rest of a scope from any position and any stacks ends at the end of the tokens, or just after the `)` that takes the nesting depth counted from that position to -1; the depth stays at 0 or above before that |
| EvaluatorFacts.ParseCloses | src/main.rs:211-274 | `parse_tokens(tokens, start)` returns the index just past the `)` that closes the scope opened at start, counting `(` and function names as openers, or the end of the tokens when that scope is never closed |
| EvaluatorFacts.UnknownNameFails | src/main.rs:221-244 | an unknown constant or function name fails the evaluation when no `)` before it takes the nesting depth below 0 and so ends the top-level scope early |
| Climbing.HandleReduces | src/main.rs:249-250 | applying an operator that binds tighter than its left neighbour and no looser than its right one leaves the reference tree unchanged |
| Climbing.ReduceClimbs | src/main.rs:249-251 | the pop-and-apply loop never fails on a flat expression; it keeps the operator stack strictly ascending and the meaning of the pending expression unchanged |
| Climbing.ReadOperator | src/main.rs:216-253 | reading an operand and then an operator of a flat expression never fails, and the new stacks followed by the unread rest still have the same reference tree |
| Climbing.FlatEvaluation | src/main.rs:211-274 | on `x0 o1 x1 ... on xn`, `parse_tokens` consumes every token and returns the tree whose root is the rightmost operator of lowest precedence, recursively |
| Climbing.OneLevelGroupsLeft | src/main.rs:276-283 | when all operators share a precedence level, the reference tree is the left fold |
| Climbing.ChainsGroupLeft | src/main.rs:249 | because the loop pops on `>=`, a chain of one precedence level, `^` included, evaluates left to right |
| Climbing.TwoOperators | src/main.rs:248-254 | in `a o1 b o2 c` the second operator is applied first exactly when its precedence is strictly higher |
| Dispatcher.FirstComparator | src/main.rs:106 | the position found is the first `=`, `<` or `>`; none is found exactly when there is none |
| Dispatcher.FindComparator | src/main.rs:106 | the scan over the bytes returns that first comparator position |
| Dispatcher.Split | src/main.rs:80 | `split` yields at least one piece; no piece contains the separator, and every piece is shorter than the text when the separator occurs |
| Dispatcher.JoinSplit | src/main.rs:80 | joining the pieces with the separator gives back the text |
| Dispatcher.SplitJoin | src/main.rs:80 | splitting a join of separator-free pieces gives back the pieces |
| Dispatcher.NonEmpty | src/main.rs:81 | `retain` keeps only non-empty pieces, every non-empty piece is kept, and none is added |
| Dispatcher.NonEmptyOne | src/main.rs:81 | a single piece is kept exactly when it is not empty |
| Dispatcher.NonEmptyConcat | src/main.rs:81 | filtering distributes over concatenation, so the kept pieces stay in their order, repeats included |
| Dispatcher.Retain | src/main.rs:81 | the in-place `retain`, rendered as a loop that collects the kept pieces, yields exactly `NonEmpty` of the pieces |
| Dispatcher.Interpret | src/main.rs:105-113 | text without a comparator yields a number result; text with one yields a comparison at its first comparator |
| Dispatcher.Compared | src/main.rs:78-103 | a comparison succeeds only for `=`, `<` or `>` and with exactly two non-empty sides; any other count fails with "Can only compare 2 equations" |
| Dispatcher.CompareSides | src/main.rs:78-113 | on `l c r`, with c the first comparator and absent from r, and l and r both non-empty, `parse_txt` interprets l and then r, each with `ans` = 0.0 whatever the outer `ans`, and yields their comparison with c, or the error of the first side that fails |
| Dispatcher.EmptySideFails | src/main.rs:80-83 | a text `c r` with an empty left side fails with "Can only compare 2 equations": the empty piece is dropped, not interpreted |
| Dispatcher.DoubledComparator | src/main.rs:80-81 | `l c c r` means the same as `l c r`, because the empty piece between the two copies is dropped |
| Dispatcher.ScannedConstantsKnown | src/main.rs:177-185 | the scanner emits only the constants `pi` and `e`, so "Unknown constant" cannot arise from a text |
| Dispatcher.ParseTxt | src/main.rs:105-113 | `parse_txt` returns what `Interpret` specifies |
| Dispatcher.EquationComparison | src/main.rs:78-103 | `equation_comparison` returns what `Compared` specifies |
| Scenarios.ComparatorNeverScans | src/main.rs:198-200 | `=`, `<` and `>` belong to no token, so a text holding one does not tokenize |
| Scenarios.InterpretTwoOperators | src/main.rs:248-254 | `a o1 b o2 c` on digits, as a text: the second operator is applied first exactly when it binds strictly tighter |
| Scenarios.ProductAfterSum | src/main.rs:105-113 | `parse_txt("2+3*4")` is `2+(3*4)` whatever `ans` holds |
| Scenarios.PowerGroupsLeft | src/main.rs:249 | `parse_txt("2^3^2")` is `(2^3)^2` |
| Scenarios.FunctionTakesScope | src/main.rs:230-246 | on the tokens of `f(x)+y` the function is applied to `x+y`: its argument is the whole scope after the name |
| Scenarios.FunctionCall | src/main.rs:230-246 | `parse_txt("sqrt(16)+1")` is the square root of `16+1` |
| Scenarios.StrayCloseEnds | src/main.rs:260-264 | a number followed by `)` is the value of the whole evaluation, whatever tokens follow |
| Scenarios.StrayClose | src/main.rs:260-264 | `parse_txt("2)+3")` is 2 |
| Scenarios.UnclosedOpen | src/main.rs:255-273 | `parse_txt("(2")` is 2: the end of the tokens closes the open group |
| Scenarios.JuxtapositionKeepsLast | src/main.rs:255-273 | on the tokens of `x(y)` both values stay on the stack and the top one, y, is the result |
| Scenarios.Juxtaposition | src/main.rs:255-273 | `parse_txt("2(3)")` is 3 |
| Scenarios.AnsRegister | src/main.rs:133-138 | `parse_txt("ans+1", ans)` is the register passed in plus one |
| Scenarios.GreaterThan | src/main.rs:78-99 | `parse_txt("3>2")` compares 3 with 2, whatever `ans` holds |
| Scenarios.SingleEquals | src/main.rs:78-95 | `parse_txt("1=1")` compares 1 with 1 |
| Scenarios.DoubleEquals | src/main.rs:80-95 | `parse_txt("1==1")` compares 1 with 1 |
| Scenarios.ScanSignBeforeOpen | src/main.rs:145-161 | a text that starts with `-(` fails to tokenize with "Unexpected character after '-'" |
| Scenarios.SignBeforeGroup | src/main.rs:145-161 | `parse_txt("-(2+3)")` fails with "Unexpected character after '-'" |
| Scenarios.LoneClose | src/main.rs:260-264 | `parse_txt(")")` fails with "Mismatched parentheses" |
| Scenarios.TrailingOperator | src/main.rs:269-287 | on the tokens of `x o`, draining the pending operator finds one value only and fails with "Insufficient values in expression" |
| Scenarios.MissingOperand | src/main.rs:269-287 | `parse_txt("2+")` fails with "Insufficient values in expression" |
| Scenarios.ForeignCharacter | src/main.rs:198-200 | `parse_txt("2@3")` fails with "Unexpected character: @" |

## Left out

- `main` is not part of this model: the command-line and REPL loop, whitespace stripping, printing, `termsize` and the `eval`/`defn`/`exit` commands. `Mode::Define` is `todo!()` in the source.
- `f64` arithmetic and the library functions (`sin`, `sqrt`, `powf`, ...) are not computed. Values are symbolic trees, so rounding, NaN and infinities are not modelled.
- The derived `PartialEq`/`PartialOrd` on `EvalResult`, which turns a comparison into a `bool`, is not modelled. `Comp(c, l, r)` records which comparison would be made on which results.
- `char::is_alphabetic` is modelled for ASCII letters only. Other Unicode letters would form function names in the source and are scanning errors here.
- Text is a sequence of characters, and positions are character positions. The source finds the comparator with a byte index (`as_bytes`, `bytes().position`). The two agree for ASCII input only.
- `str::parse::<f64>` is modelled only on the lexemes the scanner can produce (an optional `-`, then digits and dots). It is accepted exactly when it has at least one digit and at most one dot.
- The `comp_index.unwrap()` panic in `equation_comparison` is not modelled. `EquationComparison` requires an index inside the text, which `parse_txt` always passes.
- `Evaluator.Scope` and `Evaluator.Parse`: their contracts describe a successful scan only. Which error a failing scan reports follows from their definitions. Lemmas state it for empty scopes and unknown names in general, and for `)` and `2+` as scenarios; no general lemma states when "Insufficient values" arises.
