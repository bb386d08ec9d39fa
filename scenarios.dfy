/**
 * Whole inputs of `parse_txt`, worked through the model: precedence
 * (`2+3*4`), grouping of `^` (`2^3^2`), a function's argument
 * (`sqrt(16)+1`), a stray `)` (`2)+3`), an unclosed `(` (`(2`), two values
 * side by side (`2(3)`), the register (`ans+1`), the comparison layer
 * (`3>2`, `1==1`) and errors of the scanner (`-(2+3)`, `2@3`) and of the
 * evaluator (`)`, `2+`). Each concrete input is an instance of a lemma
 * stated character by character, or about a whole family of inputs.
 */
module Scenarios {
  import opened Model
  import opened Lexer
  import opened LexerFacts
  import opened Evaluator
  import opened Climbing
  import opened Dispatcher

  /** A maximal run of digits from i to j is a number lexeme. */
  lemma NumberAt(txt: string, i: nat, j: nat, prev: Option<Token>, ans: Value)
    requires i < j <= |txt| && forall k :: i <= k < j ==> IsDigit(txt[k])
    requires j == |txt| || !IsNumeric(txt[j])
    ensures NextLexeme(txt, i, prev, ans) == Ok(Lexeme(Number(Lit(txt[i..j])), i, j))
  {
    RunEndUnique(txt, i, j, IsNumeric);
    var s := txt[i..j];
    assert s[0] == txt[i];
    assert forall k :: 0 <= k < |s| ==> s[k] == txt[i + k];
  }

  /**
   * The parentheses and the operators are lexemes of one character; a `-`
   * is the binary operator when a number precedes it.
   */
  lemma SymbolAt(txt: string, i: nat, prev: Option<Token>, ans: Value)
    requires i < |txt| && (txt[i] == '(' || txt[i] == ')' || IsOperatorChar(txt[i]))
    requires txt[i] == '-' ==> prev.Some? && prev.value.Number?
    ensures NextLexeme(txt, i, prev, ans) ==
      Ok(Lexeme(if txt[i] == '(' then LeftParen else if txt[i] == ')' then RightParen else Operator(txt[i]), i, i + 1))
  {
  }

  /** A maximal run of letters that is not `ans`, `pi` or `e...` is a function name. */
  lemma NameAt(txt: string, i: nat, j: nat, prev: Option<Token>, ans: Value)
    requires i < j <= |txt| && forall k :: i <= k < j ==> IsAlphabetic(txt[k])
    requires j == |txt| || !IsAlphabetic(txt[j])
    requires txt[i] != 'a' && txt[i] != 'p' && txt[i] != 'e'
    ensures NextLexeme(txt, i, prev, ans) == Ok(Lexeme(Function(txt[i..j]), i, j))
  {
    RunEndUnique(txt, i, j, IsAlphabetic);
  }

  /** The last lexeme, which ends the input. */
  lemma LexLast(txt: string, prev: Option<Token>, ans: Value, l: Lexeme)
    requires l.start < |txt| == l.end && NextLexeme(txt, l.start, prev, ans) == Ok(l)
    ensures LexFrom(txt, l.start, prev, ans) == Ok([l])
  {
    assert [l] + [] == [l];
  }

  /** The first lexeme of ls in front of the scan of the rest. */
  lemma LexCons(txt: string, prev: Option<Token>, ans: Value, ls: seq<Lexeme>)
    requires |ls| >= 1 && ls[0].start < |txt| && ls[0].end <= |txt|
    requires NextLexeme(txt, ls[0].start, prev, ans) == Ok(ls[0])
    requires LexFrom(txt, ls[0].end, Some(ls[0].token), ans) == Ok(ls[1..])
    ensures LexFrom(txt, ls[0].start, prev, ans) == Ok(ls)
  {
    assert [ls[0]] + ls[1..] == ls;
  }

  /** The tokens of a whole scan. */
  lemma LexTokens(txt: string, ans: Value, ls: seq<Lexeme>, ts: seq<Token>)
    requires LexFrom(txt, 0, None, ans) == Ok(ls)
    requires |ls| == |ts| && forall k :: 0 <= k < |ls| ==> ls[k].token == ts[k]
    ensures Tokenized(txt, ans) == Ok(ts)
  {
    assert TokensOf(ls) == ts;
  }

  /** A digit followed by an operator, in front of the scan of the rest. */
  lemma LexDigitOperator(txt: string, i: nat, prev: Option<Token>, ans: Value, rest: seq<Lexeme>)
    requires i + 2 <= |txt| && IsDigit(txt[i]) && IsOperatorChar(txt[i + 1])
    requires LexFrom(txt, i + 2, Some(Operator(txt[i + 1])), ans) == Ok(rest)
    ensures LexFrom(txt, i, prev, ans) ==
      Ok([Lexeme(Number(Lit([txt[i]])), i, i + 1), Lexeme(Operator(txt[i + 1]), i + 1, i + 2)] + rest)
  {
    var l0 := Lexeme(Number(Lit([txt[i]])), i, i + 1);
    var l1 := Lexeme(Operator(txt[i + 1]), i + 1, i + 2);
    assert txt[i..i + 1] == [txt[i]];
    SymbolAt(txt, i + 1, Some(l0.token), ans);
    assert ([l1] + rest)[1..] == rest;
    LexCons(txt, Some(l0.token), ans, [l1] + rest);
    NumberAt(txt, i, i + 1, prev, ans);
    assert ([l0, l1] + rest)[1..] == [l1] + rest;
    LexCons(txt, prev, ans, [l0, l1] + rest);
  }

  /** An operator token is pushed after the reduction its precedence calls for. */
  lemma ScopePush(ts: seq<Token>, index: nat, vs: seq<Value>, ops: seq<char>, o: char, vs': seq<Value>, ops': seq<char>)
    requires index < |ts| && ts[index] == Operator(o) && Reduce(vs, ops, Precedence(o)) == Ok((vs', ops'))
    ensures Scope(ts, index, vs, ops) == Scope(ts, index + 1, vs', ops' + [o])
  {
  }

  /** With no pending operator there is nothing to reduce. */
  lemma ReduceNothing(vs: seq<Value>, p: int)
    ensures Reduce(vs, [], p) == Ok((vs, []))
  {
  }

  /** One pending operator between the two values on the stack is applied when draining. */
  lemma ReduceLast(a: Value, o: char, b: Value)
    requires IsOperatorChar(o)
    ensures Reduce([a, b], [o], 0) == Ok(([Binary(o, a, b)], []))
  {
    assert [o][..0] == [];
    ReduceNothing([Binary(o, a, b)], 0);
  }

  /** A `(` pushes the value of the scope it opens and goes on after that scope. */
  lemma ScopeGroup(ts: seq<Token>, index: nat, vs: seq<Value>, ops: seq<char>, v: Value, next: nat)
    requires index < |ts| && ts[index] == LeftParen && Parse(ts, index + 1) == Ok((v, next))
    ensures Scope(ts, index, vs, ops) == Scope(ts, next, vs + [v], ops)
  {
  }

  /** A known function pushes its value on the scope that follows its name. */
  lemma ScopeCall(ts: seq<Token>, index: nat, vs: seq<Value>, ops: seq<char>, v: Value, next: nat)
    requires index < |ts| && ts[index].Function? && IsKnownFunction(ts[index].name)
    requires Parse(ts, index + 1) == Ok((v, next))
    ensures Scope(ts, index, vs, ops) == Scope(ts, next, vs + [Call(ts[index].name, v)], ops)
  {
  }

  /** A `)` ends the scope with the top value after draining the operators. */
  lemma ScopeClose(ts: seq<Token>, index: nat, vs: seq<Value>, ops: seq<char>, ws: seq<Value>)
    requires index < |ts| && ts[index] == RightParen
    requires Reduce(vs, ops, 0).Ok? && Reduce(vs, ops, 0).value.0 == ws && ws != []
    ensures Scope(ts, index, vs, ops) == Ok((ws[|ws| - 1], (index + 1) as nat))
  {
  }

  /** At the end of the tokens the scope's value is the top of the drained value stack. */
  lemma ScopeFinish(ts: seq<Token>, index: nat, vs: seq<Value>, ops: seq<char>, ws: seq<Value>)
    requires index >= |ts| && Reduce(vs, ops, 0).Ok? && Reduce(vs, ops, 0).value.0 == ws && ws != []
    ensures Scope(ts, index, vs, ops) == Ok((ws[|ws| - 1], index))
  {
  }

  /** `a o b` is `Binary(o, a, b)`. */
  lemma OneOperator(ts: seq<Token>, a: Value, o: char, b: Value)
    requires |ts| == 3 && ts[0] == Number(a) && ts[1] == Operator(o) && ts[2] == Number(b)
    requires IsOperatorChar(o)
    ensures Evaluation(ts) == Ok(Num(Binary(o, a, b)))
  {
    ScopeNumber(ts, 0, [], [], a);
    ReduceNothing([a], Precedence(o));
    ScopePush(ts, 1, [a], [], o, [a], []);
    ScopeNumber(ts, 2, [a], [o], b);
    ReduceLast(a, o, b);
    ScopeEnd(ts, 3, [a, b], [o], Binary(o, a, b));
  }

  /** The lone number x is its own value. */
  lemma EvaluateNumber(x: Value)
    ensures Evaluation([Number(x)]) == Ok(Num(x))
  {
    ScopeNumber([Number(x)], 0, [], [], x);
    ScopeEnd([Number(x)], 1, [x], [], x);
  }

  /** `=`, `<` and `>` are not part of any token: a text holding one does not scan. */
  lemma ComparatorNeverScans(txt: string, ans: Value)
    ensures FirstComparator(txt).Some? ==> Tokenized(txt, ans).Err?
  {
    if FirstComparator(txt).Some? {
      ForeignCharacterFails(txt, ans, FirstComparator(txt).value);
    }
  }

  /** A text of one digit scans as one number. */
  lemma ScanDigit(txt: string, ans: Value)
    requires |txt| == 1 && IsDigit(txt[0])
    ensures Tokenized(txt, ans) == Ok([Number(Lit(txt))])
  {
    var l0 := Lexeme(Number(Lit(txt)), 0, 1);
    assert txt[0..1] == txt;
    NumberAt(txt, 0, 1, None, ans);
    LexLast(txt, None, ans, l0);
    LexTokens(txt, ans, [l0], [Number(Lit(txt))]);
  }

  /** A text of one digit is that number. */
  lemma InterpretDigit(txt: string, ans: Value)
    requires |txt| == 1 && IsDigit(txt[0])
    ensures Interpret(txt, ans) == Ok(Num(Lit(txt)))
  {
    ScanDigit(txt, ans);
    EvaluateNumber(Lit(txt));
    ComparatorNeverScans(txt, ans);
  }

  /** `d o d o d`, three digits with two operators between them, scans as five tokens. */
  lemma ScanTwoOperators(txt: string, ans: Value)
    requires |txt| == 5 && IsDigit(txt[0]) && IsDigit(txt[2]) && IsDigit(txt[4])
    requires IsOperatorChar(txt[1]) && IsOperatorChar(txt[3])
    ensures Tokenized(txt, ans) ==
      Ok([Number(Lit([txt[0]])), Operator(txt[1]), Number(Lit([txt[2]])), Operator(txt[3]), Number(Lit([txt[4]]))])
  {
    var l4 := Lexeme(Number(Lit([txt[4]])), 4, 5);
    assert txt[4..5] == [txt[4]];
    NumberAt(txt, 4, 5, Some(Operator(txt[3])), ans);
    LexLast(txt, Some(Operator(txt[3])), ans, l4);
    var l0, l1 := Lexeme(Number(Lit([txt[0]])), 0, 1), Lexeme(Operator(txt[1]), 1, 2);
    var l2, l3 := Lexeme(Number(Lit([txt[2]])), 2, 3), Lexeme(Operator(txt[3]), 3, 4);
    LexDigitOperator(txt, 2, Some(Operator(txt[1])), ans, [l4]);
    assert [l2, l3] + [l4] == [l2, l3, l4];
    LexDigitOperator(txt, 0, None, ans, [l2, l3, l4]);
    assert [l0, l1] + [l2, l3, l4] == [l0, l1, l2, l3, l4];
    LexTokens(txt, ans, [l0, l1, l2, l3, l4],
      [Number(Lit([txt[0]])), Operator(txt[1]), Number(Lit([txt[2]])), Operator(txt[3]), Number(Lit([txt[4]]))]);
  }

  /**
   * `a o1 b o2 c` on digits a, b, c: the second operator is applied first
   * exactly when it binds strictly tighter than the first.
   */
  lemma InterpretTwoOperators(txt: string, ans: Value)
    requires |txt| == 5 && IsDigit(txt[0]) && IsDigit(txt[2]) && IsDigit(txt[4])
    requires IsOperatorChar(txt[1]) && IsOperatorChar(txt[3])
    ensures
      var a, b, c := Lit([txt[0]]), Lit([txt[2]]), Lit([txt[4]]);
      Interpret(txt, ans) ==
        Ok(Num(if Precedence(txt[1]) < Precedence(txt[3]) then Binary(txt[1], a, Binary(txt[3], b, c))
               else Binary(txt[3], Binary(txt[1], a, b), c)))
  {
    ScanTwoOperators(txt, ans);
    TwoOperators(Lit([txt[0]]), txt[1], Lit([txt[2]]), txt[3], Lit([txt[4]]));
    ComparatorNeverScans(txt, ans);
  }

  /** `2+3*4` is `2+(3*4)`. */
  lemma ProductAfterSum(ans: Value)
    ensures Interpret("2+3*4", ans) == Ok(Num(Binary('+', Lit("2"), Binary('*', Lit("3"), Lit("4")))))
  {
    InterpretTwoOperators("2+3*4", ans);
  }

  /** `2^3^2` is `(2^3)^2`: operators of equal precedence, `^` included, group to the left. */
  lemma PowerGroupsLeft(ans: Value)
    ensures Interpret("2^3^2", ans) == Ok(Num(Binary('^', Binary('^', Lit("2"), Lit("3")), Lit("2"))))
  {
    InterpretTwoOperators("2^3^2", ans);
  }

  /** The scan of `)+d`, d a digit, at the end of a text. */
  lemma ScanCloseSum(txt: string, i: nat, prev: Option<Token>, ans: Value)
    requires i + 3 == |txt| && txt[i] == ')' && txt[i + 1] == '+' && IsDigit(txt[i + 2])
    ensures LexFrom(txt, i, prev, ans) ==
      Ok([Lexeme(RightParen, i, i + 1), Lexeme(Operator('+'), i + 1, i + 2), Lexeme(Number(Lit([txt[i + 2]])), i + 2, i + 3)])
  {
    var l0 := Lexeme(RightParen, i, i + 1);
    var l1 := Lexeme(Operator('+'), i + 1, i + 2);
    var l2 := Lexeme(Number(Lit([txt[i + 2]])), i + 2, i + 3);
    assert txt[i + 2..i + 3] == [txt[i + 2]];
    NumberAt(txt, i + 2, i + 3, Some(l1.token), ans);
    LexLast(txt, Some(l1.token), ans, l2);
    SymbolAt(txt, i + 1, Some(l0.token), ans);
    LexCons(txt, Some(l0.token), ans, [l1, l2]);
    SymbolAt(txt, i, prev, ans);
    LexCons(txt, prev, ans, [l0, l1, l2]);
  }

  /** The scan of `(16)+1` at the end of a text. */
  lemma ScanGroupSum(txt: string, i: nat, prev: Option<Token>, ans: Value)
    requires i + 6 == |txt| && txt[i] == '(' && txt[i + 1] == '1' && txt[i + 2] == '6'
    requires txt[i + 3] == ')' && txt[i + 4] == '+' && txt[i + 5] == '1'
    ensures LexFrom(txt, i, prev, ans) ==
      Ok([Lexeme(LeftParen, i, i + 1), Lexeme(Number(Lit("16")), i + 1, i + 3),
          Lexeme(RightParen, i + 3, i + 4), Lexeme(Operator('+'), i + 4, i + 5), Lexeme(Number(Lit("1")), i + 5, i + 6)])
  {
    var l1 := Lexeme(LeftParen, i, i + 1);
    var l2 := Lexeme(Number(Lit("16")), i + 1, i + 3);
    var tail := [Lexeme(RightParen, i + 3, i + 4), Lexeme(Operator('+'), i + 4, i + 5), Lexeme(Number(Lit("1")), i + 5, i + 6)];
    ScanCloseSum(txt, i + 3, Some(l2.token), ans);
    assert txt[i + 1..i + 3] == "16" && [txt[i + 5]] == "1";
    NumberAt(txt, i + 1, i + 3, Some(l1.token), ans);
    assert ([l2] + tail)[1..] == tail;
    LexCons(txt, Some(l1.token), ans, [l2] + tail);
    SymbolAt(txt, i, prev, ans);
    assert ([l1, l2] + tail)[1..] == [l2] + tail;
    LexCons(txt, prev, ans, [l1, l2] + tail);
    assert [l1, l2] + tail == [l1, l2, tail[0], tail[1], tail[2]];
  }

  /** The scan of `sqrt(16)+1`, stated character by character. */
  lemma ScanFunctionCall(txt: string, ans: Value)
    requires |txt| == 10 && txt[0] == 's' && txt[1] == 'q' && txt[2] == 'r' && txt[3] == 't'
    requires txt[4] == '(' && txt[5] == '1' && txt[6] == '6' && txt[7] == ')' && txt[8] == '+' && txt[9] == '1'
    ensures Tokenized(txt, ans) ==
      Ok([Function("sqrt"), LeftParen, Number(Lit("16")), RightParen, Operator('+'), Number(Lit("1"))])
  {
    var l0 := Lexeme(Function("sqrt"), 0, 4);
    var rest := [Lexeme(LeftParen, 4, 5), Lexeme(Number(Lit("16")), 5, 7),
      Lexeme(RightParen, 7, 8), Lexeme(Operator('+'), 8, 9), Lexeme(Number(Lit("1")), 9, 10)];
    ScanGroupSum(txt, 4, Some(l0.token), ans);
    assert txt[0..4] == "sqrt";
    NameAt(txt, 0, 4, None, ans);
    assert ([l0] + rest)[1..] == rest;
    LexCons(txt, None, ans, [l0] + rest);
    LexTokens(txt, ans, [l0] + rest,
      [Function("sqrt"), LeftParen, Number(Lit("16")), RightParen, Operator('+'), Number(Lit("1"))]);
  }

  /** The group `(x)` opened at position 1 ends at position 4 with value x. */
  lemma InnerGroup(ts: seq<Token>, x: Value)
    requires |ts| == 6 && ts[1] == LeftParen && ts[2] == Number(x) && ts[3] == RightParen
    ensures Parse(ts, 2) == Ok((x, 4))
  {
    ScopeNumber(ts, 2, [], [], x);
    ScopeClose(ts, 3, [x], [], [x]);
  }

  /** `+y` after the value x, up to the end of the tokens. */
  lemma SumToEnd(ts: seq<Token>, x: Value, y: Value)
    requires |ts| == 6 && ts[4] == Operator('+') && ts[5] == Number(y)
    ensures Scope(ts, 4, [x], []) == Ok((Binary('+', x, y), 6))
  {
    ReduceNothing([x], Precedence('+'));
    ScopePush(ts, 4, [x], [], '+', [x], []);
    ScopeNumber(ts, 5, [x], ['+'], y);
    ReduceLast(x, '+', y);
    ScopeEnd(ts, 6, [x, y], ['+'], Binary('+', x, y));
  }

  /** The scope `(x)+y` that follows a function name, up to the end of the tokens. */
  lemma GroupThenSum(ts: seq<Token>, x: Value, y: Value)
    requires |ts| == 6 && ts[1] == LeftParen && ts[2] == Number(x)
    requires ts[3] == RightParen && ts[4] == Operator('+') && ts[5] == Number(y)
    ensures Parse(ts, 1) == Ok((Binary('+', x, y), 6))
  {
    InnerGroup(ts, x);
    ScopeGroup(ts, 1, [], [], x, 4);
    SumToEnd(ts, x, y);
  }

  /**
   * A function's argument is the whole scope that follows the name, not
   * just the parenthesised group: `f(x)+y` is f applied to `x+y`.
   */
  lemma FunctionTakesScope(ts: seq<Token>, f: string, x: Value, y: Value)
    requires |ts| == 6 && ts[0] == Function(f) && ts[1] == LeftParen && ts[2] == Number(x)
    requires ts[3] == RightParen && ts[4] == Operator('+') && ts[5] == Number(y)
    requires IsKnownFunction(f)
    ensures Evaluation(ts) == Ok(Num(Call(f, Binary('+', x, y))))
  {
    var v := Binary('+', x, y);
    GroupThenSum(ts, x, y);
    ScopeCall(ts, 0, [], [], v, 6);
    ScopeEnd(ts, 6, [Call(f, v)], [], Call(f, v));
  }

  /** `sqrt(16)+1`, stated character by character. */
  lemma InterpretFunctionCall(txt: string, ans: Value)
    requires |txt| == 10 && txt[0] == 's' && txt[1] == 'q' && txt[2] == 'r' && txt[3] == 't'
    requires txt[4] == '(' && txt[5] == '1' && txt[6] == '6' && txt[7] == ')' && txt[8] == '+' && txt[9] == '1'
    ensures Interpret(txt, ans) == Ok(Num(Call("sqrt", Binary('+', Lit("16"), Lit("1")))))
  {
    ScanFunctionCall(txt, ans);
    FunctionTakesScope([Function("sqrt"), LeftParen, Number(Lit("16")), RightParen, Operator('+'), Number(Lit("1"))],
      "sqrt", Lit("16"), Lit("1"));
    ComparatorNeverScans(txt, ans);
  }

  /** `sqrt(16)+1` is the square root of 17. */
  lemma FunctionCall(ans: Value)
    ensures Interpret("sqrt(16)+1", ans) == Ok(Num(Call("sqrt", Binary('+', Lit("16"), Lit("1")))))
  {
    InterpretFunctionCall("sqrt(16)+1", ans);
  }

  /** A stray `)` ends the expression: `x)` followed by anything is x. */
  lemma StrayCloseEnds(ts: seq<Token>, x: Value)
    requires |ts| >= 2 && ts[0] == Number(x) && ts[1] == RightParen
    ensures Evaluation(ts) == Ok(Num(x))
  {
    ScopeNumber(ts, 0, [], [], x);
    ReduceNothing([x], 0);
    ScopeClose(ts, 1, [x], [], [x]);
  }

  /** `d)+d'` on digits d and d' is d: the scan goes on past the `)`, the evaluation does not. */
  lemma InterpretStrayClose(txt: string, ans: Value)
    requires |txt| == 4 && IsDigit(txt[0]) && txt[1] == ')' && txt[2] == '+' && IsDigit(txt[3])
    ensures Interpret(txt, ans) == Ok(Num(Lit([txt[0]])))
  {
    var l0 := Lexeme(Number(Lit([txt[0]])), 0, 1);
    var rest := [Lexeme(RightParen, 1, 2), Lexeme(Operator('+'), 2, 3), Lexeme(Number(Lit([txt[3]])), 3, 4)];
    ScanCloseSum(txt, 1, Some(l0.token), ans);
    assert txt[0..1] == [txt[0]];
    NumberAt(txt, 0, 1, None, ans);
    assert ([l0] + rest)[1..] == rest;
    LexCons(txt, None, ans, [l0] + rest);
    var ts := [Number(Lit([txt[0]])), RightParen, Operator('+'), Number(Lit([txt[3]]))];
    LexTokens(txt, ans, [l0] + rest, ts);
    StrayCloseEnds(ts, Lit([txt[0]]));
    ComparatorNeverScans(txt, ans);
  }

  /** `2)+3` is 2. */
  lemma StrayClose(ans: Value)
    ensures Interpret("2)+3", ans) == Ok(Num(Lit("2")))
  {
    InterpretStrayClose("2)+3", ans);
  }

  /** An unclosed `(` is closed by the end of the input: `(d` is d. */
  lemma InterpretUnclosedOpen(txt: string, ans: Value)
    requires |txt| == 2 && txt[0] == '(' && IsDigit(txt[1])
    ensures Interpret(txt, ans) == Ok(Num(Lit([txt[1]])))
  {
    var x := Lit([txt[1]]);
    var l0, l1 := Lexeme(LeftParen, 0, 1), Lexeme(Number(x), 1, 2);
    assert txt[1..2] == [txt[1]];
    NumberAt(txt, 1, 2, Some(LeftParen), ans);
    LexLast(txt, Some(LeftParen), ans, l1);
    SymbolAt(txt, 0, None, ans);
    LexCons(txt, None, ans, [l0, l1]);
    var ts := [LeftParen, Number(x)];
    LexTokens(txt, ans, [l0, l1], ts);
    ScopeNumber(ts, 1, [], [], x);
    ScopeEnd(ts, 2, [x], [], x);
    ScopeGroup(ts, 0, [], [], x, 2);
    ScopeEnd(ts, 2, [x], [], x);
    ComparatorNeverScans(txt, ans);
  }

  /** `(2` is 2. */
  lemma UnclosedOpen(ans: Value)
    ensures Interpret("(2", ans) == Ok(Num(Lit("2")))
  {
    InterpretUnclosedOpen("(2", ans);
  }

  /**
   * There is no implicit multiplication: in `x(y)` both values stay on the
   * stack with no operator between them, and the top one, y, is the result.
   */
  lemma JuxtapositionKeepsLast(ts: seq<Token>, x: Value, y: Value)
    requires |ts| == 4 && ts[0] == Number(x) && ts[1] == LeftParen && ts[2] == Number(y) && ts[3] == RightParen
    ensures Evaluation(ts) == Ok(Num(y))
  {
    ScopeNumber(ts, 2, [], [], y);
    ReduceNothing([y], 0);
    ScopeClose(ts, 3, [y], [], [y]);
    ScopeNumber(ts, 0, [], [], x);
    ScopeGroup(ts, 1, [x], [], y, 4);
    ReduceNothing([x, y], 0);
    ScopeFinish(ts, 4, [x, y], [], [x, y]);
  }

  /** `d(d')` on digits d and d' is d'. */
  lemma InterpretJuxtaposition(txt: string, ans: Value)
    requires |txt| == 4 && IsDigit(txt[0]) && txt[1] == '(' && IsDigit(txt[2]) && txt[3] == ')'
    ensures Interpret(txt, ans) == Ok(Num(Lit([txt[2]])))
  {
    var x, y := Lit([txt[0]]), Lit([txt[2]]);
    var l0, l1, l2, l3 := Lexeme(Number(x), 0, 1), Lexeme(LeftParen, 1, 2), Lexeme(Number(y), 2, 3), Lexeme(RightParen, 3, 4);
    assert txt[0..1] == [txt[0]] && txt[2..3] == [txt[2]];
    SymbolAt(txt, 3, Some(Number(y)), ans);
    LexLast(txt, Some(Number(y)), ans, l3);
    NumberAt(txt, 2, 3, Some(LeftParen), ans);
    LexCons(txt, Some(LeftParen), ans, [l2, l3]);
    SymbolAt(txt, 1, Some(Number(x)), ans);
    LexCons(txt, Some(Number(x)), ans, [l1, l2, l3]);
    NumberAt(txt, 0, 1, None, ans);
    LexCons(txt, None, ans, [l0, l1, l2, l3]);
    var ts := [Number(x), LeftParen, Number(y), RightParen];
    LexTokens(txt, ans, [l0, l1, l2, l3], ts);
    JuxtapositionKeepsLast(ts, x, y);
    ComparatorNeverScans(txt, ans);
  }

  /** `2(3)` is 3. */
  lemma Juxtaposition(ans: Value)
    ensures Interpret("2(3)", ans) == Ok(Num(Lit("3")))
  {
    InterpretJuxtaposition("2(3)", ans);
  }

  /** `ans+d` on a digit d adds d to the register passed in. */
  lemma InterpretAnsSum(txt: string, ans: Value)
    requires |txt| == 5 && txt[0] == 'a' && txt[1] == 'n' && txt[2] == 's' && txt[3] == '+' && IsDigit(txt[4])
    ensures Interpret(txt, ans) == Ok(Num(Binary('+', ans, Lit([txt[4]]))))
  {
    var y := Lit([txt[4]]);
    var l0, l1, l2 := Lexeme(Number(ans), 0, 3), Lexeme(Operator('+'), 3, 4), Lexeme(Number(y), 4, 5);
    assert txt[4..5] == [txt[4]] && txt[0..3] == "ans";
    NumberAt(txt, 4, 5, Some(Operator('+')), ans);
    LexLast(txt, Some(Operator('+')), ans, l2);
    SymbolAt(txt, 3, Some(Number(ans)), ans);
    LexCons(txt, Some(Number(ans)), ans, [l1, l2]);
    assert NextLexeme(txt, 0, None, ans) == Ok(l0);
    LexCons(txt, None, ans, [l0, l1, l2]);
    var ts := [Number(ans), Operator('+'), Number(y)];
    LexTokens(txt, ans, [l0, l1, l2], ts);
    OneOperator(ts, ans, '+', y);
    ComparatorNeverScans(txt, ans);
  }

  /** `ans+1` is the previous answer plus one. */
  lemma AnsRegister(ans: Value)
    ensures Interpret("ans+1", ans) == Ok(Num(Binary('+', ans, Lit("1"))))
  {
    InterpretAnsSum("ans+1", ans);
  }

  /** `3>2` compares 3 with 2; the register passed in plays no part. */
  lemma GreaterThan(ans: Value)
    ensures Interpret("3>2", ans) == Ok(Comp('>', Num(Lit("3")), Num(Lit("2"))))
  {
    FirstComparatorNone("3");
    CompareSides("3", '>', "2", ans);
    assert "3" + ['>'] + "2" == "3>2";
    InterpretDigit("3", Zero);
    InterpretDigit("2", Zero);
  }

  /** `1=1` compares 1 with 1. */
  lemma SingleEquals(ans: Value)
    ensures Interpret("1=1", ans) == Ok(Comp('=', Num(Lit("1")), Num(Lit("1"))))
  {
    FirstComparatorNone("1");
    CompareSides("1", '=', "1", ans);
    assert "1" + ['='] + "1" == "1=1";
    InterpretDigit("1", Zero);
  }

  /** `1==1` compares 1 with 1: the empty side between the two `=` is dropped. */
  lemma DoubleEquals(ans: Value)
    ensures Interpret("1==1", ans) == Ok(Comp('=', Num(Lit("1")), Num(Lit("1"))))
  {
    FirstComparatorNone("1");
    DoubledComparator("1", '=', "1", ans);
    assert "1" + ['=', '='] + "1" == "1==1";
    assert "1" + ['='] + "1" == "1=1";
    SingleEquals(ans);
  }

  /** A sign must be followed by a digit or `.`: `-(2+3)` does not scan. */
  lemma SignBeforeGroup(ans: Value)
    ensures Interpret("-(2+3)", ans) == Err(UnexpectedCharacterAfterMinus)
  {
    var txt := "-(2+3)";
    FirstComparatorNone(txt);
    ScanSignBeforeOpen(txt, ans);
  }

  /** A text that starts with `-(` does not scan. */
  lemma ScanSignBeforeOpen(txt: string, ans: Value)
    requires |txt| >= 2 && txt[0] == '-' && txt[1] == '('
    ensures Tokenized(txt, ans) == Err(UnexpectedCharacterAfterMinus)
  {
    assert TokensOf([]) == [];
    SignErrors(txt, ans, [], 0);
  }

  /** `)` alone closes a scope that holds no value. */
  lemma LoneClose(ans: Value)
    ensures Interpret(")", ans) == Err(MismatchedParentheses)
  {
    var txt := ")";
    var l0 := Lexeme(RightParen, 0, 1);
    SymbolAt(txt, 0, None, ans);
    LexLast(txt, None, ans, l0);
    LexTokens(txt, ans, [l0], [RightParen]);
    ReduceNothing([], 0);
    ComparatorNeverScans(txt, ans);
  }

  /** `d+` on a digit d: the trailing operator has one operand only. */
  lemma InterpretMissingOperand(txt: string, ans: Value)
    requires |txt| == 2 && IsDigit(txt[0]) && txt[1] == '+'
    ensures Interpret(txt, ans) == Err(InsufficientValues)
  {
    var x := Lit([txt[0]]);
    var l0, l1 := Lexeme(Number(x), 0, 1), Lexeme(Operator('+'), 1, 2);
    assert txt[0..1] == [txt[0]];
    SymbolAt(txt, 1, Some(Number(x)), ans);
    LexLast(txt, Some(Number(x)), ans, l1);
    NumberAt(txt, 0, 1, None, ans);
    LexCons(txt, None, ans, [l0, l1]);
    var ts := [Number(x), Operator('+')];
    LexTokens(txt, ans, [l0, l1], ts);
    TrailingOperator(ts, x, '+');
    ComparatorNeverScans(txt, ans);
  }

  /** On the tokens of `x o`, draining the pending operator finds one value only. */
  lemma TrailingOperator(ts: seq<Token>, x: Value, o: char)
    requires ts == [Number(x), Operator(o)]
    ensures Evaluation(ts) == Err(InsufficientValues)
  {
    ScopeNumber(ts, 0, [], [], x);
    ReduceNothing([x], Precedence(o));
    ScopePush(ts, 1, [x], [], o, [x], []);
    assert Reduce([x], [o], 0) == Err(InsufficientValues);
  }

  /** `2+` fails for want of a second operand. */
  lemma MissingOperand(ans: Value)
    ensures Interpret("2+", ans) == Err(InsufficientValues)
  {
    InterpretMissingOperand("2+", ans);
  }

  /** `2@3` stops at the `@`, which no token contains. */
  lemma ForeignCharacter(ans: Value)
    ensures Interpret("2@3", ans) == Err(UnexpectedCharacter('@'))
  {
    var txt := "2@3";
    var l0 := Lexeme(Number(Lit("2")), 0, 1);
    assert txt[0..1] == "2";
    NumberAt(txt, 0, 1, None, ans);
    assert LexFrom(txt, 1, Some(l0.token), ans) == Err(UnexpectedCharacter('@'));
    assert LexFrom(txt, 0, None, ans) == Err(UnexpectedCharacter('@'));
    FirstComparatorNone(txt);
  }
}
