/**
 * Error behaviour of `parse_tokens` and `evaluate_expression`: a scope
 * without a value, names the evaluator does not know, and a `)` that
 * closes the top-level scope early.
 */
module EvaluatorFacts {
  import opened Model
  import opened Evaluator

  /** A scope that starts at the end of the tokens has no value: `sqrt` or `(` as the last token. */
  lemma EmptyScopeAtEnd(tokens: seq<Token>, start: nat)
    requires start >= |tokens|
    ensures Parse(tokens, start) == Err(InvalidExpression)
  {
    assert Reduce([], [], 0) == Ok(([], []));
  }

  /** A scope closed right where it starts has no value: `()`. */
  lemma EmptyScopeAtParen(tokens: seq<Token>, start: nat)
    requires start < |tokens| && tokens[start] == RightParen
    ensures Parse(tokens, start) == Err(MismatchedParentheses)
  {
    assert Reduce([], [], 0) == Ok(([], []));
  }

  /** The empty token list has no value. */
  lemma EmptyInput()
    ensures Evaluation([]) == Err(InvalidExpression)
  {
    EmptyScopeAtEnd([], 0);
  }

  /** A `(` or a function name opens a scope, a `)` closes one. */
  function Delta(t: Token): int {
    if t.LeftParen? || t.Function? then 1 else if t.RightParen? then -1 else 0
  }

  /** The nesting depth after tokens[s..j], counted from 0 at s. */
  function Depth(tokens: seq<Token>, s: nat, j: nat): int
    requires s <= j <= |tokens|
    decreases j - s
  {
    if s == j then 0 else Delta(tokens[s]) + Depth(tokens, s + 1, j)
  }

  lemma {:induction false} DepthSplit(tokens: seq<Token>, s: nat, m: nat, j: nat)
    requires s <= m <= j <= |tokens|
    ensures Depth(tokens, s, j) == Depth(tokens, s, m) + Depth(tokens, m, j)
    decreases m - s
  {
    if s < m {
      DepthSplit(tokens, s + 1, m, j);
    }
  }

  /**
   * The scope that starts at s ends at i: the depth does not drop below 0
   * before i, and either the tokens run out at i or tokens[i - 1] is the `)`
   * that takes the depth to -1, the one that closes the scope.
   */
  predicate Closes(tokens: seq<Token>, s: nat, i: nat)
    requires s <= i <= |tokens|
  {
    (forall j :: s <= j < i ==> Depth(tokens, s, j) >= 0) &&
    (i == |tokens| || (s < i && tokens[i - 1] == RightParen && Depth(tokens, s, i) == -1))
  }

  /** A token that neither opens nor closes a scope is passed over. */
  lemma AfterFlat(tokens: seq<Token>, index: nat, i: nat)
    requires index < i <= |tokens| && Delta(tokens[index]) == 0
    requires Closes(tokens, index + 1, i)
    ensures Closes(tokens, index, i)
  {
    assert Depth(tokens, index, i) == Depth(tokens, index + 1, i);
    forall j | index < j < i ensures Depth(tokens, index, j) >= 0 {
      assert Depth(tokens, index, j) == Depth(tokens, index + 1, j);
    }
  }

  /** A nested scope from index + 1 to next, then the rest of the scope from next to i. */
  lemma AfterNested(tokens: seq<Token>, index: nat, next: nat, i: nat)
    requires index < next <= i <= |tokens| && Delta(tokens[index]) == 1
    requires Closes(tokens, index + 1, next) && Closes(tokens, next, i)
    ensures Closes(tokens, index, i)
  {
    forall j | index < j < next ensures Depth(tokens, index, j) >= 0 {
      assert Depth(tokens, index, j) == 1 + Depth(tokens, index + 1, j);
    }
    if next < |tokens| {
      assert Depth(tokens, index, next) == 0;
      forall j | next <= j < i ensures Depth(tokens, index, j) >= 0 {
        DepthSplit(tokens, index, next, j);
      }
      DepthSplit(tokens, index, next, i);
    }
  }

  /**
   * The rest of a scope from index ends where the scope is closed: at the
   * end of the tokens, or just after the `)` that takes the depth counted
   * from index to -1, and the depth stays at 0 or above before that.
   */
  lemma {:induction false} ScopeCloses(tokens: seq<Token>, index: nat, values: seq<Value>, ops: seq<char>)
    requires index <= |tokens|
    ensures Scope(tokens, index, values, ops).Ok? ==>
      Scope(tokens, index, values, ops).value.1 <= |tokens| &&
      Closes(tokens, index, Scope(tokens, index, values, ops).value.1)
    decreases |tokens| - index, 0, 3
  {
    if index < |tokens| {
      if tokens[index].Function? || tokens[index].LeftParen? {
        NestedCloses(tokens, index, values, ops);
      } else if tokens[index].RightParen? {
        assert Scope(tokens, index, values, ops).Ok? ==> Scope(tokens, index, values, ops).value.1 == index + 1;
      } else {
        FlatCloses(tokens, index, values, ops);
      }
    }
  }

  /** `ScopeCloses` at a number, a constant or an operator. */
  lemma {:induction false} FlatCloses(tokens: seq<Token>, index: nat, values: seq<Value>, ops: seq<char>)
    requires index < |tokens|
    requires tokens[index].Number? || tokens[index].Constant? || tokens[index].Operator?
    ensures Scope(tokens, index, values, ops).Ok? ==>
      Scope(tokens, index, values, ops).value.1 <= |tokens| &&
      Closes(tokens, index, Scope(tokens, index, values, ops).value.1)
    decreases |tokens| - index, 0, 2
  {
    var r := Scope(tokens, index, values, ops);
    if r.Ok? {
      if tokens[index].Number? {
        assert r == Scope(tokens, index + 1, values + [tokens[index].num], ops);
        StepCloses(tokens, index, values + [tokens[index].num], ops);
      } else if tokens[index].Constant? {
        var v := ConstantValue(tokens[index].name).value;
        assert r == Scope(tokens, index + 1, values + [v], ops);
        StepCloses(tokens, index, values + [v], ops);
      } else {
        var op := tokens[index].op;
        OperatorCloses(tokens, index, values, ops, op);
      }
    }
  }

  /** `ScopeCloses` at an operator, which reduces the stacks and is pushed. */
  lemma {:induction false} OperatorCloses(tokens: seq<Token>, index: nat, values: seq<Value>, ops: seq<char>, op: char)
    requires index < |tokens| && tokens[index] == Operator(op)
    ensures Scope(tokens, index, values, ops).Ok? ==>
      Scope(tokens, index, values, ops).value.1 <= |tokens| &&
      Closes(tokens, index, Scope(tokens, index, values, ops).value.1)
    decreases |tokens| - index, 0, 1
  {
    var r := Scope(tokens, index, values, ops);
    if r.Ok? {
      var (vs, os) := Reduce(values, ops, Precedence(op)).value;
      assert r == Scope(tokens, index + 1, vs, os + [op]);
      StepCloses(tokens, index, vs, os + [op]);
    }
  }

  /** After a token that neither opens nor closes a scope, the scan goes on at index + 1. */
  lemma {:induction false} StepCloses(tokens: seq<Token>, index: nat, vs: seq<Value>, os: seq<char>)
    requires index < |tokens| && Delta(tokens[index]) == 0
    ensures Scope(tokens, index + 1, vs, os).Ok? ==>
      Scope(tokens, index + 1, vs, os).value.1 <= |tokens| &&
      Closes(tokens, index, Scope(tokens, index + 1, vs, os).value.1)
    decreases |tokens| - index, 0, 0
  {
    ScopeCloses(tokens, index + 1, vs, os);
    if Scope(tokens, index + 1, vs, os).Ok? {
      AfterFlat(tokens, index, Scope(tokens, index + 1, vs, os).value.1);
    }
  }

  /** `ScopeCloses` at a function name or a `(`, which open a nested scope. */
  lemma {:induction false} NestedCloses(tokens: seq<Token>, index: nat, values: seq<Value>, ops: seq<char>)
    requires index < |tokens| && (tokens[index].Function? || tokens[index].LeftParen?)
    ensures Scope(tokens, index, values, ops).Ok? ==>
      Scope(tokens, index, values, ops).value.1 <= |tokens| &&
      Closes(tokens, index, Scope(tokens, index, values, ops).value.1)
    decreases |tokens| - index, 0, 0
  {
    var r := Scope(tokens, index, values, ops);
    if r.Ok? {
      var (arg, next) := Parse(tokens, index + 1).value;
      var v := if tokens[index].LeftParen? then arg else FunctionValue(tokens[index].name, arg).value;
      assert r == Scope(tokens, next, values + [v], ops);
      ParseCloses(tokens, index + 1);
      ScopeCloses(tokens, next, values + [v], ops);
      AfterNested(tokens, index, next, r.value.1);
    }
  }

  /**
   * `parse_tokens(tokens, start)` returns the index just past the `)` that
   * closes the scope opened at start, counting `(` and function names as
   * openers, or the end of the tokens when that scope is never closed.
   */
  lemma ParseCloses(tokens: seq<Token>, start: nat)
    requires start <= |tokens|
    ensures Parse(tokens, start).Ok? ==> Closes(tokens, start, Parse(tokens, start).value.1)
    decreases |tokens| - start, 1
  {
    ScopeCloses(tokens, start, [], []);
  }

  /**
   * A constant or function the evaluator does not know makes the evaluation
   * fail, when it lies inside the top-level scope: no `)` before it takes
   * the depth below 0 and so ends that scope early.
   */
  lemma UnknownNameFails(tokens: seq<Token>, k: nat)
    requires k < |tokens| && !KnownName(tokens[k])
    requires forall j :: 0 <= j <= k ==> Depth(tokens, 0, j) >= 0
    ensures Evaluation(tokens).Err?
  {
    if Parse(tokens, 0).Ok? {
      ParseCloses(tokens, 0);
    }
  }
}
