/**
 * The precedence evaluator (`parse_tokens`, `precedence`, `apply_operator`,
 * `evaluate_expression` in src/main.rs). The specification functions
 * `ApplyOp`, `Reduce`, `Scope` and `Parse` describe the operator-stack
 * algorithm on values; the methods run it with a value stack updated in
 * place, as the source does.
 */
module Evaluator {
  import opened Model

  /** `precedence`: `^` binds tightest, then `*` and `/`, then `+` and `-`; anything else is 0. */
  function Precedence(op: char): (p: int)
    ensures 0 <= p <= 3
    ensures p > 0 <==> IsOperatorChar(op)
  {
    match op
    case '+' => 1
    case '-' => 1
    case '*' => 2
    case '/' => 2
    case '^' => 3
    case _ => 0
  }

  /** The value of a named constant: `pi` and `e` only. */
  function ConstantValue(name: string): (r: Option<Value>)
    ensures r.Some? <==> name == "pi" || name == "e"
    ensures r == Some(Pi) <==> name == "pi"
    ensures r == Some(Euler) <==> name == "e"
  {
    if name == "pi" then Some(Pi)
    else if name == "e" then Some(Euler)
    else None
  }

  /** The functions `parse_tokens` knows. */
  predicate IsKnownFunction(name: string) {
    name in ["sin", "cos", "tan", "asin", "acos", "atan", "sqrt", "abs", "ln", "exp"]
  }

  /** The value of a known function applied to arg. */
  function FunctionValue(name: string, arg: Value): (r: Option<Value>)
    ensures r.Some? <==> IsKnownFunction(name)
  {
    if IsKnownFunction(name) then Some(Call(name, arg)) else None
  }

  /** A constant or function token names something the evaluator knows. */
  predicate KnownName(t: Token) {
    (t.Constant? ==> ConstantValue(t.name).Some?) && (t.Function? ==> IsKnownFunction(t.name))
  }

  /**
   * `apply_operator` on the value stack: pops b, then a, and pushes `a op b`.
   * Fails when fewer than two values are on the stack, or when op is not
   * an operator.
   */
  function ApplyOp(values: seq<Value>, op: char): (r: Result<seq<Value>>)
    ensures r.Ok? <==> |values| >= 2 && IsOperatorChar(op)
    ensures |values| < 2 ==> r == Err(InsufficientValues)
    ensures |values| >= 2 && !IsOperatorChar(op) ==> r == Err(UnexpectedOperator(op))
    ensures r.Ok? ==>
      var n := |values|;
      |r.value| == n - 1 &&
      r.value[..n - 2] == values[..n - 2] &&
      r.value[n - 2] == Binary(op, values[n - 2], values[n - 1])
  {
    if |values| < 2 then Err(InsufficientValues)
    else if !IsOperatorChar(op) then Err(UnexpectedOperator(op))
    else
      var n := |values|;
      Ok(values[..n - 2] + [Binary(op, values[n - 2], values[n - 1])])
  }

  /**
   * The loop `while !ops.is_empty() && precedence(top) >= p`: applies the
   * pending operators of precedence at least p, from the top of the operator
   * stack down. With p = 0 it drains the whole operator stack, since every
   * precedence is at least 0.
   */
  function Reduce(values: seq<Value>, ops: seq<char>, p: int): (r: Result<(seq<Value>, seq<char>)>)
    ensures r.Ok? ==>
      var (vs, os) := r.value;
      |os| <= |ops| && os == ops[..|os|] &&
      (os == [] || Precedence(os[|os| - 1]) < p) &&
      |vs| + |ops| == |values| + |os| &&
      (vs == [] <==> values == []) &&
      (vs != [] ==> vs[..|vs| - 1] == values[..|vs| - 1])
    decreases |ops|
  {
    if ops != [] && Precedence(ops[|ops| - 1]) >= p then
      match ApplyOp(values, ops[|ops| - 1])
      case Err(e) => Err(e)
      case Ok(vs) => Reduce(vs, ops[..|ops| - 1], p)
    else
      Ok((values, ops))
  }

  /**
   * The rest of one `parse_tokens` call: the loop from position index with
   * the given value and operator stacks, up to the end of the tokens or the
   * first unmatched `)`. Returns the value and the index just past what was
   * consumed.
   */
  function Scope(tokens: seq<Token>, index: nat, values: seq<Value>, ops: seq<char>): (r: Result<(Value, nat)>)
    ensures r.Ok? ==> index <= r.value.1
    ensures r.Ok? ==> r.value.1 <= |tokens| || (r.value.1 == index && values != [])
    ensures r.Ok? && values == [] ==> index < r.value.1
    ensures r.Ok? && r.value.1 < |tokens| ==> 0 < r.value.1 && tokens[r.value.1 - 1] == RightParen
    ensures r.Ok? ==> forall k :: index <= k < r.value.1 && k < |tokens| ==> KnownName(tokens[k])
    decreases |tokens| - index, 0
  {
    if index >= |tokens| then
      match Reduce(values, ops, 0)
      case Err(e) => Err(e)
      case Ok((vs, _)) => if vs == [] then Err(InvalidExpression) else Ok((vs[|vs| - 1], index))
    else
      match tokens[index]
      case Number(num) => Scope(tokens, index + 1, values + [num], ops)
      case Constant(name) =>
        (match ConstantValue(name)
         case None => Err(UnknownConstant(name))
         case Some(v) => Scope(tokens, index + 1, values + [v], ops))
      case Function(name) =>
        (match Parse(tokens, index + 1)
         case Err(e) => Err(e)
         case Ok((arg, next)) =>
           match FunctionValue(name, arg)
           case None => Err(UnknownFunction(name))
           case Some(v) => Scope(tokens, next, values + [v], ops))
      case Operator(op) =>
        (match Reduce(values, ops, Precedence(op))
         case Err(e) => Err(e)
         case Ok((vs, os)) => Scope(tokens, index + 1, vs, os + [op]))
      case LeftParen =>
        (match Parse(tokens, index + 1)
         case Err(e) => Err(e)
         case Ok((v, next)) => Scope(tokens, next, values + [v], ops))
      case RightParen =>
        (match Reduce(values, ops, 0)
         case Err(e) => Err(e)
         case Ok((vs, _)) => if vs == [] then Err(MismatchedParentheses) else Ok((vs[|vs| - 1], index + 1)))
  }

  /**
   * `parse_tokens(tokens, start)`: evaluates the scope that starts at start.
   * On success the returned index lies after start and within the tokens; the
   * scope ended at the end of the tokens or just after a `)`; and every
   * constant and function it consumed is one the evaluator knows.
   */
  function Parse(tokens: seq<Token>, start: nat): (r: Result<(Value, nat)>)
    ensures r.Ok? ==> start < r.value.1 <= |tokens|
    ensures r.Ok? ==> r.value.1 == |tokens| || tokens[r.value.1 - 1] == RightParen
    ensures r.Ok? ==> forall k :: start <= k < r.value.1 ==> KnownName(tokens[k])
    decreases |tokens| - start, 1
  {
    Scope(tokens, start, [], [])
  }

  /** What `evaluate_expression(tokens)` returns: the top scope's value, its end index dropped. */
  function Evaluation(tokens: seq<Token>): (r: Result<EvalResult>)
    ensures r.Ok? ==> r.value.Num? && tokens != []
    ensures tokens == [] ==> r == Err(InvalidExpression)
  {
    match Parse(tokens, 0)
    case Err(e) => Err(e)
    case Ok((v, _)) => Ok(Num(v))
  }

  /** The `values` vector of `parse_tokens`, pushed and popped in place. */
  class ValueStack {
    var items: seq<Value>

    constructor ()
      ensures items == []
    {
      items := [];
    }

    method Push(v: Value)
      modifies this
      ensures items == old(items) + [v]
    {
      items := items + [v];
    }

    /** `Vec::pop`: the top value, or None on an empty stack. */
    method Pop() returns (top: Option<Value>)
      modifies this
      ensures old(items) == [] ==> top == None && items == []
      ensures old(items) != [] ==>
        top == Some(old(items)[|old(items)| - 1]) && items == old(items)[..|old(items)| - 1]
    {
      if items == [] {
        top := None;
      } else {
        top := Some(items[|items| - 1]);
        items := items[..|items| - 1];
      }
    }
  }

  /**
   * `apply_operator(values, op)`: on success the stack is what `ApplyOp`
   * gives; on failure the values popped before the failure are gone.
   */
  method ApplyOperator(values: ValueStack, op: char) returns (outcome: Outcome)
    modifies values
    ensures ApplyOp(old(values.items), op).Ok? ==>
      outcome == Pass && values.items == ApplyOp(old(values.items), op).value
    ensures ApplyOp(old(values.items), op).Err? ==>
      outcome == Fail(ApplyOp(old(values.items), op).error) &&
      values.items == old(values.items)[..if |old(values.items)| < 2 then 0 else |old(values.items)| - 2]
  {
    var b := values.Pop();
    if b.None? {
      return Fail(InsufficientValues);
    }
    var a := values.Pop();
    if a.None? {
      return Fail(InsufficientValues);
    }
    if !IsOperatorChar(op) {
      return Fail(UnexpectedOperator(op));
    }
    values.Push(Binary(op, a.value, b.value));
    outcome := Pass;
  }

  /**
   * The loop `while !ops.is_empty() && precedence(ops.last()) >= p`, which
   * pops each such operator and applies it to the value stack. Returns the
   * operators left, or the failure of `apply_operator`.
   */
  method ApplyPending(values: ValueStack, ops: seq<char>, p: int) returns (r: Result<seq<char>>)
    modifies values
    ensures Reduce(old(values.items), ops, p).Ok? ==>
      r == Ok(Reduce(old(values.items), ops, p).value.1) &&
      values.items == Reduce(old(values.items), ops, p).value.0
    ensures Reduce(old(values.items), ops, p).Err? ==> r == Err(Reduce(old(values.items), ops, p).error)
  {
    var pending := ops;
    while pending != [] && Precedence(pending[|pending| - 1]) >= p
      invariant Reduce(values.items, pending, p) == Reduce(old(values.items), ops, p)
      decreases |pending|
    {
      var top := pending[|pending| - 1];
      pending := pending[..|pending| - 1];
      var outcome := ApplyOperator(values, top);
      if outcome.Fail? {
        return Err(outcome.error);
      }
    }
    return Ok(pending);
  }

  /**
   * The loop `while !ops.is_empty()`, which applies every pending operator;
   * it is `ApplyPending` at precedence 0, below every operator's.
   */
  method ApplyAll(values: ValueStack, ops: seq<char>) returns (r: Result<seq<char>>)
    modifies values
    ensures Reduce(old(values.items), ops, 0).Ok? ==>
      r == Ok([]) && values.items == Reduce(old(values.items), ops, 0).value.0
    ensures Reduce(old(values.items), ops, 0).Err? ==> r == Err(Reduce(old(values.items), ops, 0).error)
  {
    var pending := ops;
    while pending != []
      invariant Reduce(values.items, pending, 0) == Reduce(old(values.items), ops, 0)
      decreases |pending|
    {
      var top := pending[|pending| - 1];
      pending := pending[..|pending| - 1];
      var outcome := ApplyOperator(values, top);
      if outcome.Fail? {
        return Err(outcome.error);
      }
    }
    return Ok(pending);
  }

  /**
   * `parse_tokens`: the operator-stack loop over the tokens from start,
   * recursing at `index + 1` for a function argument or a parenthesised group.
   */
  method ParseTokens(tokens: seq<Token>, start: nat) returns (r: Result<(Value, nat)>)
    ensures r == Parse(tokens, start)
    decreases |tokens| - start, 1
  {
    var index := start;
    var values := new ValueStack();
    var ops: seq<char> := [];
    while index < |tokens|
      invariant start <= index
      invariant Parse(tokens, start) == Scope(tokens, index, values.items, ops)
      decreases |tokens| - index
    {
      var finished, next, rest := ParseStep(tokens, index, values, ops);
      if finished.Some? {
        return finished.value;
      }
      index, ops := next, rest;
    }
    var drained := ApplyAll(values, ops);
    if drained.Err? {
      return Err(drained.error);
    }
    var result := values.Pop();
    if result.None? {
      return Err(InvalidExpression);
    }
    return Ok((result.value, index));
  }

  /**
   * One pass of the loop of `parse_tokens`: the match on the token at index.
   * Either the call returns (finished holds its result: an error, or the
   * value of the scope closed by a `)`), or the loop goes on at next with
   * the operator stack ops'.
   */
  method ParseStep(tokens: seq<Token>, index: nat, values: ValueStack, ops: seq<char>)
    returns (finished: Option<Result<(Value, nat)>>, next: nat, ops': seq<char>)
    requires index < |tokens|
    modifies values
    ensures finished.Some? ==> finished.value == Scope(tokens, index, old(values.items), ops)
    ensures finished.None? ==>
      index < next && Scope(tokens, next, values.items, ops') == Scope(tokens, index, old(values.items), ops)
    decreases |tokens| - index, 0
  {
    next, ops' := index + 1, ops;
    match tokens[index]
    case Number(num) =>
      values.Push(num);
      finished := None;
    case Constant(name) =>
      var value := ConstantValue(name);
      if value.None? {
        return Some(Err(UnknownConstant(name))), next, ops';
      }
      values.Push(value.value);
      finished := None;
    case Function(name) =>
      var sub := ParseTokens(tokens, index + 1);
      if sub.Err? {
        return Some(Err(sub.error)), next, ops';
      }
      var (arg, newIndex) := sub.value;
      var value := FunctionValue(name, arg);
      if value.None? {
        return Some(Err(UnknownFunction(name))), next, ops';
      }
      values.Push(value.value);
      finished, next := None, newIndex;
    case Operator(op) =>
      var rest := ApplyPending(values, ops, Precedence(op));
      if rest.Err? {
        return Some(Err(rest.error)), next, ops';
      }
      finished, ops' := None, rest.value + [op];
    case LeftParen =>
      var sub := ParseTokens(tokens, index + 1);
      if sub.Err? {
        return Some(Err(sub.error)), next, ops';
      }
      var (val, newIndex) := sub.value;
      values.Push(val);
      finished, next := None, newIndex;
    case RightParen =>
      var rest := ApplyAll(values, ops);
      if rest.Err? {
        return Some(Err(rest.error)), next, ops';
      }
      var result := values.Pop();
      if result.None? {
        return Some(Err(MismatchedParentheses)), next, ops';
      }
      finished := Some(Ok((result.value, index + 1)));
  }

  /** `evaluate_expression`: the value of the scope at 0, as a `Num`. */
  method EvaluateExpression(tokens: seq<Token>) returns (r: Result<EvalResult>)
    ensures r == Evaluation(tokens)
  {
    var parsed := ParseTokens(tokens, 0);
    if parsed.Err? {
      return Err(parsed.error);
    }
    var (result, _) := parsed.value;
    return Ok(Num(result));
  }
}
