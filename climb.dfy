/**
 * A reference meaning for operator precedence, independent of the operator
 * stack: in a flat expression `x0 o1 x1 ... on xn` the root of the tree is
 * the rightmost operator of lowest precedence. Ties therefore group to the
 * left, for every operator including `^`. The theorem `FlatEvaluation` shows
 * that `parse_tokens` builds exactly this tree.
 */
module Climbing {
  import opened Model
  import opened Evaluator

  /** The rightmost operator of lowest precedence. */
  function LastMin(os: seq<char>): (k: nat)
    requires |os| > 0
    ensures k < |os|
    ensures forall i :: 0 <= i < |os| ==> Precedence(os[k]) <= Precedence(os[i])
    ensures forall i :: k < i < |os| ==> Precedence(os[k]) < Precedence(os[i])
    decreases |os|
  {
    if |os| == 1 then 0
    else
      var k := LastMin(os[..|os| - 1]);
      if Precedence(os[|os| - 1]) <= Precedence(os[k]) then |os| - 1 else k
  }

  /** The two properties of `LastMin` determine it. */
  lemma LastMinUnique(os: seq<char>, k: nat)
    requires k < |os|
    requires forall i :: 0 <= i < |os| ==> Precedence(os[k]) <= Precedence(os[i])
    requires forall i :: k < i < |os| ==> Precedence(os[k]) < Precedence(os[i])
    ensures LastMin(os) == k
  {
  }

  /** The tree of the flat expression xs[0] os[0] xs[1] ... os[n-1] xs[n]. */
  function Climb(xs: seq<Value>, os: seq<char>): Value
    requires |xs| == |os| + 1
    decreases |os|
  {
    if os == [] then xs[0]
    else
      var k := LastMin(os);
      Binary(os[k], Climb(xs[..k + 1], os[..k]), Climb(xs[k + 1..], os[k + 1..]))
  }

  /** The tokens of a flat expression: operands and operators alternate. */
  function Interleave(xs: seq<Value>, os: seq<char>): (ts: seq<Token>)
    requires |xs| == |os| + 1
    ensures |ts| == 2 * |os| + 1
    decreases |os|
  {
    if os == [] then [Number(xs[0])]
    else [Number(xs[0]), Operator(os[0])] + Interleave(xs[1..], os[1..])
  }

  /** Operand k is token 2k and operator k is token 2k + 1. */
  lemma {:induction false} InterleaveAt(xs: seq<Value>, os: seq<char>, k: nat)
    requires |xs| == |os| + 1 && k < |xs|
    ensures Interleave(xs, os)[2 * k] == Number(xs[k])
    ensures k < |os| ==> Interleave(xs, os)[2 * k + 1] == Operator(os[k])
    decreases |os|
  {
    if k > 0 {
      InterleaveAt(xs[1..], os[1..], k - 1);
      assert xs[1..][k - 1] == xs[k];
      assert k < |os| ==> os[1..][k - 1] == os[k];
    }
  }

  /** ts spells the flat expression: operand k at token 2k, operator k at token 2k + 1. */
  predicate SpellsFlat(xs: seq<Value>, os: seq<char>, ts: seq<Token>)
    requires |xs| == |os| + 1
  {
    |ts| == 2 * |os| + 1 &&
    (forall k :: 0 <= k < |xs| ==> ts[2 * k] == Number(xs[k])) &&
    (forall k :: 0 <= k < |os| ==> ts[2 * k + 1] == Operator(os[k]))
  }

  /** The interleaved tokens spell the flat expression. */
  lemma InterleaveSpells(xs: seq<Value>, os: seq<char>)
    requires |xs| == |os| + 1
    ensures SpellsFlat(xs, os, Interleave(xs, os))
  {
    forall k | 0 <= k < |xs| {
      InterleaveAt(xs, os, k);
    }
  }

  predicate AllOperators(os: seq<char>) {
    forall k :: 0 <= k < |os| ==> IsOperatorChar(os[k])
  }

  /** Precedences strictly increase from the bottom of the operator stack to its top. */
  predicate Ascending(os: seq<char>) {
    forall k :: 0 < k < |os| ==> Precedence(os[k - 1]) < Precedence(os[k])
  }

  /** Operator j binds tighter than its left neighbour and at least as tight as its right one. */
  predicate IsHandle(os: seq<char>, j: nat) {
    j < |os| &&
    (j == 0 || Precedence(os[j - 1]) < Precedence(os[j])) &&
    (j == |os| - 1 || Precedence(os[j + 1]) <= Precedence(os[j]))
  }

  /** The operands after combining xs[j] and xs[j + 1] with operator j. */
  function MergeAt(xs: seq<Value>, os: seq<char>, j: nat): (ys: seq<Value>)
    requires |xs| == |os| + 1 && j < |os|
    ensures |ys| == |xs| - 1
    ensures forall i :: 0 <= i < j ==> ys[i] == xs[i]
    ensures ys[j] == Binary(os[j], xs[j], xs[j + 1])
    ensures forall i :: j < i < |ys| ==> ys[i] == xs[i + 1]
  {
    xs[..j] + [Binary(os[j], xs[j], xs[j + 1])] + xs[j + 2..]
  }

  function RemoveAt(os: seq<char>, j: nat): (rs: seq<char>)
    requires j < |os|
    ensures |rs| == |os| - 1
    ensures forall i :: 0 <= i < j ==> rs[i] == os[i]
    ensures forall i :: j <= i < |rs| ==> rs[i] == os[i + 1]
  {
    os[..j] + os[j + 1..]
  }

  /** A handle that is the root is the only operator. */
  lemma HandleIsRoot(xs: seq<Value>, os: seq<char>, j: nat)
    requires |xs| == |os| + 1 && IsHandle(os, j) && LastMin(os) == j
    ensures |os| == 1 && j == 0
    ensures Climb(MergeAt(xs, os, j), RemoveAt(os, j)) == Climb(xs, os)
  {
    assert j == 0 && |os| == 1;
    assert xs[..1] == [xs[0]] && xs[1..] == [xs[1]];
  }

  /**
   * Deleting operator j, other than the root r, from os leaves the root's
   * operator as the root of os', at k: one place further left when j < r.
   */
  lemma RootAfterDeletion(os: seq<char>, os': seq<char>, j: nat, r: nat, k: nat)
    requires 0 < |os| && r == LastMin(os) && j < |os| && j != r
    requires |os'| == |os| - 1
    requires forall i :: 0 <= i < j ==> os'[i] == os[i]
    requires forall i :: j <= i < |os'| ==> os'[i] == os[i + 1]
    requires k == if j < r then r - 1 else r
    ensures k < |os'| && os'[k] == os[r] && LastMin(os') == k
  {
    assert os'[k] == os[r];
    forall i | 0 <= i < |os'|
      ensures Precedence(os'[k]) <= Precedence(os'[i])
      ensures k < i ==> Precedence(os'[k]) < Precedence(os'[i])
    {
      if i < j { assert os'[i] == os[i]; } else { assert os'[i] == os[i + 1]; }
    }
    LastMinUnique(os', k);
  }

  /** Removing an operator left of the root keeps the root, one place further left. */
  lemma RootAfterLeftRemoval(os: seq<char>, j: nat, r: nat)
    requires 0 < |os| && j < r == LastMin(os)
    ensures LastMin(RemoveAt(os, j)) == r - 1
    ensures RemoveAt(os, j)[r - 1] == os[r]
  {
    RootAfterDeletion(os, RemoveAt(os, j), j, r, r - 1);
  }

  /** Removing an operator right of the root keeps the root. */
  lemma RootAfterRightRemoval(os: seq<char>, j: nat, r: nat)
    requires 0 < |os| && r == LastMin(os) < j < |os|
    ensures LastMin(RemoveAt(os, j)) == r
    ensures RemoveAt(os, j)[r] == os[r]
  {
    RootAfterDeletion(os, RemoveAt(os, j), j, r, r);
  }

  /** Merging left of position r happens within the operands up to r. */
  lemma MergeLeftSlices(xs: seq<Value>, os: seq<char>, j: nat, r: nat)
    requires |xs| == |os| + 1 && j < r < |os|
    ensures MergeAt(xs, os, j)[..r] == MergeAt(xs[..r + 1], os[..r], j)
    ensures MergeAt(xs, os, j)[r..] == xs[r + 1..]
    ensures RemoveAt(os, j)[..r - 1] == RemoveAt(os[..r], j)
    ensures RemoveAt(os, j)[r..] == os[r + 1..]
    ensures IsHandle(os, j) ==> IsHandle(os[..r], j)
  {
  }

  /** Merging right of position r happens within the operands after r. */
  lemma MergeRightSlices(xs: seq<Value>, os: seq<char>, j: nat, r: nat)
    requires |xs| == |os| + 1 && r < j < |os|
    ensures MergeAt(xs, os, j)[..r + 1] == xs[..r + 1]
    ensures MergeAt(xs, os, j)[r + 1..] == MergeAt(xs[r + 1..], os[r + 1..], j - r - 1)
    ensures RemoveAt(os, j)[..r] == os[..r]
    ensures RemoveAt(os, j)[r + 1..] == RemoveAt(os[r + 1..], j - r - 1)
    ensures IsHandle(os, j) ==> IsHandle(os[r + 1..], j - r - 1)
  {
  }

  /** `Climb` of equal sequences, for rewriting without exposing the sequences' structure. */
  lemma ClimbRewrite(a: seq<Value>, b: seq<char>, c: seq<Value>, d: seq<char>)
    requires |a| == |b| + 1 && a == c && b == d
    ensures Climb(a, b) == Climb(c, d)
  {
  }

  /** Two flat expressions whose roots carry the same operator over equal subtrees have the same tree. */
  lemma SameRoot(xs: seq<Value>, os: seq<char>, r: nat, xs': seq<Value>, os': seq<char>, r': nat)
    requires |xs| == |os| + 1 && 0 < |os| && r == LastMin(os)
    requires |xs'| == |os'| + 1 && 0 < |os'| && r' == LastMin(os')
    requires os'[r'] == os[r]
    requires Climb(xs'[..r' + 1], os'[..r']) == Climb(xs[..r + 1], os[..r])
    requires Climb(xs'[r' + 1..], os'[r' + 1..]) == Climb(xs[r + 1..], os[r + 1..])
    ensures Climb(xs', os') == Climb(xs, os)
  {
  }

  /** `SameRoot` for a root that moved one place to the left. */
  lemma SameRootShifted(xs: seq<Value>, os: seq<char>, r: nat, xs': seq<Value>, os': seq<char>)
    requires |xs| == |os| + 1 && 0 < r < |os| && r == LastMin(os)
    requires |xs'| == |os'| + 1 && 0 < |os'| && r - 1 == LastMin(os')
    requires os'[r - 1] == os[r]
    requires Climb(xs'[..r], os'[..r - 1]) == Climb(xs[..r + 1], os[..r])
    requires Climb(xs'[r..], os'[r..]) == Climb(xs[r + 1..], os[r + 1..])
    ensures Climb(xs', os') == Climb(xs, os)
  {
    var r' := r - 1;
    assert xs'[..r' + 1] == xs'[..r] && xs'[r' + 1..] == xs'[r..] && os'[r' + 1..] == os'[r..];
    SameRoot(xs, os, r, xs', os', r');
  }

  /** Combining a handle left of the root happens inside the root's left operand. */
  lemma {:induction false} HandleLeftOfRoot(xs: seq<Value>, os: seq<char>, j: nat, r: nat)
    requires |xs| == |os| + 1 && IsHandle(os, j) && r == LastMin(os) && j < r
    ensures Climb(MergeAt(xs, os, j), RemoveAt(os, j)) == Climb(xs, os)
    decreases |os|, 0
  {
    var xs', os' := MergeAt(xs, os, j), RemoveAt(os, j);
    RootAfterLeftRemoval(os, j, r);
    MergeLeftSlices(xs, os, j, r);
    HandleReduces(xs[..r + 1], os[..r], j);
    ClimbRewrite(xs'[..r], os'[..r - 1], MergeAt(xs[..r + 1], os[..r], j), RemoveAt(os[..r], j));
    ClimbRewrite(xs'[r..], os'[r..], xs[r + 1..], os[r + 1..]);
    SameRootShifted(xs, os, r, xs', os');
  }

  /** Combining a handle right of the root happens inside the root's right operand. */
  lemma {:induction false} HandleRightOfRoot(xs: seq<Value>, os: seq<char>, j: nat, r: nat)
    requires |xs| == |os| + 1 && IsHandle(os, j) && r == LastMin(os) && r < j
    ensures Climb(MergeAt(xs, os, j), RemoveAt(os, j)) == Climb(xs, os)
    decreases |os|, 0
  {
    var xs', os' := MergeAt(xs, os, j), RemoveAt(os, j);
    RootAfterRightRemoval(os, j, r);
    MergeRightSlices(xs, os, j, r);
    HandleReduces(xs[r + 1..], os[r + 1..], j - r - 1);
    ClimbRewrite(xs'[..r + 1], os'[..r], xs[..r + 1], os[..r]);
    ClimbRewrite(xs'[r + 1..], os'[r + 1..], MergeAt(xs[r + 1..], os[r + 1..], j - r - 1), RemoveAt(os[r + 1..], j - r - 1));
    SameRoot(xs, os, r, xs', os', r);
  }

  /**
   * Applying an operator that binds tighter than its left neighbour and at
   * least as tight as its right neighbour does not change the tree.
   */
  lemma {:induction false} HandleReduces(xs: seq<Value>, os: seq<char>, j: nat)
    requires |xs| == |os| + 1 && IsHandle(os, j)
    ensures Climb(MergeAt(xs, os, j), RemoveAt(os, j)) == Climb(xs, os)
    decreases |os|, 1
  {
    var r := LastMin(os);
    if r == j {
      HandleIsRoot(xs, os, j);
    } else if j < r {
      HandleLeftOfRoot(xs, os, j, r);
    } else {
      HandleRightOfRoot(xs, os, j, r);
    }
  }

  /** Applying the top operator of the stack merges it in the whole pending expression. */
  lemma MergeTop(vs: seq<Value>, ops: seq<char>, rx: seq<Value>, ro: seq<char>)
    requires |vs| == |ops| + 1 && ops != [] && |rx| == |ro|
    requires IsOperatorChar(ops[|ops| - 1])
    ensures ApplyOp(vs, ops[|ops| - 1]).Ok?
    ensures MergeAt(vs + rx, ops + ro, |ops| - 1) == ApplyOp(vs, ops[|ops| - 1]).value + rx
    ensures RemoveAt(ops + ro, |ops| - 1) == ops[..|ops| - 1] + ro
  {
    var n := |ops|;
    var merged := MergeAt(vs + rx, ops + ro, n - 1);
    var applied := ApplyOp(vs, ops[n - 1]).value + rx;
    assert |merged| == |applied|;
    forall i | 0 <= i < |merged| ensures merged[i] == applied[i] {
      if i < n - 1 {
        assert applied[i] == ApplyOp(vs, ops[n - 1]).value[..n - 1][i];
      }
    }
  }

  /** Operator and value stacks holding `vs[0] ops[0] vs[1] ... vs[n]`, precedences ascending. */
  predicate Pending(vs: seq<Value>, ops: seq<char>) {
    |vs| == |ops| + 1 && Ascending(ops) && AllOperators(ops)
  }

  /**
   * The top of an ascending operator stack is a handle when the next
   * operator to be read has no higher precedence.
   */
  lemma TopIsHandle(ops: seq<char>, p: int, ro: seq<char>)
    requires Ascending(ops) && ops != [] && Precedence(ops[|ops| - 1]) >= p
    requires ro != [] ==> Precedence(ro[0]) <= p
    ensures IsHandle(ops + ro, |ops| - 1)
  {
    var n, os := |ops|, ops + ro;
    assert n > 1 ==> os[n - 2] == ops[n - 2];
    assert n < |os| ==> os[n] == ro[0];
  }

  /** One pop of the reduce loop: the top operator is a handle of the pending expression. */
  lemma ReduceStep(vs: seq<Value>, ops: seq<char>, p: int, rx: seq<Value>, ro: seq<char>)
    requires Pending(vs, ops) && |rx| == |ro| && ops != [] && Precedence(ops[|ops| - 1]) >= p
    requires ro != [] ==> Precedence(ro[0]) <= p
    ensures ApplyOp(vs, ops[|ops| - 1]).Ok?
    ensures Pending(ApplyOp(vs, ops[|ops| - 1]).value, ops[..|ops| - 1])
    ensures Climb(ApplyOp(vs, ops[|ops| - 1]).value + rx, ops[..|ops| - 1] + ro) == Climb(vs + rx, ops + ro)
  {
    MergeTop(vs, ops, rx, ro);
    TopIsHandle(ops, p, ro);
    HandleReduces(vs + rx, ops + ro, |ops| - 1);
  }

  /**
   * The loop that applies pending operators of precedence at least p keeps
   * the meaning of the pending expression followed by the unread operands
   * rx and operators ro, provided the next operator to be read has
   * precedence at most p; the stacks stay a pending expression.
   */
  lemma {:induction false} ReduceClimbs(vs: seq<Value>, ops: seq<char>, p: int, rx: seq<Value>, ro: seq<char>)
    requires Pending(vs, ops) && |rx| == |ro|
    requires ro != [] ==> Precedence(ro[0]) <= p
    ensures Reduce(vs, ops, p).Ok?
    ensures Pending(Reduce(vs, ops, p).value.0, Reduce(vs, ops, p).value.1)
    ensures Climb(Reduce(vs, ops, p).value.0 + rx, Reduce(vs, ops, p).value.1 + ro) == Climb(vs + rx, ops + ro)
    decreases |ops|
  {
    if ops != [] && Precedence(ops[|ops| - 1]) >= p {
      ReduceStep(vs, ops, p, rx, ro);
      ReduceClimbs(ApplyOp(vs, ops[|ops| - 1]).value, ops[..|ops| - 1], p, rx, ro);
    }
  }

  /** At the end of the tokens the drained stack holds the tree. */
  lemma LastOperand(vs: seq<Value>, ops: seq<char>, m: Value)
    requires Pending(vs, ops) && Climb(vs, ops) == m
    ensures Reduce(vs, ops, 0).Ok?
    ensures Reduce(vs, ops, 0).value.0 == [m]
  {
    ReduceClimbs(vs, ops, 0, [], []);
    var r := Reduce(vs, ops, 0).value;
    assert r.1 == [];
    assert vs + [] == vs && ops + [] == ops && r.0 + [] == r.0 && r.1 + [] == r.1;
  }

  /** Pushing an operator above all stacked precedences keeps the stack ascending. */
  lemma PushAscending(ops: seq<char>, o: char)
    requires Ascending(ops) && AllOperators(ops) && IsOperatorChar(o)
    requires ops == [] || Precedence(ops[|ops| - 1]) < Precedence(o)
    ensures Ascending(ops + [o]) && AllOperators(ops + [o])
  {
    var ops2 := ops + [o];
    assert forall j :: 0 <= j < |ops| ==> ops2[j] == ops[j];
  }

  /** Reading operator o: reduce, then push o; the stacks stay a pending expression. */
  lemma OperatorStep(vs: seq<Value>, ops: seq<char>, o: char, rx: seq<Value>, ro: seq<char>)
    requires Pending(vs, ops) && IsOperatorChar(o) && |rx| == |ro| + 1
    ensures Reduce(vs, ops, Precedence(o)).Ok?
    ensures |Reduce(vs, ops, Precedence(o)).value.0| == |Reduce(vs, ops, Precedence(o)).value.1| + 1
    ensures Ascending(Reduce(vs, ops, Precedence(o)).value.1 + [o])
    ensures AllOperators(Reduce(vs, ops, Precedence(o)).value.1 + [o])
    ensures Climb(Reduce(vs, ops, Precedence(o)).value.0 + rx, Reduce(vs, ops, Precedence(o)).value.1 + ([o] + ro))
         == Climb(vs + rx, ops + ([o] + ro))
  {
    ReduceClimbs(vs, ops, Precedence(o), rx, [o] + ro);
    PushAscending(Reduce(vs, ops, Precedence(o)).value.1, o);
  }

  /** A number token is pushed on the value stack. */
  lemma ScopeNumber(ts: seq<Token>, index: nat, vs: seq<Value>, ops: seq<char>, x: Value)
    requires index < |ts| && ts[index] == Number(x)
    ensures Scope(ts, index, vs, ops) == Scope(ts, index + 1, vs + [x], ops)
  {
  }

  /** An operator token reduces the stacks, then is pushed on the operator stack. */
  lemma ScopeOperator(ts: seq<Token>, index: nat, vs: seq<Value>, ops: seq<char>, o: char)
    requires index < |ts| && ts[index] == Operator(o) && Reduce(vs, ops, Precedence(o)).Ok?
    ensures Scope(ts, index, vs, ops) ==
      Scope(ts, index + 1, Reduce(vs, ops, Precedence(o)).value.0, Reduce(vs, ops, Precedence(o)).value.1 + [o])
  {
  }

  /** At the end of the tokens the single value left after draining is the result. */
  lemma ScopeEnd(ts: seq<Token>, index: nat, vs: seq<Value>, ops: seq<char>, v: Value)
    requires index >= |ts| && Reduce(vs, ops, 0).Ok? && Reduce(vs, ops, 0).value.0 == [v]
    ensures Scope(ts, index, vs, ops) == Ok((v, index))
  {
  }

  /**
   * The stacks hold the expression read so far, up to but not including
   * operand i, and followed by the unread rest it has the tree m. The tree
   * is stated for any ws and ps equal to the two concatenations, so that
   * `Climb` is unfolded only where a proof names it.
   */
  predicate ReadUpTo(xs: seq<Value>, os: seq<char>, i: nat, vs: seq<Value>, ops: seq<char>, m: Value)
    requires |xs| == |os| + 1 && i < |xs|
  {
    |vs| == |ops| && Ascending(ops) && AllOperators(ops) &&
    forall ws, ps :: ws == vs + xs[i..] && ps == ops + os[i..] ==> Climb(ws, ps) == m
  }

  /**
   * The scan of the flat expression ts from operand i (token t) on, with
   * value stack vs and operator stack ops holding the expression read so
   * far: it ends at the end of the tokens with the tree `Climb` gives.
   */
  lemma {:induction false} FlatScope(xs: seq<Value>, os: seq<char>, ts: seq<Token>, i: nat, t: nat, vs: seq<Value>, ops: seq<char>, m: Value)
    requires |xs| == |os| + 1 && AllOperators(os) && SpellsFlat(xs, os, ts)
    requires i < |xs| && t == 2 * i && ReadUpTo(xs, os, i, vs, ops, m)
    ensures Scope(ts, t, vs, ops) == Ok((m, |ts|))
    decreases |xs| - i, 1
  {
    ScopeNumber(ts, t, vs, ops, xs[i]);
    if i == |os| {
      FlatLastOperand(xs, os, ts, t + 1, vs, ops, m);
    } else {
      FlatOperator(xs, os, ts, i, t + 1, vs, ops, m);
    }
  }

  /** The last operand is followed by the end of the tokens. */
  lemma FlatLastOperand(xs: seq<Value>, os: seq<char>, ts: seq<Token>, t: nat, vs: seq<Value>, ops: seq<char>, m: Value)
    requires |xs| == |os| + 1 && t == |ts| && t == 2 * |os| + 1 && ReadUpTo(xs, os, |os|, vs, ops, m)
    ensures Scope(ts, t, vs + [xs[|os|]], ops) == Ok((m, |ts|))
  {
    var i := |os|;
    assert vs + xs[i..] == vs + [xs[i]] && ops + os[i..] == ops;
    LastOperand(vs + [xs[i]], ops, m);
    ScopeEnd(ts, t, vs + [xs[i]], ops, m);
  }

  /** Splitting the unread part of a flat expression at operand i. */
  lemma SplitUnread(xs: seq<Value>, os: seq<char>, i: nat, vs: seq<Value>, ops: seq<char>, ops2: seq<char>)
    requires |xs| == |os| + 1 && i < |os|
    ensures vs + xs[i..] == vs + [xs[i]] + xs[i + 1..]
    ensures ops + os[i..] == ops + ([os[i]] + os[i + 1..])
    ensures ops2 + [os[i]] + os[i + 1..] == ops2 + ([os[i]] + os[i + 1..])
  {
    assert os[i..] == [os[i]] + os[i + 1..];
  }

  /**
   * Reading operand i and operator i: the reduce loop succeeds, and the
   * new stacks followed by the unread rest have the same tree as before.
   */
  lemma ReadStep(xs: seq<Value>, os: seq<char>, i: nat, vs: seq<Value>, ops: seq<char>)
    requires |xs| == |os| + 1 && AllOperators(os) && i < |os|
    requires |vs| == |ops| && Ascending(ops) && AllOperators(ops)
    ensures Reduce(vs + [xs[i]], ops, Precedence(os[i])).Ok?
    ensures
      var r := Reduce(vs + [xs[i]], ops, Precedence(os[i])).value;
      |r.0| == |r.1 + [os[i]]| && Ascending(r.1 + [os[i]]) && AllOperators(r.1 + [os[i]]) &&
      Climb(r.0 + xs[i + 1..], r.1 + [os[i]] + os[i + 1..]) == Climb(vs + xs[i..], ops + os[i..])
  {
    var vs1, o, rx, ro := vs + [xs[i]], os[i], xs[i + 1..], os[i + 1..];
    OperatorStep(vs1, ops, o, rx, ro);
    var r := Reduce(vs1, ops, Precedence(o)).value;
    SplitUnread(xs, os, i, vs, ops, r.1);
    ClimbRewrite(r.0 + rx, r.1 + [o] + ro, r.0 + rx, r.1 + ([o] + ro));
    ClimbRewrite(vs1 + rx, ops + ([o] + ro), vs + xs[i..], ops + os[i..]);
  }

  /** Reading operand i and operator i keeps the stacks holding the expression read so far. */
  lemma ReadOperator(xs: seq<Value>, os: seq<char>, i: nat, vs: seq<Value>, ops: seq<char>, m: Value)
    requires |xs| == |os| + 1 && AllOperators(os) && i < |os| && ReadUpTo(xs, os, i, vs, ops, m)
    ensures Reduce(vs + [xs[i]], ops, Precedence(os[i])).Ok?
    ensures
      var r := Reduce(vs + [xs[i]], ops, Precedence(os[i])).value;
      ReadUpTo(xs, os, i + 1, r.0, r.1 + [os[i]], m)
  {
    ReadStep(xs, os, i, vs, ops);
    var r := Reduce(vs + [xs[i]], ops, Precedence(os[i])).value;
    assert Climb(vs + xs[i..], ops + os[i..]) == m;
  }

  /** Operand i is followed by operator i (token t); the scan goes on at operand i + 1. */
  lemma {:induction false} FlatOperator(xs: seq<Value>, os: seq<char>, ts: seq<Token>, i: nat, t: nat, vs: seq<Value>, ops: seq<char>, m: Value)
    requires |xs| == |os| + 1 && AllOperators(os) && SpellsFlat(xs, os, ts)
    requires i < |os| && t == 2 * i + 1 && ReadUpTo(xs, os, i, vs, ops, m)
    ensures Scope(ts, t, vs + [xs[i]], ops) == Ok((m, |ts|))
    decreases |xs| - i, 0
  {
    var vs', ops' := OperatorScope(xs, os, ts, i, t, vs, ops, m);
    FlatScope(xs, os, ts, i + 1, t + 1, vs', ops', m);
  }

  /** The scan step at operator i (token t), with the stacks it leaves. */
  lemma OperatorScope(xs: seq<Value>, os: seq<char>, ts: seq<Token>, i: nat, t: nat, vs: seq<Value>, ops: seq<char>, m: Value)
    returns (vs': seq<Value>, ops': seq<char>)
    requires |xs| == |os| + 1 && AllOperators(os) && SpellsFlat(xs, os, ts)
    requires i < |os| && t == 2 * i + 1 && ReadUpTo(xs, os, i, vs, ops, m)
    ensures i + 1 < |xs| && ReadUpTo(xs, os, i + 1, vs', ops', m)
    ensures Scope(ts, t, vs + [xs[i]], ops) == Scope(ts, t + 1, vs', ops')
  {
    ReadOperator(xs, os, i, vs, ops, m);
    var r := Reduce(vs + [xs[i]], ops, Precedence(os[i])).value;
    vs', ops' := r.0, r.1 + [os[i]];
    ScopeOperator(ts, t, vs + [xs[i]], ops, os[i]);
  }

  /**
   * `parse_tokens` on a flat expression `x0 o1 x1 ... on xn` consumes all
   * its tokens and yields the tree whose root is the rightmost operator of
   * lowest precedence, recursively: the operator-stack algorithm agrees with
   * the reference precedence semantics.
   */
  lemma FlatEvaluation(xs: seq<Value>, os: seq<char>)
    requires |xs| == |os| + 1 && AllOperators(os)
    ensures Parse(Interleave(xs, os), 0) == Ok((Climb(xs, os), 2 * |os| + 1))
    ensures Evaluation(Interleave(xs, os)) == Ok(Num(Climb(xs, os)))
  {
    assert [] + xs[0..] == xs && [] + os[0..] == os;
    assert ReadUpTo(xs, os, 0, [], [], Climb(xs, os));
    InterleaveSpells(xs, os);
    FlatScope(xs, os, Interleave(xs, os), 0, 0, [], [], Climb(xs, os));
  }

  /** `((x0 o0 x1) o1 x2) ... on-1 xn`: every operator grouped to the left. */
  function LeftFold(xs: seq<Value>, os: seq<char>): Value
    requires |xs| == |os| + 1
    decreases |os|
  {
    if os == [] then xs[0]
    else Binary(os[|os| - 1], LeftFold(xs[..|os|], os[..|os| - 1]), xs[|os|])
  }

  /** All operators share one precedence level. */
  predicate OneLevel(os: seq<char>) {
    forall j, k :: 0 <= j < k < |os| ==> Precedence(os[j]) == Precedence(os[k])
  }

  /** On one precedence level the reference tree groups to the left. */
  lemma {:induction false} OneLevelGroupsLeft(xs: seq<Value>, os: seq<char>)
    requires |xs| == |os| + 1 && OneLevel(os)
    ensures Climb(xs, os) == LeftFold(xs, os)
    decreases |os|
  {
    if os != [] {
      var n := |os|;
      LastMinUnique(os, n - 1);
      assert xs[n..] == [xs[n]];
      assert xs[..n] == xs[..n - 1 + 1];
      OneLevelGroupsLeft(xs[..n], os[..n - 1]);
    }
  }

  /**
   * `parse_tokens` evaluates a chain of operators of one precedence level
   * left to right; this holds for `^` too, so `2^3^2` is `(2^3)^2`.
   */
  lemma ChainsGroupLeft(xs: seq<Value>, os: seq<char>)
    requires |xs| == |os| + 1 && AllOperators(os) && OneLevel(os)
    ensures Evaluation(Interleave(xs, os)) == Ok(Num(LeftFold(xs, os)))
  {
    FlatEvaluation(xs, os);
    OneLevelGroupsLeft(xs, os);
  }

  /** The reference tree of `a o1 b o2 c`. */
  lemma ClimbTwo(a: Value, o1: char, b: Value, o2: char, c: Value)
    ensures Climb([a, b, c], [o1, o2]) ==
      if Precedence(o1) < Precedence(o2) then Binary(o1, a, Binary(o2, b, c))
      else Binary(o2, Binary(o1, a, b), c)
  {
    var xs, os := [a, b, c], [o1, o2];
    if Precedence(o1) < Precedence(o2) {
      LastMinUnique(os, 0);
      assert xs[..1] == [a] && os[..0] == [];
      assert xs[1..] == [b, c] && os[1..] == [o2];
      LastMinUnique([o2], 0);
      assert [b, c][..1] == [b] && [b, c][1..] == [c] && [o2][..0] == [] && [o2][1..] == [];
      assert Climb([b, c], [o2]) == Binary(o2, b, c);
      assert Climb(xs, os) == Binary(o1, Climb([a], []), Climb([b, c], [o2]));
    } else {
      LastMinUnique(os, 1);
      assert xs[..2] == [a, b] && os[..1] == [o1];
      assert xs[2..] == [c] && os[2..] == [];
      LastMinUnique([o1], 0);
      assert [a, b][..1] == [a] && [a, b][1..] == [b] && [o1][..0] == [] && [o1][1..] == [];
      assert Climb([a, b], [o1]) == Binary(o1, a, b);
      assert Climb(xs, os) == Binary(o2, Climb([a, b], [o1]), Climb([c], []));
    }
  }

  /**
   * `a o1 b o2 c`: the second operator is applied first exactly when it
   * binds strictly tighter than the first.
   */
  lemma TwoOperators(a: Value, o1: char, b: Value, o2: char, c: Value)
    requires IsOperatorChar(o1) && IsOperatorChar(o2)
    ensures Evaluation([Number(a), Operator(o1), Number(b), Operator(o2), Number(c)]) ==
      Ok(Num(if Precedence(o1) < Precedence(o2) then Binary(o1, a, Binary(o2, b, c))
             else Binary(o2, Binary(o1, a, b), c)))
  {
    var xs, os := [a, b, c], [o1, o2];
    FlatEvaluation(xs, os);
    assert [b, c][1..] == [c] && [o2][1..] == [];
    assert Interleave([b, c], [o2]) == [Number(b), Operator(o2), Number(c)];
    assert xs[1..] == [b, c] && os[1..] == [o2];
    assert Interleave(xs, os) == [Number(a), Operator(o1), Number(b), Operator(o2), Number(c)];
    ClimbTwo(a, o1, b, o2, c);
  }
}
