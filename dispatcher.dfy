/**
 * The entry point `parse_txt` and the comparison layer
 * `equation_comparison` of src/main.rs. Text without a comparator is
 * tokenized and evaluated; text with one is split on its first comparator,
 * the empty pieces are dropped, and exactly two sides are interpreted, each
 * with `ans` = 0.0.
 */
module Dispatcher {
  import opened Model
  import opened Lexer
  import opened Evaluator
  import opened LexerFacts

  /** The bytes `parse_txt` looks for: `=`, `<` and `>`. */
  predicate IsComparator(c: char) {
    c == '=' || c == '<' || c == '>'
  }

  /** `txt.bytes().position(..)`: the index of the first comparator, if any. */
  function FirstComparator(txt: string): (r: Option<nat>)
    ensures r.Some? ==> r.value < |txt| && IsComparator(txt[r.value])
    ensures r.Some? ==> forall j :: 0 <= j < r.value ==> !IsComparator(txt[j])
    ensures r.None? ==> forall j :: 0 <= j < |txt| ==> !IsComparator(txt[j])
    decreases |txt|
  {
    if txt == [] then None
    else if IsComparator(txt[0]) then Some(0)
    else match FirstComparator(txt[1..])
      case None => None
      case Some(k) => Some(k + 1)
  }

  /** The index of the first occurrence of c in txt, if any. */
  function IndexOf(txt: string, c: char): (r: Option<nat>)
    ensures r.Some? ==> r.value < |txt| && txt[r.value] == c
    ensures r.Some? ==> forall j :: 0 <= j < r.value ==> txt[j] != c
    ensures r.None? <==> c !in txt
    decreases |txt|
  {
    if txt == [] then None
    else if txt[0] == c then Some(0)
    else match IndexOf(txt[1..], c)
      case None => None
      case Some(k) => Some(k + 1)
  }

  /** The first occurrence is determined by the properties `IndexOf` ensures. */
  lemma IndexOfAt(txt: string, c: char, i: nat)
    requires i < |txt| && txt[i] == c && forall j :: 0 <= j < i ==> txt[j] != c
    ensures IndexOf(txt, c) == Some(i)
  {
    var r := IndexOf(txt, c);
    assert r.Some? by { assert txt[i] in txt; }
    assert !(r.value < i) && !(i < r.value);
  }

  /**
   * `txt.split(c).collect()`: the pieces between occurrences of c, in order,
   * empty pieces included (one piece more than there are occurrences).
   */
  function Split(txt: string, c: char): (pieces: seq<string>)
    ensures |pieces| >= 1
    ensures forall j :: 0 <= j < |pieces| ==> |pieces[j]| <= |txt| && c !in pieces[j]
    ensures c in txt ==> forall j :: 0 <= j < |pieces| ==> |pieces[j]| < |txt|
    decreases |txt|
  {
    match IndexOf(txt, c)
    case None => [txt]
    case Some(i) =>
      assert forall x :: x in txt[..i] ==> x != c;
      [txt[..i]] + Split(txt[i + 1..], c)
  }

  /** The pieces glued back together with c between consecutive ones. */
  function Join(pieces: seq<string>, c: char): string
    requires |pieces| >= 1
    decreases |pieces|
  {
    if |pieces| == 1 then pieces[0] else pieces[0] + [c] + Join(pieces[1..], c)
  }

  /** Joining a piece in front of further pieces. */
  lemma JoinCons(p: string, rest: seq<string>, c: char)
    requires |rest| >= 1
    ensures Join([p] + rest, c) == p + [c] + Join(rest, c)
  {
    assert ([p] + rest)[1..] == rest;
  }

  /** Splitting loses nothing: joining the pieces with the separator gives the text back. */
  lemma {:induction false} JoinSplit(txt: string, c: char)
    ensures Join(Split(txt, c), c) == txt
    decreases |txt|
  {
    match IndexOf(txt, c)
    case None =>
    case Some(i) =>
      JoinSplit(txt[i + 1..], c);
      JoinCons(txt[..i], Split(txt[i + 1..], c), c);
      assert txt == txt[..i] + [c] + txt[i + 1..];
  }

  /** Splitting a text whose first separator follows the piece p. */
  lemma SplitAfterPiece(p: string, c: char, tail: string)
    requires c !in p
    ensures Split(p + [c] + tail, c) == [p] + Split(tail, c)
  {
    var txt := p + [c] + tail;
    assert forall j :: 0 <= j < |p| ==> txt[j] == p[j] && p[j] in p;
    IndexOfAt(txt, c, |p|);
    assert txt[..|p|] == p && txt[|p| + 1..] == tail;
  }

  /** Pieces without the separator are recovered by splitting their join. */
  lemma {:induction false} SplitJoin(pieces: seq<string>, c: char)
    requires |pieces| >= 1 && forall j :: 0 <= j < |pieces| ==> c !in pieces[j]
    ensures Split(Join(pieces, c), c) == pieces
    decreases |pieces|
  {
    if |pieces| == 1 {
      assert IndexOf(pieces[0], c).None?;
    } else {
      SplitAfterPiece(pieces[0], c, Join(pieces[1..], c));
      SplitJoin(pieces[1..], c);
      assert pieces == [pieces[0]] + pieces[1..];
    }
  }

  /** `sides.retain(|val| val != &"")`: the non-empty pieces, in their order. */
  function NonEmpty(pieces: seq<string>): (kept: seq<string>)
    ensures |kept| <= |pieces|
    ensures forall p :: p in kept <==> p in pieces && p != []
    decreases |pieces|
  {
    if pieces == [] then []
    else
      var n := |pieces|;
      var init := NonEmpty(pieces[..n - 1]);
      assert pieces == pieces[..n - 1] + [pieces[n - 1]];
      if pieces[n - 1] == [] then init else init + [pieces[n - 1]]
  }

  /** A single piece is kept exactly when it is not empty. */
  lemma NonEmptyOne(p: string)
    ensures NonEmpty([p]) == if p == [] then [] else [p]
  {
    assert [p][..0] == [];
  }

  /**
   * Filtering distributes over concatenation: the kept pieces stay in their
   * order, repeats included. With `NonEmptyOne` this fixes `NonEmpty` on
   * every sequence of pieces.
   */
  lemma {:induction false} NonEmptyConcat(a: seq<string>, b: seq<string>)
    ensures NonEmpty(a + b) == NonEmpty(a) + NonEmpty(b)
    decreases |b|
  {
    if b == [] {
      assert a + b == a;
    } else {
      var n := |b|;
      var b' := b[..n - 1];
      NonEmptyConcat(a, b');
      assert (a + b)[..|a + b| - 1] == a + b';
      assert (a + b)[|a + b| - 1] == b[n - 1];
    }
  }

  /** A text that starts with its only separator splits into an empty piece and the rest. */
  lemma SplitLeading(c: char, r: string)
    requires c !in r
    ensures Split([c] + r, c) == [[], r]
  {
    IndexOfAt([c] + r, c, 0);
    assert ([c] + r)[1..] == r;
    assert Split(r, c) == [r];
  }

  /** The sides of `l c c r`: the empty piece between the two copies of c is dropped. */
  lemma DoubledSides(l: string, c: char, r: string)
    requires c !in l && c !in r && l != [] && r != []
    ensures NonEmpty(Split(l + [c, c] + r, c)) == [l, r]
  {
    assert l + [c, c] + r == l + [c] + ([c] + r);
    SplitAfterPiece(l, c, [c] + r);
    SplitLeading(c, r);
    assert [l] + [[], r] == [l] + [[]] + [r];
    NonEmptyConcat([l] + [[]], [r]);
    NonEmptyConcat([l], [[]]);
    NonEmptyOne(l);
    NonEmptyOne([]);
    NonEmptyOne(r);
  }

  /** The sides of `l c r`, where c does not occur in l or r. */
  lemma SingleSides(l: string, c: char, r: string)
    requires c !in l && c !in r && l != [] && r != []
    ensures NonEmpty(Split(l + [c] + r, c)) == [l, r]
  {
    SplitAfterPiece(l, c, r);
    assert Split(r, c) == [r];
    NonEmptyConcat([l], [r]);
    NonEmptyOne(l);
    NonEmptyOne(r);
  }

  /**
   * The comparison route on a text `l c r`: c is the first comparator and
   * does not occur again, and both sides are non-empty. Then `parse_txt`
   * interprets l and then r, each with `ans` = 0.0 whatever the outer `ans`
   * is, and compares the two results with c; the first side that fails
   * gives the error.
   */
  lemma CompareSides(l: string, c: char, r: string, ans: Value)
    requires IsComparator(c) && FirstComparator(l).None? && c !in r
    requires l != [] && r != []
    ensures Interpret(l + [c] + r, ans) ==
      match Interpret(l, Zero)
      case Err(e) => Err(e)
      case Ok(left) =>
        match Interpret(r, Zero)
        case Err(e) => Err(e)
        case Ok(right) => Ok(Comp(c, left, right))
  {
    var txt := l + [c] + r;
    assert forall j :: 0 <= j < |l| ==> txt[j] == l[j];
    assert forall j :: 0 <= j < |l| ==> l[j] != c;
    FirstComparatorAt(txt, |l|);
    SingleSides(l, c, r);
  }

  /**
   * A comparison with an empty side, as in `=2`: dropping the empty piece
   * leaves one side, and the text fails with "Can only compare 2 equations"
   * instead of interpreting the empty side.
   */
  lemma EmptySideFails(c: char, r: string, ans: Value)
    requires IsComparator(c) && c !in r && r != []
    ensures Interpret([c] + r, ans) == Err(TooManySides)
  {
    FirstComparatorAt([c] + r, 0);
    InterpretAtComparator([c] + r, 0, ans);
    SplitLeading(c, r);
    NonEmptyConcat([[]], [r]);
    NonEmptyOne([]);
    NonEmptyOne(r);
    assert [[], r] == [[]] + [r];
  }

  /**
   * A doubled comparator, as in `1==1`: the empty piece between the two
   * copies is dropped, so the text means the same as with a single one.
   */
  lemma DoubledComparator(l: string, c: char, r: string, ans: Value)
    requires IsComparator(c) && FirstComparator(l).None? && c !in r
    requires l != [] && r != []
    ensures Interpret(l + [c, c] + r, ans) == Interpret(l + [c] + r, ans)
  {
    var txt, txt' := l + [c, c] + r, l + [c] + r;
    assert forall j :: 0 <= j < |l| ==> txt[j] == l[j] && txt'[j] == l[j];
    assert c !in l by {
      assert forall j :: 0 <= j < |l| ==> l[j] != c;
    }
    FirstComparatorAt(txt, |l|);
    FirstComparatorAt(txt', |l|);
    InterpretAtComparator(txt, |l|, ans);
    InterpretAtComparator(txt', |l|, ans);
    DoubledSides(l, c, r);
    SingleSides(l, c, r);
    SameSides(txt, |l|, txt', |l|);
  }

  /** A text with a comparator is the comparison at its first one. */
  lemma InterpretAtComparator(txt: string, k: nat, ans: Value)
    requires FirstComparator(txt) == Some(k)
    ensures Interpret(txt, ans) == Compared(txt, k)
  {
  }

  /** Two texts split on the same character into the same sides compare alike. */
  lemma SameSides(txt: string, k: nat, txt': string, k': nat)
    requires k < |txt| && k' < |txt'| && txt[k] == txt'[k']
    requires NonEmpty(Split(txt, txt[k])) == NonEmpty(Split(txt', txt'[k']))
    ensures Compared(txt, k) == Compared(txt', k')
  {
  }

  /**
   * What `parse_txt(txt, ans)` returns: without a comparator, the value of
   * the tokens; with one, the comparison at the first comparator.
   */
  function Interpret(txt: string, ans: Value): (r: Result<EvalResult>)
    ensures r.Ok? && FirstComparator(txt).None? ==> r.value.Num?
    ensures r.Ok? && FirstComparator(txt).Some? ==>
      r.value.Comp? && r.value.comparator == txt[FirstComparator(txt).value]
    decreases |txt|, 1
  {
    match FirstComparator(txt)
    case None =>
      (match Tokenized(txt, ans)
       case Err(e) => Err(e)
       case Ok(tokens) => Evaluation(tokens))
    case Some(k) => Compared(txt, k)
  }

  /**
   * What `equation_comparison(txt, Some(k))` returns: the text is split on
   * its character at k; there must be exactly two non-empty sides, which
   * are interpreted left first, each with `ans` = 0.0; the result is the
   * comparison of the two, or a failure when that character is not `=`,
   * `>` or `<`.
   */
  function Compared(txt: string, k: nat): (r: Result<EvalResult>)
    requires k < |txt|
    ensures r.Ok? ==> IsComparator(txt[k]) && r.value.Comp? && r.value.comparator == txt[k]
    ensures r.Ok? ==> |NonEmpty(Split(txt, txt[k]))| == 2
    ensures |NonEmpty(Split(txt, txt[k]))| != 2 ==> r == Err(TooManySides)
    decreases |txt|, 0
  {
    var c := txt[k];
    var sides := NonEmpty(Split(txt, c));
    if |sides| != 2 then Err(TooManySides)
    else
      assert sides[0] in sides && sides[1] in sides;
      assert forall p :: p in Split(txt, c) ==> |p| < |txt| by { assert c in txt; }
      match Interpret(sides[0], Zero)
      case Err(e) => Err(e)
      case Ok(left) =>
        match Interpret(sides[1], Zero)
        case Err(e) => Err(e)
        case Ok(right) =>
          if c == '=' then Ok(Comp('=', left, right))
          else if c == '>' then Ok(Comp('>', left, right))
          else if c == '<' then Ok(Comp('<', left, right))
          else Err(ComparisonFailed)
  }

  /**
   * The scanner emits only the constants `pi` and `e`, so the evaluator's
   * "Unknown constant" error cannot arise from a text.
   */
  lemma ScannedConstantsKnown(txt: string, ans: Value)
    ensures Tokenized(txt, ans).Ok? ==>
      forall k :: 0 <= k < |Tokenized(txt, ans).value| && Tokenized(txt, ans).value[k].Constant? ==>
        ConstantValue(Tokenized(txt, ans).value[k].name).Some?
  {
    LexSplitsInput(txt, ans);
    if Lex(txt, ans).Ok? {
      var ls := Lex(txt, ans).value;
      var ts := Tokenized(txt, ans).value;
      assert forall k :: 0 <= k < |ls| ==> Spells(txt, ls[k], ans);
      forall k | 0 <= k < |ts| && ts[k].Constant?
        ensures ConstantValue(ts[k].name).Some?
      {
        ConstantSpelling(txt, ls[k], ans);
      }
    }
  }

  /** A constant lexeme is spelled `pi` or `e`. */
  lemma ConstantSpelling(txt: string, l: Lexeme, ans: Value)
    requires l.start <= l.end <= |txt| && Spells(txt, l, ans)
    ensures l.token.Constant? ==> ConstantValue(l.token.name).Some?
  {
  }

  /** The closure passed to `position`, run over the text until it first holds. */
  method FindComparator(txt: string) returns (r: Option<nat>)
    ensures r == FirstComparator(txt)
  {
    var i := 0;
    while i < |txt|
      invariant i <= |txt|
      invariant forall j :: 0 <= j < i ==> !IsComparator(txt[j])
    {
      if txt[i] == '=' || txt[i] == '<' || txt[i] == '>' {
        FirstComparatorAt(txt, i);
        return Some(i);
      }
      i := i + 1;
    }
    FirstComparatorNone(txt);
    return None;
  }

  /** The first comparator is determined by the properties `FirstComparator` ensures. */
  lemma {:induction false} FirstComparatorAt(txt: string, i: nat)
    requires i < |txt| && IsComparator(txt[i])
    requires forall j :: 0 <= j < i ==> !IsComparator(txt[j])
    ensures FirstComparator(txt) == Some(i)
    decreases |txt|
  {
    if i > 0 {
      FirstComparatorAt(txt[1..], i - 1);
    }
  }

  lemma {:induction false} FirstComparatorNone(txt: string)
    requires forall j :: 0 <= j < |txt| ==> !IsComparator(txt[j])
    ensures FirstComparator(txt) == None
    decreases |txt|
  {
    if txt != [] {
      FirstComparatorNone(txt[1..]);
    }
  }

  /** `sides.retain(|val| val != &"")`, rendered as a loop that collects the kept sides. */
  method Retain(sides: seq<string>) returns (kept: seq<string>)
    ensures kept == NonEmpty(sides)
  {
    kept := [];
    var i := 0;
    while i < |sides|
      invariant i <= |sides|
      invariant kept == NonEmpty(sides[..i])
    {
      assert sides[..i + 1][..i] == sides[..i];
      if sides[i] != [] {
        kept := kept + [sides[i]];
      }
      i := i + 1;
    }
    assert sides[..i] == sides;
  }

  /** `parse_txt(txt, ans)`. */
  method ParseTxt(txt: string, ans: Value) returns (r: Result<EvalResult>)
    ensures r == Interpret(txt, ans)
    decreases |txt|, 1
  {
    var compIndex := FindComparator(txt);
    if compIndex.None? {
      var tokens := Tokenize(txt, ans);
      if tokens.Err? {
        return Err(tokens.error);
      }
      r := EvaluateExpression(tokens.value);
    } else {
      r := EquationComparison(txt, compIndex.value);
    }
  }

  /** `equation_comparison(txt, Some(compIndex))`. */
  method EquationComparison(txt: string, compIndex: nat) returns (r: Result<EvalResult>)
    requires compIndex < |txt|
    ensures r == Compared(txt, compIndex)
    decreases |txt|, 0
  {
    var comparator := txt[compIndex];
    var sides := Retain(Split(txt, comparator));
    if |sides| != 2 {
      return Err(TooManySides);
    }
    var leftSide, rightSide := sides[0], sides[1];
    assert leftSide in sides && rightSide in sides;
    assert forall p :: p in Split(txt, comparator) ==> |p| < |txt| by { assert comparator in txt; }
    var leftAns, rightAns := Zero, Zero;
    var leftResult := ParseTxt(leftSide, leftAns);
    if leftResult.Err? {
      return Err(leftResult.error);
    }
    var rightResult := ParseTxt(rightSide, rightAns);
    if rightResult.Err? {
      return Err(rightResult.error);
    }
    if comparator == '=' {
      r := Ok(Comp('=', leftResult.value, rightResult.value));
    } else if comparator == '>' {
      r := Ok(Comp('>', leftResult.value, rightResult.value));
    } else if comparator == '<' {
      r := Ok(Comp('<', leftResult.value, rightResult.value));
    } else {
      r := Err(ComparisonFailed);
    }
  }
}
