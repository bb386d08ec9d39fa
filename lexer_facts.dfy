/**
 * What the tokenizer guarantees about a successful scan: the lexemes tile
 * the input in order, each lexeme is a spelling of its token, and the
 * context-sensitive choices (prefixes `ans`, `pi`, `e`/`exp`, unary or
 * binary minus, maximal runs) are made as the source makes them.
 */
module LexerFacts {
  import opened Model
  import opened Lexer

  /** The lexemes are non-empty, contiguous and cover exactly [from, to). */
  ghost predicate Tiles(ls: seq<Lexeme>, from: nat, to: nat) {
    (ls == [] ==> from == to) &&
    (ls != [] ==> ls[0].start == from && ls[|ls| - 1].end == to) &&
    (forall k :: 0 <= k < |ls| ==> from <= ls[k].start < ls[k].end <= to) &&
    (forall j, k :: 0 <= j < k < |ls| && k == j + 1 ==> ls[j].end == ls[k].start) &&
    (forall j, k :: 0 <= j < k < |ls| ==> ls[j].end <= ls[k].start)
  }

  /** The text of lexeme l is a spelling of its token. */
  ghost predicate Spells(txt: string, l: Lexeme, ans: Value)
    requires l.start <= l.end <= |txt|
  {
    var text := txt[l.start..l.end];
    match l.token
    case Number(v) => (v == Lit(text) && IsFloatLexeme(text)) || (v == ans && text == "ans")
    case Operator(op) => IsOperatorChar(op) && text == [op]
    case LeftParen => text == "("
    case RightParen => text == ")"
    case Constant(name) => (name == "pi" || name == "e") && text == name
    case Function(name) => text == name && forall k :: 0 <= k < |name| ==> IsAlphabetic(name[k])
  }

  /**
   * The choices the scanner makes at the start of lexeme l, given the token
   * emitted before it.
   */
  ghost predicate InContext(txt: string, l: Lexeme, prev: Option<Token>, ans: Value)
    requires l.start < l.end <= |txt|
  {
    var s, e := l.start, l.end;
    // a remaining input starting with `ans` is the register, 3 characters
    (StartsWithAt(txt, s, "ans") ==> l.token == Number(ans) && e == s + 3) &&
    // a remaining input starting with `pi` is the constant, 2 characters
    (StartsWithAt(txt, s, "pi") ==> l.token == Constant("pi") && e == s + 2) &&
    // an `e` is the constant exactly when `exp` does not follow
    (txt[s] == 'e' ==> (l.token == Constant("e") <==> !StartsWithAt(txt, s, "exp"))) &&
    // a `-` is the binary operator exactly when it follows an operand or `)`
    (txt[s] == '-' ==> (l.token == Operator('-') <==> !MinusIsUnary(prev))) &&
    // a number stops at the first character that is neither a digit nor `.`
    (l.token.Number? && !StartsWithAt(txt, s, "ans") ==> e == |txt| || !IsNumeric(txt[e])) &&
    // a function name stops at the first non-alphabetic character
    (l.token.Function? ==> e == |txt| || !IsAlphabetic(txt[e]))
  }

  /** One scanner step yields a correctly spelled lexeme chosen as the source chooses. */
  lemma NextLexemeFacts(txt: string, i: nat, prev: Option<Token>, ans: Value)
    requires i < |txt|
    ensures NextLexeme(txt, i, prev, ans).Ok? ==>
      var l := NextLexeme(txt, i, prev, ans).value;
      Spells(txt, l, ans) && InContext(txt, l, prev, ans)
  {
    var r := NextLexeme(txt, i, prev, ans);
    if r.Ok? {
      var ch := txt[i];
      if IsNumeric(ch) {
        NumberFacts(txt, i, RunEnd(txt, i, IsNumeric), prev, ans);
      } else if ch == '-' && MinusIsUnary(prev) {
        NumberFacts(txt, i, RunEnd(txt, i + 1, IsNumeric), prev, ans);
      }
    }
  }

  /** A number lexeme over txt[i..j], where j ends the run of digits and dots. */
  lemma NumberFacts(txt: string, i: nat, j: nat, prev: Option<Token>, ans: Value)
    requires i < j <= |txt| && (IsNumeric(txt[i]) || txt[i] == '-')
    requires j == |txt| || !IsNumeric(txt[j])
    requires txt[i] == '-' ==> MinusIsUnary(prev)
    requires NumberLexeme(txt, i, j).Ok?
    ensures var l := NumberLexeme(txt, i, j).value;
      l.start == i && l.end == j && Spells(txt, l, ans) && InContext(txt, l, prev, ans)
  {
    var l := NumberLexeme(txt, i, j).value;
    assert txt[i..j][0] == txt[i];
  }

  /** The token emitted before lexeme k of a scan that started after prev. */
  function Before(ls: seq<Lexeme>, k: nat, prev: Option<Token>): Option<Token>
    requires k < |ls|
  {
    if k == 0 then prev else Some(ls[k - 1].token)
  }

  /** What a whole successful scan of txt[i..] guarantees. */
  ghost predicate WellScanned(txt: string, i: nat, ls: seq<Lexeme>, prev: Option<Token>, ans: Value)
    requires i <= |txt|
  {
    Tiles(ls, i, |txt|) &&
    forall k :: 0 <= k < |ls| ==>
      Spells(txt, ls[k], ans) && InContext(txt, ls[k], Before(ls, k, prev), ans)
  }

  lemma ConsTiles(l: Lexeme, rest: seq<Lexeme>, to: nat)
    requires l.start < l.end
    requires Tiles(rest, l.end, to)
    ensures Tiles([l] + rest, l.start, to)
  {
    var ls := [l] + rest;
    forall k | 0 <= k < |ls| ensures l.start <= ls[k].start < ls[k].end <= to {
      if k > 0 { assert ls[k] == rest[k - 1]; }
    }
    forall j, k | 0 <= j < k < |ls| && k == j + 1 ensures ls[j].end == ls[k].start {
      assert ls[k] == rest[k - 1];
      if j > 0 { assert ls[j] == rest[j - 1]; }
    }
    forall j, k | 0 <= j < k < |ls| ensures ls[j].end <= ls[k].start {
      assert ls[k] == rest[k - 1];
      if j > 0 { assert ls[j] == rest[j - 1]; }
    }
  }

  /** A correct first lexeme followed by a correct scan of the rest is a correct scan. */
  lemma ConsScanned(txt: string, l: Lexeme, rest: seq<Lexeme>, prev: Option<Token>, ans: Value)
    requires l.start < l.end <= |txt|
    requires Spells(txt, l, ans) && InContext(txt, l, prev, ans)
    requires WellScanned(txt, l.end, rest, Some(l.token), ans)
    ensures WellScanned(txt, l.start, [l] + rest, prev, ans)
  {
    var ls := [l] + rest;
    ConsTiles(l, rest, |txt|);
    forall k | 0 <= k < |ls|
      ensures Spells(txt, ls[k], ans) && InContext(txt, ls[k], Before(ls, k, prev), ans)
    {
      if k > 0 {
        assert ls[k] == rest[k - 1];
        assert Before(ls, k, prev) == Before(rest, k - 1, Some(l.token));
      }
    }
  }

  lemma {:induction false} LexFromFacts(txt: string, i: nat, prev: Option<Token>, ans: Value)
    requires i <= |txt|
    ensures LexFrom(txt, i, prev, ans).Ok? ==> WellScanned(txt, i, LexFrom(txt, i, prev, ans).value, prev, ans)
    decreases |txt| - i
  {
    if i < |txt| && LexFrom(txt, i, prev, ans).Ok? {
      var l := NextLexeme(txt, i, prev, ans).value;
      NextLexemeFacts(txt, i, prev, ans);
      LexFromFacts(txt, l.end, Some(l.token), ans);
      var rest := LexFrom(txt, l.end, Some(l.token), ans).value;
      assert LexFrom(txt, i, prev, ans).value == [l] + rest;
      ConsScanned(txt, l, rest, prev, ans);
    }
  }

  /**
   * A successful scan splits the input into lexemes, in input order and
   * without gaps, each one a spelling of its token and chosen as the source
   * chooses; so the tokens appear in input order and every character belongs
   * to exactly one of them.
   */
  lemma LexSplitsInput(txt: string, ans: Value)
    ensures Lex(txt, ans).Ok? ==> WellScanned(txt, 0, Lex(txt, ans).value, None, ans)
  {
    LexFromFacts(txt, 0, None, ans);
  }

  /** Every character of a spelling belongs to the scanner's alphabet. */
  lemma SpellingInAlphabet(txt: string, l: Lexeme, ans: Value, p: nat)
    requires l.start <= p < l.end <= |txt|
    requires Spells(txt, l, ans)
    ensures InAlphabet(txt[p])
  {
    var text := txt[l.start..l.end];
    assert txt[p] == text[p - l.start];
    if l.token.Number? && text != "ans" {
      assert IsFloatLexeme(text);
      var body := Unsigned(text);
      if text[0] == '-' {
        if p > l.start {
          assert body[p - l.start - 1] == txt[p];
        }
      } else {
        assert body[p - l.start] == txt[p];
      }
    }
  }

  /** The lexeme of a tiling that contains position p. */
  lemma {:induction false} Covering(ls: seq<Lexeme>, from: nat, to: nat, p: nat) returns (k: nat)
    requires Tiles(ls, from, to) && from <= p < to
    ensures k < |ls| && ls[k].start <= p < ls[k].end
  {
    if ls[0].end > p {
      k := 0;
    } else {
      var rest := ls[1..];
      assert forall j :: 0 <= j < |rest| ==> rest[j] == ls[j + 1];
      assert Tiles(rest, ls[0].end, to);
      var k' := Covering(rest, ls[0].end, to, p);
      k := k' + 1;
    }
  }

  /**
   * A character that is not a digit, `.`, one of `+ - * / ^`, a parenthesis
   * or a letter makes the scan fail.
   */
  lemma ForeignCharacterFails(txt: string, ans: Value, p: nat)
    requires p < |txt| && !InAlphabet(txt[p])
    ensures Lex(txt, ans).Err? && Tokenized(txt, ans).Err?
  {
    LexSplitsInput(txt, ans);
    if Lex(txt, ans).Ok? {
      var ls := Lex(txt, ans).value;
      var k := Covering(ls, 0, |txt|, p);
      SpellingInAlphabet(txt, ls[k], ans, p);
    }
  }

  /**
   * The scanner, run on txt, has read the lexemes ls and stands at position
   * p: each lexeme is the one the scanner reads at its start after the
   * tokens before it, and the last one ends at p.
   */
  ghost predicate Reaches(txt: string, ans: Value, ls: seq<Lexeme>, p: nat)
    decreases |ls|
  {
    if ls == [] then p == 0
    else
      var init, l := ls[..|ls| - 1], ls[|ls| - 1];
      l.end == p && l.start < |txt| && Reaches(txt, ans, init, l.start) &&
      NextLexeme(txt, l.start, Last(TokensOf(init)), ans) == Ok(l)
  }

  /** Reading one more lexeme from a reached position reaches its end. */
  lemma ReachesNext(txt: string, ans: Value, ls: seq<Lexeme>, p: nat, l: Lexeme)
    requires Reaches(txt, ans, ls, p) && p < |txt|
    requires NextLexeme(txt, p, Last(TokensOf(ls)), ans) == Ok(l)
    ensures Reaches(txt, ans, ls + [l], l.end)
  {
    assert (ls + [l])[..|ls|] == ls;
  }

  /** A scan whose first step reads l is l followed by the scan from the end of l. */
  lemma LexFromStep(txt: string, i: nat, prev: Option<Token>, ans: Value, l: Lexeme)
    requires i < |txt| && NextLexeme(txt, i, prev, ans) == Ok(l)
    ensures LexFrom(txt, i, prev, ans) == Prepend([l], LexFrom(txt, l.end, Some(l.token), ans))
  {
  }

  lemma InitLast(ls: seq<Lexeme>)
    requires ls != []
    ensures ls[..|ls| - 1] + [ls[|ls| - 1]] == ls
  {
  }

  /** The last token emitted is that of the last lexeme read. */
  lemma LastToken(ls: seq<Lexeme>)
    requires ls != []
    ensures Last(TokensOf(ls)) == Some(ls[|ls| - 1].token)
  {
    var ts := TokensOf(ls);
    assert ts[|ts| - 1] == ls[|ls| - 1].token;
  }

  /** The whole scan is the lexemes read so far followed by the scan from p on. */
  lemma {:induction false} ReachesScan(txt: string, ans: Value, ls: seq<Lexeme>, p: nat)
    requires Reaches(txt, ans, ls, p)
    ensures p <= |txt|
    ensures Lex(txt, ans) == Prepend(ls, LexFrom(txt, p, Last(TokensOf(ls)), ans))
    decreases |ls|
  {
    if ls == [] {
      match Lex(txt, ans)
      case Err(_) =>
      case Ok(all) => assert [] + all == all;
    } else {
      var init, l := ls[..|ls| - 1], ls[|ls| - 1];
      ReachesScan(txt, ans, init, l.start);
      var rest := LexFrom(txt, l.end, Some(l.token), ans);
      LexFromStep(txt, l.start, Last(TokensOf(init)), ans, l);
      PrependStep(init, l, rest);
      InitLast(ls);
      LastToken(ls);
    }
  }

  /** Once the scanner has reached p, a step that fails at p is the error of `tokenize`. */
  lemma ScanFailsAt(txt: string, ans: Value, ls: seq<Lexeme>, p: nat, e: Error)
    requires Reaches(txt, ans, ls, p) && p < |txt|
    requires NextLexeme(txt, p, Last(TokensOf(ls)), ans) == Err(e)
    ensures Tokenized(txt, ans) == Err(e)
  {
    ReachesScan(txt, ans, ls, p);
  }

  /**
   * A `-` read as a sign (at the start, or after an operator or `(`) must
   * be followed by a digit or `.`: at the end of the input, or before any
   * other character, `tokenize` fails with the matching error; and the
   * signed run it then reads must parse as a float.
   */
  lemma SignErrors(txt: string, ans: Value, ls: seq<Lexeme>, p: nat)
    requires Reaches(txt, ans, ls, p) && p < |txt| && txt[p] == '-'
    requires MinusIsUnary(Last(TokensOf(ls)))
    ensures p + 1 == |txt| ==> Tokenized(txt, ans) == Err(UnexpectedEndAfterMinus)
    ensures p + 1 < |txt| && !IsNumeric(txt[p + 1]) ==>
      Tokenized(txt, ans) == Err(UnexpectedCharacterAfterMinus)
    ensures p + 1 < |txt| && IsNumeric(txt[p + 1]) && !IsFloatLexeme(txt[p..RunEnd(txt, p + 1, IsNumeric)]) ==>
      Tokenized(txt, ans) == Err(InvalidNumberFormat)
  {
    var r := NextLexeme(txt, p, Last(TokensOf(ls)), ans);
    if r.Err? {
      ScanFailsAt(txt, ans, ls, p, r.error);
    }
  }

  /** A maximal run of digits and dots that does not parse as a float makes `tokenize` fail. */
  lemma MalformedNumberFails(txt: string, ans: Value, ls: seq<Lexeme>, p: nat)
    requires Reaches(txt, ans, ls, p) && p < |txt| && IsNumeric(txt[p])
    requires !IsFloatLexeme(txt[p..RunEnd(txt, p, IsNumeric)])
    ensures Tokenized(txt, ans) == Err(InvalidNumberFormat)
  {
    ScanFailsAt(txt, ans, ls, p, InvalidNumberFormat);
  }

  /**
   * What `str::parse::<f64>` makes of the lexemes the scanner hands it: a
   * run of digits, signed or not, is a float; a run of dots alone (or
   * nothing after the sign) is not, and neither is one with two dots.
   */
  lemma FloatShapes(s: string)
    ensures Unsigned(s) != [] && (forall k :: 0 <= k < |Unsigned(s)| ==> IsDigit(Unsigned(s)[k])) ==>
      ParseFloat(s) == Some(Lit(s))
    ensures (forall k :: 0 <= k < |Unsigned(s)| ==> Unsigned(s)[k] == '.') ==> ParseFloat(s) == None
    ensures (exists k, m :: 0 <= k < m < |Unsigned(s)| && Unsigned(s)[k] == '.' && Unsigned(s)[m] == '.') ==>
      ParseFloat(s) == None
  {
    var body := Unsigned(s);
    if body != [] && forall k :: 0 <= k < |body| ==> IsDigit(body[k]) {
      assert IsDigit(body[0]);
    }
  }

  /** Every character of s is a digit. */
  predicate AllDigits(s: string) {
    forall k :: 0 <= k < |s| ==> IsDigit(s[k])
  }

  /**
   * Rust's grammar for a decimal float without exponent, on the text after
   * the sign: `Digit+`, or `Digit* '.' Digit*` with a digit on at least one
   * side of the dot.
   */
  ghost predicate RustDecimal(body: string) {
    (body != [] && AllDigits(body)) ||
    exists i :: 0 <= i < |body| && body[i] == '.' && AllDigits(body[..i]) && AllDigits(body[i + 1..]) &&
      (i > 0 || i + 1 < |body|)
  }

  /** `IsFloatLexeme` accepts exactly Rust's decimal floats on signed runs of digits and dots. */
  lemma FloatGrammar(s: string)
    ensures IsFloatLexeme(s) <==> RustDecimal(Unsigned(s))
  {
    var body := Unsigned(s);
    if IsFloatLexeme(s) {
      if exists i :: 0 <= i < |body| && body[i] == '.' {
        var i :| 0 <= i < |body| && body[i] == '.';
        assert AllDigits(body[..i]) by {
          forall k | 0 <= k < i ensures IsDigit(body[..i][k]) {
            assert body[k] != '.';
          }
        }
        var tail := body[i + 1..];
        assert AllDigits(tail) by {
          forall k | 0 <= k < |tail| ensures IsDigit(tail[k]) {
            assert tail[k] == body[i + 1 + k] != '.';
          }
        }
        var d :| 0 <= d < |body| && IsDigit(body[d]);
        assert d != i;
      } else {
        assert AllDigits(body);
      }
    }
    if body != [] && AllDigits(body) {
      assert IsDigit(body[0]);
    } else if RustDecimal(body) {
      var i :| 0 <= i < |body| && body[i] == '.' && AllDigits(body[..i]) && AllDigits(body[i + 1..]) &&
        (i > 0 || i + 1 < |body|);
      var head, tail := body[..i], body[i + 1..];
      assert forall k :: 0 <= k < i ==> body[k] == head[k];
      assert forall k :: i < k < |body| ==> body[k] == tail[k - i - 1];
      assert forall k :: 0 <= k < |body| && k != i ==> IsDigit(body[k]);
      if i > 0 { assert IsDigit(body[0]); } else { assert IsDigit(body[i + 1]); }
    }
  }
}
