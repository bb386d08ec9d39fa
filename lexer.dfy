/**
 * The tokenizer (`tokenize` in src/main.rs). The specification functions
 * describe one step of the scanner (`NextLexeme`) and the whole scan
 * (`LexFrom`, `Lex`); each lexeme remembers the span of input it was read
 * from, so that properties about the input text can be stated. The method
 * `Tokenize` is the scanner itself: a loop that pushes tokens.
 */
module Lexer {
  import opened Model

  /** `char::is_digit(10)`. */
  predicate IsDigit(c: char) { '0' <= c <= '9' }

  /** The characters of a numeric literal: digits and `.`. */
  predicate IsNumeric(c: char) { IsDigit(c) || c == '.' }

  /** `char::is_alphabetic`, restricted to ASCII letters. */
  predicate IsAlphabetic(c: char) { 'a' <= c <= 'z' || 'A' <= c <= 'Z' }

  /** Every character that can start or continue some token. */
  predicate InAlphabet(c: char) {
    IsNumeric(c) || IsOperatorChar(c) || c == '(' || c == ')' || IsAlphabetic(c)
  }

  /** The remaining input from position i starts with w. */
  predicate StartsWithAt(txt: string, i: nat, w: string) {
    i + |w| <= |txt| && txt[i..i + |w|] == w
  }

  /** A lexeme without its leading `-`, if any. */
  function Unsigned(s: string): string {
    if |s| > 0 && s[0] == '-' then s[1..] else s
  }

  /**
   * Whether `str::parse::<f64>` accepts a lexeme made of an optional `-`
   * followed by digits and dots: exactly when it has at least one digit and
   * at most one dot.
   */
  predicate IsFloatLexeme(s: string) {
    var body := Unsigned(s);
    (forall k :: 0 <= k < |body| ==> IsNumeric(body[k])) &&
    (exists k :: 0 <= k < |body| && IsDigit(body[k])) &&
    (forall k, m :: 0 <= k < m < |body| && body[k] == '.' ==> body[m] != '.')
  }

  /** `num_str.parse()`: the value of a lexeme, or nothing when it is malformed. */
  function ParseFloat(s: string): (r: Option<Value>)
    ensures r.Some? <==> IsFloatLexeme(s)
    ensures r.Some? ==> r.value == Lit(s)
  {
    if IsFloatLexeme(s) then Some(Lit(s)) else None
  }

  /** The end of the longest run of characters satisfying inRun that starts at i. */
  function RunEnd(txt: string, i: nat, inRun: char -> bool): (j: nat)
    requires i <= |txt|
    ensures i <= j <= |txt|
    ensures forall k :: i <= k < j ==> inRun(txt[k])
    ensures j == |txt| || !inRun(txt[j])
    decreases |txt| - i
  {
    if i == |txt| || !inRun(txt[i]) then i else RunEnd(txt, i + 1, inRun)
  }

  /** A run end is determined by its two properties. */
  lemma RunEndUnique(txt: string, i: nat, j: nat, inRun: char -> bool)
    requires i <= j <= |txt|
    requires forall k :: i <= k < j ==> inRun(txt[k])
    requires j == |txt| || !inRun(txt[j])
    ensures j == RunEnd(txt, i, inRun)
  {
  }

  /** A token together with the span [start, end) of the input it was read from. */
  datatype Lexeme = Lexeme(token: Token, start: nat, end: nat)

  /** `tokens.last()`. */
  function Last(tokens: seq<Token>): Option<Token> {
    if tokens == [] then None else Some(tokens[|tokens| - 1])
  }

  /** A `-` is a sign (not the binary operator) at the start or after an operator or `(`. */
  predicate MinusIsUnary(prev: Option<Token>)
    ensures !MinusIsUnary(prev) <==>
      prev.Some? && (prev.value.Number? || prev.value.RightParen? || prev.value.Constant? || prev.value.Function?)
  {
    prev.None? || prev.value.Operator? || prev.value.LeftParen?
  }

  /** The number lexeme txt[i..j], or the parse error. */
  function NumberLexeme(txt: string, i: nat, j: nat): (r: Result<Lexeme>)
    requires i <= j <= |txt|
  {
    match ParseFloat(txt[i..j])
    case None => Err(InvalidNumberFormat)
    case Some(v) => Ok(Lexeme(Number(v), i, j))
  }

  /**
   * One iteration of the scanner's outer loop at position i, where prev is
   * the last token emitted so far.
   */
  function NextLexeme(txt: string, i: nat, prev: Option<Token>, ans: Value): (r: Result<Lexeme>)
    requires i < |txt|
    ensures r.Ok? ==> r.value.start == i < r.value.end <= |txt|
  {
    var ch := txt[i];
    if IsNumeric(ch) then
      NumberLexeme(txt, i, RunEnd(txt, i, IsNumeric))
    else if ch == 'a' && StartsWithAt(txt, i, "ans") then
      Ok(Lexeme(Number(ans), i, i + 3))
    else if ch == '+' || ch == '*' || ch == '/' || ch == '^' then
      Ok(Lexeme(Operator(ch), i, i + 1))
    else if ch == '-' then
      if MinusIsUnary(prev) then
        if i + 1 == |txt| then Err(UnexpectedEndAfterMinus)
        else if !IsNumeric(txt[i + 1]) then Err(UnexpectedCharacterAfterMinus)
        else NumberLexeme(txt, i, RunEnd(txt, i + 1, IsNumeric))
      else
        Ok(Lexeme(Operator('-'), i, i + 1))
    else if ch == '(' then
      Ok(Lexeme(LeftParen, i, i + 1))
    else if ch == ')' then
      Ok(Lexeme(RightParen, i, i + 1))
    else if ch == 'p' && StartsWithAt(txt, i, "pi") then
      Ok(Lexeme(Constant("pi"), i, i + 2))
    else if ch == 'e' && !StartsWithAt(txt, i, "exp") then
      Ok(Lexeme(Constant("e"), i, i + 1))
    else if IsAlphabetic(ch) then
      var j := RunEnd(txt, i, IsAlphabetic);
      Ok(Lexeme(Function(txt[i..j]), i, j))
    else
      Err(UnexpectedCharacter(ch))
  }

  /** The scan of txt[i..] when prev is the last token emitted before position i. */
  function LexFrom(txt: string, i: nat, prev: Option<Token>, ans: Value): (r: Result<seq<Lexeme>>)
    requires i <= |txt|
    ensures r.Ok? ==> |r.value| <= |txt| - i && (r.value == [] <==> i == |txt|)
    decreases |txt| - i
  {
    if i == |txt| then Ok([])
    else
      match NextLexeme(txt, i, prev, ans)
      case Err(e) => Err(e)
      case Ok(l) =>
        match LexFrom(txt, l.end, Some(l.token), ans)
        case Err(e) => Err(e)
        case Ok(rest) => Ok([l] + rest)
  }

  /** The scan of the whole input. */
  function Lex(txt: string, ans: Value): (r: Result<seq<Lexeme>>)
    ensures r.Ok? ==> |r.value| <= |txt| && (r.value == [] <==> txt == [])
  {
    LexFrom(txt, 0, None, ans)
  }

  function TokensOf(ls: seq<Lexeme>): (ts: seq<Token>)
    ensures |ts| == |ls| && forall k :: 0 <= k < |ls| ==> ts[k] == ls[k].token
  {
    seq(|ls|, k requires 0 <= k < |ls| => ls[k].token)
  }

  /** What `tokenize(txt, ans)` returns. */
  function Tokenized(txt: string, ans: Value): (r: Result<seq<Token>>)
    ensures r.Ok? ==> |r.value| <= |txt| && (r.value == [] <==> txt == [])
  {
    match Lex(txt, ans)
    case Err(e) => Err(e)
    case Ok(ls) => Ok(TokensOf(ls))
  }

  /** Prefixes already-scanned lexemes to the outcome of scanning the rest. */
  function Prepend(done: seq<Lexeme>, rest: Result<seq<Lexeme>>): Result<seq<Lexeme>> {
    match rest
    case Err(e) => Err(e)
    case Ok(ls) => Ok(done + ls)
  }

  lemma PrependStep(done: seq<Lexeme>, l: Lexeme, rest: Result<seq<Lexeme>>)
    ensures Prepend(done, Prepend([l], rest)) == Prepend(done + [l], rest)
  {
    if rest.Ok? {
      assert done + ([l] + rest.value) == (done + [l]) + rest.value;
    }
  }

  /**
   * The inner `while let Some(&ch) = chars.peek()` loops: reads the longest
   * run of characters satisfying inRun from position i.
   */
  method ReadRun(txt: string, i: nat, inRun: char -> bool) returns (run: string, j: nat)
    requires i <= |txt|
    ensures j == RunEnd(txt, i, inRun) && run == txt[i..j]
  {
    run, j := [], i;
    while j < |txt| && inRun(txt[j])
      invariant i <= j <= |txt|
      invariant run == txt[i..j]
      invariant forall k :: i <= k < j ==> inRun(txt[k])
    {
      run := run + [txt[j]];
      j := j + 1;
    }
    RunEndUnique(txt, i, j, inRun);
  }

  /**
   * The body of `tokenize`'s outer loop at position i, after the tokens
   * emitted so far: reads one lexeme or fails.
   */
  method ScanToken(txt: string, i: nat, tokens: seq<Token>, ans: Value) returns (r: Result<Lexeme>)
    requires i < |txt|
    ensures r == NextLexeme(txt, i, Last(tokens), ans)
  {
    var ch := txt[i];
    if IsNumeric(ch) {
      var numStr, j := ReadRun(txt, i, IsNumeric);
      var parsed := ParseFloat(numStr);
      if parsed.None? {
        return Err(InvalidNumberFormat);
      }
      return Ok(Lexeme(Number(parsed.value), i, j));
    } else if ch == 'a' && StartsWithAt(txt, i, "ans") {
      return Ok(Lexeme(Number(ans), i, i + 3));
    } else if ch == '+' || ch == '*' || ch == '/' || ch == '^' {
      return Ok(Lexeme(Operator(ch), i, i + 1));
    } else if ch == '-' {
      if tokens == [] || tokens[|tokens| - 1].Operator? || tokens[|tokens| - 1].LeftParen? {
        if i + 1 == |txt| {
          return Err(UnexpectedEndAfterMinus);
        }
        var nextCh := txt[i + 1];
        if !IsNumeric(nextCh) {
          return Err(UnexpectedCharacterAfterMinus);
        }
        var digits, j := ReadRun(txt, i + 1, IsNumeric);
        var numStr := ['-'] + digits;
        assert numStr == txt[i..j];
        var parsed := ParseFloat(numStr);
        if parsed.None? {
          return Err(InvalidNumberFormat);
        }
        return Ok(Lexeme(Number(parsed.value), i, j));
      } else {
        return Ok(Lexeme(Operator('-'), i, i + 1));
      }
    } else if ch == '(' {
      return Ok(Lexeme(LeftParen, i, i + 1));
    } else if ch == ')' {
      return Ok(Lexeme(RightParen, i, i + 1));
    } else if ch == 'p' && StartsWithAt(txt, i, "pi") {
      return Ok(Lexeme(Constant("pi"), i, i + 2));
    } else if ch == 'e' && !StartsWithAt(txt, i, "exp") {
      return Ok(Lexeme(Constant("e"), i, i + 1));
    } else if IsAlphabetic(ch) {
      var funcName, j := ReadRun(txt, i, IsAlphabetic);
      return Ok(Lexeme(Function(funcName), i, j));
    } else {
      return Err(UnexpectedCharacter(ch));
    }
  }

  /**
   * `tokenize`: scans txt left to right, pushing one token per lexeme, and
   * returns the tokens or the first error.
   */
  method Tokenize(txt: string, ans: Value) returns (r: Result<seq<Token>>)
    ensures r == Tokenized(txt, ans)
  {
    var tokens: seq<Token> := [];
    ghost var lexed: seq<Lexeme> := [];
    var i := 0;
    assert Lex(txt, ans) == Prepend(lexed, LexFrom(txt, i, Last(tokens), ans)) by {
      match Lex(txt, ans)
      case Err(_) =>
      case Ok(ls) => assert [] + ls == ls;
    }
    while i < |txt|
      invariant i <= |txt|
      invariant tokens == TokensOf(lexed)
      invariant Lex(txt, ans) == Prepend(lexed, LexFrom(txt, i, Last(tokens), ans))
      decreases |txt| - i
    {
      var step := ScanToken(txt, i, tokens, ans);
      if step.Err? {
        return Err(step.error);
      }
      var l := step.value;
      assert LexFrom(txt, i, Last(tokens), ans) == Prepend([l], LexFrom(txt, l.end, Some(l.token), ans));
      PrependStep(lexed, l, LexFrom(txt, l.end, Some(l.token), ans));
      assert Last(tokens + [l.token]) == Some(l.token);
      tokens := tokens + [l.token];
      lexed := lexed + [l];
      i := l.end;
    }
    assert tokens == TokensOf(Lex(txt, ans).value);
    r := Ok(tokens);
  }
}
