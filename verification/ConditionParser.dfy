/** The tokenizer's loop and the evaluator's cursor, proved to follow `Condition`. */
module ConditionParser {
  import opened Wrappers
  import opened Text
  import Collections
  import opened Condition

  /** Advances `i` over the characters a predicate accepts. */
  method SkipPath(cls: CharClasses, input: string, start: nat) returns (i: nat)
    requires start <= |input|
    ensures i == start + PathSpan(cls, input[start..])
  {
    i := start;
    while i < |input| && IsPathChar(cls, input[i])
      invariant start <= i <= |input|
      invariant i + PathSpan(cls, input[i..]) == start + PathSpan(cls, input[start..])
    {
      assert input[i..][1..] == input[i + 1..];
      i := i + 1;
    }
  }

  method SkipNumber(input: string, start: nat) returns (i: nat)
    requires start <= |input|
    ensures i == start + NumberSpan(input[start..])
  {
    i := start;
    while i < |input| && (IsAsciiDigit(input[i]) || input[i] == '.')
      invariant start <= i <= |input|
      invariant i + NumberSpan(input[i..]) == start + NumberSpan(input[start..])
    {
      assert input[i..][1..] == input[i + 1..];
      i := i + 1;
    }
  }

  method SkipWord(cls: CharClasses, input: string, start: nat) returns (i: nat)
    requires start <= |input|
    ensures i == start + WordSpan(cls, input[start..])
  {
    i := start;
    while i < |input| && cls.alphanumeric(input[i])
      invariant start <= i <= |input|
      invariant i + WordSpan(cls, input[i..]) == start + WordSpan(cls, input[start..])
    {
      assert input[i..][1..] == input[i + 1..];
      i := i + 1;
    }
  }

  method SkipQuoted(input: string, start: nat) returns (i: nat)
    requires start <= |input|
    ensures i == start + QuoteSpan(input[start..])
  {
    i := start;
    while i < |input| && input[i] != '"'
      invariant start <= i <= |input|
      invariant i + QuoteSpan(input[i..]) == start + QuoteSpan(input[start..])
    {
      assert input[i..][1..] == input[i + 1..];
      i := i + 1;
    }
  }

  lemma SuffixFrom(input: string, start: nat, i: nat)
    requires start < i <= |input|
    ensures input[start..][1..] == input[start + 1..]
    ensures input[start..][..i - start] == input[start..i]
    ensures input[start..][1..i - start] == input[start + 1..i]
  {
  }

  /** One turn of the tokenizer's loop, at a character that is not white space. */
  method ScanToken(cls: CharClasses, input: string, start: nat) returns (r: Lexeme)
    requires start < |input| && !IsWhitespace(input[start])
    ensures !r.Blank? && r == Scan(cls, input[start..])
  {
    var c := input[start];
    SuffixFrom(input, start, start + 1);
    if c == '$' && start + 1 < |input| && input[start + 1] == '.' {
      var i := SkipPath(cls, input, start + 1);
      SuffixFrom(input, start, i);
      return Lexed(Token(DollarPath, input[start..i]), i - start);
    }
    if c == '"' {
      var i := SkipQuoted(input, start + 1);
      SuffixFrom(input, start, i);
      return Lexed(Token(StrToken, input[start + 1..i]), if i < |input| then i + 1 - start else |input| - start);
    }
    if IsAsciiDigit(c) || (c == '-' && start + 1 < |input| && IsAsciiDigit(input[start + 1])) {
      var i := SkipNumber(input, start + 1);
      SuffixFrom(input, start, i);
      return Lexed(Token(NumberToken, input[start..i]), i - start);
    }
    r := ScanSymbol(cls, input, start);
  }

  /** The turn for operators and keywords. */
  method ScanSymbol(cls: CharClasses, input: string, start: nat) returns (r: Lexeme)
    requires start < |input| && !IsWhitespace(input[start])
    requires !(input[start] == '$' && start + 1 < |input| && input[start + 1] == '.') && input[start] != '"'
    requires !IsAsciiDigit(input[start])
    requires !(input[start] == '-' && start + 1 < |input| && IsAsciiDigit(input[start + 1]))
    ensures !r.Blank? && r == Scan(cls, input[start..])
  {
    SuffixFrom(input, start, start + 1);
    var op := Operator(input[start..]);
    if op.Some? {
      return Lexed(op.value, |op.value.raw|);
    }
    if cls.alphabetic(input[start]) {
      var i := SkipWord(cls, input, start + 1);
      SuffixFrom(input, start, i);
      var keyword := Keyword(input[start..i]);
      if keyword.None? {
        return Unlexed(UnknownToken);
      }
      return Lexed(Token(keyword.value, input[start..i]), i - start);
    }
    r := Unlexed(UnexpectedCharacter);
  }

  /** The tokens read so far, followed by what the rest of the input reads as. */
  ghost function Continued(tokens: seq<Token>, rest: Result<seq<Token>, CondError>): Result<seq<Token>, CondError> {
    if rest.Err? then rest else Ok(tokens + rest.value)
  }

  /** `whole` is what the input reads as. */
  ghost predicate Reading(
    cls: CharClasses, rest: string, tokens: seq<Token>, whole: Result<seq<Token>, CondError>)
  {
    whole == Continued(tokens, Tokenize(cls, rest))
  }

  lemma SuffixOf(input: string, i: nat, n: nat)
    requires i + n <= |input|
    ensures input[i..][n..] == input[i + n..]
  {
  }

  lemma ReadingStarts(cls: CharClasses, input: string)
    ensures Reading(cls, input[0..], [], Tokenize(cls, input))
  {
    var r := Tokenize(cls, input);
    assert input[0..] == input;
    assert r.Ok? ==> [] + r.value == r.value;
  }

  lemma ReadingSkips(cls: CharClasses, rest: string, tokens: seq<Token>, whole: Result<seq<Token>, CondError>)
    requires rest != [] && IsWhitespace(rest[0]) && Reading(cls, rest, tokens, whole)
    ensures Reading(cls, rest[1..], tokens, whole)
  {
  }

  lemma ReadingFails(
    cls: CharClasses, rest: string, tokens: seq<Token>, whole: Result<seq<Token>, CondError>, error: CondError)
    requires rest != [] && Reading(cls, rest, tokens, whole) && Scan(cls, rest) == Unlexed(error)
    ensures whole == Err(error)
  {
  }

  lemma ReadingAdds(
    cls: CharClasses, rest: string, tokens: seq<Token>, whole: Result<seq<Token>, CondError>, token: Token, n: nat)
    requires rest != [] && Reading(cls, rest, tokens, whole) && Scan(cls, rest) == Lexed(token, n)
    ensures 0 < n <= |rest| && Reading(cls, rest[n..], tokens + [token], whole)
  {
    var more := Tokenize(cls, rest[n..]);
    if more.Ok? {
      Collections.Regroup(tokens, [token], more.value);
    }
  }

  lemma ReadingEnds(cls: CharClasses, tokens: seq<Token>, whole: Result<seq<Token>, CondError>)
    requires Reading(cls, "", tokens, whole)
    ensures whole == Ok(tokens + [EOF])
  {
  }

  /** One token from the input, which goes on being read after it. */
  method TakeToken(
    cls: CharClasses, input: string, tokens: seq<Token>, i: nat, ghost whole: Result<seq<Token>, CondError>)
    returns (r: Result<(Token, nat), CondError>)
    requires i < |input| && !IsWhitespace(input[i]) && Reading(cls, input[i..], tokens, whole)
    ensures r.Err? ==> whole == Err(r.error)
    ensures r.Ok? ==> i < r.value.1 <= |input| && Reading(cls, input[r.value.1..], tokens + [r.value.0], whole)
  {
    var lexeme := ScanToken(cls, input, i);
    if lexeme.Unlexed? {
      ReadingFails(cls, input[i..], tokens, whole, lexeme.error);
      return Err(lexeme.error);
    }
    ReadingAdds(cls, input[i..], tokens, whole, lexeme.token, lexeme.length);
    SuffixOf(input, i, lexeme.length);
    r := Ok((lexeme.token, i + lexeme.length));
  }

  /** `tokenize` */
  method TokenizeInput(cls: CharClasses, input: string) returns (r: Result<seq<Token>, CondError>)
    ensures r == Tokenize(cls, input)
  {
    ReadingStarts(cls, input);
    ghost var whole := Tokenize(cls, input);
    var tokens: seq<Token> := [];
    var i := 0;
    while i < |input|
      invariant 0 <= i <= |input| && Reading(cls, input[i..], tokens, whole)
    {
      if IsWhitespace(input[i]) {
        ReadingSkips(cls, input[i..], tokens, whole);
        SuffixOf(input, i, 1);
        i := i + 1;
      } else {
        var taken := TakeToken(cls, input, tokens, i, whole);
        if taken.Err? {
          return Err(taken.error);
        }
        tokens := tokens + [taken.value.0];
        i := taken.value.1;
      }
    }
    ReadingEnds(cls, tokens, whole);
    r := Ok(tokens + [EOF]);
  }

  /** What a parsing step must answer, and where it must leave the cursor. */
  ghost predicate Follows(r: Result<bool, CondError>, pos: nat, expected: Parsed) {
    if expected.Ok? then r == Ok(expected.value.0) && pos == expected.value.1
    else r == Err(expected.error)
  }

  /** The recursive-descent evaluator: a token list, a cursor and the node results. */
  class Parser {
    const tokens: seq<Token>
    const resolve: Resolver
    var pos: nat

    constructor (tokens: seq<Token>, resolve: Resolver)
      ensures this.tokens == tokens && this.resolve == resolve && pos == 0
    {
      this.tokens, this.resolve, pos := tokens, resolve, 0;
    }

    /** The cursor is on a token; it is never moved past the closing `Eof` on success. */
    ghost predicate Valid()
      reads this
    {
      EndsInEof(tokens) && pos < |tokens|
    }

    method ParseOrExpr() returns (r: Result<bool, CondError>)
      requires Valid()
      modifies this
      ensures Follows(r, pos, OrExpr(resolve, tokens, old(pos)))
      ensures r.Ok? ==> Valid() && pos > old(pos)
      decreases |tokens| - pos, 4
    {
      var left := ParseAndExpr();
      if left.Err? {
        return left;
      }
      var value := left.value;
      while tokens[pos].kind == OrToken
        invariant Valid() && old(pos) < pos
        invariant OrExpr(resolve, tokens, old(pos)) == OrTail(resolve, tokens, pos, value)
        decreases |tokens| - pos
      {
        pos := pos + 1;
        var right := ParseAndExpr();
        if right.Err? {
          return right;
        }
        value := value || right.value;
      }
      r := Ok(value);
    }

    method ParseAndExpr() returns (r: Result<bool, CondError>)
      requires Valid()
      modifies this
      ensures Follows(r, pos, AndExpr(resolve, tokens, old(pos)))
      ensures r.Ok? ==> Valid() && pos > old(pos)
      decreases |tokens| - pos, 3
    {
      var left := ParseNotExpr();
      if left.Err? {
        return left;
      }
      var value := left.value;
      while tokens[pos].kind == AndToken
        invariant Valid() && old(pos) < pos
        invariant AndExpr(resolve, tokens, old(pos)) == AndTail(resolve, tokens, pos, value)
        decreases |tokens| - pos
      {
        pos := pos + 1;
        var right := ParseNotExpr();
        if right.Err? {
          return right;
        }
        value := value && right.value;
      }
      r := Ok(value);
    }

    method ParseNotExpr() returns (r: Result<bool, CondError>)
      requires Valid()
      modifies this
      ensures Follows(r, pos, NotExpr(resolve, tokens, old(pos)))
      ensures r.Ok? ==> Valid() && pos > old(pos)
      decreases |tokens| - pos, 2
    {
      if tokens[pos].kind == NotToken {
        pos := pos + 1;
        var inner := ParseNotExpr();
        if inner.Err? {
          return inner;
        }
        return Ok(!inner.value);
      }
      r := ParseComparison();
    }

    method ParseComparison() returns (r: Result<bool, CondError>)
      requires Valid()
      modifies this
      ensures Follows(r, pos, Comparison(resolve, tokens, old(pos)))
      ensures r.Ok? ==> Valid() && pos > old(pos)
      decreases |tokens| - pos, 1
    {
      if tokens[pos].kind == LParen {
        pos := pos + 1;
        var inner := ParseOrExpr();
        if inner.Err? {
          return inner;
        }
        if tokens[pos].kind != RParen {
          return Err(ExpectedParen);
        }
        pos := pos + 1;
        return inner;
      }
      if tokens[pos].kind == TrueToken {
        pos := pos + 1;
        return Ok(true);
      }
      if tokens[pos].kind == FalseToken {
        pos := pos + 1;
        return Ok(false);
      }
      var lhs := ParseValue();
      if lhs.Err? {
        return Err(lhs.error);
      }
      var op := tokens[pos].kind;
      if !IsComparison(op) {
        return Ok(AsTruthy(lhs.value));
      }
      pos := pos + 1;
      var rhs := ParseValue();
      if rhs.Err? {
        return Err(rhs.error);
      }
      r := Ok(Compare(lhs.value, op, rhs.value));
    }

    /** Consumes one token, which may be `Eof`; then the answer is an error and nothing more is read. */
    method ParseValue() returns (r: Result<Val, CondError>)
      requires Valid()
      modifies this
      ensures r == ValueOf(resolve, tokens[old(pos)]) && pos == old(pos) + 1
      ensures r.Ok? ==> Valid()
    {
      var token := tokens[pos];
      pos := pos + 1;
      r := ValueOf(resolve, token);
    }
  }

  /** `evaluate` */
  method EvaluateCondition(cls: CharClasses, resolve: Resolver, condition: string) returns (r: Result<bool, CondError>)
    ensures r == Evaluate(cls, resolve, condition)
  {
    if IsBlank(condition) {
      return Ok(true);
    }
    var tokens := TokenizeInput(cls, TrimEnd(TrimStart(condition)));
    if tokens.Err? {
      return Err(tokens.error);
    }
    var parser := new Parser(tokens.value, resolve);
    r := parser.ParseOrExpr();
  }
}
