/**
 The texts of tokens, and what the tokenizer makes of any text at all: the tokens it is laid out as,
 each as long as it can be and with white space anywhere between them, or the first thing that is none.
 */
module ConditionLexing {
  import opened Wrappers
  import opened Text
  import Collections
  import opened Condition

  function Spell(t: Token): string {
    if t.kind.StrToken? then "\"" + t.raw + "\"" else t.raw
  }

  /** A digit, and then digits and points. */
  predicate IsUnsigned(s: string) {
    s != [] && '0' <= s[0] <= '9' && forall i :: 0 <= i < |s| ==> '0' <= s[i] <= '9' || s[i] == '.'
  }

  predicate IsNumeral(s: string) {
    IsUnsigned(s) || (s != [] && s[0] == '-' && IsUnsigned(s[1..]))
  }

  predicate IsPath(cls: CharClasses, s: string) {
    && |s| >= 2 && s[0] == '$' && s[1] == '.'
    && forall i :: 0 <= i < |s| ==> cls.alphanumeric(s[i]) || s[i] == '_' || s[i] == '.' || s[i] == '$'
  }

  predicate NoQuote(s: string) {
    forall i :: 0 <= i < |s| ==> s[i] != '"'
  }

  /** Tokens that some text denotes. A string literal cannot hold a quote: there is no escape. */
  predicate WellSpelled(cls: CharClasses, t: Token) {
    match t.kind
    case DollarPath => IsPath(cls, t.raw)
    case NumberToken => IsNumeral(t.raw)
    case StrToken => NoQuote(t.raw)
    case TrueToken => t.raw == "true"
    case FalseToken => t.raw == "false"
    case NullToken => t.raw == "null"
    case Gt => t.raw == ">"
    case Gte => t.raw == ">="
    case Lt => t.raw == "<"
    case Lte => t.raw == "<="
    case Eq => t.raw == "=="
    case Neq => t.raw == "!="
    case AndToken => t.raw == "&&"
    case OrToken => t.raw == "||"
    case NotToken => t.raw == "!"
    case LParen => t.raw == "("
    case RParen => t.raw == ")"
    case Eof => false
  }

  /** A token of this kind would not end before the character. */
  predicate Continues(cls: CharClasses, kind: TokenKind, c: char) {
    match kind
    case DollarPath => cls.alphanumeric(c) || c == '_' || c == '.' || c == '$'
    case NumberToken => '0' <= c <= '9' || c == '.'
    case TrueToken => cls.alphanumeric(c)
    case FalseToken => cls.alphanumeric(c)
    case NullToken => cls.alphanumeric(c)
    case Gt => c == '='
    case Lt => c == '='
    case NotToken => c == '='
    case _ => false
  }

  /** The first `n` characters spell the token and it ends there; only a string may lack its closing quote, at the end. */
  predicate Begins(cls: CharClasses, s: string, t: Token, n: nat) {
    && 0 < n <= |s| && WellSpelled(cls, t)
    && (s[..n] == Spell(t) || (t.kind.StrToken? && n == |s| && s == "\"" + t.raw))
    && (n < |s| ==> !Continues(cls, t.kind, s[n]))
  }

  // ---- spans ---------------------------------------------------------------

  lemma {:induction false} PathSpanIs(cls: CharClasses, s: string, n: nat)
    ensures PathSpan(cls, s) == n <==>
            && n <= |s| && (forall i :: 0 <= i < n ==> IsPathChar(cls, s[i]))
            && (n < |s| ==> !IsPathChar(cls, s[n]))
  {
    if s != [] && n > 0 {
      PathSpanIs(cls, s[1..], n - 1);
      assert forall i :: 1 <= i < |s| ==> s[i] == s[1..][i - 1];
    }
  }

  lemma {:induction false} NumberSpanIs(s: string, n: nat)
    ensures NumberSpan(s) == n <==>
            n <= |s| && (forall i :: 0 <= i < n ==> IsNumberChar(s[i])) && (n < |s| ==> !IsNumberChar(s[n]))
  {
    if s != [] && n > 0 {
      NumberSpanIs(s[1..], n - 1);
      assert forall i :: 1 <= i < |s| ==> s[i] == s[1..][i - 1];
    }
  }

  lemma {:induction false} WordSpanIs(cls: CharClasses, s: string, n: nat)
    ensures WordSpan(cls, s) == n <==>
            && n <= |s| && (forall i :: 0 <= i < n ==> cls.alphanumeric(s[i]))
            && (n < |s| ==> !cls.alphanumeric(s[n]))
  {
    if s != [] && n > 0 {
      WordSpanIs(cls, s[1..], n - 1);
      assert forall i :: 1 <= i < |s| ==> s[i] == s[1..][i - 1];
    }
  }

  lemma {:induction false} QuoteSpanIs(s: string, n: nat)
    ensures QuoteSpan(s) == n <==>
            n <= |s| && (forall i :: 0 <= i < n ==> s[i] != '"') && (n < |s| ==> s[n] == '"')
  {
    if s != [] && n > 0 {
      QuoteSpanIs(s[1..], n - 1);
      assert forall i :: 1 <= i < |s| ==> s[i] == s[1..][i - 1];
    }
  }

  // ---- one token -----------------------------------------------------------

  lemma Words(cls: CharClasses, raw: string)
    requires Sensible(cls) && (raw == "true" || raw == "false" || raw == "null")
    ensures forall i :: 0 <= i < |raw| ==> cls.alphabetic(raw[i]) && cls.alphanumeric(raw[i])
  {
    forall i | 0 <= i < |raw| ensures cls.alphabetic(raw[i]) && cls.alphanumeric(raw[i]) {
      assert (raw[i] as int) < 128;
    }
  }

  /** A numeral of this length: a digit, or a minus and one, and number characters after it. */
  lemma NumeralIs(s: string, n: nat)
    requires 0 < n <= |s|
    ensures IsNumeral(s[..n]) <==>
            && (IsAsciiDigit(s[0]) || (s[0] == '-' && n > 1 && IsAsciiDigit(s[1])))
            && forall i :: 1 <= i < n ==> IsNumberChar(s[i])
  {
    var text := s[..n];
    if s[0] == '-' {
      assert forall i :: 1 <= i < n ==> s[i] == text[1..][i - 1];
    } else {
      assert forall i :: 0 <= i < n ==> s[i] == text[i];
    }
  }

  lemma ScannedNumberBegins(cls: CharClasses, s: string, n: nat)
    requires s != [] && (IsAsciiDigit(s[0]) || (s[0] == '-' && |s| > 1 && IsAsciiDigit(s[1])))
    requires n == 1 + NumberSpan(s[1..])
    ensures Begins(cls, s, Token(NumberToken, s[..n]), n)
  {
    NumberSpanIs(s[1..], n - 1);
    assert forall i :: 1 <= i < |s| ==> s[i] == s[1..][i - 1];
    NumeralIs(s, n);
  }

  lemma ScannedStringBegins(cls: CharClasses, s: string, n: nat)
    requires s != [] && s[0] == '"' && n == QuoteSpan(s[1..])
    ensures Begins(cls, s, Token(StrToken, s[1..n + 1]), if n + 2 <= |s| then n + 2 else |s|)
  {
    QuoteSpanIs(s[1..], n);
    var raw := s[1..n + 1];
    assert forall i :: 0 <= i < n ==> raw[i] == s[1..][i];
    if n + 2 <= |s| {
      assert s[..n + 2] == "\"" + raw + "\"";
    } else {
      assert s == "\"" + raw;
    }
  }

  lemma ScannedPathBegins(cls: CharClasses, s: string, n: nat)
    requires Sensible(cls) && |s| > 1 && s[0] == '$' && s[1] == '.' && n == 1 + PathSpan(cls, s[1..])
    ensures Begins(cls, s, Token(DollarPath, s[..n]), n)
  {
    PathSpanIs(cls, s[1..], n - 1);
    assert forall i :: 1 <= i < |s| ==> s[i] == s[1..][i - 1];
  }

  lemma ScannedWordBegins(cls: CharClasses, s: string, n: nat)
    requires s != [] && n == 1 + WordSpan(cls, s[1..]) && Keyword(s[..n]).Some?
    ensures Begins(cls, s, Token(Keyword(s[..n]).value, s[..n]), n)
  {
    WordSpanIs(cls, s[1..], n - 1);
  }

  lemma ScannedOperatorBegins(cls: CharClasses, s: string)
    requires s != [] && Operator(s).Some?
    ensures Begins(cls, s, Operator(s).value, |Operator(s).value.raw|)
  {
    var raw := Operator(s).value.raw;
    assert s[..|raw|] == raw;
  }

  /** The token scanned at the head of a text begins it. */
  lemma ScannedBegins(cls: CharClasses, s: string)
    requires Sensible(cls) && s != [] && Scan(cls, s).Lexed?
    ensures Begins(cls, s, Scan(cls, s).token, Scan(cls, s).length)
  {
    var n := Scan(cls, s).length;
    if s[0] == '$' && |s| > 1 && s[1] == '.' {
      ScannedPathBegins(cls, s, n);
    } else if s[0] == '"' {
      ScannedStringBegins(cls, s, QuoteSpan(s[1..]));
    } else if IsAsciiDigit(s[0]) || (s[0] == '-' && |s| > 1 && IsAsciiDigit(s[1])) {
      ScannedNumberBegins(cls, s, n);
    } else if Operator(s).Some? {
      ScannedOperatorBegins(cls, s);
    } else {
      ScannedWordBegins(cls, s, n);
    }
  }

  lemma PathIsScanned(cls: CharClasses, s: string, n: nat)
    requires Sensible(cls) && n <= |s| && Begins(cls, s, Token(DollarPath, s[..n]), n)
    ensures Scan(cls, s) == Lexed(Token(DollarPath, s[..n]), n)
  {
    PathSpanIs(cls, s[1..], n - 1);
  }

  lemma NumberIsScanned(cls: CharClasses, s: string, n: nat)
    requires Sensible(cls) && n <= |s| && Begins(cls, s, Token(NumberToken, s[..n]), n)
    ensures Scan(cls, s) == Lexed(Token(NumberToken, s[..n]), n)
  {
    NumeralIs(s, n);
    NumberSpanIs(s[1..], n - 1);
  }

  lemma StringIsScanned(cls: CharClasses, s: string, raw: string, n: nat)
    requires Begins(cls, s, Token(StrToken, raw), n)
    ensures Scan(cls, s) == Lexed(Token(StrToken, raw), n)
  {
    var rest := s[1..];
    if s[..n] == "\"" + raw + "\"" {
      assert rest[..|raw|] == raw && rest[|raw|] == '"';
    } else {
      assert rest == raw && rest[..|raw|] == raw;
    }
    assert s[0] == '"' && forall i :: 0 <= i < |raw| ==> rest[i] == raw[i];
    QuoteSpanIs(rest, |raw|);
    assert s[1..|raw| + 1] == rest[..|raw|];
  }

  lemma WordIsScanned(cls: CharClasses, s: string, t: Token, n: nat)
    requires Sensible(cls) && Begins(cls, s, t, n) && (t.kind.TrueToken? || t.kind.FalseToken? || t.kind.NullToken?)
    ensures Scan(cls, s) == Lexed(t, n)
  {
    Words(cls, t.raw);
    assert s[0] == t.raw[0];
    forall i | 0 <= i < n - 1 ensures cls.alphanumeric(s[1..][i]) {
      assert s[1..][i] == t.raw[i + 1];
    }
    WordSpanIs(cls, s[1..], n - 1);
  }

  lemma OperatorIsScanned(cls: CharClasses, s: string, t: Token, n: nat)
    requires Begins(cls, s, t, n)
    requires !(t.kind.DollarPath? || t.kind.NumberToken? || t.kind.StrToken?)
    requires !(t.kind.TrueToken? || t.kind.FalseToken? || t.kind.NullToken?)
    ensures Scan(cls, s) == Lexed(t, n)
  {
    assert s[0] == t.raw[0] && n == |t.raw|;
    assert |t.raw| == 2 ==> s[1] == t.raw[1];
  }

  /** A token that begins the text is the one scanned. */
  lemma BeginningIsScanned(cls: CharClasses, s: string, t: Token, n: nat)
    requires Sensible(cls) && Begins(cls, s, t, n)
    ensures Scan(cls, s) == Lexed(t, n)
  {
    match t.kind
    case DollarPath => PathIsScanned(cls, s, n);
    case NumberToken => NumberIsScanned(cls, s, n);
    case StrToken => StringIsScanned(cls, s, t.raw, n);
    case TrueToken => WordIsScanned(cls, s, t, n);
    case FalseToken => WordIsScanned(cls, s, t, n);
    case NullToken => WordIsScanned(cls, s, t, n);
    case _ => OperatorIsScanned(cls, s, t, n);
  }

  /** At the head of any text stands white space, or the one token that begins it, or the error its first character makes. */
  lemma HeadIsScanned(cls: CharClasses, s: string)
    requires Sensible(cls) && s != []
    ensures Scan(cls, s).Blank? <==> IsWhitespace(s[0])
    ensures forall t, n: nat :: Scan(cls, s) == Lexed(t, n) <==> Begins(cls, s, t, n)
    ensures Scan(cls, s).Unlexed? ==>
              Scan(cls, s).error == if cls.alphabetic(s[0]) then UnknownToken else UnexpectedCharacter
  {
    forall t, n: nat ensures Scan(cls, s) == Lexed(t, n) <==> Begins(cls, s, t, n) {
      if Begins(cls, s, t, n) {
        BeginningIsScanned(cls, s, t, n);
      }
      if Scan(cls, s) == Lexed(t, n) {
        ScannedBegins(cls, s);
      }
    }
  }

  // ---- whole texts ---------------------------------------------------------

  /** The text is these tokens, in order, with white space anywhere between, before and after them. */
  ghost predicate LaysOut(cls: CharClasses, s: string, ts: seq<Token>)
    decreases |s|
  {
    if s == [] then ts == []
    else if IsWhitespace(s[0]) then LaysOut(cls, s[1..], ts)
    else ts != [] && exists n: nat :: Begins(cls, s, ts[0], n) && LaysOut(cls, s[n..], ts[1..])
  }

  /** After some tokens comes a character with which none begins. */
  ghost predicate BreaksOff(cls: CharClasses, s: string, error: CondError)
    decreases |s|
  {
    && s != []
    && if IsWhitespace(s[0]) then BreaksOff(cls, s[1..], error)
       else if exists t, n: nat :: Begins(cls, s, t, n) then
         exists t, n: nat :: Begins(cls, s, t, n) && BreaksOff(cls, s[n..], error)
       else error == if cls.alphabetic(s[0]) then UnknownToken else UnexpectedCharacter
  }

  /** The tokenizer finds exactly the tokens any text is laid out as, and fails exactly where none begins. */
  lemma {:induction false} TokenizesWhen(cls: CharClasses, s: string)
    requires Sensible(cls)
    ensures forall ts :: Tokenize(cls, s) == Ok(ts + [EOF]) <==> LaysOut(cls, s, ts)
    ensures forall error :: Tokenize(cls, s) == Err(error) <==> BreaksOff(cls, s, error)
    decreases |s|
  {
    if s == [] {
      forall ts ensures Tokenize(cls, s) == Ok(ts + [EOF]) <==> LaysOut(cls, s, ts) {
        assert ts == [] ==> ts + [EOF] == [EOF];
        assert |ts + [EOF]| == |ts| + 1;
      }
    } else {
      HeadIsScanned(cls, s);
      match Scan(cls, s)
      case Blank => TokenizesWhen(cls, s[1..]);
      case Unlexed(_) =>
      case Lexed(t, n) =>
        TokenizesWhen(cls, s[n..]);
        TokenAndRest(cls, s, t, n);
    }
  }

  lemma TokenAndRest(cls: CharClasses, s: string, t: Token, n: nat)
    requires s != [] && Scan(cls, s) == Lexed(t, n) && !IsWhitespace(s[0])
    requires forall u, m: nat :: Scan(cls, s) == Lexed(u, m) <==> Begins(cls, s, u, m)
    requires forall ts :: Tokenize(cls, s[n..]) == Ok(ts + [EOF]) <==> LaysOut(cls, s[n..], ts)
    ensures forall ts :: Tokenize(cls, s) == Ok(ts + [EOF]) <==> LaysOut(cls, s, ts)
  {
    forall ts ensures Tokenize(cls, s) == Ok(ts + [EOF]) <==> LaysOut(cls, s, ts) {
      if ts != [] {
        assert (ts + [EOF])[1..] == ts[1..] + [EOF];
        Collections.FirstAndRest(ts + [EOF]);
      } else {
        assert ts + [EOF] == [EOF];
      }
    }
  }
}
