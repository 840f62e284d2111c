/**
 The condition language of DAG nodes: tokenizer, recursive-descent evaluator and values.
 This module is the specification side, pure functions over character and token positions;
 `ConditionParser` holds the loops and the cursor and is proved to follow it.
 */
module Condition {
  import opened Wrappers
  import opened Text

  datatype TokenKind =
    | DollarPath | NumberToken | StrToken | TrueToken | FalseToken | NullToken
    | Gt | Gte | Lt | Lte | Eq | Neq | AndToken | OrToken | NotToken | LParen | RParen | Eof

  datatype Token = Token(kind: TokenKind, raw: string)

  datatype CondError = UnknownToken | UnexpectedCharacter | ExpectedParen | InvalidNumber | ExpectedValue | BadPath

  const EOF := Token(Eof, "")

  /** Unicode's letter and letter-or-number classes, which the tokenizer consults. */
  datatype CharClasses = CharClasses(alphabetic: char -> bool, alphanumeric: char -> bool)

  /** What the classes say about ASCII, and how they relate to each other and to white space. */
  ghost predicate Sensible(cls: CharClasses) {
    && (forall c :: cls.alphabetic(c) ==> cls.alphanumeric(c))
    && (forall c :: cls.alphanumeric(c) ==> !IsWhitespace(c))
    && (forall c: char :: c as int < 128 ==> (cls.alphanumeric(c) <==> IsAsciiAlphanumeric(c)))
    && (forall c: char :: c as int < 128 ==> (cls.alphabetic(c) <==> IsAsciiAlphanumeric(c) && !IsAsciiDigit(c)))
  }

  // ---- tokenizer -----------------------------------------------------------

  predicate IsPathChar(cls: CharClasses, c: char) {
    cls.alphanumeric(c) || c == '_' || c == '.' || c == '$'
  }

  predicate IsNumberChar(c: char) {
    IsAsciiDigit(c) || c == '.'
  }

  /** Length of the longest prefix of path characters, and so on for the other classes. */
  function PathSpan(cls: CharClasses, s: string): (n: nat)
    ensures n <= |s|
  {
    if s != [] && IsPathChar(cls, s[0]) then 1 + PathSpan(cls, s[1..]) else 0
  }

  function NumberSpan(s: string): (n: nat)
    ensures n <= |s|
  {
    if s != [] && IsNumberChar(s[0]) then 1 + NumberSpan(s[1..]) else 0
  }

  function WordSpan(cls: CharClasses, s: string): (n: nat)
    ensures n <= |s|
  {
    if s != [] && cls.alphanumeric(s[0]) then 1 + WordSpan(cls, s[1..]) else 0
  }

  function QuoteSpan(s: string): (n: nat)
    ensures n <= |s|
  {
    if s != [] && s[0] != '"' then 1 + QuoteSpan(s[1..]) else 0
  }

  function Keyword(word: string): Option<TokenKind> {
    if word == "true" then Some(TrueToken)
    else if word == "false" then Some(FalseToken)
    else if word == "null" then Some(NullToken)
    else None
  }

  predicate Starts(s: string, first: char, second: char) {
    |s| >= 2 && s[0] == first && s[1] == second
  }

  /** The operator that starts `s`, two characters before one. */
  function Operator(s: string): Option<Token>
    requires s != []
  {
    if Starts(s, '>', '=') then Some(Token(Gte, ">="))
    else if Starts(s, '<', '=') then Some(Token(Lte, "<="))
    else if Starts(s, '=', '=') then Some(Token(Eq, "=="))
    else if Starts(s, '!', '=') then Some(Token(Neq, "!="))
    else if Starts(s, '&', '&') then Some(Token(AndToken, "&&"))
    else if Starts(s, '|', '|') then Some(Token(OrToken, "||"))
    else if s[0] == '>' then Some(Token(Gt, ">"))
    else if s[0] == '<' then Some(Token(Lt, "<"))
    else if s[0] == '!' then Some(Token(NotToken, "!"))
    else if s[0] == '(' then Some(Token(LParen, "("))
    else if s[0] == ')' then Some(Token(RParen, ")"))
    else None
  }

  /** What stands at the head of a nonempty text, and how many characters it takes. */
  datatype Lexeme = Blank | Lexed(token: Token, length: nat) | Unlexed(error: CondError)

  /** A quote that is never closed runs to the end of the text. */
  function Scan(cls: CharClasses, s: string): (r: Lexeme)
    requires s != []
    ensures r.Lexed? ==> 0 < r.length <= |s|
  {
    var c := s[0];
    if IsWhitespace(c) then
      Blank
    else if c == '$' && |s| > 1 && s[1] == '.' then
      var n := 1 + PathSpan(cls, s[1..]);
      Lexed(Token(DollarPath, s[..n]), n)
    else if c == '"' then
      var n := QuoteSpan(s[1..]);
      Lexed(Token(StrToken, s[1..n + 1]), if n + 2 <= |s| then n + 2 else |s|)
    else if IsAsciiDigit(c) || (c == '-' && |s| > 1 && IsAsciiDigit(s[1])) then
      var n := 1 + NumberSpan(s[1..]);
      Lexed(Token(NumberToken, s[..n]), n)
    else if Operator(s).Some? then
      Lexed(Operator(s).value, |Operator(s).value.raw|)
    else if cls.alphabetic(c) then
      var n := 1 + WordSpan(cls, s[1..]);
      match Keyword(s[..n])
      case None => Unlexed(UnknownToken)
      case Some(kind) => Lexed(Token(kind, s[..n]), n)
    else
      Unlexed(UnexpectedCharacter)
  }

  function Tokenize(cls: CharClasses, s: string): (r: Result<seq<Token>, CondError>)
    ensures r.Ok? ==> r.value != [] && r.value[|r.value| - 1] == EOF
    decreases |s|
  {
    if s == [] then
      Ok([EOF])
    else
      match Scan(cls, s)
      case Blank => Tokenize(cls, s[1..])
      case Unlexed(error) => Err(error)
      case Lexed(token, n) =>
        match Tokenize(cls, s[n..])
        case Err(error) => Err(error)
        case Ok(rest) => Ok([token] + rest)
  }

  // ---- values --------------------------------------------------------------

  datatype Val = Num(n: real) | Str(s: string) | Bool(b: bool) | Null

  predicate IsComparison(kind: TokenKind) {
    kind.Gt? || kind.Gte? || kind.Lt? || kind.Lte? || kind.Eq? || kind.Neq?
  }

  predicate ValsEqual(a: Val, b: Val) {
    match (a, b)
    case (Num(x), Num(y)) => x == y
    case (Str(x), Str(y)) => x == y
    case (Bool(x), Bool(y)) => x == y
    case (Null, Null) => true
    case _ => false
  }

  predicate AsTruthy(v: Val) {
    match v
    case Bool(b) => b
    case Num(n) => n != 0.0
    case Str(s) => s != ""
    case Null => false
  }

  predicate Compare(lhs: Val, op: TokenKind, rhs: Val) {
    if op.Eq? then ValsEqual(lhs, rhs)
    else if op.Neq? then !ValsEqual(lhs, rhs)
    else if lhs.Null? || rhs.Null? then false
    else if lhs.Num? && rhs.Num? then
      match op
      case Gt => lhs.n > rhs.n
      case Gte => lhs.n >= rhs.n
      case Lt => lhs.n < rhs.n
      case Lte => lhs.n <= rhs.n
      case _ => false
    else if lhs.Str? && rhs.Str? then
      match op
      case Gt => StringLess(rhs.s, lhs.s)
      case Gte => !StringLess(lhs.s, rhs.s)
      case Lt => StringLess(lhs.s, rhs.s)
      case Lte => !StringLess(rhs.s, lhs.s)
      case _ => false
    else false
  }

  function Pow10(n: nat): (p: real)
    ensures p > 0.0
  {
    if n == 0 then 1.0 else 10.0 * Pow10(n - 1)
  }

  /** Digits with at most one point: the digits so far as one number, and how many came after the point. */
  function ParseDecimal(s: string, seen: nat, decimals: Option<nat>): Option<real> {
    if s == [] then Some(seen as real / Pow10(if decimals.Some? then decimals.value else 0))
    else if IsAsciiDigit(s[0]) then
      ParseDecimal(s[1..], seen * 10 + (s[0] as int - '0' as int), if decimals.Some? then Some(decimals.value + 1) else None)
    else if s[0] == '.' && decimals.None? then ParseDecimal(s[1..], seen, Some(0))
    else None
  }

  /** An optional minus sign before them. */
  function ParseNumber(raw: string): Option<real> {
    if raw != [] && raw[0] == '-' then
      match ParseDecimal(raw[1..], 0, None)
      case None => None
      case Some(n) => Some(-n)
    else ParseDecimal(raw, 0, None)
  }

  /** Looking a path up among the finished nodes' results. */
  type Resolver = string -> Result<Val, CondError>

  function ValueOf(resolve: Resolver, token: Token): Result<Val, CondError> {
    match token.kind
    case DollarPath => resolve(token.raw)
    case NumberToken =>
      (match ParseNumber(token.raw)
       case None => Err(InvalidNumber)
       case Some(n) => Ok(Num(n)))
    case StrToken => Ok(Str(token.raw))
    case TrueToken => Ok(Bool(true))
    case FalseToken => Ok(Bool(false))
    case NullToken => Ok(Null)
    case _ => Err(ExpectedValue)
  }

  // ---- evaluator -----------------------------------------------------------

  predicate EndsInEof(ts: seq<Token>) {
    ts != [] && ts[|ts| - 1].kind.Eof?
  }

  /** A value read, and the position after it. */
  type Parsed = Result<(bool, nat), CondError>

  function OrExpr(resolve: Resolver, ts: seq<Token>, pos: nat): (r: Parsed)
    requires EndsInEof(ts) && pos < |ts|
    ensures r.Ok? ==> pos < r.value.1 < |ts|
    decreases |ts| - pos, 4
  {
    match AndExpr(resolve, ts, pos)
    case Err(error) => Err(error)
    case Ok((left, next)) => OrTail(resolve, ts, next, left)
  }

  function OrTail(resolve: Resolver, ts: seq<Token>, pos: nat, left: bool): (r: Parsed)
    requires EndsInEof(ts) && pos < |ts|
    ensures r.Ok? ==> pos <= r.value.1 < |ts|
    decreases |ts| - pos, 5
  {
    if ts[pos].kind.OrToken? then
      match AndExpr(resolve, ts, pos + 1)
      case Err(error) => Err(error)
      case Ok((right, next)) => OrTail(resolve, ts, next, left || right)
    else Ok((left, pos))
  }

  function AndExpr(resolve: Resolver, ts: seq<Token>, pos: nat): (r: Parsed)
    requires EndsInEof(ts) && pos < |ts|
    ensures r.Ok? ==> pos < r.value.1 < |ts|
    decreases |ts| - pos, 2
  {
    match NotExpr(resolve, ts, pos)
    case Err(error) => Err(error)
    case Ok((left, next)) => AndTail(resolve, ts, next, left)
  }

  function AndTail(resolve: Resolver, ts: seq<Token>, pos: nat, left: bool): (r: Parsed)
    requires EndsInEof(ts) && pos < |ts|
    ensures r.Ok? ==> pos <= r.value.1 < |ts|
    decreases |ts| - pos, 3
  {
    if ts[pos].kind.AndToken? then
      match NotExpr(resolve, ts, pos + 1)
      case Err(error) => Err(error)
      case Ok((right, next)) => AndTail(resolve, ts, next, left && right)
    else Ok((left, pos))
  }

  function NotExpr(resolve: Resolver, ts: seq<Token>, pos: nat): (r: Parsed)
    requires EndsInEof(ts) && pos < |ts|
    ensures r.Ok? ==> pos < r.value.1 < |ts|
    decreases |ts| - pos, 1
  {
    if ts[pos].kind.NotToken? then
      match NotExpr(resolve, ts, pos + 1)
      case Err(error) => Err(error)
      case Ok((inner, next)) => Ok((!inner, next))
    else Comparison(resolve, ts, pos)
  }

  function Comparison(resolve: Resolver, ts: seq<Token>, pos: nat): (r: Parsed)
    requires EndsInEof(ts) && pos < |ts|
    ensures r.Ok? ==> pos < r.value.1 < |ts|
    decreases |ts| - pos, 0
  {
    if ts[pos].kind.LParen? then
      match OrExpr(resolve, ts, pos + 1)
      case Err(error) => Err(error)
      case Ok((inner, next)) => if ts[next].kind.RParen? then Ok((inner, next + 1)) else Err(ExpectedParen)
    else if ts[pos].kind.TrueToken? then Ok((true, pos + 1))
    else if ts[pos].kind.FalseToken? then Ok((false, pos + 1))
    else
      match ValueOf(resolve, ts[pos])
      case Err(error) => Err(error)
      case Ok(lhs) =>
        if !IsComparison(ts[pos + 1].kind) then Ok((AsTruthy(lhs), pos + 1))
        else
          match ValueOf(resolve, ts[pos + 2])
          case Err(error) => Err(error)
          case Ok(rhs) => Ok((Compare(lhs, ts[pos + 1].kind, rhs), pos + 3))
  }

  function TrimStart(s: string): string {
    if s != [] && IsWhitespace(s[0]) then TrimStart(s[1..]) else s
  }

  function TrimEnd(s: string): string {
    if s != [] && IsWhitespace(s[|s| - 1]) then TrimEnd(s[..|s| - 1]) else s
  }

  /** `evaluate`: a blank condition holds, and whatever follows the first expression is not looked at. */
  function Evaluate(cls: CharClasses, resolve: Resolver, condition: string): Result<bool, CondError> {
    if IsBlank(condition) then
      Ok(true)
    else
      match Tokenize(cls, TrimEnd(TrimStart(condition)))
      case Err(error) => Err(error)
      case Ok(ts) =>
        match OrExpr(resolve, ts, 0)
        case Err(error) => Err(error)
        case Ok((value, _)) => Ok(value)
  }
}
