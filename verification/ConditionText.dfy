/** Printing tokens to text and reading the text back: the round trip of whole conditions. */
module ConditionText {
  import opened Wrappers
  import opened Text
  import Collections
  import opened Condition
  import opened ConditionLexing
  import opened ConditionValues
  import opened ConditionPrinting

  /** Tokens separated by single spaces. */
  function Render(ts: seq<Token>): string {
    if ts == [] then ""
    else if |ts| == 1 then Spell(ts[0])
    else Spell(ts[0]) + " " + Render(ts[1..])
  }

  ghost predicate AllSpelled(cls: CharClasses, ts: seq<Token>) {
    forall i :: 0 <= i < |ts| ==> WellSpelled(cls, ts[i])
  }

  /** A spelled token starts and ends with a character that is not white space. */
  lemma SpelledFirst(cls: CharClasses, t: Token)
    requires Sensible(cls) && WellSpelled(cls, t)
    ensures Spell(t) != [] && !IsWhitespace(Spell(t)[0]) && !IsWhitespace(Spell(t)[|Spell(t)| - 1])
  {
    if t.kind.NumberToken? && t.raw[0] == '-' {
      assert t.raw[1..][|t.raw| - 2] == t.raw[|t.raw| - 1];
    }
  }

  lemma {:induction false} RenderedEnds(cls: CharClasses, ts: seq<Token>)
    requires Sensible(cls) && AllSpelled(cls, ts) && ts != []
    ensures Render(ts) != [] && !IsWhitespace(Render(ts)[0]) && !IsWhitespace(Render(ts)[|Render(ts)| - 1])
  {
    SpelledFirst(cls, ts[0]);
    if |ts| > 1 {
      RenderedEnds(cls, ts[1..]);
    }
  }

  lemma SpelledBegins(cls: CharClasses, t: Token, rest: string)
    requires Sensible(cls) && WellSpelled(cls, t) && (rest == [] || rest[0] == ' ')
    ensures Begins(cls, Spell(t) + rest, t, |Spell(t)|)
  {
    SpelledFirst(cls, t);
    assert (Spell(t) + rest)[..|Spell(t)|] == Spell(t);
  }

  /** Single spaces lay the tokens out. */
  lemma {:induction false} RenderLaysOut(cls: CharClasses, ts: seq<Token>)
    requires Sensible(cls) && AllSpelled(cls, ts)
    ensures LaysOut(cls, Render(ts), ts)
  {
    if ts != [] {
      var rest := if |ts| == 1 then "" else " " + Render(ts[1..]);
      var s := Spell(ts[0]) + rest;
      assert Render(ts) == s;
      SpelledFirst(cls, ts[0]);
      SpelledBegins(cls, ts[0], rest);
      RenderLaysOut(cls, ts[1..]);
      assert s[|Spell(ts[0])|..] == rest && (|ts| > 1 ==> rest[1..] == Render(ts[1..]));
    }
  }

  /** Tokenizing rendered tokens gives them back, closed by `Eof`. */
  lemma TokenizeInvertsRender(cls: CharClasses, ts: seq<Token>)
    requires Sensible(cls) && AllSpelled(cls, ts)
    ensures Tokenize(cls, Render(ts)) == Ok(ts + [EOF])
  {
    RenderLaysOut(cls, ts);
    TokenizesWhen(cls, Render(ts));
  }

  // ---- white space around a text -------------------------------------------

  /** The text starts and ends with characters that are not white space. */
  predicate IsTrimmed(s: string) {
    s != [] && !IsWhitespace(s[0]) && !IsWhitespace(s[|s| - 1])
  }

  lemma {:induction false} TrimsStart(before: string, s: string)
    requires IsBlank(before) && (s == [] || !IsWhitespace(s[0]))
    ensures TrimStart(before + s) == s
  {
    if before == [] {
      assert before + s == s;
    } else {
      TrimsStart(before[1..], s);
      assert (before + s)[1..] == before[1..] + s;
    }
  }

  lemma {:induction false} TrimsEnd(s: string, after: string)
    requires IsBlank(after) && (s == [] || !IsWhitespace(s[|s| - 1]))
    ensures TrimEnd(s + after) == s
    decreases |after|
  {
    if after == [] {
      assert s + after == s;
    } else {
      var n := |after| - 1;
      TrimsEnd(s, after[..n]);
      assert (s + after)[..|s + after| - 1] == s + after[..n] && (s + after)[|s + after| - 1] == after[n];
    }
  }

  lemma TrimsAround(before: string, body: string, after: string)
    requires IsBlank(before) && IsBlank(after) && IsTrimmed(body)
    ensures TrimEnd(TrimStart(before + body + after)) == body && !IsBlank(before + body + after)
  {
    Collections.Regroup(before, body, after);
    TrimsStart(before, body + after);
    TrimsEnd(body, after);
    assert (before + body + after)[|before|] == body[0];
  }

  // ---- whole conditions ----------------------------------------------------

  predicate AtomSpelled(cls: CharClasses, a: Atom) {
    WellSpelled(cls, AtomToken(a))
  }

  predicate CondSpelled(cls: CharClasses, c: Cond) {
    match c
    case Or(l, r) => CondSpelled(cls, l) && CondSpelled(cls, r)
    case And(l, r) => CondSpelled(cls, l) && CondSpelled(cls, r)
    case Not(inner) => CondSpelled(cls, inner)
    case Compares(lhs, op, rhs) => AtomSpelled(cls, lhs) && IsComparison(op) && AtomSpelled(cls, rhs)
    case Test(a) => AtomSpelled(cls, a)
  }

  lemma {:induction false} PrintIsSpelled(cls: CharClasses, c: Cond, level: nat)
    requires CondSpelled(cls, c)
    ensures AllSpelled(cls, Print(c, level))
    decreases c, 1
  {
    BodyIsSpelled(cls, c);
    SpelledTogether(cls, [OPEN], Body(c));
    SpelledTogether(cls, [OPEN] + Body(c), [CLOSE]);
  }

  lemma {:induction false} BodyIsSpelled(cls: CharClasses, c: Cond)
    requires CondSpelled(cls, c)
    ensures AllSpelled(cls, Body(c))
    decreases c, 0
  {
    match c
    case Or(l, r) =>
      PrintIsSpelled(cls, l, 0);
      PrintIsSpelled(cls, r, 1);
      SpelledTogether(cls, Print(l, 0), [OR]);
      SpelledTogether(cls, Print(l, 0) + [OR], Print(r, 1));
    case And(l, r) =>
      PrintIsSpelled(cls, l, 1);
      PrintIsSpelled(cls, r, 2);
      SpelledTogether(cls, Print(l, 1), [AND]);
      SpelledTogether(cls, Print(l, 1) + [AND], Print(r, 2));
    case Not(inner) =>
      PrintIsSpelled(cls, inner, 2);
      SpelledTogether(cls, [NOT], Print(inner, 2));
    case _ =>
  }

  lemma SpelledTogether(cls: CharClasses, a: seq<Token>, b: seq<Token>)
    requires AllSpelled(cls, a) && AllSpelled(cls, b)
    ensures AllSpelled(cls, a + b)
  {
  }

  function PrintText(c: Cond): string {
    Render(Print(c, 0))
  }

  /** A blank condition holds. */
  lemma BlankConditionHolds(cls: CharClasses, resolve: Resolver, s: string)
    requires forall i :: 0 <= i < |s| ==> IsWhitespace(s[i])
    ensures Evaluate(cls, resolve, s) == Ok(true)
  {
  }

  /** A text in which something is no token fails with that, whatever surrounds it. */
  lemma UnreadableConditionFails(
    cls: CharClasses, resolve: Resolver, before: string, body: string, after: string, error: CondError)
    requires Sensible(cls) && IsBlank(before) && IsBlank(after) && IsTrimmed(body)
    requires BreaksOff(cls, body, error)
    ensures Evaluate(cls, resolve, before + body + after) == Err(error)
  {
    TrimsAround(before, body, after);
    TokenizesWhen(cls, body);
  }

  /** Evaluating a text is evaluating the tokens it is laid out as. */
  lemma EvaluateLaidOut(
    cls: CharClasses, resolve: Resolver, before: string, body: string, after: string, ts: seq<Token>)
    requires Sensible(cls) && IsBlank(before) && IsBlank(after) && IsTrimmed(body) && LaysOut(cls, body, ts)
    ensures Evaluate(cls, resolve, before + body + after) == Value(OrExpr(resolve, ts + [EOF], 0))
  {
    TrimsAround(before, body, after);
    TokenizesWhen(cls, body);
  }

  lemma {:induction false} SpelledCompares(cls: CharClasses, c: Cond)
    requires CondSpelled(cls, c)
    ensures OperatorsCompare(c)
  {
    match c
    case Or(l, r) => SpelledCompares(cls, l); SpelledCompares(cls, r);
    case And(l, r) => SpelledCompares(cls, l); SpelledCompares(cls, r);
    case Not(inner) => SpelledCompares(cls, inner);
    case _ =>
  }

  /**
   What every condition evaluates to, however its text is spaced: its strict meaning, or, from the
   first comparison that starts with a boolean literal on, the meaning of the part read so far.
   */
  lemma EveryLayoutAnswers(
    cls: CharClasses, resolve: Resolver, c: Cond, before: string, body: string, after: string)
    requires Sensible(cls) && CondSpelled(cls, c)
    requires IsBlank(before) && IsBlank(after) && IsTrimmed(body) && LaysOut(cls, body, Print(c, 0))
    ensures Evaluate(cls, resolve, before + body + after) == Answer(resolve, c)
  {
    SpelledCompares(cls, c);
    EvaluateLaidOut(cls, resolve, before, body, after, Print(c, 0));
    TokensAnswer(resolve, c);
  }

  /** In particular with single spaces. */
  lemma EveryConditionAnswers(cls: CharClasses, resolve: Resolver, c: Cond)
    requires Sensible(cls) && CondSpelled(cls, c)
    ensures Evaluate(cls, resolve, PrintText(c)) == Answer(resolve, c)
  {
    PrintIsSpelled(cls, c, 0);
    PrintedIsNonempty(c, 0);
    RenderedEnds(cls, Print(c, 0));
    RenderLaysOut(cls, Print(c, 0));
    EveryLayoutAnswers(cls, resolve, c, "", PrintText(c), "");
    assert "" + PrintText(c) + "" == PrintText(c);
  }

  /** However it is spaced, a condition without a boolean literal on the left of a comparison means what it says. */
  lemma EveryLayoutMeans(
    cls: CharClasses, resolve: Resolver, c: Cond, before: string, body: string, after: string)
    requires Sensible(cls) && Printable(c) && CondSpelled(cls, c)
    requires IsBlank(before) && IsBlank(after) && IsTrimmed(body) && LaysOut(cls, body, Print(c, 0))
    ensures Evaluate(cls, resolve, before + body + after) == Meaning(resolve, c)
  {
    EveryLayoutAnswers(cls, resolve, c, before, body, after);
    PrintableWhen(c);
  }

  /**
   Evaluating the printed form of a condition gives its strict meaning, errors included,
   for every condition without a boolean literal on the left of a comparison.
   */
  lemma PrintedConditionMeans(cls: CharClasses, resolve: Resolver, c: Cond)
    requires Sensible(cls) && Printable(c) && CondSpelled(cls, c)
    ensures Evaluate(cls, resolve, PrintText(c)) == Meaning(resolve, c)
  {
    EveryConditionAnswers(cls, resolve, c);
    PrintableWhen(c);
  }

  /** An error before the literal is the error of the whole. */
  lemma {:induction false} KeptFailsAlike(resolve: Resolver, c: Cond)
    requires Literal(c) != Nowhere && Meaning(resolve, Kept(c)).Err?
    ensures Meaning(resolve, c) == Meaning(resolve, Kept(c))
  {
    match c
    case Or(l, r) =>
      if Literal(l) != Nowhere {
        KeptFailsAlike(resolve, l);
      } else if Meaning(resolve, l).Ok? {
        KeptFailsAlike(resolve, r);
      }
    case And(l, r) =>
      if Literal(l) != Nowhere {
        KeptFailsAlike(resolve, l);
      } else if Meaning(resolve, l).Ok? {
        KeptFailsAlike(resolve, r);
      }
    case Not(inner) => KeptFailsAlike(resolve, inner);
    case Compares(lhs, _, _) =>
  }

  /**
   Exactly when a condition means what it says: when no comparison starts with a boolean literal,
   when something before the first such literal fails, or when what is not read makes no difference.
   Inside parentheses it does: the answer is the missing closing parenthesis.
   */
  lemma FaithfulWhen(cls: CharClasses, resolve: Resolver, c: Cond)
    requires Sensible(cls) && CondSpelled(cls, c)
    ensures var kept := Meaning(resolve, Kept(c));
            Evaluate(cls, resolve, PrintText(c)) == Meaning(resolve, c)
            <==> || Literal(c) == Nowhere
                 || kept.Err?
                 || Meaning(resolve, c) == (if Literal(c) == Outside then kept else Err(ExpectedParen))
  {
    EveryConditionAnswers(cls, resolve, c);
    if Literal(c) != Nowhere && Meaning(resolve, Kept(c)).Err? {
      KeptFailsAlike(resolve, c);
    }
  }

  /** The bare comparison: it answers with the literal and never looks at the operator or the other side. */
  lemma BooleanOnTheLeftIgnoresTheRest(
    cls: CharClasses, resolve: Resolver, b: bool, op: TokenKind, rhs: Atom)
    requires Sensible(cls) && IsComparison(op) && AtomSpelled(cls, rhs)
    ensures Evaluate(cls, resolve, PrintText(Compares(Flag(b), op, rhs))) == Ok(b)
  {
    EveryConditionAnswers(cls, resolve, Compares(Flag(b), op, rhs));
    LiteralAnswers(resolve, b, op, rhs);
  }

  /** When a comparison of the literal `b` with a value holds exactly when `b` does. */
  predicate LiteralDecides(b: bool, op: TokenKind, v: Val) {
    match op
    case Eq => if b then v == Bool(true) else v != Bool(false)
    case Neq => if b then v != Bool(true) else v == Bool(false)
    case _ => !b
  }

  lemma LiteralDecidesWhen(resolve: Resolver, b: bool, op: TokenKind, rhs: Atom)
    requires IsComparison(op)
    ensures Meaning(resolve, Compares(Flag(b), op, rhs)) == Ok(b)
            <==> AtomMeaning(resolve, rhs).Ok? && LiteralDecides(b, op, AtomMeaning(resolve, rhs).value)
  {
  }

  /** So such a comparison means what it says exactly in these cases. */
  lemma BooleanOnTheLeftIsFaithfulWhen(
    cls: CharClasses, resolve: Resolver, b: bool, op: TokenKind, rhs: Atom)
    requires Sensible(cls) && IsComparison(op) && AtomSpelled(cls, rhs)
    ensures var c := Compares(Flag(b), op, rhs);
            Evaluate(cls, resolve, PrintText(c)) == Meaning(resolve, c)
            <==> AtomMeaning(resolve, rhs).Ok? && LiteralDecides(b, op, AtomMeaning(resolve, rhs).value)
  {
    BooleanOnTheLeftIgnoresTheRest(cls, resolve, b, op, rhs);
    LiteralDecidesWhen(resolve, b, op, rhs);
  }

  // ---- comparisons and truth as text ---------------------------------------

  function OpText(op: TokenKind): string {
    match op
    case Gt => ">"
    case Gte => ">="
    case Lt => "<"
    case Lte => "<="
    case Eq => "=="
    case _ => "!="
  }

  function Comparison(a: string, op: TokenKind, b: string): string {
    a + " " + OpText(op) + " " + b
  }

  lemma ComparisonIsPrinted(lhs: Atom, op: TokenKind, rhs: Atom)
    requires IsComparison(op)
    ensures PrintText(Compares(lhs, op, rhs)) == Comparison(Spell(AtomToken(lhs)), op, Spell(AtomToken(rhs)))
  {
    var a, o, b := AtomToken(lhs), OpToken(op), AtomToken(rhs);
    assert Print(Compares(lhs, op, rhs), 0) == [a, o, b];
    assert [a, o, b][1..] == [o, b] && [o, b][1..] == [b];
    assert Render([b]) == Spell(b);
    assert Render([o, b]) == Spell(o) + " " + Spell(b);
  }

  lemma ComparisonMeans(cls: CharClasses, resolve: Resolver, lhs: Atom, op: TokenKind, rhs: Atom)
    requires Sensible(cls) && IsComparison(op) && AtomSpelled(cls, lhs) && AtomSpelled(cls, rhs) && !lhs.Flag?
    ensures Evaluate(cls, resolve, Comparison(Spell(AtomToken(lhs)), op, Spell(AtomToken(rhs))))
         == Meaning(resolve, Compares(lhs, op, rhs))
  {
    ComparisonIsPrinted(lhs, op, rhs);
    PrintedConditionMeans(cls, resolve, Compares(lhs, op, rhs));
  }

  lemma MeaningRelates(resolve: Resolver, lhs: Atom, op: TokenKind, rhs: Atom)
    requires IsComparison(op)
    ensures var x, y := AtomMeaning(resolve, lhs), AtomMeaning(resolve, rhs);
            Meaning(resolve, Compares(lhs, op, rhs)) ==
            if x.Err? then Err(x.error)
            else if y.Err? then Err(y.error)
            else if x.value.Num? && y.value.Num? then Ok(NumbersRelate(x.value.n, op, y.value.n))
            else if x.value.Str? && y.value.Str? then Ok(StringsRelate(x.value.s, op, y.value.s))
            else Ok((op == Eq && x.value == y.value) || (op == Neq && x.value != y.value))
  {
    if AtomMeaning(resolve, lhs).Ok? && AtomMeaning(resolve, rhs).Ok? {
      KindsRelate(AtomMeaning(resolve, lhs).value, op, AtomMeaning(resolve, rhs).value);
    }
  }

  /** Two numerals around an operator: whether the numbers they denote stand in that relation. */
  lemma NumeralsCompare(cls: CharClasses, resolve: Resolver, a: string, op: TokenKind, b: string)
    requires Sensible(cls) && IsNumeral(a) && IsNumeral(b) && IsComparison(op)
    requires NumberOf(a).Some? && NumberOf(b).Some?
    ensures Evaluate(cls, resolve, Comparison(a, op, b)) == Ok(NumbersRelate(NumberOf(a).value, op, NumberOf(b).value))
  {
    ComparisonMeans(cls, resolve, Number(a), op, Number(b));
    MeaningRelates(resolve, Number(a), op, Number(b));
  }

  /** Two quoted strings around an operator: equality, or the order of their first difference. */
  lemma StringsCompare(cls: CharClasses, resolve: Resolver, a: string, op: TokenKind, b: string)
    requires Sensible(cls) && NoQuote(a) && NoQuote(b) && IsComparison(op)
    ensures Evaluate(cls, resolve, Comparison("\"" + a + "\"", op, "\"" + b + "\"")) == Ok(StringsRelate(a, op, b))
  {
    ComparisonMeans(cls, resolve, Quoted(a), op, Quoted(b));
    MeaningRelates(resolve, Quoted(a), op, Quoted(b));
  }

  /** A path and a numeral: the number found at the path stands in the relation; any other value is only unequal. */
  lemma PathComparesWithNumeral(cls: CharClasses, resolve: Resolver, path: string, op: TokenKind, b: string)
    requires Sensible(cls) && IsPath(cls, path) && IsNumeral(b) && IsComparison(op) && NumberOf(b).Some?
    ensures Evaluate(cls, resolve, Comparison(path, op, b)) ==
            if resolve(path).Err? then Err(resolve(path).error)
            else if resolve(path).value.Num? then Ok(NumbersRelate(resolve(path).value.n, op, NumberOf(b).value))
            else Ok(op == Neq)
  {
    ComparisonMeans(cls, resolve, Path(path), op, Number(b));
    MeaningRelates(resolve, Path(path), op, Number(b));
  }

  /** A value alone holds unless it is false, zero, empty or null. */
  lemma ValueAloneHolds(cls: CharClasses, resolve: Resolver, a: Atom)
    requires Sensible(cls) && AtomSpelled(cls, a)
    ensures Evaluate(cls, resolve, Spell(AtomToken(a))) ==
            match AtomMeaning(resolve, a)
            case Err(error) => Err(error)
            case Ok(v) => Ok(v != Bool(false) && v != Num(0.0) && v != Str("") && v != Null)
  {
    assert Print(Test(a), 0) == [AtomToken(a)];
    PrintedConditionMeans(cls, resolve, Test(a));
  }

  lemma ThreeRendered(a: Token, b: Token, c: Token)
    ensures Render([a, b, c]) == Spell(a) + " " + Spell(b) + " " + Spell(c)
  {
    assert [a, b, c][1..] == [b, c] && [b, c][1..] == [c];
    assert Render([c]) == Spell(c) && Render([b, c]) == Spell(b) + " " + Spell(c);
  }

  lemma TestPrints(a: Atom, level: nat)
    requires level <= 3
    ensures Print(Test(a), level) == [AtomToken(a)]
  {
  }

  lemma AndIsPrinted(a: Atom, b: Atom)
    ensures PrintText(And(Test(a), Test(b))) == Spell(AtomToken(a)) + " && " + Spell(AtomToken(b))
  {
    var s, t := AtomToken(a), AtomToken(b);
    TestPrints(a, 1);
    TestPrints(b, 2);
    assert Print(And(Test(a), Test(b)), 0) == [s, AND, t];
    ThreeRendered(s, AND, t);
    assert Spell(s) + " && " + Spell(t) == Spell(s) + " " + "&&" + " " + Spell(t);
  }

  lemma OrIsPrinted(a: Atom, b: Atom)
    ensures PrintText(Or(Test(a), Test(b))) == Spell(AtomToken(a)) + " || " + Spell(AtomToken(b))
  {
    var s, t := AtomToken(a), AtomToken(b);
    TestPrints(a, 0);
    TestPrints(b, 1);
    assert Print(Or(Test(a), Test(b)), 0) == [s, OR, t];
    ThreeRendered(s, OR, t);
    assert Spell(s) + " || " + Spell(t) == Spell(s) + " " + "||" + " " + Spell(t);
  }

  lemma NotIsPrinted(a: Atom)
    ensures PrintText(Not(Test(a))) == "! " + Spell(AtomToken(a))
  {
    var s := AtomToken(a);
    TestPrints(a, 2);
    assert Print(Not(Test(a)), 0) == [NOT, s] && [NOT, s][1..] == [s];
    assert Render([s]) == Spell(s);
  }

  /** Both values hold, either does, or one does not; an error on either side is the answer. */
  lemma ConnectivesMean(cls: CharClasses, resolve: Resolver, a: Atom, b: Atom)
    requires Sensible(cls) && AtomSpelled(cls, a) && AtomSpelled(cls, b)
    ensures var x, y := AtomMeaning(resolve, a), AtomMeaning(resolve, b);
            var s, t := Spell(AtomToken(a)), Spell(AtomToken(b));
            && Evaluate(cls, resolve, s + " && " + t) ==
               (if x.Err? then Err(x.error) else if y.Err? then Err(y.error) else Ok(Holds(x.value) && Holds(y.value)))
            && Evaluate(cls, resolve, s + " || " + t) ==
               (if x.Err? then Err(x.error) else if y.Err? then Err(y.error) else Ok(Holds(x.value) || Holds(y.value)))
            && Evaluate(cls, resolve, "! " + s) == (if x.Err? then Err(x.error) else Ok(!Holds(x.value)))
  {
    AndIsPrinted(a, b);
    OrIsPrinted(a, b);
    NotIsPrinted(a);
    PrintedConditionMeans(cls, resolve, And(Test(a), Test(b)));
    PrintedConditionMeans(cls, resolve, Or(Test(a), Test(b)));
    PrintedConditionMeans(cls, resolve, Not(Test(a)));
  }
}
