/**
 What comparisons, truth and number texts mean, apart from how the evaluator computes them: an order
 on values, the values that count as false, and the decimal a text denotes.
 */
module ConditionValues {
  import opened Wrappers
  import opened Text
  import opened Condition

  // ---- comparisons and truth -----------------------------------------------

  /** Numbers by size, strings by their first difference; nothing else is ordered. */
  ghost predicate Below(a: Val, b: Val) {
    || (a.Num? && b.Num? && a.n < b.n)
    || (a.Str? && b.Str? && exists k :: FirstDiffersBelow(a.s, b.s, k))
  }

  ghost predicate Ordered(a: Val, b: Val) {
    (a.Num? && b.Num?) || (a.Str? && b.Str?)
  }

  /** What an operator asserts of two values. */
  ghost predicate Relates(a: Val, op: TokenKind, b: Val) {
    match op
    case Eq => a == b
    case Neq => a != b
    case Lt => Below(a, b)
    case Gt => Below(b, a)
    case Lte => Ordered(a, b) && (Below(a, b) || a == b)
    case Gte => Ordered(a, b) && (Below(b, a) || a == b)
    case _ => false
  }

  /** The six relations on numbers. */
  predicate NumbersRelate(x: real, op: TokenKind, y: real) {
    match op
    case Lt => x < y
    case Lte => x <= y
    case Gt => x > y
    case Gte => x >= y
    case Eq => x == y
    case _ => x != y
  }

  /** And on strings, by their first difference. */
  ghost predicate StringsRelate(a: string, op: TokenKind, b: string) {
    match op
    case Lt => exists k :: FirstDiffersBelow(a, b, k)
    case Lte => a == b || exists k :: FirstDiffersBelow(a, b, k)
    case Gt => exists k :: FirstDiffersBelow(b, a, k)
    case Gte => a == b || exists k :: FirstDiffersBelow(b, a, k)
    case Eq => a == b
    case _ => a != b
  }

  lemma KindsRelate(a: Val, op: TokenKind, b: Val)
    requires IsComparison(op)
    ensures Relates(a, op, b) <==>
            if a.Num? && b.Num? then NumbersRelate(a.n, op, b.n)
            else if a.Str? && b.Str? then StringsRelate(a.s, op, b.s)
            else (op == Eq && a == b) || (op == Neq && a != b)
  {
  }

  /** Everything but false, zero, the empty string and null. */
  predicate Holds(v: Val) {
    v != Bool(false) && v != Num(0.0) && v != Str("") && v != Null
  }

  /** The evaluator's comparison is the relation: one order, and equality apart. */
  lemma CompareRelates(a: Val, op: TokenKind, b: Val)
    requires IsComparison(op)
    ensures Compare(a, op, b) <==> Relates(a, op, b)
  {
    if a.Str? && b.Str? {
      StringLessWhen(a.s, b.s);
      StringLessWhen(b.s, a.s);
      StringLessTotal(a.s, b.s);
    }
  }

  lemma TruthyHolds(v: Val)
    ensures AsTruthy(v) <==> Holds(v)
  {
  }

  // ---- number texts --------------------------------------------------------

  /** Ten to the `n` is written with a one and `n` zeros. */
  lemma {:induction false} PowerIsWritten(n: nat, zeros: string)
    requires |zeros| == n && forall i :: 0 <= i < n ==> zeros[i] == '0'
    ensures AllDigits("1" + zeros) && DigitsValue("1" + zeros) as real == Pow10(n)
  {
    if n == 0 {
      assert "1" + zeros == "1" && "1"[..0] == [];
    } else {
      PowerIsWritten(n - 1, zeros[..n - 1]);
      assert ("1" + zeros)[..n] == "1" + zeros[..n - 1];
    }
  }

  /** Where the first point stands, or the length. */
  function PointAt(s: string): (k: nat)
    ensures k <= |s| && (k < |s| ==> s[k] == '.') && forall i :: 0 <= i < k ==> s[i] != '.'
  {
    if s == [] || s[0] == '.' then 0 else 1 + PointAt(s[1..])
  }

  function WholePart(s: string): string {
    s[..PointAt(s)]
  }

  function FractionPart(s: string): string {
    if PointAt(s) < |s| then s[PointAt(s) + 1..] else ""
  }

  /** Digits, a point and digits: all the digits as one number, over ten to the number of decimals. */
  function UnsignedOf(s: string): Option<real> {
    var whole, fraction := WholePart(s), FractionPart(s);
    if AllDigits(whole) && AllDigits(fraction)
    then Some(Scaled(whole + fraction, |fraction|))
    else None
  }

  function NumberOf(raw: string): Option<real> {
    if raw != [] && raw[0] == '-' then
      match UnsignedOf(raw[1..])
      case None => None
      case Some(n) => Some(-n)
    else UnsignedOf(raw)
  }

  lemma OneMoreDigit(done: string, s: string)
    requires AllDigits(done) && s != [] && IsAsciiDigit(s[0])
    ensures AllDigits(done + [s[0]])
    ensures DigitsValue(done + [s[0]]) == DigitsValue(done) * 10 + (s[0] as int - '0' as int)
    ensures (done + [s[0]]) + s[1..] == done + s
  {
    assert (done + [s[0]])[..|done|] == done;
  }

  /** The part after the point: the digits go on as one number, and are counted. */
  lemma {:induction false} ReadsFraction(done: string, s: string, k: nat)
    requires AllDigits(done) && AllDigits(s)
    ensures AllDigits(done + s)
    ensures ParseDecimal(s, DigitsValue(done), Some(k)) == Some(Scaled(done + s, k + |s|))
    decreases |s|
  {
    if s == [] {
      assert done + s == done;
    } else {
      OneMoreDigit(done, s);
      ReadsFraction(done + [s[0]], s[1..], k + 1);
    }
  }

  /** The digits as one number, over ten to the `k`. */
  function Scaled(digits: string, k: nat): real
    requires AllDigits(digits)
  {
    DigitsValue(digits) as real / Pow10(k)
  }

  lemma {:induction false} RefusesFraction(s: string, seen: nat, k: nat)
    requires !AllDigits(s)
    ensures ParseDecimal(s, seen, Some(k)) == None
  {
    if IsAsciiDigit(s[0]) {
      assert s == [s[0]] + s[1..];
      RefusesFraction(s[1..], seen * 10 + (s[0] as int - '0' as int), k + 1);
    }
  }

  /** The part before the point. */
  lemma {:induction false} ReadsWhole(done: string, whole: string, rest: string)
    requires AllDigits(done) && AllDigits(whole)
    ensures AllDigits(done + whole)
    ensures ParseDecimal(whole + rest, DigitsValue(done), None) == ParseDecimal(rest, DigitsValue(done + whole), None)
    decreases |whole|
  {
    if whole == [] {
      assert done + whole == done && whole + rest == rest;
    } else {
      OneMoreDigit(done, whole);
      ReadsWhole(done + [whole[0]], whole[1..], rest);
      FirstOfTwo(whole, rest);
    }
  }

  lemma FirstOfTwo(a: string, b: string)
    requires a != []
    ensures (a + b)[0] == a[0] && (a + b)[1..] == a[1..] + b
  {
  }

  lemma {:induction false} RefusesWhole(s: string, seen: nat)
    requires !AllDigits(WholePart(s))
    ensures ParseDecimal(s, seen, None) == None
  {
    if IsAsciiDigit(s[0]) {
      assert WholePart(s) == [s[0]] + WholePart(s[1..]);
      RefusesWhole(s[1..], seen * 10 + (s[0] as int - '0' as int));
    }
  }

  lemma WholeFromStart(whole: string, rest: string)
    requires AllDigits(whole)
    ensures ParseDecimal(whole + rest, 0, None) == ParseDecimal(rest, DigitsValue(whole), None)
  {
    assert "" + whole == whole;
    ReadsWhole("", whole, rest);
  }

  lemma PointThenFraction(whole: string, fraction: string)
    requires AllDigits(whole)
    ensures ParseDecimal("." + fraction, DigitsValue(whole), None)
         == if AllDigits(fraction) then Some(Scaled(whole + fraction, |fraction|)) else None
  {
    assert ("." + fraction)[1..] == fraction;
    if AllDigits(fraction) {
      ReadsFraction(whole, fraction, 0);
    } else {
      RefusesFraction(fraction, DigitsValue(whole), 0);
    }
  }

  lemma WithPoint(whole: string, fraction: string)
    requires AllDigits(whole)
    ensures ParseDecimal(whole + ("." + fraction), 0, None)
         == if AllDigits(fraction) then Some(Scaled(whole + fraction, |fraction|)) else None
  {
    WholeFromStart(whole, "." + fraction);
    PointThenFraction(whole, fraction);
  }

  lemma WithoutPoint(whole: string)
    requires AllDigits(whole)
    ensures ParseDecimal(whole, 0, None) == Some(Scaled(whole + "", 0))
  {
    assert whole + "" == whole;
    WholeFromStart(whole, "");
  }

  lemma UnsignedDenotes(s: string)
    ensures ParseDecimal(s, 0, None) == UnsignedOf(s)
  {
    var k := PointAt(s);
    if !AllDigits(WholePart(s)) {
      RefusesWhole(s, 0);
    } else if k < |s| {
      assert s == s[..k] + ("." + s[k + 1..]);
      WithPoint(s[..k], s[k + 1..]);
    } else {
      assert s[..k] == s;
      WithoutPoint(s);
    }
  }

  /** The evaluator reads every number text as the decimal it denotes, and refuses every other text. */
  lemma ParseDenotes(raw: string)
    ensures ParseNumber(raw) == NumberOf(raw)
  {
    if raw != [] && raw[0] == '-' {
      UnsignedDenotes(raw[1..]);
    } else {
      UnsignedDenotes(raw);
    }
  }
}
