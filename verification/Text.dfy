/** The string predicates of Rust's standard library that the modelled code calls. */
module Text {
  /** Unicode `White_Space`, as `char::is_whitespace` reads it. */
  predicate IsWhitespace(c: char) {
    var n := c as int;
    || 0x09 <= n <= 0x0D
    || n == 0x20 || n == 0x85 || n == 0xA0 || n == 0x1680
    || n == 0x2028 || n == 0x2029 || n == 0x202F || n == 0x205F || n == 0x3000
    || 0x2000 <= n <= 0x200A
  }

  /** `s.trim().is_empty()` */
  predicate IsBlank(s: string) {
    forall i | 0 <= i < |s| :: IsWhitespace(s[i])
  }

  predicate IsAsciiDigit(c: char) {
    '0' <= c <= '9'
  }

  predicate IsAsciiAlphanumeric(c: char) {
    'a' <= c <= 'z' || 'A' <= c <= 'Z' || IsAsciiDigit(c)
  }

  function DigitChar(d: nat): char
    requires d < 10
  {
    ('0' as int + d) as char
  }

  predicate AllDigits(s: string) {
    forall i :: 0 <= i < |s| ==> IsAsciiDigit(s[i])
  }

  /** The number that decimal digits denote. */
  function DigitsValue(s: string): nat
    requires AllDigits(s)
  {
    if s == [] then 0 else DigitsValue(s[..|s| - 1]) * 10 + (s[|s| - 1] as int - '0' as int)
  }

  /** A number in decimal, without leading zeros. */
  function Decimal(n: nat): (s: string)
    ensures s != [] && AllDigits(s) && DigitsValue(s) == n
  {
    if n < 10 then
      var s := [DigitChar(n)];
      assert s[..0] == [];
      s
    else
      var s := Decimal(n / 10) + [DigitChar(n % 10)];
      assert s[..|s| - 1] == Decimal(n / 10);
      s
  }

  function AsciiLower(c: char): char {
    if 'A' <= c <= 'Z' then (c as int + 32) as char else c
  }

  /** `a.eq_ignore_ascii_case(b)` */
  predicate EqIgnoreAsciiCase(a: string, b: string) {
    |a| == |b| && forall i | 0 <= i < |a| :: AsciiLower(a[i]) == AsciiLower(b[i])
  }

  /** `a < b` on `String`: by code points, which is also the order of the UTF-8 bytes. */
  predicate StringLess(a: string, b: string) {
    b != [] && (a == [] || a[0] < b[0] || (a[0] == b[0] && StringLess(a[1..], b[1..])))
  }

  /** `a` is a proper beginning of `b`, or at the first place where they differ its character is the smaller. */
  lemma {:induction false} StringLessWhen(a: string, b: string)
    ensures StringLess(a, b) <==> exists k :: FirstDiffersBelow(a, b, k)
  {
    if b != [] {
      if a == [] || a[0] < b[0] {
        assert FirstDiffersBelow(a, b, 0);
      } else if a[0] == b[0] {
        StringLessWhen(a[1..], b[1..]);
        if k :| FirstDiffersBelow(a[1..], b[1..], k) {
          assert a == [a[0]] + a[1..] && b == [b[0]] + b[1..];
          assert a[..k + 1] == [a[0]] + a[1..][..k] && b[..k + 1] == [b[0]] + b[1..][..k];
          assert FirstDiffersBelow(a, b, k + 1);
        }
        if k :| FirstDiffersBelow(a, b, k) {
          assert k > 0 && a[1..][..k - 1] == a[..k][1..] && b[1..][..k - 1] == b[..k][1..];
          assert FirstDiffersBelow(a[1..], b[1..], k - 1);
        }
      } else {
        forall k ensures !FirstDiffersBelow(a, b, k) {
          assert 0 < k <= |a| && k < |b| ==> a[..k][0] != b[..k][0];
        }
      }
    }
  }

  /** They agree up to `k`, where `a` ends or has the smaller character. */
  predicate FirstDiffersBelow(a: string, b: string, k: int) {
    0 <= k <= |a| && k < |b| && a[..k] == b[..k] && (k == |a| || a[k] < b[k])
  }

  lemma {:induction false} StringLessTransitive(a: string, b: string, c: string)
    requires StringLess(a, b) && StringLess(b, c)
    ensures StringLess(a, c)
  {
    if a != [] && a[0] == b[0] == c[0] {
      StringLessTransitive(a[1..], b[1..], c[1..]);
    }
  }

  lemma {:induction false} StringLessTotal(a: string, b: string)
    ensures a == b || StringLess(a, b) || StringLess(b, a)
    ensures !(StringLess(a, b) && StringLess(b, a))
    ensures !StringLess(a, a)
    decreases |a| + |b|
  {
    if a != [] && b != [] {
      assert a == [a[0]] + a[1..] && b == [b[0]] + b[1..];
      StringLessTotal(a[1..], b[1..]);
    }
    if a != [] {
      StringLessTotal(a[1..], []);
      StringNotLessSelf(a);
    }
  }

  lemma {:induction false} StringNotLessSelf(a: string)
    ensures !StringLess(a, a)
  {
    if a != [] {
      StringNotLessSelf(a[1..]);
    }
  }

  /** Every nonempty finite set of strings has a least element. */
  lemma LeastString(s: set<string>) returns (least: string)
    requires s != {}
    ensures least in s && forall x :: x in s ==> x == least || StringLess(least, x)
  {
    var x :| x in s;
    if s == {x} {
      least := x;
    } else {
      var rest := LeastString(s - {x});
      StringLessTotal(x, rest);
      least := if StringLess(x, rest) then x else rest;
      forall y | y in s ensures y == least || StringLess(least, y) {
        if y != x && least == x && y != rest {
          StringLessTransitive(x, rest, y);
        }
      }
    }
  }
}
