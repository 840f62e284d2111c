/** Bytes and the fixed-width big-endian integers of the wire formats. */
module Bytes {
  type Byte = b: int | 0 <= b < 256

  const TWO_16 := 0x1_0000
  const TWO_32 := 0x1_0000_0000

  /** `(n as u16).to_be_bytes()` */
  function Be16(n: nat): (s: seq<Byte>)
    ensures |s| == 2
  {
    [n / 256 % 256, n % 256]
  }

  /** `(n as u32).to_be_bytes()` */
  function Be32(n: nat): (s: seq<Byte>)
    ensures |s| == 4
  {
    Be16(n / TWO_16) + Be16(n)
  }

  function FromBe16(s: seq<Byte>): (n: nat)
    requires |s| == 2
    ensures n < TWO_16
  {
    s[0] as int * 256 + s[1]
  }

  function FromBe32(s: seq<Byte>): (n: nat)
    requires |s| == 4
    ensures n < TWO_32
  {
    FromBe16(s[..2]) * TWO_16 + FromBe16(s[2..])
  }

  lemma Be16Wraps(n: nat)
    ensures FromBe16(Be16(n)) == n % TWO_16
  {
    var low := n % 256;
    var high := n / 256 % 256;
    var q := n / 256 / 256;
    assert n == q * TWO_16 + (high * 256 + low);
  }

  lemma Be32Wraps(n: nat)
    ensures FromBe32(Be32(n)) == n % TWO_32
  {
    var high, low := n / TWO_16, n % TWO_16;
    var s := Be32(n);
    assert s[..2] == Be16(high) && s[2..] == Be16(n);
    Be16Wraps(high);
    Be16Wraps(n);
    var carry, kept := high / TWO_16, high % TWO_16;
    assert n == carry * TWO_32 + (kept * TWO_16 + low);
  }

  lemma Be16Reads(s: seq<Byte>)
    requires |s| == 2
    ensures Be16(FromBe16(s)) == s
  {
    assert s == [s[0], s[1]];
  }

  lemma Be32Reads(s: seq<Byte>)
    requires |s| == 4
    ensures Be32(FromBe32(s)) == s
  {
    var n, high, low := FromBe32(s), FromBe16(s[..2]), FromBe16(s[2..]);
    assert n / TWO_16 == high && n % TWO_16 == low;
    Be16Reads(s[..2]);
    Be16Reads(s[2..]);
    SameBytes(n, low);
    assert s == s[..2] + s[2..];
  }

  lemma SameBytes(n: nat, low: nat)
    requires low == n % TWO_16
    ensures Be16(n) == Be16(low)
  {
    var high := n / TWO_16;
    assert n == high * TWO_16 + low;
    assert n / 256 == high * 256 + low / 256;
  }
}
