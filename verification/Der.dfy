/**
 The DER reader and the little writer beside it: lengths, tag-length-value walks, sequences of UTF-8
 strings and the search for a certificate extension.
 */
module Der {
  import opened Wrappers
  import opened Bytes
  import Collections

  // ---- lengths -------------------------------------------------------------

  /** The big-endian number in these bytes. */
  function BigEndian(b: seq<Byte>): nat {
    if b == [] then 0 else BigEndian(b[..|b| - 1]) * 256 + b[|b| - 1] as int
  }

  /** The content length, and how many bytes the length itself takes. */
  function LengthOf(b: seq<Byte>): (r: Option<(nat, nat)>)
    ensures r.Some? ==> 1 <= r.value.1 <= |b|
  {
    if b == [] then None
    else if b[0] < 0x80 then Some((b[0], 1))
    else
      var n := b[0] as int - 0x80;
      if n == 0 || n > 4 || |b| < 1 + n then None
      else Some((BigEndian(b[1..1 + n]), 1 + n))
  }

  method ReadLen(b: seq<Byte>) returns (r: Option<(nat, nat)>)
    ensures r == LengthOf(b)
  {
    if b == [] {
      return None;
    }
    var first := b[0];
    if first < 0x80 {
      return Some((first, 1));
    }
    var n := first as int - 0x80;
    if n == 0 || n > 4 || |b| < 1 + n {
      return None;
    }
    var len: nat := 0;
    var i := 0;
    while i < n
      invariant 0 <= i <= n && len == BigEndian(b[1..1 + i])
    {
      assert b[1..1 + (i + 1)][..i] == b[1..1 + i];
      len := len * 256 + b[1 + i] as int;
      i := i + 1;
    }
    r := Some((len, 1 + n));
  }

  /** At most two length bytes: the writer cuts longer lengths. */
  function EncodeLen(n: nat): (s: seq<Byte>)
    ensures 1 <= |s| <= 3
  {
    if n < 0x80 then [n]
    else if n < 0x100 then [0x81, n]
    else [0x82, n / 256 % 256, n % 256]
  }

  lemma OneByte(b: seq<Byte>)
    requires |b| == 1
    ensures BigEndian(b) == b[0]
  {
    assert b[..0] == [] && BigEndian([]) == 0;
    assert BigEndian(b) == BigEndian(b[..0]) * 256 + b[0] as int;
  }

  lemma TwoBytes(b: seq<Byte>)
    requires |b| == 2
    ensures BigEndian(b) == b[0] as int * 256 + b[1] as int
  {
    OneByte(b[..1]);
    assert BigEndian(b) == BigEndian(b[..1]) * 256 + b[1] as int;
  }

  /** What the reader makes of a written length: the length modulo 65536. */
  lemma LengthReadBack(n: nat, rest: seq<Byte>)
    ensures LengthOf(EncodeLen(n) + rest) == Some((if n < 0x100 then n else n % TWO_16, |EncodeLen(n)|))
  {
    var b := EncodeLen(n) + rest;
    if 0x80 <= n < 0x100 {
      assert b[1..2] == [n as Byte];
      OneByte(b[1..2]);
    } else if n >= 0x100 {
      assert b[1..3] == [n / 256 % 256, n % 256];
      TwoBytes(b[1..3]);
    }
  }

  /** A length is read back as it was exactly when it is below 65536. */
  lemma LengthReadsBackWhen(n: nat, rest: seq<Byte>)
    ensures LengthOf(EncodeLen(n) + rest) == Some((n, |EncodeLen(n)|)) <==> n < TWO_16
  {
    LengthReadBack(n, rest);
  }

  function Pow256(k: nat): (p: nat)
    ensures p > 0
  {
    if k == 0 then 1 else 256 * Pow256(k - 1)
  }

  /** The number in this many bytes, most significant first. */
  function Digits(v: nat, k: nat): (b: seq<Byte>)
    ensures |b| == k
  {
    if k == 0 then [] else Digits(v / 256, k - 1) + [v % 256]
  }

  lemma {:induction false} DigitsAreRead(v: nat, k: nat)
    requires v < Pow256(k)
    ensures BigEndian(Digits(v, k)) == v
  {
    if k > 0 {
      DigitsAreRead(v / 256, k - 1);
      assert Digits(v, k)[..k - 1] == Digits(v / 256, k - 1);
    }
  }

  /** Of the long forms those of one to four bytes are read, leading zeros included, and no cut one is. */
  lemma LongFormIsReadWhen(v: nat, k: nat, rest: seq<Byte>, cut: nat)
    requires k < 128 && v < Pow256(k) && cut <= k
    ensures LengthOf([0x80 + k] + Digits(v, k) + rest) == if 1 <= k <= 4 then Some((v, 1 + k)) else None
    ensures LengthOf(([0x80 + k] + Digits(v, k))[..cut]) == None
  {
    DigitsAreRead(v, k);
    var b := [0x80 + k] + Digits(v, k) + rest;
    assert b[1..1 + k] == Digits(v, k);
  }

  // ---- one value -----------------------------------------------------------

  /** The tag, the content, and the position after it. */
  function TlvAt(b: seq<Byte>, pos: nat): (r: Option<(Byte, seq<Byte>, nat)>)
    ensures r.Some? ==> pos + 2 <= r.value.2 <= |b| && |r.value.1| <= |b| - pos - 2
  {
    if pos + 2 > |b| then None
    else
      match LengthOf(b[pos + 1..])
      case None => None
      case Some((len, header)) =>
        var start := pos + 1 + header;
        if start + len > |b| then None else Some((b[pos], b[start..start + len], start + len))
  }

  /** A cursor over concatenated values. */
  class Cursor {
    const b: seq<Byte>
    var pos: nat

    constructor (b: seq<Byte>)
      ensures this.b == b && pos == 0
    {
      this.b := b;
      pos := 0;
    }

    /** Stays within the bytes and moves strictly forward, or gives `None` and stays where it is. */
    method Read() returns (r: Option<(Byte, seq<Byte>)>)
      requires pos <= |b|
      modifies this
      ensures pos <= |b|
      ensures r.None? ==> pos == old(pos) && TlvAt(b, pos) == None
      ensures r.Some? ==> old(pos) < pos && TlvAt(b, old(pos)) == Some((r.value.0, r.value.1, pos))
    {
      if pos + 2 > |b| {
        return None;
      }
      var tag := b[pos];
      var length := ReadLen(b[pos + 1..]);
      if length.None? {
        return None;
      }
      var start := pos + 1 + length.value.1;
      var end := start + length.value.0;
      if end > |b| {
        return None;
      }
      pos := end;
      r := Some((tag, b[start..end]));
    }
  }

  function Tlv(tag: Byte, content: seq<Byte>): (s: seq<Byte>)
    ensures |s| >= 2 + |content|
  {
    [tag] + (EncodeLen(|content|) + content)
  }

  /** A written value is read back where it stands, exactly when its content is shorter than 65536 bytes. */
  lemma TlvReadsBackWhen(before: seq<Byte>, tag: Byte, content: seq<Byte>, rest: seq<Byte>)
    ensures var b := before + (Tlv(tag, content) + rest);
            TlvAt(b, |before|) == Some((tag, content, |before| + |Tlv(tag, content)|)) <==> |content| < TWO_16
  {
    var b := before + (Tlv(tag, content) + rest);
    var header := EncodeLen(|content|);
    LengthReadBack(|content|, content + rest);
    assert b[|before|] == tag;
    assert b[|before| + 1..] == header + (content + rest);
    var start := |before| + 1 + |header|;
    assert b[start..] == content + rest;
    assert b[start..start + |content|] == content;
  }

  lemma TlvReads(b: seq<Byte>, before: seq<Byte>, tag: Byte, content: seq<Byte>, rest: seq<Byte>)
    requires |content| < TWO_16 && b == before + (Tlv(tag, content) + rest)
    ensures TlvAt(b, |before|) == Some((tag, content, |before| + |Tlv(tag, content)|))
  {
    TlvReadsBackWhen(before, tag, content, rest);
  }

  // ---- sequences of strings ------------------------------------------------

  /** UTF-8: the bytes of a string, and the string of valid bytes. */
  datatype Utf8 = Utf8(encode: string -> seq<Byte>, decode: seq<Byte> -> Option<string>)

  /** The two directions of UTF-8 invert each other. */
  ghost predicate Sound(u: Utf8) {
    && (forall s :: u.decode(u.encode(s)) == Some(s))
    && (forall b :: u.decode(b).Some? ==> u.encode(u.decode(b).value) == b)
  }

  const SEQUENCE: Byte := 0x30
  const UTF8_STRING: Byte := 0x0C

  function Items(u: Utf8, values: seq<string>): seq<Byte> {
    if values == [] then [] else Tlv(UTF8_STRING, u.encode(values[0])) + Items(u, values[1..])
  }

  function BuildSequence(u: Utf8, values: seq<string>): seq<Byte> {
    Tlv(SEQUENCE, Items(u, values))
  }

  method BuildUtf8Sequence(u: Utf8, values: seq<string>) returns (out: seq<Byte>)
    ensures out == BuildSequence(u, values)
  {
    var inner: seq<Byte> := [];
    var i := 0;
    while i < |values|
      invariant 0 <= i <= |values|
      invariant inner + Items(u, values[i..]) == Items(u, values)
    {
      assert values[i..][0] == values[i] && values[i..][1..] == values[i + 1..];
      var bytes := u.encode(values[i]);
      ghost var before := inner;
      inner := inner + ([UTF8_STRING] + (EncodeLen(|bytes|) + bytes));
      assert inner + Items(u, values[i + 1..]) == before + (Tlv(UTF8_STRING, bytes) + Items(u, values[i + 1..]));
      i := i + 1;
    }
    assert values[i..] == [] && inner + [] == inner;
    out := [SEQUENCE] + (EncodeLen(|inner|) + inner);
  }

  /** The strings from a position on; anything that is not a valid UTF-8 string value spoils the whole. */
  function ParseItems(u: Utf8, b: seq<Byte>, pos: nat): Option<seq<string>>
    requires pos <= |b|
    decreases |b| - pos
  {
    if pos == |b| then Some([])
    else
      match TlvAt(b, pos)
      case None => None
      case Some((tag, content, next)) =>
        if tag != UTF8_STRING || u.decode(content).None? then None
        else
          match ParseItems(u, b, next)
          case None => None
          case Some(more) => Some([u.decode(content).value] + more)
  }

  /** Bytes after the outer sequence are not looked at. */
  function ParseSequence(u: Utf8, value: seq<Byte>): Option<seq<string>> {
    match TlvAt(value, 0)
    case None => None
    case Some((tag, content, _)) => if tag == SEQUENCE then ParseItems(u, content, 0) else None
  }

  method ParseUtf8Sequence(u: Utf8, value: seq<Byte>) returns (r: Option<seq<string>>)
    ensures r == ParseSequence(u, value)
  {
    var outer := new Cursor(value);
    var first := outer.Read();
    if first.None? || first.value.0 != SEQUENCE {
      return None;
    }
    var inner := new Cursor(first.value.1);
    var out: seq<string> := [];
    ghost var whole := ParseItems(u, inner.b, 0);
    NothingBefore(whole);
    while inner.pos < |inner.b|
      invariant inner.b == first.value.1 && inner.pos <= |inner.b| && fresh(inner)
      invariant whole == Before(out, ParseItems(u, inner.b, inner.pos))
      decreases |inner.b| - inner.pos
    {
      var item := inner.Read();
      if item.None? || item.value.0 != UTF8_STRING {
        return None;
      }
      var text := u.decode(item.value.1);
      if text.None? {
        return None;
      }
      OneBefore(out, text.value, ParseItems(u, inner.b, inner.pos));
      out := out + [text.value];
    }
    assert out + [] == out;
    r := Some(out);
  }

  ghost function Before(done: seq<string>, rest: Option<seq<string>>): Option<seq<string>> {
    match rest
    case None => None
    case Some(more) => Some(done + more)
  }

  lemma NothingBefore(rest: Option<seq<string>>)
    ensures Before([], rest) == rest
  {
    assert rest.Some? ==> [] + rest.value == rest.value;
  }

  lemma OneBefore(done: seq<string>, text: string, rest: Option<seq<string>>)
    ensures Before(done + [text], rest) == Before(done, Before([text], rest))
  {
    if rest.Some? {
      assert (done + [text]) + rest.value == done + ([text] + rest.value);
    }
  }

  // ---- the round trip of a sequence ----------------------------------------

  predicate AllShort(u: Utf8, values: seq<string>) {
    forall i :: 0 <= i < |values| ==> |u.encode(values[i])| < TWO_16
  }

  lemma {:induction false} ItemsAreLong(u: Utf8, values: seq<string>)
    ensures |Items(u, values)| < TWO_16 ==> AllShort(u, values)
  {
    if values != [] {
      ItemsAreLong(u, values[1..]);
      assert values == [values[0]] + values[1..];
    }
  }

  lemma ItemReadsBack(u: Utf8, before: seq<Byte>, v: string, item: seq<Byte>, rest: seq<Byte>)
    requires Sound(u) && |u.encode(v)| < TWO_16 && item == Tlv(UTF8_STRING, u.encode(v))
    ensures ParseItems(u, before + (item + rest), |before|)
         == Before([v], ParseItems(u, (before + item) + rest, |before + item|))
  {
    Collections.Regroup(before, item, rest);
    TlvReads(before + (item + rest), before, UTF8_STRING, u.encode(v), rest);
    ParseFirst(u, before + (item + rest), |before|, v, |before| + |item|);
  }

  lemma ParseFirst(u: Utf8, b: seq<Byte>, pos: nat, v: string, next: nat)
    requires Sound(u) && TlvAt(b, pos) == Some((UTF8_STRING, u.encode(v), next))
    ensures ParseItems(u, b, pos) == Before([v], ParseItems(u, b, next))
  {
  }

  /** The items after some bytes are parsed to the values they were made from. */
  lemma {:induction false} ItemsReadBack(u: Utf8, before: seq<Byte>, values: seq<string>)
    requires Sound(u) && AllShort(u, values)
    ensures ParseItems(u, before + Items(u, values), |before|) == Some(values)
    decreases |values|
  {
    if values == [] {
      assert before + [] == before;
    } else {
      var v, more := values[0], values[1..];
      var item := Tlv(UTF8_STRING, u.encode(v));
      ItemsReadBack(u, before + item, more);
      ItemReadsBack(u, before, v, item, Items(u, more));
      assert values == [v] + more;
    }
  }

  /** Only the whole of the items can be parsed to the values, and only if each is short. */
  lemma {:induction false} PartIsNotWhole(u: Utf8, before: seq<Byte>, values: seq<string>, end: nat)
    requires Sound(u) && |before| <= end <= |before| + |Items(u, values)|
    requires ParseItems(u, (before + Items(u, values))[..end], |before|) == Some(values)
    ensures end == |before| + |Items(u, values)|
    decreases |values|
  {
    if values != [] {
      var v, more := values[0], values[1..];
      var bytes := u.encode(v);
      var item := Tlv(UTF8_STRING, bytes);
      var whole := before + Items(u, values);
      var part := whole[..end];
      var (tag, content, next) := TlvAt(part, |before|).value;
      assert u.decode(content) == Some(v);
      assert content == bytes;
      HeaderOfPart(before, UTF8_STRING, bytes, Items(u, more), end);
      Collections.Regroup(before, item, Items(u, more));
      assert ParseItems(u, part, next).value == more;
      PartIsNotWhole(u, before + item, more, end);
    }
  }

  /** A value read from a part of the bytes, if its content is the one written, ends where that ends. */
  lemma HeaderOfPart(before: seq<Byte>, tag: Byte, content: seq<Byte>, rest: seq<Byte>, end: nat)
    requires |before| <= end <= |before| + |Tlv(tag, content)| + |rest|
    requires var part := (before + (Tlv(tag, content) + rest))[..end];
             TlvAt(part, |before|).Some? && |TlvAt(part, |before|).value.1| == |content|
    ensures var part := (before + (Tlv(tag, content) + rest))[..end];
            TlvAt(part, |before|).value.2 == |before| + |Tlv(tag, content)|
  {
    var whole := before + (Tlv(tag, content) + rest);
    var part := whole[..end];
    var header := EncodeLen(|content|);
    assert whole[|before| + 1..] == header + (content + rest);
    LengthReadBack(|content|, content + rest);
    assert part[|before| + 1] == whole[|before| + 1] == header[0];
    assert part[|before| + 1..][0] == header[0];
  }

  /** Longer items are cut, and what is left parses to something else. */
  lemma CutIsNotWhole(u: Utf8, values: seq<string>)
    requires Sound(u) && |Items(u, values)| >= TWO_16
    ensures ParseSequence(u, BuildSequence(u, values)) != Some(values)
  {
    var items := Items(u, values);
    var value := BuildSequence(u, values);
    var header, end := EncodeLen(|items|), |items| % TWO_16;
    LengthReadBack(|items|, items);
    assert value[1..] == header + items;
    assert value[1 + |header|..1 + |header| + end] == items[..end];
    assert TlvAt(value, 0).value.1 == items[..end];
    if ParseItems(u, items[..end], 0) == Some(values) {
      assert [] + items == items;
      PartIsNotWhole(u, [], values, end);
      assert false;
    }
  }

  /**
   Parsing inverts building exactly when the encoded strings, with their headers, stay below
   65536 bytes together.
   */
  lemma SequenceRoundTripsWhen(u: Utf8, values: seq<string>)
    requires Sound(u)
    ensures ParseSequence(u, BuildSequence(u, values)) == Some(values) <==> |Items(u, values)| < TWO_16
  {
    var items := Items(u, values);
    if |items| < TWO_16 {
      var value := BuildSequence(u, values);
      assert value == [] + (Tlv(SEQUENCE, items) + []);
      TlvReadsBackWhen([], SEQUENCE, items, []);
      assert [] + items == items;
      ItemsAreLong(u, values);
      ItemsReadBack(u, [], values);
    } else {
      CutIsNotWhole(u, values);
    }
  }
}
