/** Finding a certificate extension by walking its values. */
module DerExtensions {
  import opened Wrappers
  import opened Bytes
  import Collections
  import opened Der

  const EXTENSIONS: Byte := 0xA3
  const OBJECT_ID: Byte := 0x06
  const BOOLEAN: Byte := 0x01
  const OCTETS: Byte := 0x04

  /** The content of one value of this tag that starts the bytes. */
  function Open(b: seq<Byte>, tag: Byte): Option<seq<Byte>> {
    match TlvAt(b, 0)
    case None => None
    case Some((t, content, _)) => if t == tag then Some(content) else None
  }

  method OpenFirst(b: seq<Byte>, tag: Byte) returns (r: Option<seq<Byte>>)
    ensures r == Open(b, tag)
  {
    var cursor := new Cursor(b);
    var first := cursor.Read();
    if first.None? || first.value.0 != tag {
      return None;
    }
    r := Some(first.value.1);
  }

  /** The content of the first value of this tag; a malformed value before it ends the search. */
  function FirstOf(b: seq<Byte>, pos: nat, tag: Byte): Option<seq<Byte>>
    requires pos <= |b|
    decreases |b| - pos
  {
    match TlvAt(b, pos)
    case None => None
    case Some((t, content, next)) => if t == tag then Some(content) else FirstOf(b, next, tag)
  }

  /** What one extension says about the wanted object identifier. */
  datatype Verdict = Other | Holds(value: Option<seq<Byte>>)

  /** Identifier, an optional criticality flag, and the octets. */
  function Examine(ext: seq<Byte>, wanted: seq<Byte>): Verdict {
    match TlvAt(ext, 0)
    case None => Other
    case Some((tag, id, next)) =>
      if tag != OBJECT_ID || id != wanted then Other
      else
        var second := TlvAt(ext, next);
        var third := if second.Some? && second.value.0 == BOOLEAN then TlvAt(ext, second.value.2) else second;
        if third.Some? && third.value.0 == OCTETS then Holds(Some(third.value.1)) else Holds(None)
  }

  /** The first extension with the identifier decides. */
  function FirstExtension(b: seq<Byte>, pos: nat, wanted: seq<Byte>): Option<seq<Byte>>
    requires pos <= |b|
    decreases |b| - pos
  {
    match TlvAt(b, pos)
    case None => None
    case Some((tag, ext, next)) =>
      if tag != SEQUENCE then FirstExtension(b, next, wanted)
      else
        match Examine(ext, wanted)
        case Other => FirstExtension(b, next, wanted)
        case Holds(value) => value
  }

  function FindExtension(cert: seq<Byte>, wanted: seq<Byte>): Option<seq<Byte>> {
    var body := Open(cert, SEQUENCE);
    if body.None? then None
    else
      var tbs := Open(body.value, SEQUENCE);
      if tbs.None? then None
      else
        var block := FirstOf(tbs.value, 0, EXTENSIONS);
        if block.None? then None
        else
          var list := Open(block.value, SEQUENCE);
          if list.None? then None else FirstExtension(list.value, 0, wanted)
  }

  method ExamineExtension(ext: seq<Byte>, wanted: seq<Byte>) returns (v: Verdict)
    ensures v == Examine(ext, wanted)
  {
    var e := new Cursor(ext);
    var id := e.Read();
    if id.None? || id.value.0 != OBJECT_ID || id.value.1 != wanted {
      return Other;
    }
    var next := e.Read();
    if next.Some? && next.value.0 == BOOLEAN {
      next := e.Read();
    }
    if next.Some? && next.value.0 == OCTETS {
      return Holds(Some(next.value.1));
    }
    return Holds(None);
  }

  /** Every walk ends, because each value read moves the cursor forward. */
  method FindExtensionValue(cert: seq<Byte>, wanted: seq<Byte>) returns (r: Option<seq<Byte>>)
    ensures r == FindExtension(cert, wanted)
  {
    var body := OpenFirst(cert, SEQUENCE);
    if body.None? {
      return None;
    }
    var tbs := OpenFirst(body.value, SEQUENCE);
    if tbs.None? {
      return None;
    }
    var block := WalkTo(tbs.value, EXTENSIONS);
    if block.None? {
      return None;
    }
    var list := OpenFirst(block.value, SEQUENCE);
    if list.None? {
      return None;
    }
    r := WalkExtensions(list.value, wanted);
  }

  method WalkTo(b: seq<Byte>, tag: Byte) returns (r: Option<seq<Byte>>)
    ensures r == FirstOf(b, 0, tag)
  {
    var c := new Cursor(b);
    while true
      invariant c.b == b && c.pos <= |b| && fresh(c)
      invariant FirstOf(b, c.pos, tag) == FirstOf(b, 0, tag)
      decreases |b| - c.pos
    {
      var v := c.Read();
      if v.None? {
        return None;
      }
      if v.value.0 == tag {
        return Some(v.value.1);
      }
    }
  }

  method WalkExtensions(b: seq<Byte>, wanted: seq<Byte>) returns (r: Option<seq<Byte>>)
    ensures r == FirstExtension(b, 0, wanted)
  {
    var it := new Cursor(b);
    while true
      invariant it.b == b && it.pos <= |b| && fresh(it)
      invariant FirstExtension(b, it.pos, wanted) == FirstExtension(b, 0, wanted)
      decreases |b| - it.pos
    {
      var v := it.Read();
      if v.None? {
        return None;
      }
      if v.value.0 == SEQUENCE {
        var verdict := ExamineExtension(v.value.1, wanted);
        if verdict.Holds? {
          return verdict.value;
        }
      }
    }
  }

  // ---- certificates that are well formed -----------------------------------

  /**
   The definite form of a length in at most five bytes (sections 8.1.3.4 and 8.1.3.5 of ITU-T X.690):
   one byte below 0x80, or a count of the big-endian bytes that follow.
   */
  predicate IsLength(header: seq<Byte>, n: nat) {
    if |header| == 1 then n < 0x80 && header[0] as int == n
    else 2 <= |header| <= 5 && header[0] as int == 0x80 + |header| - 1 && BigEndian(header[1..]) == n
  }

  lemma LengthReads(header: seq<Byte>, n: nat, rest: seq<Byte>)
    requires IsLength(header, n)
    ensures LengthOf(header + rest) == Some((n, |header|))
  {
    if |header| > 1 {
      assert (header + rest)[1..|header|] == header[1..];
    }
  }

  function Digits(n: nat): (s: seq<Byte>)
    ensures BigEndian(s) == n
  {
    if n == 0 then [] else
      var s := Digits(n / 256) + [n % 256];
      assert s[..|s| - 1] == Digits(n / 256);
      s
  }

  lemma {:induction false} DigitsFit(n: nat, k: nat)
    requires n < Power256(k)
    ensures |Digits(n)| <= k
  {
    if n > 0 {
      DigitsFit(n / 256, k - 1);
    }
  }

  function Power256(k: nat): (p: nat)
    ensures p > 0
  {
    if k == 0 then 1 else 256 * Power256(k - 1)
  }

  lemma FourDigits(n: nat)
    requires n < TWO_32
    ensures |Digits(n)| <= 4
  {
    assert Power256(2) == 256 * Power256(1) == TWO_16;
    assert Power256(4) == 256 * Power256(3) == TWO_32;
    DigitsFit(n, 4);
  }

  /** The shortest such form, which DER demands (section 10.1). */
  function DerLength(n: nat): seq<Byte>
    requires n < TWO_32
  {
    FourDigits(n);
    if n < 0x80 then [n] else [0x80 + |Digits(n)|] + Digits(n)
  }

  /** Every length below 2^32 has one. */
  lemma DerLengthIsLength(n: nat)
    requires n < TWO_32
    ensures IsLength(DerLength(n), n)
  {
    FourDigits(n);
    if n >= 0x80 {
      assert Digits(n) != [];
      assert DerLength(n)[1..] == Digits(n);
    }
  }

  /** One value, with the bytes of its length. */
  datatype Field = Field(tag: Byte, header: seq<Byte>, content: seq<Byte>)
  {
    predicate Valid() {
      IsLength(header, |content|)
    }

    function Bytes(): seq<Byte> {
      [tag] + (header + content)
    }
  }

  function Concatenated(fs: seq<Field>): seq<Byte> {
    if fs == [] then [] else fs[0].Bytes() + Concatenated(fs[1..])
  }

  predicate AllValid(fs: seq<Field>) {
    forall i :: 0 <= i < |fs| ==> fs[i].Valid()
  }

  /** An identifier, perhaps a criticality flag, and the octets (section 4.1 of RFC 5280). */
  datatype Extension = Extension(header: seq<Byte>, id: Field, critical: Option<Field>, value: Field)
  {
    function Parts(): seq<Field> {
      if critical.Some? then [id, critical.value, value] else [id, value]
    }

    function Whole(): Field {
      Field(SEQUENCE, header, Concatenated(Parts()))
    }

    predicate Valid() {
      && Whole().Valid() && AllValid(Parts())
      && id.tag == OBJECT_ID && value.tag == OCTETS && (critical.Some? ==> critical.value.tag == BOOLEAN)
    }
  }

  function Wrapped(es: seq<Extension>): seq<Field> {
    if es == [] then [] else [es[0].Whole()] + Wrapped(es[1..])
  }

  /** The fields before the extensions, the extensions, what follows the signed part, and the lengths around them. */
  datatype Certificate = Certificate(
    header: seq<Byte>, tbsHeader: seq<Byte>, fields: seq<Field>, blockHeader: seq<Byte>, listHeader: seq<Byte>,
    extensions: seq<Extension>, after: seq<Byte>)
  {
    function List(): Field {
      Field(SEQUENCE, listHeader, Concatenated(Wrapped(extensions)))
    }

    function Block(): Field {
      Field(EXTENSIONS, blockHeader, List().Bytes())
    }

    function Tbs(): Field {
      Field(SEQUENCE, tbsHeader, Concatenated(fields + [Block()]))
    }

    function Whole(): Field {
      Field(SEQUENCE, header, Tbs().Bytes() + after)
    }

    predicate Valid() {
      && Whole().Valid() && Tbs().Valid() && Block().Valid() && List().Valid() && AllValid(fields)
      && (forall i :: 0 <= i < |fields| ==> fields[i].tag != EXTENSIONS)
      && (forall i :: 0 <= i < |extensions| ==> extensions[i].Valid())
    }
  }

  /** The value of the first extension with this identifier. */
  function Wanted(es: seq<Extension>, id: seq<Byte>): Option<seq<Byte>> {
    if es == [] then None
    else if es[0].id.content == id then Some(es[0].value.content)
    else Wanted(es[1..], id)
  }

  ghost predicate TlvIs(b: seq<Byte>, pos: nat, f: Field, next: nat) {
    TlvAt(b, pos) == Some((f.tag, f.content, next))
  }

  lemma FieldReads(b: seq<Byte>, pos: nat, f: Field, rest: seq<Byte>)
    requires f.Valid() && pos <= |b| && b[pos..] == f.Bytes() + rest
    ensures TlvIs(b, pos, f, pos + |f.Bytes()|)
  {
    var tail := f.content + rest;
    Collections.Regroup([f.tag], f.header + f.content, rest);
    Collections.Regroup(f.header, f.content, rest);
    Collections.SuffixAfter(b, pos, [f.tag], f.header + tail);
    assert b[pos..pos + 1][0] == f.tag;
    Collections.SuffixAfter(b, pos + 1, f.header, tail);
    Collections.SuffixAfter(b, pos + 1 + |f.header|, f.content, rest);
    LengthReads(f.header, |f.content|, tail);
  }

  lemma OpensField(f: Field, rest: seq<Byte>)
    requires f.Valid()
    ensures Open(f.Bytes() + rest, f.tag) == Some(f.content)
  {
    FieldReads(f.Bytes() + rest, 0, f, rest);
  }

  /** The values stand in these bytes one after another, from a position on. */
  ghost predicate Stand(b: seq<Byte>, pos: nat, fs: seq<Field>)
    decreases |fs|
  {
    fs == [] || (TlvIs(b, pos, fs[0], pos + |fs[0].Bytes()|) && Stand(b, pos + |fs[0].Bytes()|, fs[1..]))
  }

  lemma {:induction false} WrittenStand(b: seq<Byte>, pos: nat, fs: seq<Field>)
    requires pos <= |b| && b[pos..] == Concatenated(fs) && AllValid(fs)
    ensures Stand(b, pos, fs)
    decreases |fs|
  {
    if fs != [] {
      FieldReads(b, pos, fs[0], Concatenated(fs[1..]));
      Collections.SuffixAfter(b, pos, fs[0].Bytes(), Concatenated(fs[1..]));
      WrittenStand(b, pos + |fs[0].Bytes()|, fs[1..]);
    }
  }

  lemma ExaminesPlain(ext: seq<Byte>, f: Field, g: Field, wanted: seq<Byte>)
    requires Stand(ext, 0, [f, g]) && f.tag == OBJECT_ID && g.tag == OCTETS
    ensures Examine(ext, wanted) == if f.content == wanted then Holds(Some(g.content)) else Other
  {
    var n := |f.Bytes()|;
    assert [f, g][1..] == [g];
    assert TlvIs(ext, n, [g][0], n + |g.Bytes()|);
  }

  lemma ExaminesCritical(ext: seq<Byte>, f: Field, flag: Field, g: Field, wanted: seq<Byte>)
    requires Stand(ext, 0, [f, flag, g]) && f.tag == OBJECT_ID && flag.tag == BOOLEAN && g.tag == OCTETS
    ensures Examine(ext, wanted) == if f.content == wanted then Holds(Some(g.content)) else Other
  {
    var n := |f.Bytes()|;
    var m := n + |flag.Bytes()|;
    assert [f, flag, g][1..] == [flag, g] && [flag, g][1..] == [g];
    assert Stand(ext, n, [flag, g]) && Stand(ext, m, [g]);
    assert TlvIs(ext, n, flag, m) && TlvIs(ext, m, g, m + |g.Bytes()|);
  }

  lemma ExaminesWritten(e: Extension, wanted: seq<Byte>)
    requires e.Valid()
    ensures Examine(e.Whole().content, wanted) == if e.id.content == wanted then Holds(Some(e.value.content)) else Other
  {
    var ext := e.Whole().content;
    WrittenStand(ext, 0, e.Parts());
    if e.critical.Some? {
      ExaminesCritical(ext, e.id, e.critical.value, e.value, wanted);
    } else {
      ExaminesPlain(ext, e.id, e.value, wanted);
    }
  }

  /** The walk passes the values before the first of the tag. */
  lemma {:induction false} WalkPasses(b: seq<Byte>, pos: nat, fs: seq<Field>, f: Field)
    requires pos <= |b| && Stand(b, pos, fs + [f]) && forall i :: 0 <= i < |fs| ==> fs[i].tag != f.tag
    ensures FirstOf(b, pos, f.tag) == Some(f.content)
    decreases |fs|
  {
    var all := fs + [f];
    var next := pos + |all[0].Bytes()|;
    assert TlvIs(b, pos, all[0], next);
    if fs != [] {
      assert all[1..] == fs[1..] + [f];
      WalkPasses(b, next, fs[1..], f);
    }
  }

  lemma {:induction false} ExtensionsWalked(b: seq<Byte>, pos: nat, es: seq<Extension>, wanted: seq<Byte>)
    requires forall i :: 0 <= i < |es| ==> es[i].Valid()
    requires Stand(b, pos, Wrapped(es)) && pos + |Concatenated(Wrapped(es))| == |b|
    ensures FirstExtension(b, pos, wanted) == Wanted(es, wanted)
    decreases |es|
  {
    if es != [] {
      var f := es[0].Whole();
      var next := pos + |f.Bytes()|;
      assert Wrapped(es)[0] == f && Wrapped(es)[1..] == Wrapped(es[1..]);
      assert TlvIs(b, pos, f, next);
      ExaminesWritten(es[0], wanted);
      ExtensionsWalked(b, next, es[1..], wanted);
    }
  }

  lemma {:induction false} WrappedAreValid(es: seq<Extension>)
    requires forall i :: 0 <= i < |es| ==> es[i].Valid()
    ensures AllValid(Wrapped(es))
  {
    if es != [] {
      WrappedAreValid(es[1..]);
    }
  }

  /**
   In every well-formed certificate, of any size whose lengths the reader takes, the search finds the
   first extension with the identifier, or none.
   */
  lemma SearchFindsFirst(cert: Certificate, wanted: seq<Byte>)
    requires cert.Valid()
    ensures FindExtension(cert.Whole().Bytes(), wanted) == Wanted(cert.extensions, wanted)
  {
    var tbs, list := cert.Tbs().content, cert.List().content;
    OpensField(cert.Whole(), []);
    OpensField(cert.Tbs(), cert.after);
    assert cert.Whole().Bytes() + [] == cert.Whole().Bytes() && cert.List().Bytes() + [] == cert.List().Bytes();
    WrittenStand(tbs, 0, cert.fields + [cert.Block()]);
    WalkPasses(tbs, 0, cert.fields, cert.Block());
    OpensField(cert.List(), []);
    WrappedAreValid(cert.extensions);
    WrittenStand(list, 0, Wrapped(cert.extensions));
    ExtensionsWalked(list, 0, cert.extensions, wanted);
  }
}
