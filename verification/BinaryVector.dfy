/**
 The binary-vector payload: a 16-byte prefix, metadata bytes, and float32 segments. Framing is a
 bijection between (metadata, vectors) and the payloads that are accepted.
 */
module BinaryVector {
  import opened Wrappers
  import opened Bytes
  import Collections

  /** The four bytes of a float32, as they stand on the wire. */
  type Float32 = s: seq<Byte> | |s| == 4 witness [0, 0, 0, 0]

  type Vector = seq<Float32>

  datatype VectorError =
    | TooShort | MagicMismatch | UnsupportedVersion | ReservedNotZero | MetadataTooLong
    | MissingDimension | TruncatedSegment | TrailingBytes

  const MAGIC: seq<Byte> := [78, 80, 66, 86]
  const VERSION: Byte := 1
  const PREFIX: nat := 16

  // ---- writing -------------------------------------------------------------

  function Floats(v: Vector): seq<Byte> {
    if v == [] then [] else v[0] + Floats(v[1..])
  }

  function Segment(v: Vector): seq<Byte> {
    Be32(|v|) + Floats(v)
  }

  function Segments(vectors: seq<Vector>): seq<Byte> {
    if vectors == [] then [] else Segment(vectors[0]) + Segments(vectors[1..])
  }

  function Prefix(vectorCount: nat, metadataLength: nat): (s: seq<Byte>)
    ensures |s| == PREFIX
  {
    MAGIC + [VERSION, 0] + Be16(vectorCount) + Be32(metadataLength) + Be32(0)
  }

  function WriteFramed(metadata: seq<Byte>, vectors: seq<Vector>): seq<Byte> {
    Prefix(|vectors|, |metadata|) + (metadata + Segments(vectors))
  }

  // ---- reading -------------------------------------------------------------

  /** The prefix and the metadata: how many vectors follow, and the bytes they are in. */
  function ReadPrefix(payload: seq<Byte>): (r: Result<(nat, seq<Byte>, seq<Byte>), VectorError>)
    ensures r.Ok? ==> |payload| >= PREFIX && payload == payload[..PREFIX] + (r.value.1 + r.value.2)
  {
    if |payload| < PREFIX then Err(TooShort)
    else if payload[0..4] != MAGIC then Err(MagicMismatch)
    else if payload[4] != VERSION then Err(UnsupportedVersion)
    else if payload[5] != 0 || FromBe32(payload[12..16]) != 0 then Err(ReservedNotZero)
    else
      var metadataLength := FromBe32(payload[8..12]);
      if metadataLength > |payload| - PREFIX then Err(MetadataTooLong)
      else
        Ok((FromBe16(payload[6..8]), payload[PREFIX..PREFIX + metadataLength], payload[PREFIX + metadataLength..]))
  }

  function ReadFloats(bytes: seq<Byte>, dim: nat): (v: Vector)
    requires |bytes| >= dim * 4
    ensures |v| == dim
  {
    if dim == 0 then [] else [bytes[..4]] + ReadFloats(bytes[4..], dim - 1)
  }

  function ReadSegments(bytes: seq<Byte>, count: nat): Result<seq<Vector>, VectorError>
    decreases count
  {
    if count == 0 then
      if bytes == [] then Ok([]) else Err(TrailingBytes)
    else if |bytes| < 4 then Err(MissingDimension)
    else
      var dim := FromBe32(bytes[..4]);
      if |bytes| - 4 < dim * 4 then Err(TruncatedSegment)
      else
        match ReadSegments(bytes[4 + dim * 4..], count - 1)
        case Err(error) => Err(error)
        case Ok(more) => Ok([ReadFloats(bytes[4..], dim)] + more)
  }

  function ReadFramed(payload: seq<Byte>): Result<(seq<Byte>, seq<Vector>), VectorError> {
    match ReadPrefix(payload)
    case Err(error) => Err(error)
    case Ok((count, metadata, rest)) =>
      match ReadSegments(rest, count)
      case Err(error) => Err(error)
      case Ok(vectors) => Ok((metadata, vectors))
  }

  // ---- the two directions --------------------------------------------------

  /** What the length fields can hold. */
  predicate Fits(metadata: seq<Byte>, vectors: seq<Vector>) {
    |metadata| < TWO_32 && |vectors| < TWO_16 && VectorsFit(vectors)
  }

  predicate VectorsFit(vectors: seq<Vector>) {
    forall i :: 0 <= i < |vectors| ==> |vectors[i]| < TWO_32
  }

  lemma {:induction false} FloatsLength(v: Vector)
    ensures |Floats(v)| == |v| * 4
  {
    if v != [] {
      FloatsLength(v[1..]);
    }
  }

  lemma {:induction false} FloatsReadBack(v: Vector, rest: seq<Byte>)
    ensures |Floats(v)| == |v| * 4 && ReadFloats(Floats(v) + rest, |v|) == v
  {
    FloatsLength(v);
    if v != [] {
      FloatsReadBack(v[1..], rest);
      var bytes := Floats(v) + rest;
      assert bytes[..4] == v[0] && bytes[4..] == Floats(v[1..]) + rest;
      assert v == [v[0]] + v[1..];
    }
  }

  lemma {:induction false} FloatsRewritten(bytes: seq<Byte>, dim: nat)
    requires |bytes| >= dim * 4
    ensures Floats(ReadFloats(bytes, dim)) == bytes[..dim * 4]
  {
    if dim > 0 {
      FloatsRewritten(bytes[4..], dim - 1);
      assert bytes[..dim * 4] == bytes[..4] + bytes[4..][..(dim - 1) * 4];
    }
  }

  lemma SegmentReads(v: Vector, rest: seq<Byte>)
    requires |v| < TWO_32
    ensures var bytes := Segment(v) + rest;
            && |bytes| == 4 + |v| * 4 + |rest| && FromBe32(bytes[..4]) == |v|
            && ReadFloats(bytes[4..], |v|) == v && bytes[4 + |v| * 4..] == rest
  {
    FloatsReadBack(v, rest);
    Be32Wraps(|v|);
    Collections.Cuts(Be32(|v|), Floats(v), rest);
  }

  lemma {:induction false} SegmentsReadBack(vectors: seq<Vector>)
    requires VectorsFit(vectors)
    ensures ReadSegments(Segments(vectors), |vectors|) == Ok(vectors)
  {
    if vectors != [] {
      var v, more := vectors[0], vectors[1..];
      SegmentsReadBack(more);
      SegmentReads(v, Segments(more));
      assert vectors == [v] + more;
    }
  }

  lemma SegmentRewritten(bytes: seq<Byte>, dim: nat)
    requires |bytes| >= 4 && dim == FromBe32(bytes[..4]) && |bytes| - 4 >= dim * 4
    ensures Be32(dim) + Floats(ReadFloats(bytes[4..], dim)) == bytes[..4 + dim * 4]
  {
    FloatsRewritten(bytes[4..], dim);
    Be32Reads(bytes[..4]);
    assert bytes[..4 + dim * 4] == bytes[..4] + bytes[4..][..dim * 4];
  }

  lemma {:induction false} SegmentsRewritten(bytes: seq<Byte>, count: nat)
    requires ReadSegments(bytes, count).Ok?
    ensures var vectors := ReadSegments(bytes, count).value;
            |vectors| == count && VectorsFit(vectors) && Segments(vectors) == bytes
    decreases count
  {
    if count > 0 {
      var dim := FromBe32(bytes[..4]);
      var v, rest := ReadFloats(bytes[4..], dim), bytes[4 + dim * 4..];
      var more := ReadSegments(rest, count - 1).value;
      SegmentsRewritten(rest, count - 1);
      SegmentRewritten(bytes, dim);
      SegmentsStep(v, more, bytes[..4 + dim * 4], rest);
      Collections.TakeDrop(bytes, 4 + dim * 4);
    }
  }

  lemma SegmentsStep(v: Vector, more: seq<Vector>, first: seq<Byte>, rest: seq<Byte>)
    requires |v| < TWO_32 && VectorsFit(more) && Segments(more) == rest && Be32(|v|) + Floats(v) == first
    ensures VectorsFit([v] + more) && Segments([v] + more) == first + rest
  {
    assert ([v] + more)[1..] == more;
  }

  ghost predicate HasPrefix(payload: seq<Byte>, count: nat, metadataLength: nat) {
    && |payload| >= PREFIX
    && payload[0..4] == MAGIC && payload[4] == VERSION && payload[5] == 0
    && payload[6..8] == Be16(count) && payload[8..12] == Be32(metadataLength) && payload[12..16] == Be32(0)
  }

  lemma PrefixStands(count: nat, metadataLength: nat, tail: seq<Byte>)
    ensures HasPrefix(Prefix(count, metadataLength) + tail, count, metadataLength)
    ensures (Prefix(count, metadataLength) + tail)[PREFIX..] == tail
  {
  }

  lemma PrefixNumbers(payload: seq<Byte>, count: nat, metadataLength: nat)
    requires count < TWO_16 && metadataLength < TWO_32 && HasPrefix(payload, count, metadataLength)
    ensures FromBe16(payload[6..8]) == count && FromBe32(payload[8..12]) == metadataLength
    ensures FromBe32(payload[12..16]) == 0
  {
    Be16Wraps(count);
    Be32Wraps(metadataLength);
    Be32Wraps(0);
  }

  lemma PrefixParses(payload: seq<Byte>, count: nat, metadata: seq<Byte>, rest: seq<Byte>)
    requires |payload| >= PREFIX && payload[0..4] == MAGIC && payload[4] == VERSION && payload[5] == 0
    requires FromBe16(payload[6..8]) == count && FromBe32(payload[8..12]) == |metadata|
    requires FromBe32(payload[12..16]) == 0 && payload[PREFIX..] == metadata + rest
    ensures ReadPrefix(payload) == Ok((count, metadata, rest))
  {
    Collections.SuffixAfter(payload, PREFIX, metadata, rest);
  }

  lemma PrefixReadBack(count: nat, metadata: seq<Byte>, rest: seq<Byte>)
    requires count < TWO_16 && |metadata| < TWO_32
    ensures ReadPrefix(Prefix(count, |metadata|) + (metadata + rest)) == Ok((count, metadata, rest))
  {
    var payload := Prefix(count, |metadata|) + (metadata + rest);
    PrefixStands(count, |metadata|, metadata + rest);
    PrefixNumbers(payload, count, |metadata|);
    PrefixParses(payload, count, metadata, rest);
  }

  lemma PrefixRewritten(payload: seq<Byte>)
    requires ReadPrefix(payload).Ok?
    ensures var (count, metadata, rest) := ReadPrefix(payload).value;
            count < TWO_16 && |metadata| < TWO_32 && payload == Prefix(count, |metadata|) + (metadata + rest)
  {
    var (count, metadata, rest) := ReadPrefix(payload).value;
    Be16Reads(payload[6..8]);
    Be32Reads(payload[8..12]);
    Be32Reads(payload[12..16]);
    assert payload[..16] == payload[0..4] + [payload[4], payload[5]] + payload[6..8] + payload[8..12] + payload[12..16];
  }

  /** Reading inverts writing, for everything the length fields can hold. */
  lemma ReadInvertsWrite(metadata: seq<Byte>, vectors: seq<Vector>)
    requires Fits(metadata, vectors)
    ensures ReadFramed(WriteFramed(metadata, vectors)) == Ok((metadata, vectors))
  {
    PrefixReadBack(|vectors|, metadata, Segments(vectors));
    SegmentsReadBack(vectors);
  }

  /** Writing inverts reading: an accepted payload is the framing of what it is read as. */
  lemma WriteInvertsRead(payload: seq<Byte>)
    requires ReadFramed(payload).Ok?
    ensures var (metadata, vectors) := ReadFramed(payload).value;
            Fits(metadata, vectors) && WriteFramed(metadata, vectors) == payload
  {
    var (count, metadata, rest) := ReadPrefix(payload).value;
    PrefixRewritten(payload);
    SegmentsRewritten(rest, count);
  }
}
