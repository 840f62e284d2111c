/** The loops of the binary tier: a buffer filled and a payload read at a moving offset. */
module BinaryVectorCodec {
  import opened Wrappers
  import opened Collections
  import opened Bytes
  import J = Json
  import opened BinaryVector
  import opened FrameCodec

  /** `payload[offset..offset + n].copy_from_slice(bytes)` */
  method CopyFromSlice(payload: array<Byte>, offset: nat, bytes: seq<Byte>)
    requires offset + |bytes| <= payload.Length
    modifies payload
    ensures payload[..offset] == old(payload[..offset])
    ensures payload[..offset + |bytes|] == old(payload[..offset]) + bytes
  {
    var i := 0;
    while i < |bytes|
      invariant 0 <= i <= |bytes|
      invariant payload[..offset] == old(payload[..offset])
      invariant payload[offset..offset + i] == bytes[..i]
    {
      payload[offset + i] := bytes[i];
      i := i + 1;
    }
    assert payload[..offset + |bytes|] == payload[..offset] + payload[offset..offset + |bytes|];
  }

  lemma {:induction false} SegmentsLength(vectors: seq<Vector>)
    ensures |Segments(vectors)| == SegmentBytes(vectors)
  {
    if vectors != [] {
      SegmentsLength(vectors[1..]);
      FloatsLength(vectors[0]);
    }
  }

  function SegmentBytes(vectors: seq<Vector>): nat {
    if vectors == [] then 0 else 4 + |vectors[0]| * 4 + SegmentBytes(vectors[1..])
  }

  /** Writes one vector at the offset and moves the offset past it. */
  method WriteSegment(payload: array<Byte>, start: nat, vector: Vector) returns (offset: nat)
    requires start + 4 + |vector| * 4 <= payload.Length
    modifies payload
    ensures offset == start + 4 + |vector| * 4
    ensures payload[..offset] == old(payload[..start]) + Segment(vector)
  {
    CopyFromSlice(payload, start, Be32(|vector|));
    offset := start + 4;
    ghost var before := old(payload[..start]) + Be32(|vector|);
    var i := 0;
    while i < |vector|
      invariant 0 <= i <= |vector| && offset == start + 4 + i * 4
      invariant payload[..offset] + Floats(vector[i..]) == before + Floats(vector)
    {
      assert vector[i..][0] == vector[i] && vector[i..][1..] == vector[i + 1..];
      ghost var written := payload[..offset];
      CopyFromSlice(payload, offset, vector[i]);
      offset := offset + 4;
      assert (written + vector[i]) + Floats(vector[i + 1..]) == written + (vector[i] + Floats(vector[i + 1..]));
      i := i + 1;
    }
    assert vector[i..] == [] && payload[..offset] + [] == payload[..offset];
    assert before + Floats(vector) == old(payload[..start]) + Segment(vector);
  }

  /** The fixed fields, written one by one into the first sixteen bytes. */
  method WritePrefix(payload: array<Byte>, vectorCount: nat, metadataLength: nat)
    requires payload.Length >= PREFIX
    modifies payload
    ensures payload[..PREFIX] == Prefix(vectorCount, metadataLength)
  {
    CopyFromSlice(payload, 0, MAGIC);
    assert payload[..4] == MAGIC;
    CopyFromSlice(payload, 4, [VERSION, 0]);
    CopyFromSlice(payload, 6, Be16(vectorCount));
    CopyFromSlice(payload, 8, Be32(metadataLength));
    CopyFromSlice(payload, 12, Be32(0));
  }

  method EncodeBinaryVector(c: Codecs, dict: Fields) returns (r: Result<seq<Byte>, CodecError>)
    ensures r == EncodeVector(c, dict)
  {
    var metadata, vectors := ExtractVectors(c, dict);
    if |vectors| > 65535 {
      return Err(TooManyVectors);
    }
    var metadataBytes := c.encodeMsgPack(metadata);
    var payload := new Byte[PREFIX + |metadataBytes| + SegmentBytes(vectors)](_ => 0);
    WritePrefix(payload, |vectors|, |metadataBytes|);
    CopyFromSlice(payload, PREFIX, metadataBytes);
    var offset := PREFIX + |metadataBytes|;
    WriteSegments(payload, offset, vectors);
    Regroup(Prefix(|vectors|, |metadataBytes|), metadataBytes, Segments(vectors));
    r := Ok(payload[..]);
  }

  /** Writes all vectors, up to the end of the buffer. */
  method WriteSegments(payload: array<Byte>, start: nat, vectors: seq<Vector>)
    requires start <= payload.Length && start + SegmentBytes(vectors) == payload.Length
    modifies payload
    ensures payload[..] == old(payload[..start]) + Segments(vectors)
  {
    var offset := start;
    ghost var head := payload[..start];
    assert vectors[0..] == vectors;
    var i := 0;
    while i < |vectors|
      invariant 0 <= i <= |vectors| && start <= offset <= payload.Length
      invariant offset + SegmentBytes(vectors[i..]) == payload.Length
      invariant payload[..offset] + Segments(vectors[i..]) == head + Segments(vectors)
    {
      assert vectors[i..][0] == vectors[i] && vectors[i..][1..] == vectors[i + 1..];
      ghost var written, rest := payload[..offset], Segments(vectors[i + 1..]);
      offset := WriteSegment(payload, offset, vectors[i]);
      assert (written + Segment(vectors[i])) + rest == written + (Segment(vectors[i]) + rest);
      i := i + 1;
    }
    assert vectors[i..] == [] && payload[..offset] == payload[..] && payload[..] + [] == payload[..];
  }

  /** Takes the search vector out of a copy of the dictionary. */
  method ExtractVectors(c: Codecs, dict: Fields) returns (metadata: Fields, vectors: seq<Vector>)
    ensures (metadata, vectors) == Extract(c, dict)
  {
    metadata, vectors := dict, [];
    var slot := VectorSlot(dict);
    if slot.None? || !slot.value.Array? {
      return;
    }
    var values := slot.value.items;
    var vector: Vector := [];
    var i := 0;
    while i < |values|
      invariant 0 <= i <= |values| && AllNumbers(values[..i]) && vector == ToVector(c, values[..i])
    {
      if !values[i].Number? {
        return;
      }
      vector := vector + [c.toFloat32(values[i].text)];
      assert values[..i + 1] == values[..i] + [values[i]];
      i := i + 1;
    }
    assert values[..i] == values;
    var index := |vectors|;
    vectors := vectors + [vector];
    metadata := WithSlot(metadata, MarkerFor(index, |vector|));
    assert vectors == [vector];
  }

  /** Reads `dim` floats at the offset. */
  method ReadVector(payload: seq<Byte>, start: nat, dim: nat) returns (vector: Vector, offset: nat)
    requires start + dim * 4 <= |payload|
    ensures vector == ReadFloats(payload[start..], dim) && offset == start + dim * 4
  {
    vector, offset := [], start;
    var i := 0;
    while i < dim
      invariant 0 <= i <= dim && offset == start + i * 4
      invariant vector + ReadFloats(payload[offset..], dim - i) == ReadFloats(payload[start..], dim)
    {
      ghost var rest := payload[offset..];
      assert rest[..4] == payload[offset..offset + 4] && rest[4..] == payload[offset + 4..];
      vector := vector + [payload[offset..offset + 4]];
      offset := offset + 4;
      i := i + 1;
    }
  }

  /** One segment at the offset, and the offset after it. */
  method ReadSegment(payload: seq<Byte>, start: nat) returns (r: Result<(Vector, nat), VectorError>)
    requires start <= |payload|
    ensures r == SegmentAt(payload, start)
  {
    var offset := start;
    if |payload| - offset < 4 {
      return Err(MissingDimension);
    }
    var dim := FromBe32(payload[offset..offset + 4]);
    offset := offset + 4;
    if |payload| - offset < dim * 4 {
      return Err(TruncatedSegment);
    }
    var vector, next := ReadVector(payload, offset, dim);
    r := Ok((vector, next));
  }

  function SegmentAt(payload: seq<Byte>, start: nat): (r: Result<(Vector, nat), VectorError>)
    requires start <= |payload|
    ensures r.Ok? ==> start <= r.value.1 <= |payload|
  {
    if |payload| - start < 4 then Err(MissingDimension)
    else
      var dim := FromBe32(payload[start..start + 4]);
      if |payload| - (start + 4) < dim * 4 then Err(TruncatedSegment)
      else Ok((ReadFloats(payload[start + 4..], dim), start + 4 + dim * 4))
  }

  lemma SegmentFirst(payload: seq<Byte>, start: nat, count: nat)
    requires start <= |payload| && count > 0
    ensures ReadSegments(payload[start..], count) ==
            match SegmentAt(payload, start)
            case Err(error) => Err(error)
            case Ok((v, next)) => Continue([v], ReadSegments(payload[next..], count - 1))
  {
    var rest := payload[start..];
    if |rest| >= 4 {
      var dim := FromBe32(rest[..4]);
      assert rest[..4] == payload[start..start + 4] && rest[4..] == payload[start + 4..];
      if |rest| - 4 >= dim * 4 {
        assert rest[4 + dim * 4..] == payload[start + 4 + dim * 4..];
      }
    }
  }

  lemma NoSegmentLeft(payload: seq<Byte>, offset: nat, vectors: seq<Vector>)
    requires offset <= |payload|
    ensures Continue(vectors, ReadSegments(payload[offset..], 0))
         == if offset == |payload| then Ok(vectors) else Err(TrailingBytes)
  {
    assert vectors + [] == vectors;
  }

  lemma NothingReadYet(rest: Result<seq<Vector>, VectorError>)
    ensures Continue([], rest) == rest
  {
    assert rest.Ok? ==> [] + rest.value == rest.value;
  }

  method ReadVectors(payload: seq<Byte>, start: nat, count: nat) returns (r: Result<seq<Vector>, CodecError>)
    requires start <= |payload|
    ensures r == match ReadSegments(payload[start..], count)
                 case Ok(vectors) => Ok(vectors)
                 case Err(error) => Err(BadVector(error))
  {
    var vectors: seq<Vector> := [];
    var offset := start;
    ghost var whole := ReadSegments(payload[start..], count);
    NothingReadYet(whole);
    var i := 0;
    while i < count
      invariant 0 <= i <= count && start <= offset <= |payload|
      invariant whole == Continue(vectors, ReadSegments(payload[offset..], count - i))
    {
      SegmentFirst(payload, offset, count - i);
      var segment := ReadSegment(payload, offset);
      if segment.Err? {
        return Err(BadVector(segment.error));
      }
      ContinueOn(vectors, segment.value.0, ReadSegments(payload[segment.value.1..], count - i - 1));
      vectors := vectors + [segment.value.0];
      offset := segment.value.1;
      i := i + 1;
    }
    NoSegmentLeft(payload, offset, vectors);
    if offset != |payload| {
      return Err(BadVector(TrailingBytes));
    }
    r := Ok(vectors);
  }

  ghost function Continue(done: seq<Vector>, rest: Result<seq<Vector>, VectorError>): Result<seq<Vector>, VectorError> {
    match rest
    case Err(error) => Err(error)
    case Ok(more) => Ok(done + more)
  }

  lemma ContinueOn(done: seq<Vector>, v: Vector, rest: Result<seq<Vector>, VectorError>)
    ensures Continue(done + [v], rest) == Continue(done, Continue([v], rest))
  {
    if rest.Ok? {
      assert (done + [v]) + rest.value == done + ([v] + rest.value);
    }
  }

  method DecodeBinaryVector(c: Codecs, payload: seq<Byte>) returns (r: Result<Fields, CodecError>)
    ensures r == DecodeVector(c, payload)
  {
    if |payload| < PREFIX {
      return Err(BadVector(TooShort));
    }
    if payload[0..4] != MAGIC {
      return Err(BadVector(MagicMismatch));
    }
    if payload[4] != VERSION {
      return Err(BadVector(UnsupportedVersion));
    }
    if payload[5] != 0 || FromBe32(payload[12..16]) != 0 {
      return Err(BadVector(ReservedNotZero));
    }
    var vectorCount := FromBe16(payload[6..8]);
    var metadataLength := FromBe32(payload[8..12]);
    if metadataLength > |payload| - PREFIX {
      return Err(BadVector(MetadataTooLong));
    }
    var offset := PREFIX;
    var metadata := AsObject(c.decodeMsgPack(payload[offset..offset + metadataLength]));
    if metadata.Err? {
      return Err(metadata.error);
    }
    offset := offset + metadataLength;
    var vectors := ReadVectors(payload, offset, vectorCount);
    if vectors.Err? {
      return Err(vectors.error);
    }
    r := RestoreVector(c, metadata.value, vectors.value);
  }

  /** Puts the marked vector back, number by number. */
  method RestoreVector(c: Codecs, dict: Fields, vectors: seq<Vector>) returns (r: Result<Fields, CodecError>)
    ensures r == Restore(c, dict, vectors)
  {
    var slot := VectorSlot(dict);
    if slot.None? {
      return Ok(dict);
    }
    var marked := Marked(slot.value, vectors);
    if marked.Err? {
      return Err(marked.error);
    }
    var vector := marked.value;
    var values: seq<J.Json> := [];
    var i := 0;
    while i < |vector|
      invariant 0 <= i <= |vector| && AllFinite(c, vector[..i]) && values == FromVector(c, vector[..i])
    {
      var number := c.fromFloat32(vector[i]);
      if number.None? {
        return Err(NotFinite);
      }
      values := values + [J.Number(number.value)];
      assert vector[..i + 1] == vector[..i] + [vector[i]];
      i := i + 1;
    }
    assert vector[..i] == vector;
    r := Ok(WithSlot(dict, J.Array(values)));
  }
}
