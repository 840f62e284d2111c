/**
 The frame codec: payloads in three tiers, the vector that the binary tier takes out of a
 dictionary and puts back, and whole frames. JSON and MsgPack text are a pair of parameters.
 */
module FrameCodec {
  import opened Wrappers
  import opened Text
  import opened Bytes
  import J = Json
  import opened BinaryVector
  import opened FrameHeader

  type Fields = map<string, J.Json>

  /** The external codecs, and the two float32 conversions. */
  datatype Codecs = Codecs(
    encodeJson: Fields -> seq<Byte>,
    decodeJson: seq<Byte> -> Option<J.Json>,
    encodeMsgPack: Fields -> seq<Byte>,
    decodeMsgPack: seq<Byte> -> Option<J.Json>,
    toFloat32: J.Numeral -> Float32,
    fromFloat32: Float32 -> Option<J.Numeral>)

  datatype CodecError =
    | Unreadable | NotAnObject | ReservedTier | PayloadTooLarge | WireTooShort | Unregistered
    | BadHeader(header: HeaderError) | BadVector(vector: VectorError)
    | TooManyVectors | MarkerNotAnObject | MarkerWithoutIndex | MarkerOutOfRange
    | UnsupportedType | DimensionMismatch | NotFinite
    | NotAStreamFrame | BadStreamFrame | SliceOutOfRange

  // ---- the vector of a search ----------------------------------------------

  const SEARCH := "vector_search"
  const VECTOR := "vector"
  const MARKER := "$nps_binary_vector"

  /** What stands at `vector_search.vector`, if the dictionary gets that far. */
  function VectorSlot(dict: Fields): Option<J.Json> {
    if SEARCH in dict && dict[SEARCH].Object? && VECTOR in dict[SEARCH].fields
    then Some(dict[SEARCH].fields[VECTOR])
    else None
  }

  function WithSlot(dict: Fields, j: J.Json): Fields
    requires VectorSlot(dict).Some?
  {
    dict[SEARCH := J.Object(dict[SEARCH].fields[VECTOR := j])]
  }

  predicate AllNumbers(items: seq<J.Json>) {
    forall i :: 0 <= i < |items| ==> items[i].Number?
  }

  function ToVector(c: Codecs, items: seq<J.Json>): (v: Vector)
    requires AllNumbers(items)
    ensures |v| == |items|
  {
    seq<Float32>(|items|, i requires 0 <= i < |items| => c.toFloat32(items[i].text))
  }

  function MarkerFor(index: nat, dim: nat): J.Json {
    J.Object(map[MARKER := J.Number(Decimal(index)), "dtype" := J.Str("float32"), "dim" := J.Number(Decimal(dim))])
  }

  /** An array of numbers is taken out and a marker put in its place; anything else stays. */
  function Extract(c: Codecs, dict: Fields): (Fields, seq<Vector>) {
    var slot := VectorSlot(dict);
    if slot.Some? && slot.value.Array? && AllNumbers(slot.value.items) then
      var v := ToVector(c, slot.value.items);
      (WithSlot(dict, MarkerFor(0, |v|)), [v])
    else (dict, [])
  }

  predicate AllFinite(c: Codecs, v: Vector) {
    forall i :: 0 <= i < |v| ==> c.fromFloat32(v[i]).Some?
  }

  function FromVector(c: Codecs, v: Vector): seq<J.Json>
    requires AllFinite(c, v)
  {
    seq(|v|, i requires 0 <= i < |v| => J.Number(c.fromFloat32(v[i]).value))
  }

  function FieldU64(fields: Fields, key: string): Option<nat> {
    if key in fields then J.AsU64(fields[key]) else None
  }

  /** The marker's vector, once its index, type and dimension have been checked. */
  function Marked(marker: J.Json, vectors: seq<Vector>): Result<Vector, CodecError> {
    if !marker.Object? then Err(MarkerNotAnObject)
    else
      var index, dim := FieldU64(marker.fields, MARKER), FieldU64(marker.fields, "dim");
      if index.None? then Err(MarkerWithoutIndex)
      else if index.value >= |vectors| then Err(MarkerOutOfRange)
      else if !("dtype" in marker.fields && marker.fields["dtype"] == J.Str("float32")) then Err(UnsupportedType)
      else if dim.None? || dim.value != |vectors[index.value]| then Err(DimensionMismatch)
      else Ok(vectors[index.value])
  }

  function Restore(c: Codecs, dict: Fields, vectors: seq<Vector>): Result<Fields, CodecError> {
    var slot := VectorSlot(dict);
    if slot.None? then Ok(dict)
    else
      match Marked(slot.value, vectors)
      case Err(error) => Err(error)
      case Ok(v) => if AllFinite(c, v) then Ok(WithSlot(dict, J.Array(FromVector(c, v)))) else Err(NotFinite)
  }

  // ---- payloads ------------------------------------------------------------

  function EncodeVector(c: Codecs, dict: Fields): Result<seq<Byte>, CodecError> {
    var (metadata, vectors) := Extract(c, dict);
    if |vectors| > 65535 then Err(TooManyVectors)
    else Ok(WriteFramed(c.encodeMsgPack(metadata), vectors))
  }

  function AsObject(j: Option<J.Json>): Result<Fields, CodecError> {
    if j.None? then Err(Unreadable) else if j.value.Object? then Ok(j.value.fields) else Err(NotAnObject)
  }

  function DecodeVector(c: Codecs, payload: seq<Byte>): Result<Fields, CodecError> {
    match ReadPrefix(payload)
    case Err(error) => Err(BadVector(error))
    case Ok((count, bytes, rest)) =>
      match AsObject(c.decodeMsgPack(bytes))
      case Err(error) => Err(error)
      case Ok(metadata) =>
        match ReadSegments(rest, count)
        case Err(error) => Err(BadVector(error))
        case Ok(vectors) => Restore(c, metadata, vectors)
  }

  /** The dictionary keeps within the length fields of the binary payload. */
  predicate FitsVector(c: Codecs, dict: Fields) {
    var (metadata, vectors) := Extract(c, dict);
    Fits(c.encodeMsgPack(metadata), vectors)
  }

  predicate ExactFloats(c: Codecs, items: seq<J.Json>) {
    forall i :: 0 <= i < |items| ==>
      items[i].Number? && c.fromFloat32(c.toFloat32(items[i].text)) == Some(items[i].text)
  }

  /** No vector at all, or an array of numbers that float32 holds exactly. */
  predicate SurvivesBinary(c: Codecs, dict: Fields) {
    match VectorSlot(dict)
    case None => true
    case Some(j) => j.Array? && ExactFloats(c, j.items)
  }

  /** The outer codec of a tier reads back what it writes for this dictionary, or for what is left of it. */
  predicate ReadsBack(c: Codecs, tier: EncodingTier, dict: Fields) {
    match tier
    case Json => c.decodeJson(c.encodeJson(dict)) == Some(J.Object(dict))
    case MsgPack => c.decodeMsgPack(c.encodeMsgPack(dict)) == Some(J.Object(dict))
    case BinaryVector => c.decodeMsgPack(c.encodeMsgPack(Extract(c, dict).0)) == Some(J.Object(Extract(c, dict).0))
    case Reserved => false
  }

  /** Decoding an encoded dictionary is restoring what was extracted. */
  lemma DecodeIsRestore(c: Codecs, dict: Fields)
    requires ReadsBack(c, EncodingTier.BinaryVector, dict) && FitsVector(c, dict)
    ensures var (metadata, vectors) := Extract(c, dict);
            EncodeVector(c, dict).Ok? && DecodeVector(c, EncodeVector(c, dict).value) == Restore(c, metadata, vectors)
  {
    var (metadata, vectors) := Extract(c, dict);
    PrefixReadBack(|vectors|, c.encodeMsgPack(metadata), Segments(vectors));
    SegmentsReadBack(vectors);
  }

  lemma MarkerIsUnderstood(dim: nat, v: Vector)
    requires dim == |v| && dim <= J.U64_MAX
    ensures Marked(MarkerFor(0, dim), [v]) == Ok(v)
  {
  }

  /**
   The binary tier gives a dictionary back unchanged exactly when it has no search vector or an
   array of exact float32 numbers. Any other value at that place is lost or refused.
   */
  lemma BinaryRoundTripsWhen(c: Codecs, dict: Fields)
    requires ReadsBack(c, EncodingTier.BinaryVector, dict) && FitsVector(c, dict)
    ensures EncodeVector(c, dict).Ok?
    ensures DecodeVector(c, EncodeVector(c, dict).value) == Ok(dict) <==> SurvivesBinary(c, dict)
  {
    DecodeIsRestore(c, dict);
    var (metadata, vectors) := Extract(c, dict);
    var slot := VectorSlot(dict);
    if slot.Some? && slot.value.Array? && AllNumbers(slot.value.items) {
      NumbersRoundTripWhen(c, dict, slot.value.items);
    }
  }

  lemma NumbersRoundTripWhen(c: Codecs, dict: Fields, items: seq<J.Json>)
    requires VectorSlot(dict) == Some(J.Array(items)) && AllNumbers(items) && |items| < TWO_32
    ensures var v := ToVector(c, items);
            Restore(c, WithSlot(dict, MarkerFor(0, |v|)), [v]) == Ok(dict) <==> ExactFloats(c, items)
  {
    var v := ToVector(c, items);
    var metadata := WithSlot(dict, MarkerFor(0, |v|));
    MarkerIsUnderstood(|v|, v);
    assert VectorSlot(metadata) == Some(MarkerFor(0, |v|));
    if AllFinite(c, v) {
      var back := WithSlot(metadata, J.Array(FromVector(c, v)));
      assert dict[SEARCH].fields[VECTOR] == J.Array(items);
      assert metadata[SEARCH].fields[VECTOR := J.Array(FromVector(c, v))]
          == dict[SEARCH].fields[VECTOR := J.Array(FromVector(c, v))];
      if ExactFloats(c, items) {
        assert FromVector(c, v) == items;
        assert dict[SEARCH].fields[VECTOR := J.Array(items)] == dict[SEARCH].fields;
        assert dict[SEARCH := dict[SEARCH]] == dict;
        assert back == dict;
      }
      if back == dict {
        assert VectorSlot(back) == Some(J.Array(FromVector(c, v)));
        assert FromVector(c, v) == items;
        forall i | 0 <= i < |items| ensures c.fromFloat32(c.toFloat32(items[i].text)) == Some(items[i].text) {
          assert FromVector(c, v)[i] == J.Number(c.fromFloat32(v[i]).value);
        }
      }
    } else {
      var i :| 0 <= i < |v| && c.fromFloat32(v[i]).None?;
      assert c.fromFloat32(c.toFloat32(items[i].text)).None?;
    }
  }

  function EncodePayload(c: Codecs, tier: EncodingTier, dict: Fields): Result<seq<Byte>, CodecError> {
    match tier
    case Json => Ok(c.encodeJson(dict))
    case MsgPack => Ok(c.encodeMsgPack(dict))
    case BinaryVector => EncodeVector(c, dict)
    case Reserved => Err(ReservedTier)
  }

  function DecodePayload(c: Codecs, tier: EncodingTier, payload: seq<Byte>): Result<Fields, CodecError> {
    match tier
    case Json => AsObject(c.decodeJson(payload))
    case MsgPack => AsObject(c.decodeMsgPack(payload))
    case BinaryVector => DecodeVector(c, payload)
    case Reserved => Err(ReservedTier)
  }

  // ---- frames --------------------------------------------------------------

  /** A codec with its registered frame types and its payload limit. */
  datatype Settings = Settings(codecs: Codecs, registered: set<FrameType>, maxPayload: nat)

  function Encode(s: Settings, frameType: FrameType, dict: Fields, tier: EncodingTier, isFinal: bool)
    : Result<seq<Byte>, CodecError>
  {
    match EncodePayload(s.codecs, tier, dict)
    case Err(error) => Err(error)
    case Ok(payload) =>
      if |payload| > s.maxPayload then Err(PayloadTooLarge)
      else Ok(ToBytes(NewHeader(frameType, tier, isFinal, |payload|)) + payload)
  }

  function Decode(s: Settings, wire: seq<Byte>): Result<(FrameType, Fields), CodecError> {
    match Parse(wire)
    case Err(error) => Err(BadHeader(error))
    case Ok(header) =>
      if |wire| < header.Size() + header.payloadLength then Err(WireTooShort)
      else
        var payload := wire[header.Size()..header.Size() + header.payloadLength];
        match DecodePayload(s.codecs, header.Tier(), payload)
        case Err(error) => Err(error)
        case Ok(dict) =>
          if header.frameType in s.registered then Ok((header.frameType, dict)) else Err(Unregistered)
  }

  /** The dictionary is given back unchanged by its tier. */
  predicate Survives(c: Codecs, tier: EncodingTier, dict: Fields) {
    && ReadsBack(c, tier, dict)
    && (tier.BinaryVector? ==> FitsVector(c, dict) && SurvivesBinary(c, dict))
  }

  /** The header in front of an encoded payload, whatever follows the frame. */
  lemma EncodedFrameParses(
    s: Settings, frameType: FrameType, dict: Fields, tier: EncodingTier, isFinal: bool, rest: seq<Byte>)
    requires Encode(s, frameType, dict, tier, isFinal).Ok?
    requires |EncodePayload(s.codecs, tier, dict).value| < TWO_32
    ensures var wire := Encode(s, frameType, dict, tier, isFinal).value;
            var payload := EncodePayload(s.codecs, tier, dict).value;
            && Parse(wire + rest) == Ok(NewHeader(frameType, tier, isFinal, |payload|))
            && |wire| == NewHeader(frameType, tier, isFinal, |payload|).Size() + |payload|
  {
    var payload := EncodePayload(s.codecs, tier, dict).value;
    var h := NewHeader(frameType, tier, isFinal, |payload|);
    HeaderReadsBackWhen(frameType, tier, isFinal, |payload|, payload + rest);
    assert (ToBytes(h) + payload) + rest == ToBytes(h) + (payload + rest);
  }

  lemma OneVectorAtMost(c: Codecs, dict: Fields)
    ensures EncodeVector(c, dict) == Ok(WriteFramed(c.encodeMsgPack(Extract(c, dict).0), Extract(c, dict).1))
  {
    assert |Extract(c, dict).1| <= 1;
  }

  /** A dictionary becomes a frame exactly when its payload keeps within the limit; the reserved tier never does. */
  lemma EncodesWhen(s: Settings, frameType: FrameType, dict: Fields, tier: EncodingTier, isFinal: bool)
    ensures var r, c := Encode(s, frameType, dict, tier, isFinal), s.codecs;
            && (tier == Reserved ==> r == Err(ReservedTier))
            && (tier == Json ==>
                  if |c.encodeJson(dict)| <= s.maxPayload then r.Ok? else r == Err(PayloadTooLarge))
            && (tier == MsgPack ==>
                  if |c.encodeMsgPack(dict)| <= s.maxPayload then r.Ok? else r == Err(PayloadTooLarge))
            && (tier == BinaryVector ==>
                  if |WriteFramed(c.encodeMsgPack(Extract(c, dict).0), Extract(c, dict).1)| <= s.maxPayload
                  then r.Ok? else r == Err(PayloadTooLarge))
  {
    OneVectorAtMost(s.codecs, dict);
  }

  /** A frame cut off anywhere is refused. */
  lemma CutFrameIsRefused(
    s: Settings, frameType: FrameType, dict: Fields, tier: EncodingTier, isFinal: bool, cut: nat)
    requires Encode(s, frameType, dict, tier, isFinal).Ok?
    requires |EncodePayload(s.codecs, tier, dict).value| < TWO_32
    requires cut < |Encode(s, frameType, dict, tier, isFinal).value|
    ensures Decode(s, Encode(s, frameType, dict, tier, isFinal).value[..cut])
         == Err(if cut < 4 then BadHeader(HeaderTooShort)
                else if |EncodePayload(s.codecs, tier, dict).value| > 0xFFFF && cut < 8 then BadHeader(ExtendedHeaderTooShort)
                else WireTooShort)
  {
    var payload := EncodePayload(s.codecs, tier, dict).value;
    var h := NewHeader(frameType, tier, isFinal, |payload|);
    var head := ToBytes(h);
    var wire := head + payload;
    if cut >= h.Size() {
      HeaderReadsBackWhen(frameType, tier, isFinal, |payload|, payload[..cut - h.Size()]);
      assert wire[..cut] == head + payload[..cut - h.Size()];
    } else if cut >= 4 {
      TypeReadsBack(frameType);
      HeaderIsLaidOut(frameType, tier, isFinal, |payload|);
      assert wire[..cut][0] == head[0] && wire[..cut][1] == head[1];
    }
  }

  /**
   A frame of a registered type is decoded to what was encoded, with anything after it ignored, for
   payloads below 2^32 bytes; one of another type is refused.
   */
  lemma FrameRoundTrips(
    s: Settings, frameType: FrameType, dict: Fields, tier: EncodingTier, isFinal: bool, rest: seq<Byte>)
    requires Survives(s.codecs, tier, dict)
    requires Encode(s, frameType, dict, tier, isFinal).Ok?
    requires |EncodePayload(s.codecs, tier, dict).value| < TWO_32
    ensures Decode(s, Encode(s, frameType, dict, tier, isFinal).value + rest)
         == if frameType in s.registered then Ok((frameType, dict)) else Err(Unregistered)
  {
    var payload := EncodePayload(s.codecs, tier, dict).value;
    var h := NewHeader(frameType, tier, isFinal, |payload|);
    var wire := Encode(s, frameType, dict, tier, isFinal).value + rest;
    EncodedFrameParses(s, frameType, dict, tier, isFinal, rest);
    NewHeaderKeeps(frameType, tier, isFinal, |payload|);
    assert wire[h.Size()..h.Size() + |payload|] == payload;
    if tier.BinaryVector? {
      BinaryRoundTripsWhen(s.codecs, dict);
    }
  }
}
