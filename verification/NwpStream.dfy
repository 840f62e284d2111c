/** The client's loop that splits a response body into stream frames. */
module NwpStream {
  import opened Wrappers
  import opened Text
  import opened Bytes
  import Collections
  import J = Json
  import opened FrameHeader
  import opened FrameCodec

  datatype StreamFrame = StreamFrame(anchorId: string, seqNo: nat, payload: J.Json, isLast: bool)

  function ToDict(f: StreamFrame): Fields {
    map[
      "anchor_id" := J.Str(f.anchorId),
      "seq" := J.Number(Decimal(f.seqNo)),
      "payload" := f.payload,
      "is_last" := J.Bool(f.isLast)]
  }

  function FromDict(d: Fields): Result<StreamFrame, CodecError> {
    if !("anchor_id" in d && d["anchor_id"].Str?) then Err(BadStreamFrame)
    else
      var seqNo := FieldU64(d, "seq");
      Ok(StreamFrame(
           d["anchor_id"].s,
           if seqNo.Some? then seqNo.value else 0,
           if "payload" in d then d["payload"] else J.Null,
           "is_last" in d && d["is_last"] == J.Bool(true)))
  }

  lemma DictReadsBack(f: StreamFrame)
    requires f.seqNo <= J.U64_MAX
    ensures FromDict(ToDict(f)) == Ok(f)
  {
  }

  /** One frame at the head of a body: the frame, and how many bytes it takes. */
  function FirstFrame(s: Settings, body: seq<Byte>): (r: Result<(StreamFrame, nat), CodecError>)
    ensures r.Ok? ==> 4 <= r.value.1 <= |body|
  {
    match Parse(body)
    case Err(error) => Err(BadHeader(error))
    case Ok(header) =>
      var total := header.Size() + header.payloadLength;
      if total > |body| then Err(SliceOutOfRange)
      else
        match Decode(s, body[..total])
        case Err(error) => Err(error)
        case Ok((frameType, dict)) =>
          if !frameType.Stream? then Err(NotAStreamFrame)
          else
            match FromDict(dict)
            case Err(error) => Err(error)
            case Ok(frame) => Ok((frame, total))
  }

  /** Reads the frame at the head of a body. */
  type FrameReader = seq<Byte> -> Result<(StreamFrame, nat), CodecError>

  /** A frame takes at least one byte, and no more than there are. */
  ghost predicate Advances(read: FrameReader) {
    forall body :: read(body).Ok? ==> 0 < read(body).value.1 <= |body|
  }

  /** Frames up to the first that says it is the last one, or to the end of the body. */
  function Split(read: FrameReader, body: seq<Byte>): Result<seq<StreamFrame>, CodecError>
    requires Advances(read)
    decreases |body|
  {
    if body == [] then Ok([])
    else
      match read(body)
      case Err(error) => Err(error)
      case Ok((frame, total)) =>
        if frame.isLast then Ok([frame])
        else
          match Split(read, body[total..])
          case Err(error) => Err(error)
          case Ok(more) => Ok([frame] + more)
  }

  function ReaderOf(s: Settings): (read: FrameReader)
    ensures Advances(read)
  {
    body => FirstFrame(s, body)
  }

  function Frames(s: Settings, body: seq<Byte>): Result<seq<StreamFrame>, CodecError> {
    Split(ReaderOf(s), body)
  }

  /** The loop, for any way of reading one frame. */
  method SplitLoop(read: FrameReader, body: seq<Byte>) returns (r: Result<seq<StreamFrame>, CodecError>)
    requires Advances(read)
    ensures r == Split(read, body)
  {
    var frames: seq<StreamFrame> := [];
    var offset := 0;
    ghost var whole := Split(read, body);
    assert body[0..] == body;
    AfterNone(whole);
    while offset < |body|
      invariant 0 <= offset <= |body|
      invariant whole == After(frames, Split(read, body[offset..]))
      decreases |body| - offset
    {
      var first := read(body[offset..]);
      if first.Err? {
        return Err(first.error);
      }
      var (frame, total) := first.value;
      AfterOne(read, frames, body, offset, frame, total);
      frames := frames + [frame];
      if frame.isLast {
        return Ok(frames);
      }
      offset := offset + total;
    }
    assert body[offset..] == [] && frames + [] == frames;
    r := Ok(frames);
  }

  /** A body that ends inside the payload of a frame makes the slice go past the end. */
  lemma CutPayloadGoesPastTheEnd(
    s: Settings, frameType: FrameType, dict: Fields, tier: EncodingTier, isFinal: bool, cut: nat)
    requires Encode(s, frameType, dict, tier, isFinal).Ok?
    requires |EncodePayload(s.codecs, tier, dict).value| < TWO_32
    requires (if |EncodePayload(s.codecs, tier, dict).value| > 0xFFFF then 8 else 4) <= cut
    requires cut < |Encode(s, frameType, dict, tier, isFinal).value|
    ensures FirstFrame(s, Encode(s, frameType, dict, tier, isFinal).value[..cut]) == Err(SliceOutOfRange)
  {
    var payload := EncodePayload(s.codecs, tier, dict).value;
    var h := NewHeader(frameType, tier, isFinal, |payload|);
    HeaderReadsBackWhen(frameType, tier, isFinal, |payload|, payload[..cut - h.Size()]);
    assert (ToBytes(h) + payload)[..cut] == ToBytes(h) + payload[..cut - h.Size()];
  }

  /** `SliceOutOfRange` stands for the panic of a slice past the end of the body. */
  method Stream(s: Settings, body: seq<Byte>) returns (r: Result<seq<StreamFrame>, CodecError>)
    ensures r == Frames(s, body)
  {
    r := SplitLoop(ReaderOf(s), body);
  }

  ghost function After(done: seq<StreamFrame>, rest: Result<seq<StreamFrame>, CodecError>): Result<seq<StreamFrame>, CodecError> {
    match rest
    case Err(error) => Err(error)
    case Ok(more) => Ok(done + more)
  }

  lemma AfterNone(rest: Result<seq<StreamFrame>, CodecError>)
    ensures After([], rest) == rest
  {
    assert rest.Ok? ==> [] + rest.value == rest.value;
  }

  lemma AfterOne(read: FrameReader, done: seq<StreamFrame>, body: seq<Byte>, offset: nat, frame: StreamFrame, total: nat)
    requires Advances(read)
    requires offset < |body| && offset + total <= |body| && read(body[offset..]) == Ok((frame, total))
    ensures After(done, Split(read, body[offset..])) ==
            if frame.isLast then Ok(done + [frame]) else After(done + [frame], Split(read, body[offset + total..]))
  {
    assert body[offset..][total..] == body[offset + total..];
    var rest := Split(read, body[offset + total..]);
    if rest.Ok? {
      assert (done + [frame]) + rest.value == done + ([frame] + rest.value);
    }
  }

  // ---- recovering what was sent --------------------------------------------

  datatype Sent = Sent(frame: StreamFrame, tier: EncodingTier, isFinal: bool)

  /** The sender's encoding succeeds, its outer codec reads it back, and the payload fits the length field. */
  ghost predicate Sendable(s: Settings, x: Sent) {
    && x.frame.seqNo <= J.U64_MAX
    && Encode(s, FrameType.Stream, ToDict(x.frame), x.tier, x.isFinal).Ok?
    && ReadsBack(s.codecs, x.tier, ToDict(x.frame))
    && |EncodePayload(s.codecs, x.tier, ToDict(x.frame)).value| < TWO_32
  }

  ghost predicate AllSendable(s: Settings, sent: seq<Sent>) {
    forall i :: 0 <= i < |sent| ==> Sendable(s, sent[i])
  }

  ghost function Wire(s: Settings, x: Sent): seq<Byte>
    requires Sendable(s, x)
  {
    Encode(s, FrameType.Stream, ToDict(x.frame), x.tier, x.isFinal).value
  }

  ghost function Wires(s: Settings, sent: seq<Sent>): seq<Byte>
    requires AllSendable(s, sent)
  {
    if sent == [] then [] else Wire(s, sent[0]) + Wires(s, sent[1..])
  }

  /** Everything before the first last frame, and that frame. */
  function UpToLast(sent: seq<Sent>): seq<StreamFrame> {
    if sent == [] then []
    else [sent[0].frame] + if sent[0].frame.isLast then [] else UpToLast(sent[1..])
  }

  ghost predicate HasLast(sent: seq<Sent>) {
    exists i :: 0 <= i < |sent| && sent[i].frame.isLast
  }

  /** It is a prefix of the frames sent, none of them last but its own end. */
  lemma {:induction false} UpToLastIsPrefix(sent: seq<Sent>)
    ensures var got := UpToLast(sent);
            && |got| <= |sent|
            && (forall i :: 0 <= i < |got| ==> got[i] == sent[i].frame)
            && (forall i :: 0 <= i < |got| - 1 ==> !got[i].isLast)
            && (if HasLast(sent) then got != [] && got[|got| - 1].isLast else |got| == |sent|)
  {
    if sent != [] {
      UpToLastIsPrefix(sent[1..]);
      assert sent == [sent[0]] + sent[1..];
      if !sent[0].frame.isLast {
        forall i | 0 <= i < |sent| && sent[i].frame.isLast ensures HasLast(sent[1..]) {
          assert sent[1..][i - 1] == sent[i];
        }
      }
    }
  }

  /** Stream dictionaries survive every tier: they hold no search vector. */
  lemma StreamFrameSurvives(s: Settings, x: Sent)
    requires Sendable(s, x)
    ensures Survives(s.codecs, x.tier, ToDict(x.frame))
  {
    var dict := ToDict(x.frame);
    assert SEARCH !in dict;
    if x.tier.BinaryVector? {
      assert Extract(s.codecs, dict) == (dict, []);
    }
  }

  lemma FirstIsRead(s: Settings, x: Sent, rest: seq<Byte>)
    requires FrameType.Stream in s.registered && Sendable(s, x)
    ensures FirstFrame(s, Wire(s, x) + rest) == Ok((x.frame, |Wire(s, x)|))
  {
    var dict, wire := ToDict(x.frame), Wire(s, x);
    StreamFrameSurvives(s, x);
    EncodedFrameParses(s, FrameType.Stream, dict, x.tier, x.isFinal, rest);
    assert (wire + rest)[..|wire|] == wire + [];
    FrameRoundTrips(s, FrameType.Stream, dict, x.tier, x.isFinal, []);
    DictReadsBack(x.frame);
  }

  /**
   The loop recovers a concatenation of encoded stream frames exactly up to the first last one,
   whatever bytes follow that frame.
   */
  lemma {:induction false} StreamRecovers(s: Settings, sent: seq<Sent>, trailing: seq<Byte>)
    requires FrameType.Stream in s.registered && AllSendable(s, sent)
    requires HasLast(sent) || trailing == []
    ensures Frames(s, Wires(s, sent) + trailing) == Ok(UpToLast(sent))
  {
    if sent == [] {
      assert Wires(s, sent) + trailing == [];
    } else {
      var x, more := sent[0], sent[1..];
      var rest := Wires(s, more) + trailing;
      Collections.Regroup(Wire(s, x), Wires(s, more), trailing);
      FirstIsRead(s, x, rest);
      FramesStep(s, Wire(s, x), rest, x.frame);
      if !x.frame.isLast {
        LastIsLater(sent);
        StreamRecovers(s, more, trailing);
      }
      OneMore(sent, Frames(s, Wire(s, x) + rest), Frames(s, rest));
    }
  }

  lemma OneMore(
    sent: seq<Sent>, whole: Result<seq<StreamFrame>, CodecError>, rest: Result<seq<StreamFrame>, CodecError>)
    requires sent != []
    requires whole == if sent[0].frame.isLast then Ok([sent[0].frame]) else After([sent[0].frame], rest)
    requires !sent[0].frame.isLast ==> rest == Ok(UpToLast(sent[1..]))
    ensures whole == Ok(UpToLast(sent))
  {
    assert [sent[0].frame] + [] == [sent[0].frame];
  }

  lemma FramesStep(s: Settings, wire: seq<Byte>, rest: seq<Byte>, frame: StreamFrame)
    requires FirstFrame(s, wire + rest) == Ok((frame, |wire|))
    ensures Frames(s, wire + rest) == if frame.isLast then Ok([frame]) else After([frame], Frames(s, rest))
  {
    assert wire + rest != [] && (wire + rest)[|wire|..] == rest;
    assert ReaderOf(s)(wire + rest) == Ok((frame, |wire|));
  }

  lemma LastIsLater(sent: seq<Sent>)
    requires sent != [] && !sent[0].frame.isLast
    ensures HasLast(sent) ==> HasLast(sent[1..])
  {
    if HasLast(sent) {
      var i :| 0 <= i < |sent| && sent[i].frame.isLast;
      assert sent[1..][i - 1] == sent[i];
    }
  }
}
