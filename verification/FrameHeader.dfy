/** Frame types and the 4- or 8-byte frame header. */
module FrameHeader {
  import opened Wrappers
  import opened Bytes

  datatype FrameType =
    | Anchor | Diff | Stream | Caps | Hello | Nop | Query | Action | Ident | Trust | Revoke
    | Announce | Resolve | Graph | Task | Delegate | Sync | AlignStream | Error

  datatype EncodingTier = Json | MsgPack | BinaryVector | Reserved

  datatype HeaderError = HeaderTooShort | UnknownFrameType | ExtendedHeaderTooShort

  function AsU8(t: FrameType): Byte {
    match t
    case Anchor => 0x01
    case Diff => 0x02
    case Stream => 0x03
    case Caps => 0x04
    case Hello => 0x06
    case Nop => 0x07
    case Query => 0x10
    case Action => 0x11
    case Ident => 0x20
    case Trust => 0x21
    case Revoke => 0x22
    case Announce => 0x30
    case Resolve => 0x31
    case Graph => 0x32
    case Task => 0x40
    case Delegate => 0x41
    case Sync => 0x42
    case AlignStream => 0x43
    case Error => 0xFE
  }

  function FromU8(b: Byte): Result<FrameType, HeaderError> {
    match b
    case 0x01 => Ok(Anchor)
    case 0x02 => Ok(Diff)
    case 0x03 => Ok(Stream)
    case 0x04 => Ok(Caps)
    case 0x06 => Ok(Hello)
    case 0x07 => Ok(Nop)
    case 0x10 => Ok(Query)
    case 0x11 => Ok(Action)
    case 0x20 => Ok(Ident)
    case 0x21 => Ok(Trust)
    case 0x22 => Ok(Revoke)
    case 0x30 => Ok(Announce)
    case 0x31 => Ok(Resolve)
    case 0x32 => Ok(Graph)
    case 0x40 => Ok(Task)
    case 0x41 => Ok(Delegate)
    case 0x42 => Ok(Sync)
    case 0x43 => Ok(AlignStream)
    case 0xFE => Ok(Error)
    case _ => Err(UnknownFrameType)
  }

  function TierBits(t: EncodingTier): Byte {
    match t
    case Json => 0
    case MsgPack => 1
    case BinaryVector => 2
    case Reserved => 3
  }

  /** The flags byte: tier in bits 0 and 1, final in bit 2, extended in bit 7. */
  datatype Header = Header(frameType: FrameType, flags: Byte, payloadLength: nat, isExtended: bool) {
    /** `flags & 0x03` */
    function Tier(): EncodingTier {
      match flags % 4
      case 0 => Json
      case 1 => MsgPack
      case 2 => BinaryVector
      case _ => Reserved
    }

    /** `flags & 0x04 != 0` */
    predicate IsFinal() {
      flags / 4 % 2 == 1
    }

    function Size(): nat {
      if isExtended then 8 else 4
    }
  }

  function NewHeader(frameType: FrameType, tier: EncodingTier, isFinal: bool, payloadLength: nat): Header {
    var isExtended := payloadLength > 0xFFFF;
    var flags := TierBits(tier) + (if isFinal then 4 else 0) + if isExtended then 0x80 else 0;
    Header(frameType, flags, payloadLength, isExtended)
  }

  /** The length is cut to the width of its field. */
  function ToBytes(h: Header): (s: seq<Byte>)
    ensures |s| == h.Size()
  {
    if h.isExtended then [AsU8(h.frameType), h.flags, 0, 0] + Be32(h.payloadLength)
    else [AsU8(h.frameType), h.flags] + Be16(h.payloadLength)
  }

  function Parse(wire: seq<Byte>): (r: Result<Header, HeaderError>)
    ensures r.Ok? ==> r.value.Size() <= |wire| && r.value.payloadLength < TWO_32
  {
    if |wire| < 4 then Err(HeaderTooShort)
    else
      match FromU8(wire[0])
      case Err(error) => Err(error)
      case Ok(frameType) =>
        var flags := wire[1];
        if flags / 128 % 2 == 1 then
          if |wire| < 8 then Err(ExtendedHeaderTooShort)
          else Ok(Header(frameType, flags, FromBe32(wire[4..8]), true))
        else Ok(Header(frameType, flags, FromBe16(wire[2..4]), false))
  }

  lemma TypeReadsBack(t: FrameType)
    ensures FromU8(AsU8(t)) == Ok(t)
  {
  }

  /** A new header keeps its tier and its final flag in one byte. */
  lemma NewHeaderKeeps(frameType: FrameType, tier: EncodingTier, isFinal: bool, payloadLength: nat)
    ensures var h := NewHeader(frameType, tier, isFinal, payloadLength);
            h.Tier() == tier && h.IsFinal() == isFinal
  {
    var h := NewHeader(frameType, tier, isFinal, payloadLength);
    var low := TierBits(tier) as int + if isFinal then 4 else 0;
    assert h.flags % 4 == TierBits(tier) && h.flags / 4 == low / 4 + if payloadLength > 0xFFFF then 32 else 0;
  }

  /**
   The bytes of a new header: the type, the flags with the tier in the low two bits, the final and the
   extended flag, and the length in two bytes, or after two zero bytes in four when it needs more.
   */
  lemma HeaderIsLaidOut(frameType: FrameType, tier: EncodingTier, isFinal: bool, payloadLength: nat)
    requires payloadLength < 0x1_0000_0000
    ensures var b := ToBytes(NewHeader(frameType, tier, isFinal, payloadLength));
            && |b| == (if payloadLength <= 0xFFFF then 4 else 8)
            && b[0] == AsU8(frameType)
            && b[1] == (if tier == Json then 0 else if tier == MsgPack then 1 else if tier == BinaryVector then 2 else 3)
                       + (if isFinal then 0x04 else 0) + (if payloadLength <= 0xFFFF then 0 else 0x80)
            && (payloadLength <= 0xFFFF ==> b[2] as int * 256 + b[3] as int == payloadLength)
            && (payloadLength > 0xFFFF ==>
                  && b[2] == 0 == b[3]
                  && b[4] as int * 16_777_216 + b[5] as int * 65_536 + b[6] as int * 256 + b[7] as int == payloadLength)
  {
    if payloadLength <= 0xFFFF {
      Be16Wraps(payloadLength);
    } else {
      Be32Wraps(payloadLength);
      var s := Be32(payloadLength);
      assert s[..2][0] == s[0] && s[..2][1] == s[1] && s[2..][0] == s[2] && s[2..][1] == s[3];
    }
  }

  /** A new header written out and read back is itself, exactly when its length fits 32 bits. */
  lemma HeaderReadsBackWhen(
    frameType: FrameType, tier: EncodingTier, isFinal: bool, payloadLength: nat, rest: seq<Byte>)
    ensures var h := NewHeader(frameType, tier, isFinal, payloadLength);
            Parse(ToBytes(h) + rest) == Ok(h) <==> payloadLength < TWO_32
  {
    var h := NewHeader(frameType, tier, isFinal, payloadLength);
    var wire := ToBytes(h) + rest;
    TypeReadsBack(frameType);
    assert wire[0] == AsU8(frameType) && wire[1] == h.flags;
    assert h.flags / 128 % 2 == 1 <==> h.isExtended;
    if h.isExtended {
      assert wire[4..8] == Be32(payloadLength);
      Be32Wraps(payloadLength);
    } else {
      assert wire[2..4] == Be16(payloadLength);
      Be16Wraps(payloadLength);
    }
  }

  /** A header read and written again is the same bytes, exactly when an extended one has zeros in bytes 2 and 3. */
  lemma ReadHeaderRewritesWhen(wire: seq<Byte>)
    requires Parse(wire).Ok?
    ensures var h := Parse(wire).value;
            ToBytes(h) == wire[..h.Size()] <==> (h.isExtended ==> wire[2] == 0 && wire[3] == 0)
  {
    var h := Parse(wire).value;
    assert AsU8(h.frameType) == wire[0];
    if h.isExtended {
      Be32Reads(wire[4..8]);
      assert wire[..8] == [wire[0], wire[1], wire[2], wire[3]] + wire[4..8];
      assert ToBytes(h)[2] == 0 && ToBytes(h)[3] == 0;
    } else {
      Be16Reads(wire[2..4]);
      assert wire[..4] == [wire[0], wire[1]] + wire[2..4];
    }
  }
}
