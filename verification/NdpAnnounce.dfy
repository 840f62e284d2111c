/** Announce frames: field readers, the signed body, and when two frames share one. */
module NdpAnnounce {
  import opened Wrappers
  import opened Text
  import opened Json

  type Fields = map<string, Json>

  // ---- field readers -------------------------------------------------------

  function StringField(fields: Fields, key: string): Option<string> {
    if key in fields && fields[key].Str? then Some(fields[key].s) else None
  }

  const U32_MAX := 0xFFFF_FFFF
  const I64_MAX := 0x7FFF_FFFF_FFFF_FFFF

  function NumberField(fields: Fields, key: string): Option<nat> {
    if key in fields then AsU64(fields[key]) else None
  }

  /** The array holds this string. */
  predicate Lists(fields: Fields, key: string, s: string) {
    key in fields && fields[key].Array? && Json.Str(s) in fields[key].items
  }

  predicate IsBridge(fields: Fields) {
    Lists(fields, "node_roles", "bridge") || StringField(fields, "node_type") == Some("bridge")
  }

  /** An absent list, or an array of strings that are not blank. */
  predicate IsProtocolList(fields: Fields, key: string) {
    key in fields ==>
      && fields[key].Array?
      && forall i :: 0 <= i < |fields[key].items| ==>
           fields[key].items[i].Str? && !IsBlank(fields[key].items[i].s)
  }

  predicate HasProtocols(fields: Fields, key: string)
    requires IsProtocolList(fields, key)
  {
    key in fields && fields[key].items != []
  }

  predicate BridgeShapeIsValid(fields: Fields) {
    && IsProtocolList(fields, "bridge_protocols")
    && IsProtocolList(fields, "bridge_inbound_protocols")
    && if IsBridge(fields)
       then HasProtocols(fields, "bridge_protocols") || HasProtocols(fields, "bridge_inbound_protocols")
       else "bridge_protocols" !in fields && "bridge_inbound_protocols" !in fields
  }

  // ---- the signed body -----------------------------------------------------

  const UNSIGNED := {"frame", "signature", "health", "last_seen"}
  const HEARTBEAT := "heartbeat_interval_ms"
  const DEFAULT_HEARTBEAT := Json.Number("60000")

  function SignedFields(fields: Fields): Fields {
    var root := map k | k in fields && k !in UNSIGNED && !fields[k].Null? :: fields[k];
    if HEARTBEAT in root then root else root[HEARTBEAT := DEFAULT_HEARTBEAT]
  }

  function CanonicalAnnounceJson(frame: Json): Result<string, string> {
    if frame.Object? then Ok(Canonical(Object(SignedFields(frame.fields))))
    else Err("AnnounceFrame must be an object")
  }

  /** What the signature covers at one key: nulls count as absent, the heartbeat has a default. */
  function SignedMember(fields: Fields, key: string): Option<Json> {
    if key in UNSIGNED then None
    else if key in fields && !fields[key].Null? then Some(Strip(fields[key]))
    else if key == HEARTBEAT then Some(DEFAULT_HEARTBEAT)
    else None
  }

  lemma SignedMemberIsMember(fields: Fields, key: string)
    ensures var signed := Strip(Object(SignedFields(fields))).fields;
            SignedMember(fields, key) == (if key in signed then Some(signed[key]) else None)
  {
  }

  /** Two announces share a signed body exactly when the signature covers the same at every key. */
  lemma SameSignedBodyWhen(a: Fields, b: Fields)
    ensures CanonicalAnnounceJson(Object(a)) == CanonicalAnnounceJson(Object(b))
            <==> forall key :: SignedMember(a, key) == SignedMember(b, key)
  {
    var x, y := Object(SignedFields(a)), Object(SignedFields(b));
    PrintedAlikeWhen(x, y);
    forall key
      ensures SignedMember(a, key) == (if key in Strip(x).fields then Some(Strip(x).fields[key]) else None)
      ensures SignedMember(b, key) == (if key in Strip(y).fields then Some(Strip(y).fields[key]) else None)
    {
      SignedMemberIsMember(a, key);
      SignedMemberIsMember(b, key);
    }
    if forall key :: SignedMember(a, key) == SignedMember(b, key) {
      forall key ensures key in Strip(x).fields <==> key in Strip(y).fields {
        assert SignedMember(a, key) == SignedMember(b, key);
      }
      forall key | key in Strip(x).fields ensures Strip(x).fields[key] == Strip(y).fields[key] {
        assert SignedMember(a, key) == SignedMember(b, key);
      }
      assert Strip(x).fields == Strip(y).fields;
    }
  }

  /** So the fields that admission reads are the same in frames that share a signed body. */
  lemma SharedBodyShares(a: Fields, b: Fields, key: string)
    requires CanonicalAnnounceJson(Object(a)) == CanonicalAnnounceJson(Object(b))
    requires key !in UNSIGNED && key != HEARTBEAT
    ensures NumberField(a, key) == NumberField(b, key) && StringField(a, key) == StringField(b, key)
  {
    SameSignedBodyWhen(a, b);
    assert SignedMember(a, key) == SignedMember(b, key);
  }
}
