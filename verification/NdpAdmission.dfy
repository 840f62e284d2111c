/**
 When an announce is taken and when it is refused, read off the frame, the signature check, the time
 of arrival and the two maps; and what stands behind every entry of a registry that started empty.
 */
module NdpAdmission {
  import opened Wrappers
  import opened Text
  import opened Json
  import opened NdpAnnounce
  import opened NdpRegistryModel
  import opened NdpConvergence

  // ---- what a frame says ---------------------------------------------------

  ghost predicate SaysText(fields: Fields, key: string, text: string) {
    key in fields && fields[key] == Str(text)
  }

  /** An unsigned 64-bit integer, printed without a point or an exponent. */
  ghost predicate SaysNumber(fields: Fields, key: string, n: nat) {
    && key in fields && fields[key].Number? && AllDigits(fields[key].text)
    && DigitsValue(fields[key].text) == n <= 0xFFFF_FFFF_FFFF_FFFF
  }

  ghost predicate SaysTime(env: Env, fields: Fields, key: string, t: int) {
    key in fields && fields[key].Str? && env.parseTime(fields[key].s) == Some(t)
  }

  /** The sequence number, which a local development registry may leave out. */
  ghost predicate SaysSequence(env: Env, fields: Fields, n: nat) {
    if "graph_seq" in fields then SaysNumber(fields, "graph_seq", n) else env.profile == "local-dev" && n == 0
  }

  ghost predicate IsTextList(fields: Fields, key: string)
    requires key in fields
  {
    && fields[key].Array?
    && forall i :: 0 <= i < |fields[key].items| ==> fields[key].items[i].Str? && !IsBlank(fields[key].items[i].s)
  }

  ghost predicate NamesProtocols(fields: Fields, key: string) {
    key in fields && fields[key].Array? && fields[key].items != []
  }

  /** A bridge names protocols in one direction at least, anything else in neither. */
  ghost predicate BridgesProperly(fields: Fields) {
    && ("bridge_protocols" in fields ==> IsTextList(fields, "bridge_protocols"))
    && ("bridge_inbound_protocols" in fields ==> IsTextList(fields, "bridge_inbound_protocols"))
    && if || SaysText(fields, "node_type", "bridge")
          || ("node_roles" in fields && fields["node_roles"].Array? && Str("bridge") in fields["node_roles"].items)
       then NamesProtocols(fields, "bridge_protocols") || NamesProtocols(fields, "bridge_inbound_protocols")
       else "bridge_protocols" !in fields && "bridge_inbound_protocols" !in fields
  }

  /** What admission reads in a frame. */
  datatype Contents = Contents(nid: string, timestamp: int, sequence: nat, ttl: nat)

  ghost predicate Reads(env: Env, frame: Json, c: Contents) {
    && frame.Object?
    && SaysText(frame.fields, "nid", c.nid)
    && SaysTime(env, frame.fields, "timestamp", c.timestamp)
    && SaysSequence(env, frame.fields, c.sequence)
    && SaysNumber(frame.fields, "ttl", c.ttl) && c.ttl <= 0xFFFF_FFFF
    && BridgesProperly(frame.fields)
  }

  /** Outside local development an announce may be five minutes off, no more. */
  ghost predicate OnTime(env: Env, receivedAt: int, c: Contents) {
    env.profile == "local-dev" || c.timestamp - 300 <= receivedAt <= c.timestamp + 300
  }

  /** The time after which the node no longer counts as alive, if it fits a signed 64-bit number. */
  ghost predicate Expires(env: Env, fields: Fields, c: Contents, deadline: int) {
    && deadline <= 0x7FFF_FFFF_FFFF_FFFF
    && if exists t :: SaysTime(env, fields, "last_seen", t) then SaysTime(env, fields, "last_seen", deadline - c.ttl)
       else deadline == c.timestamp + c.ttl
  }

  ghost predicate AliveOnArrival(env: Env, a: Announce, c: Contents)
    requires a.frame.Object?
  {
    exists d :: Expires(env, a.frame.fields, c, d) && d > a.receivedAt
  }

  ghost predicate SameMemberOf(a: Fields, b: Fields, key: string) {
    (key in a <==> key in b) && (key in a ==> a[key] == b[key])
  }

  // ---- the checks, read off the frame --------------------------------------

  lemma ContentsAre(env: Env, frame: Json, c: Contents)
    requires Reads(env, frame, c)
    ensures WellFormed(env, frame)
    ensures Nid(env, frame) == c.nid && Seq(env, frame) == c.sequence && Ttl(env, frame) == c.ttl
    ensures TimeField(env, frame.fields, "timestamp") == Some(c.timestamp) && BridgeShapeIsValid(frame.fields)
  {
  }

  lemma UnreadIsRefused(env: Env, a: Announce)
    requires a.signatureValid && forall c :: !Reads(env, a.frame, c)
    ensures StaticCheck(env, a) == Some(ProfileViolation)
  {
    if a.frame.Object? {
      var fields := a.frame.fields;
      var nid, time := StringField(fields, "nid"), TimeField(env, fields, "timestamp");
      if nid.Some? && time.Some? && SequenceOf(env, fields).Some? && TtlOf(fields).Some? && BridgeShapeIsValid(fields) {
        assert Reads(env, a.frame, Contents(nid.value, time.value, SequenceOf(env, fields).value, TtlOf(fields).value));
      }
    }
  }

  lemma ReadIsChecked(env: Env, a: Announce, c: Contents)
    requires a.signatureValid && Reads(env, a.frame, c)
    ensures StaticCheck(env, a) == if OnTime(env, a.receivedAt, c) then None else Some(SignatureInvalid)
  {
    ContentsAre(env, a.frame, c);
  }

  lemma DeadlineIs(env: Env, frame: Json, c: Contents, d: int)
    requires Reads(env, frame, c)
    ensures Expires(env, frame.fields, c, d) <==> Deadline(env, frame.fields) == Some(d)
  {
    ContentsAre(env, frame, c);
    var seen := TimeField(env, frame.fields, "last_seen");
    if seen.Some? {
      assert SaysTime(env, frame.fields, "last_seen", seen.value);
    }
  }

  lemma ExpiredIs(env: Env, a: Announce, c: Contents)
    requires Reads(env, a.frame, c)
    ensures Expired(env, a) <==> !AliveOnArrival(env, a, c)
  {
    var deadline := Deadline(env, a.frame.fields);
    if deadline.Some? {
      DeadlineIs(env, a.frame, c, deadline.value);
    }
    forall d | Expires(env, a.frame.fields, c, d) ensures deadline == Some(d) {
      DeadlineIs(env, a.frame, c, d);
    }
  }

  // ---- every decision ------------------------------------------------------

  /** An announce whose signature does not verify is refused for it, whatever it says, and changes nothing. */
  lemma BadSignatureIsRefused(env: Env, s: State, a: Announce)
    requires !a.signatureValid
    ensures Apply(env, s, a) == (s, Rejected(SignatureInvalid))
  {
  }

  /** So is one that is not a frame as the profile wants it. */
  lemma UnreadableIsRefused(env: Env, s: State, a: Announce)
    requires a.signatureValid && forall c :: !Reads(env, a.frame, c)
    ensures Apply(env, s, a) == (s, Rejected(ProfileViolation))
  {
    UnreadIsRefused(env, a);
  }

  /** What happens to a readable frame with a valid signature. */
  lemma ReadableIsDecided(env: Env, s: State, a: Announce, c: Contents)
    requires a.signatureValid && Reads(env, a.frame, c)
    ensures WellFormed(env, a.frame)
    ensures var (t, decision) := Apply(env, s, a);
            if !OnTime(env, a.receivedAt, c) then (t, decision) == (s, Rejected(SignatureInvalid))
            else if c.nid in s.sequences && c.sequence < s.sequences[c.nid] then (t, decision) == (s, Rejected(SequenceRollback))
            else if c.nid in s.sequences && c.sequence == s.sequences[c.nid] then
              if c.nid !in s.entries then (t, decision) == (s, Duplicate)
              else if s.entries[c.nid].digest != Digest(env, a.frame) then (t, decision) == (s, Rejected(Conflict))
              else if && s.entries[c.nid].frame.Object?
                      && SameMemberOf(s.entries[c.nid].frame.fields, a.frame.fields, "health")
                      && SameMemberOf(s.entries[c.nid].frame.fields, a.frame.fields, "last_seen")
              then (t, decision) == (s, Duplicate)
              else if !AliveOnArrival(env, a, c) then (t, decision) == (s, Rejected(Stale))
              else decision == Refreshed && Stores(env, s, t, a, c)
            else if c.ttl == 0 then
              (t, decision) == (State(s.entries - {c.nid}, s.sequences[c.nid := c.sequence]), Removed)
            else if !AliveOnArrival(env, a, c) then (t, decision) == (s, Rejected(Stale))
            else decision == Accepted && Stores(env, s, t, a, c)
  {
    ContentsAre(env, a.frame, c);
    ReadIsChecked(env, a, c);
    ExpiredIs(env, a, c);
    if AliveOnArrival(env, a, c) {
      var d :| Expires(env, a.frame.fields, c, d) && d > a.receivedAt;
      DeadlineIs(env, a.frame, c, d);
    }
  }

  /** The frame becomes the node's entry, with its deadline, and its sequence the highest seen. */
  ghost predicate Stores(env: Env, s: State, t: State, a: Announce, c: Contents)
    requires WellFormed(env, a.frame)
  {
    && t.sequences == s.sequences[c.nid := c.sequence]
    && t.entries.Keys == s.entries.Keys + {c.nid}
    && (forall nid :: nid in s.entries && nid != c.nid ==> t.entries[nid] == s.entries[nid])
    && t.entries[c.nid].frame == a.frame && t.entries[c.nid].digest == Digest(env, a.frame)
    && Expires(env, a.frame.fields, c, t.entries[c.nid].expiresAt)
    && a.receivedAt < t.entries[c.nid].expiresAt
  }

  // ---- what stands behind an entry -----------------------------------------

  /** This announce, with a valid signature, on time and before its deadline, is where the entry comes from. */
  ghost predicate Vouches(env: Env, a: Announce, nid: string, e: Entry, sequence: nat) {
    && a.signatureValid && a.frame == e.frame
    && exists c :: Reads(env, a.frame, c) && VouchesFor(env, a, c, nid, e, sequence)
  }

  ghost predicate VouchesFor(env: Env, a: Announce, c: Contents, nid: string, e: Entry, sequence: nat)
    requires a.frame.Object?
  {
    && c.nid == nid && c.sequence == sequence && OnTime(env, a.receivedAt, c)
    && Expires(env, a.frame.fields, c, e.expiresAt) && a.receivedAt < e.expiresAt
  }

  ghost predicate EntryIsVouched(env: Env, s: State, announces: seq<Announce>, nid: string) {
    && nid in s.entries && nid in s.sequences
    && exists i :: 0 <= i < |announces| && Vouches(env, announces[i], nid, s.entries[nid], s.sequences[nid])
  }

  lemma StillVouched(env: Env, s: State, t: State, announces: seq<Announce>, a: Announce, nid: string)
    requires EntryIsVouched(env, s, announces, nid)
    requires nid in t.entries && t.entries[nid] == s.entries[nid]
    requires nid in t.sequences && t.sequences[nid] == s.sequences[nid]
    ensures EntryIsVouched(env, t, announces + [a], nid)
  {
    var i :| 0 <= i < |announces| && Vouches(env, announces[i], nid, s.entries[nid], s.sequences[nid]);
    assert (announces + [a])[i] == announces[i];
  }

  /** An entry after an announce is the one before, or comes from it. */
  lemma StepVouches(env: Env, s: State, a: Announce, nid: string)
    requires nid in Apply(env, s, a).0.entries
    ensures var t := Apply(env, s, a).0;
            || (nid in s.entries && t.entries[nid] == s.entries[nid]
                && (nid in s.sequences ==> nid in t.sequences && t.sequences[nid] == s.sequences[nid]))
            || (nid in t.sequences && Vouches(env, a, nid, t.entries[nid], t.sequences[nid]))
  {
    if !a.signatureValid {
      BadSignatureIsRefused(env, s, a);
    } else if c :| Reads(env, a.frame, c) {
      ReadableIsDecided(env, s, a, c);
      var t := Apply(env, s, a).0;
      if Stores(env, s, t, a, c) && nid == c.nid && OnTime(env, a.receivedAt, c) {
        assert VouchesFor(env, a, c, nid, t.entries[nid], t.sequences[nid]);
      }
    } else {
      UnreadableIsRefused(env, s, a);
    }
  }

  /**
   Over every run of a registry that started empty: each entry is the frame of an announce whose
   signature verified, that named the node under the sequence now recorded, and that arrived before
   its deadline and, outside local development, within five minutes of its timestamp.
   */
  lemma {:induction false} EveryEntryIsVouched(env: Env, announces: seq<Announce>, nid: string)
    requires nid in Run(env, EMPTY, announces).entries
    ensures EntryIsVouched(env, Run(env, EMPTY, announces), announces, nid)
    decreases |announces|
  {
    if announces != [] {
      var n := |announces| - 1;
      var a, s := announces[n], Run(env, EMPTY, announces[..n]);
      var t := Run(env, EMPTY, announces);
      assert announces == announces[..n] + [a];
      StepVouches(env, s, a, nid);
      if nid in t.sequences && Vouches(env, a, nid, t.entries[nid], t.sequences[nid]) {
        assert announces[n] == a;
      } else {
        EveryEntryIsVouched(env, announces[..n], nid);
        StillVouched(env, s, t, announces[..n], a, nid);
      }
    }
  }
}
