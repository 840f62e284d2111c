/** The registry itself, a pair of maps updated in place, proved to follow the model. */
module NdpRegistry {
  import opened Wrappers
  import opened Json
  import opened NdpAnnounce
  import opened NdpRegistryModel

  class NdpRegistryProfile {
    const env: Env
    var entries: map<string, Entry>
    var sequences: map<string, nat>

    ghost function Contents(): State
      reads this
    {
      State(entries, sequences)
    }

    constructor (env: Env)
      ensures this.env == env && Contents() == EMPTY
    {
      this.env := env;
      entries, sequences := map[], map[];
    }

    method ApplyAnnounce(frame: Json, signatureValid: bool, receivedAt: int) returns (decision: Decision)
      modifies this
      ensures (Contents(), decision) == Apply(env, old(Contents()), Announce(frame, signatureValid, receivedAt))
    {
      var a := Announce(frame, signatureValid, receivedAt);
      if !signatureValid {
        return Rejected(SignatureInvalid);
      }
      if !frame.Object? {
        return Rejected(ProfileViolation);
      }
      var fields := frame.fields;
      var nid := StringField(fields, "nid");
      if nid.None? {
        return Rejected(ProfileViolation);
      }
      var timestamp := TimeField(env, fields, "timestamp");
      if timestamp.None? {
        return Rejected(ProfileViolation);
      }
      var sequence := SequenceOf(env, fields);
      if sequence.None? {
        return Rejected(ProfileViolation);
      }
      var ttl := TtlOf(fields);
      if ttl.None? {
        return Rejected(ProfileViolation);
      }
      if !BridgeShapeIsValid(fields) {
        return Rejected(ProfileViolation);
      }
      if env.profile != "local-dev" && Abs(receivedAt - timestamp.value) > 300 {
        return Rejected(SignatureInvalid);
      }
      var digest := env.hash(CanonicalAnnounceJson(frame).value);
      var deadline := Deadline(env, fields);
      if nid.value in sequences {
        var highest := sequences[nid.value];
        if sequence.value < highest {
          return Rejected(SequenceRollback);
        }
        if sequence.value == highest {
          decision := Again(nid.value, a, digest, deadline);
          return;
        }
      }
      if ttl.value == 0 {
        sequences := sequences[nid.value := sequence.value];
        entries := entries - {nid.value};
        return Removed;
      }
      if deadline.None? || deadline.value <= receivedAt {
        return Rejected(Stale);
      }
      sequences := sequences[nid.value := sequence.value];
      entries := entries[nid.value := Entry(frame, digest, deadline.value)];
      return Accepted;
    }

    /** The branch for a frame that repeats the highest sequence. */
    method Again(nid: string, a: Announce, digest: string, deadline: Option<int>) returns (decision: Decision)
      requires WellFormed(env, a.frame) && nid == Nid(env, a.frame) && digest == Digest(env, a.frame)
      requires deadline == Deadline(env, a.frame.fields)
      requires nid in sequences && sequences[nid] == Seq(env, a.frame)
      modifies this
      ensures (Contents(), decision) == ApplyAgain(env, old(Contents()), a)
    {
      if nid !in entries {
        return Duplicate;
      }
      var current := entries[nid];
      if current.digest != digest {
        return Rejected(Conflict);
      }
      if SameLiveness(current.frame, a.frame) {
        return Duplicate;
      }
      if deadline.None? || deadline.value <= a.receivedAt {
        return Rejected(Stale);
      }
      entries := entries[nid := Entry(a.frame, digest, deadline.value)];
      assert sequences == sequences[nid := Seq(env, a.frame)];
      return Refreshed;
    }
  }
}
