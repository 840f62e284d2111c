/** Announce admission as a transition on the registry's two maps, and cluster selection. */
module NdpRegistryModel {
  import opened Wrappers
  import opened Json
  import opened NdpAnnounce

  datatype Entry = Entry(frame: Json, digest: string, expiresAt: int)

  datatype State = State(entries: map<string, Entry>, sequences: map<string, nat>)

  const EMPTY := State(map[], map[])

  datatype AnnounceError = SignatureInvalid | ProfileViolation | SequenceRollback | Conflict | Stale

  datatype Decision = Accepted | Duplicate | Refreshed | Removed | Rejected(error: AnnounceError)

  /** The security profile, RFC 3339 parsing to whole seconds, and the digest function. */
  datatype Env = Env(profile: string, parseTime: string -> Option<int>, hash: string -> string)

  /** One call: a frame, the outcome of its signature check, and the time it arrived. */
  datatype Announce = Announce(frame: Json, signatureValid: bool, receivedAt: int)

  // ---- checks --------------------------------------------------------------

  function TimeField(env: Env, fields: Fields, key: string): Option<int> {
    match StringField(fields, key)
    case None => None
    case Some(text) => env.parseTime(text)
  }

  function SequenceOf(env: Env, fields: Fields): Option<nat> {
    if "graph_seq" in fields then AsU64(fields["graph_seq"])
    else if env.profile == "local-dev" then Some(0)
    else None
  }

  function TtlOf(fields: Fields): Option<nat> {
    match NumberField(fields, "ttl")
    case Some(ttl) => if ttl <= U32_MAX then Some(ttl) else None
    case None => None
  }

  function Abs(x: int): int {
    if x < 0 then -x else x
  }

  /** The checks before the registry is consulted, in their order. */
  function StaticCheck(env: Env, a: Announce): Option<AnnounceError> {
    if !a.signatureValid then Some(SignatureInvalid)
    else if !a.frame.Object? then Some(ProfileViolation)
    else
      var fields := a.frame.fields;
      if StringField(fields, "nid").None? then Some(ProfileViolation)
      else
        match TimeField(env, fields, "timestamp")
        case None => Some(ProfileViolation)
        case Some(timestamp) =>
          if SequenceOf(env, fields).None? || TtlOf(fields).None? || !BridgeShapeIsValid(fields)
          then Some(ProfileViolation)
          else if env.profile != "local-dev" && Abs(a.receivedAt - timestamp) > 300
          then Some(SignatureInvalid)
          else None
  }

  /** The frame alone is well formed: what later questions about it rely on. */
  predicate WellFormed(env: Env, frame: Json) {
    && frame.Object?
    && StringField(frame.fields, "nid").Some?
    && SequenceOf(env, frame.fields).Some?
    && TtlOf(frame.fields).Some?
  }

  function Nid(env: Env, frame: Json): string
    requires WellFormed(env, frame)
  {
    StringField(frame.fields, "nid").value
  }

  function Seq(env: Env, frame: Json): nat
    requires WellFormed(env, frame)
  {
    SequenceOf(env, frame.fields).value
  }

  function Ttl(env: Env, frame: Json): nat
    requires WellFormed(env, frame)
  {
    TtlOf(frame.fields).value
  }

  function Digest(env: Env, frame: Json): string
    requires WellFormed(env, frame)
  {
    env.hash(CanonicalAnnounceJson(frame).value)
  }

  /** `freshness_deadline`, with the checked 64-bit addition. */
  function Deadline(env: Env, fields: Fields): Option<int> {
    var lastSeen := TimeField(env, fields, "last_seen");
    match if lastSeen.Some? then lastSeen else TimeField(env, fields, "timestamp")
    case None => None
    case Some(source) =>
      var ttl := NumberField(fields, "ttl");
      if ttl.Some? && ttl.value > I64_MAX then None
      else
        var sum := source + if ttl.Some? then ttl.value else 0;
        if sum > I64_MAX then None else Some(sum)
  }

  predicate Expired(env: Env, a: Announce)
    requires a.frame.Object?
  {
    var deadline := Deadline(env, a.frame.fields);
    deadline.None? || deadline.value <= a.receivedAt
  }

  predicate SameMember(a: Fields, b: Fields, key: string) {
    if key in a then key in b && a[key] == b[key] else key !in b
  }

  predicate SameLiveness(a: Json, b: Json) {
    && a.Object? && b.Object?
    && SameMember(a.fields, b.fields, "health")
    && SameMember(a.fields, b.fields, "last_seen")
  }

  // ---- the transition ------------------------------------------------------

  /** `insert` into both maps. */
  function Store(env: Env, s: State, a: Announce): State
    requires WellFormed(env, a.frame) && !Expired(env, a)
  {
    var nid := Nid(env, a.frame);
    State(
      s.entries[nid := Entry(a.frame, Digest(env, a.frame), Deadline(env, a.frame.fields).value)],
      s.sequences[nid := Seq(env, a.frame)])
  }

  /** A frame that carries the highest sequence seen: only a change of liveness is news. */
  function ApplyAgain(env: Env, s: State, a: Announce): (State, Decision)
    requires WellFormed(env, a.frame)
    requires Nid(env, a.frame) in s.sequences && s.sequences[Nid(env, a.frame)] == Seq(env, a.frame)
  {
    var nid := Nid(env, a.frame);
    if nid !in s.entries then (s, Duplicate)
    else if s.entries[nid].digest != Digest(env, a.frame) then (s, Rejected(Conflict))
    else if SameLiveness(s.entries[nid].frame, a.frame) then (s, Duplicate)
    else if Expired(env, a) then (s, Rejected(Stale))
    else (Store(env, s, a), Refreshed)
  }

  lemma CheckedIsWellFormed(env: Env, a: Announce)
    requires StaticCheck(env, a).None?
    ensures WellFormed(env, a.frame)
  {
  }

  function Apply(env: Env, s: State, a: Announce): (State, Decision) {
    if StaticCheck(env, a).Some? then (s, Rejected(StaticCheck(env, a).value))
    else
      CheckedIsWellFormed(env, a);
      var nid, sequence := Nid(env, a.frame), Seq(env, a.frame);
      if nid in s.sequences && sequence < s.sequences[nid] then (s, Rejected(SequenceRollback))
      else if nid in s.sequences && sequence == s.sequences[nid] then ApplyAgain(env, s, a)
      else if Ttl(env, a.frame) == 0 then
        (State(s.entries - {nid}, s.sequences[nid := sequence]), Removed)
      else if Expired(env, a) then (s, Rejected(Stale))
      else (Store(env, s, a), Accepted)
  }

  // ---- cluster selection ---------------------------------------------------

  datatype Selection = Nobody | Leader(nid: string, epoch: nat) | Split

  function Epoch(fields: Fields): nat {
    match NumberField(fields, "cluster_epoch")
    case Some(epoch) => epoch
    case None => 1
  }

  predicate IsMember(e: Entry, anchor: string, now: int) {
    && e.expiresAt > now
    && e.frame.Object?
    && StringField(e.frame.fields, "cluster_anchor") == Some(anchor)
    && Lists(e.frame.fields, "node_roles", "anchor")
  }

  function Members(s: State, anchor: string, now: int): map<string, nat> {
    map nid | nid in s.entries && IsMember(s.entries[nid], anchor, now) :: Epoch(s.entries[nid].frame.fields)
  }

  lemma {:induction false} HasMax(values: set<nat>)
    requires values != {}
    ensures exists v :: v in values && forall w :: w in values ==> w <= v
  {
    var x :| x in values;
    if values - {x} == {} {
      assert values == {x};
    } else {
      HasMax(values - {x});
      var rest := values - {x};
      var y :| y in rest && forall w :: w in rest ==> w <= y;
      var v := if x < y then y else x;
      forall w | w in values ensures w <= v {
        assert w == x || w in rest;
      }
      assert v in values;
    }
  }

  function MaxOf(values: set<nat>): (top: nat)
    requires values != {}
    ensures top in values && forall v :: v in values ==> v <= top
  {
    HasMax(values);
    var v :| v in values && forall w :: w in values ==> w <= v;
    v
  }

  function ResolveCluster(s: State, anchor: string, now: int): Selection {
    var members := Members(s, anchor, now);
    if members == map[] then Nobody
    else
      var top := MaxOf(members.Values);
      var leaders := set nid | nid in members && members[nid] == top;
      var nid :| nid in leaders;
      if leaders == {nid} then Leader(nid, top) else Split
  }
}
