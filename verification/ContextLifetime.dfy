/**
 How long contexts live and which mutations are granted, stated on the fields of a store and on the
 calls of a run, without the functions that sweep and admit.
 */
module LlmContextLifetime {
  import opened Wrappers
  import opened Text
  import opened LlmContextModel
  import opened LlmContextInvariants
  import opened LlmContextRuns

  // ---- one sweep -----------------------------------------------------------

  /** An active context whose deadline has come and that no reservation holds. */
  predicate Overdue(entry: ContextEntry, now: Time) {
    entry.state == Active && entry.reservationId == None && entry.expiresAt.Some? && now >= entry.expiresAt.value
  }

  /** A context that can no longer be used. */
  predicate Ended(entry: ContextEntry) {
    entry.state == Expired || entry.state == Released
  }

  lemma SweptOutcome(o: Options, s: Store, now: Time, k: IdempotencyKey)
    requires k in s.idempotency
    ensures var outcome, left := s.idempotency[k], Sweep(o, s, now).idempotency;
            if outcome.state != OutcomeBusy && outcome.retainUntil <= now then k !in left
            else k in left && left[k] == outcome
  {
  }

  lemma SweptContext(o: Options, s: Store, now: Time, id: string)
    requires id in s.contexts
    ensures var e, left := s.contexts[id], Sweep(o, s, now).contexts;
            if Overdue(e, now) then
              && (id in left <==> o.tombstoneSeconds > 0)
              && (id in left ==>
                    left[id] == e.(state := Expired, expiresAt := None,
                                   tombstoneUntil := Some(now + o.tombstoneSeconds * 1_000_000_000)))
            else if Ended(e) && e.tombstoneUntil.Some? && e.tombstoneUntil.value <= now then id !in left
            else id in left && left[id] == e
  {
  }

  /**
   What one sweep does: overdue contexts become tombstones, tombstones and settled outcomes leave
   when their time has come, and nothing else changes.
   */
  lemma SweepDecides(o: Options, s: Store, now: Time)
    requires o.tombstoneSeconds > 0
    ensures var t := Sweep(o, s, now);
            && t.reservations == s.reservations
            && t.contexts.Keys <= s.contexts.Keys && t.idempotency.Keys <= s.idempotency.Keys
            && (forall k :: k in s.idempotency ==>
                  if s.idempotency[k].state != OutcomeBusy && s.idempotency[k].retainUntil <= now then k !in t.idempotency
                  else k in t.idempotency && t.idempotency[k] == s.idempotency[k])
            && (forall id :: id in s.contexts ==>
                  var e := s.contexts[id];
                  if e.state == Active && e.reservationId == None && e.expiresAt.Some? && now >= e.expiresAt.value then
                    id in t.contexts
                    && t.contexts[id] == e.(state := Expired, expiresAt := None,
                                            tombstoneUntil := Some(now + o.tombstoneSeconds * 1_000_000_000))
                  else if Ended(e) && e.tombstoneUntil.Some? && e.tombstoneUntil.value <= now then id !in t.contexts
                  else id in t.contexts && t.contexts[id] == e)
  {
    forall k | k in s.idempotency
      ensures if s.idempotency[k].state != OutcomeBusy && s.idempotency[k].retainUntil <= now
              then k !in Sweep(o, s, now).idempotency
              else k in Sweep(o, s, now).idempotency && Sweep(o, s, now).idempotency[k] == s.idempotency[k]
    {
      SweptOutcome(o, s, now, k);
    }
    forall id | id in s.contexts
      ensures var e, left := s.contexts[id], Sweep(o, s, now).contexts;
              if Overdue(e, now) then
                id in left
                && left[id] == e.(state := Expired, expiresAt := None,
                                  tombstoneUntil := Some(now + o.tombstoneSeconds * 1_000_000_000))
              else if Ended(e) && e.tombstoneUntil.Some? && e.tombstoneUntil.value <= now then id !in left
              else id in left && left[id] == e
    {
      SweptContext(o, s, now, id);
    }
  }

  // ---- exactly when a mutation is granted ----------------------------------

  /** In use at this time: active, and its deadline still ahead unless a reservation holds it. */
  predicate Serving(entry: ContextEntry, now: Time) {
    entry.state == Active && (entry.reservationId.Some? || entry.expiresAt.None? || now < entry.expiresAt.value)
  }

  /** The owner's contexts in use, and the creations and forks that may still add to them. */
  function ServingIds(s: Store, owner: Owner, now: Time): set<string> {
    set id | id in s.contexts && s.contexts[id].owner == owner && Serving(s.contexts[id], now)
  }

  function OpenAllocations(s: Store, owner: Owner): set<string> {
    set r | r in s.reservations && s.reservations[r].request.owner == owner
            && (s.reservations[r].request.operation == Create || s.reservations[r].request.operation == Fork)
  }

  predicate HasRoom(o: Options, s: Store, owner: Owner, now: Time) {
    |ServingIds(s, owner, now)| + |OpenAllocations(s, owner)| < o.maxContextsPerPrincipal
  }

  /** No outcome is remembered under the key: none was recorded, or it has been settled long enough. */
  predicate KeyIsFree(s: Store, request: Request, now: Time) {
    var k := IdempotencyKey(request.owner, LlmComplete, request.idempotencyKey);
    k in s.idempotency ==> s.idempotency[k].state != OutcomeBusy && s.idempotency[k].retainUntil <= now
  }

  /** 22 to 128 letters, digits, underscores and hyphens. */
  predicate IsContextId(value: string) {
    && 22 <= |value| <= 128
    && forall i :: 0 <= i < |value| ==>
         var c := value[i]; 'a' <= c <= 'z' || 'A' <= c <= 'Z' || '0' <= c <= '9' || c == '_' || c == '-'
  }

  /** Some message has the role `system`, in small or capital letters. */
  ghost predicate SaysSystem(messages: seq<Message>) {
    exists i :: 0 <= i < |messages| && IsSystem(messages[i].role)
  }

  predicate IsSystem(role: string) {
    |role| == 6 && forall k :: 0 <= k < 6 ==> role[k] == "system"[k] || role[k] == "SYSTEM"[k]
  }

  lemma SystemInAnyCase(role: string)
    ensures EqIgnoreAsciiCase(role, "system") <==> IsSystem(role)
  {
    if |role| == 6 {
      forall k | 0 <= k < 6
        ensures AsciiLower(role[k]) == AsciiLower("system"[k]) <==> role[k] == "system"[k] || role[k] == "SYSTEM"[k]
      {
        assert k == 0 || k == 1 || k == 2 || k == 3 || k == 4 || k == 5;
      }
    }
  }

  /** What a request must look like, its roles aside. */
  predicate WellShaped(request: Request) {
    && request.operation != Release
    && (exists i :: 0 <= i < |request.idempotencyKey| && !IsWhitespace(request.idempotencyKey[i]))
    && request.ttlSeconds != Some(0)
    && (if request.operation == Create then request.contextId == None && request.baseVersion == None
        else request.contextId.Some? && IsContextId(request.contextId.value) && request.baseVersion.Some?)
    && (request.operation == Fork || request.messages != [])
  }

  /** And with them, whatever the store holds. */
  ghost predicate Presentable(request: Request) {
    WellShaped(request) && (request.operation == Create || request.operation == Reset || !SaysSystem(request.messages))
  }

  /** The context is the owner's, in use, free, and at the version the request builds on. */
  predicate Builds(s: Store, request: Request, now: Time) {
    && request.contextId.Some? && request.contextId.value in s.contexts
    && var e := s.contexts[request.contextId.value];
       && e.owner == request.owner && Serving(e, now) && e.reservationId == None
       && request.baseVersion == Some(e.version)
  }

  predicate SameBinding(o: Options, s: Store, request: Request) {
    && request.contextId.Some? && request.contextId.value in s.contexts
    && s.contexts[request.contextId.value].bindingFingerprint == o.fingerprint(request.binding)
  }

  ghost predicate Grantable(o: Options, s: Store, request: Request, now: Time) {
    && Presentable(request) && request.operation in o.supportedOperations && KeyIsFree(s, request, now)
    && match request.operation
       case Create => HasRoom(o, s, request.owner, now)
       case Append => Builds(s, request, now) && SameBinding(o, s, request)
       case Fork => Builds(s, request, now) && SameBinding(o, s, request) && HasRoom(o, s, request.owner, now)
       case Reset => Builds(s, request, now)
       case Release => false
  }

  lemma PresentableIsValid(request: Request)
    ensures Presentable(request) <==> ValidateRequest(request).None?
    ensures !Presentable(request) ==>
              ValidateRequest(request) == Some(Error(if WellShaped(request) then BindingMismatch else ParamsInvalid, None))
  {
    if request.contextId.Some? {
      assert IsContextId(request.contextId.value) <==> ValidContextId(request.contextId.value);
    }
    forall i | 0 <= i < |request.messages|
      ensures EqIgnoreAsciiCase(request.messages[i].role, "system") <==> IsSystem(request.messages[i].role)
    {
      SystemInAnyCase(request.messages[i].role);
    }
  }

  lemma RoomIsAvailable(o: Options, s: Store, owner: Owner, now: Time)
    ensures AllocationAvailable(o, Sweep(o, s, now), owner) <==> HasRoom(o, s, owner, now)
  {
    var t := Sweep(o, s, now);
    forall id ensures id in LiveIds(t.contexts, owner) <==> id in ServingIds(s, owner, now) {
      if id in s.contexts {
        SweptContext(o, s, now, id);
      }
    }
    assert LiveIds(t.contexts, owner) == ServingIds(s, owner, now);
    assert PendingIds(t.reservations, owner) == OpenAllocations(s, owner);
  }

  lemma KeyIsSwept(o: Options, s: Store, request: Request, now: Time)
    ensures IdempotencyKey(request.owner, LlmComplete, request.idempotencyKey) !in Sweep(o, s, now).idempotency
            <==> KeyIsFree(s, request, now)
  {
    var k := IdempotencyKey(request.owner, LlmComplete, request.idempotencyKey);
    if k in s.idempotency {
      SweptOutcome(o, s, now, k);
    }
  }

  /** The context a mutation names, once the store has been swept. */
  lemma MutableIsServing(o: Options, s: Store, owner: Owner, id: string, now: Time)
    requires Receipted(s)
    ensures var r := RequireMutable(Sweep(o, s, now), owner, id);
            && (r.Ok? <==> id in s.contexts && s.contexts[id].owner == owner && Serving(s.contexts[id], now))
            && (r.Ok? ==> r.value == s.contexts[id])
  {
    if id in s.contexts {
      SweptContext(o, s, now, id);
    }
  }

  lemma GrantableIsAdmitted(o: Options, s: Store, request: Request, now: Time)
    requires Receipted(s)
    ensures Admit(o, Sweep(o, s, now), request, now).Ok? <==> Grantable(o, s, request, now)
  {
    PresentableIsValid(request);
    KeyIsSwept(o, s, request, now);
    RoomIsAvailable(o, s, request.owner, now);
    if request.contextId.Some? {
      MutableIsServing(o, s, request.owner, request.contextId.value, now);
    }
  }

  /** Exactly when a reservation is granted. */
  lemma ReserveIsGrantedWhen(o: Options, s: Store, request: Request, now: Time, drawn: Option<string>)
    requires Inv(o, s)
    ensures Reserve(o, s, request, now, drawn).1.Ok? <==> Grantable(o, s, request, now) && drawn.Some?
    ensures Reserve(o, s, request, now, drawn).1.Ok? ==>
              Reserve(o, s, request, now, drawn).1.value == Reservation(drawn.value, request.operation, request.requestId)
  {
    GrantableIsAdmitted(o, s, request, now);
  }

  /** The refusals before any context is looked at, in order, and those of a creation. */
  lemma RequestIsRefusedWhen(o: Options, s: Store, request: Request, now: Time, drawn: Option<string>)
    requires Inv(o, s)
    ensures var r := Reserve(o, s, request, now, drawn).1;
            if !WellShaped(request) then r == Err(Error(ParamsInvalid, None))
            else if !Presentable(request) then r == Err(Error(BindingMismatch, None))
            else if request.operation !in o.supportedOperations then r == Err(Error(OperationUnsupported, None))
            else if !KeyIsFree(s, request, now) then r == Err(Error(IdempotencyConflict, None))
            else request.operation == Create ==>
              if !HasRoom(o, s, request.owner, now) then r == Err(Error(LimitExceeded, None))
              else r.Err? ==> drawn.None? && r.error == Error(Internal, None)
  {
    PresentableIsValid(request);
    KeyIsSwept(o, s, request, now);
    RoomIsAvailable(o, s, request.owner, now);
  }

  /** The refusals a mutation can read its situation from. */
  lemma MutationIsRefusedWhen(o: Options, s: Store, request: Request, now: Time, drawn: Option<string>)
    requires Inv(o, s) && o.tombstoneSeconds > 0
    requires Presentable(request) && request.operation != Create
    requires request.operation in o.supportedOperations && KeyIsFree(s, request, now)
    ensures var r, id := Reserve(o, s, request, now, drawn).1, request.contextId.value;
            if id !in s.contexts then r == Err(Error(NotFound, None))
            else
              var e := s.contexts[id];
              if Ended(e) && e.tombstoneUntil.Some? && e.tombstoneUntil.value <= now then r == Err(Error(NotFound, None))
              else if e.owner != request.owner then r == Err(Error(Forbidden, None))
              else if e.state == Expired || Overdue(e, now) then r == Err(Error(ContextExpired, Some(e.version)))
              else if e.state == Released then r == Err(Error(NotFound, None))
              else if e.reservationId.Some? || Some(e.version) != request.baseVersion then
                r == Err(Error(VersionConflict, Some(e.version)))
              else if request.operation != Reset && !SameBinding(o, s, request) then r == Err(Error(BindingMismatch, None))
              else if request.operation == Fork && !HasRoom(o, s, request.owner, now) then
                r == Err(Error(LimitExceeded, None))
              else r.Err? ==> drawn.None? && r.error == Error(Internal, None)
  {
    var id := request.contextId.value;
    PresentableIsValid(request);
    KeyIsSwept(o, s, request, now);
    RoomIsAvailable(o, s, request.owner, now);
    if id in s.contexts {
      SweptContext(o, s, now, id);
    }
  }

  // ---- what a reservation and its commit fix -------------------------------

  predicate AtMost(seconds: nat, wanted: nat, max: nat) {
    seconds == if wanted <= max then wanted else max
  }

  /** Whole seconds that cover the time left, rounded up. */
  predicate Covers(seconds: nat, left: int) {
    && (seconds - 1) * 1_000_000_000 < left
    && (left <= seconds * 1_000_000_000 || seconds == 0xFFFF_FFFF)
  }

  /** How long a granted reservation lets its context live. */
  ghost predicate Lasts(o: Options, s: Store, request: Request, now: Time, ttl: Option<nat>) {
    if request.ttlSeconds.Some? then ttl.Some? && AtMost(ttl.value, request.ttlSeconds.value, o.maxTtlSeconds)
    else if request.operation == Create then ttl.Some? && AtMost(ttl.value, o.defaultTtlSeconds, o.maxTtlSeconds)
    else
      && request.contextId.Some? && request.contextId.value in s.contexts
      && var e := s.contexts[request.contextId.value];
         if request.operation == Fork then
           if e.expiresAt.None? then ttl == None else ttl.Some? && Covers(ttl.value, e.expiresAt.value - now)
         else if e.ttlSeconds == 0 then ttl == None
         else ttl == Some(e.ttlSeconds)
  }

  lemma RemainingCovers(expiresAt: Time, now: Time)
    requires now < expiresAt
    ensures Covers(RemainingSeconds(expiresAt, now), expiresAt - now)
  {
  }

  lemma AdmittedLasts(o: Options, s: Store, request: Request, now: Time)
    requires Receipted(s) && Admit(o, Sweep(o, s, now), request, now).Ok?
    ensures Lasts(o, s, request, now, Admit(o, Sweep(o, s, now), request, now).value.effectiveTtlSeconds)
  {
    if request.operation != Create {
      var id := request.contextId.value;
      MutableIsServing(o, s, request.owner, id, now);
      if s.contexts[id].expiresAt.Some? {
        RemainingCovers(s.contexts[id].expiresAt.value, now);
      }
    }
  }

  /** What a granted reservation records: the request, the transcript and version it builds on, and its lifetime. */
  lemma GrantIsRecorded(o: Options, s: Store, request: Request, now: Time, id: string)
    requires Inv(o, s) && Reserve(o, s, request, now, Some(id)).1.Ok?
    ensures var t := Reserve(o, s, request, now, Some(id)).0;
            && id in t.reservations && t.reservations.Keys == s.reservations.Keys + {id}
            && var data := t.reservations[id];
            && data.request == request && data.reservationId == id
            && data.bindingFingerprint == o.fingerprint(request.binding)
            && Lasts(o, s, request, now, data.effectiveTtlSeconds)
            && (if request.operation == Create then data.baseTranscript == []
                else
                  && request.contextId.Some? && request.contextId.value in s.contexts
                  && data.baseTranscript == s.contexts[request.contextId.value].transcript)
            && (if request.operation == Fork
                then data.parentContextId == request.contextId && data.parentVersion == request.baseVersion
                else data.parentContextId == None && data.parentVersion == None)
            && KeyOf(data) in t.idempotency && t.idempotency[KeyOf(data)].state == OutcomeBusy
            && t.idempotency[KeyOf(data)].retainUntil == now + o.idempotencyTtl
            && t.idempotency[KeyOf(data)].requestId == (if request.requestId == "" then None else Some(request.requestId))
  {
    AdmittedLasts(o, s, request, now);
    GrantableIsAdmitted(o, s, request, now);
    if request.contextId.Some? {
      MutableIsServing(o, s, request.owner, request.contextId.value, now);
    }
  }

  /** A commit leaves an active, free context of the requesting owner, with the deadline its receipt tells. */
  lemma CommitSetsDeadline(o: Options, s: Store, handle: Reservation, assistant: Message, now: Time, draws: seq<Draw>)
    requires Inv(o, s) && Commit(o, s, handle, assistant, now, draws).1.Ok?
    ensures handle.reservationId in s.reservations
    ensures var (t, r) := Commit(o, s, handle, assistant, now, draws);
            var data := s.reservations[handle.reservationId];
            && r.value.contextId in t.contexts
            && var e := t.contexts[r.value.contextId];
            && e.state == Active && e.reservationId == None && e.owner == data.request.owner
            && r.value == Receipt(e.contextId, e.version, data.request.operation, Active, e.expiresAt,
                                  data.parentContextId, data.parentVersion)
            && e.ttlSeconds == (if data.effectiveTtlSeconds == None then 0 else data.effectiveTtlSeconds.value)
            && e.expiresAt == (if data.effectiveTtlSeconds == None then None
                               else Some(now + data.effectiveTtlSeconds.value * 1_000_000_000))
            && (data.request.operation != Append ==>
                  e.binding == data.request.binding && e.bindingFingerprint == data.bindingFingerprint)
            && KeyOf(data) in t.idempotency
            && t.idempotency[KeyOf(data)].state == OutcomeCompleted
            && t.idempotency[KeyOf(data)].retainUntil == now + o.idempotencyTtl
            && t.idempotency[KeyOf(data)].receipt == Some(r.value)
  {
  }

  /** A draw that collides: well-formed, but some context has it. */
  predicate Collides(contexts: map<string, ContextEntry>, draw: Draw) {
    draw.Some? && IsContextId(draw.value) && draw.value in contexts
  }

  /** The first draw that does not collide decides. */
  lemma {:induction false} FirstDrawDecides(contexts: map<string, ContextEntry>, draws: seq<Draw>, k: nat)
    requires k <= |draws| && (forall i :: 0 <= i < k ==> Collides(contexts, draws[i]))
    requires k < |draws| ==> !Collides(contexts, draws[k])
    ensures NextContextId(contexts, draws) ==
            if k == |draws| || draws[k] == None then Err(Error(Internal, None))
            else if !IsContextId(draws[k].value) then Err(Error(ParamsInvalid, None))
            else Ok(draws[k].value)
  {
    if draws != [] {
      if draws[0].Some? {
        assert IsContextId(draws[0].value) <==> ValidContextId(draws[0].value);
      }
      if k > 0 {
        FirstDrawDecides(contexts, draws[1..], k - 1);
      }
    }
  }

  /** A reservation that is not open cannot be committed or aborted, and nothing changes. */
  lemma SpentReservationFails(
    o: Options, s: Store, handle: Reservation, assistant: Message, errorCode: Option<string>, now: Time, draws: seq<Draw>)
    requires handle.reservationId !in s.reservations
    ensures Commit(o, s, handle, assistant, now, draws) == (s, Err(Error(Internal, None)))
    ensures Abort(o, s, handle, errorCode, now) == (s, Err(Error(Internal, None)))
  {
  }

  /** An abort of an open reservation frees its context, and its key is remembered as failed. */
  lemma AbortIsRecorded(o: Options, s: Store, handle: Reservation, errorCode: Option<string>, now: Time)
    requires Inv(o, s) && handle.reservationId in s.reservations && o.idempotencyTtl > 0
    ensures var (t, r) := Abort(o, s, handle, errorCode, now);
            var data := s.reservations[handle.reservationId];
            && r == Ok(()) && t.reservations == s.reservations - {handle.reservationId}
            && KeyOf(data) in t.idempotency
            && t.idempotency[KeyOf(data)].state == OutcomeFailed && t.idempotency[KeyOf(data)].errorCode == errorCode
            && t.idempotency[KeyOf(data)].retainUntil == now + o.idempotencyTtl
            && forall id :: id in t.contexts ==> t.contexts[id].reservationId != Some(handle.reservationId)
  {
    var data := s.reservations[handle.reservationId];
    var dropped := Drop(o, s, data, errorCode, now);
    SweptOutcome(o, dropped, now, KeyOf(data));
    forall id | id in dropped.contexts ensures dropped.contexts[id].reservationId != Some(handle.reservationId) {
      assert s.contexts[id].reservationId.Some? ==> PinnedBy(s.reservations, id, s.contexts[id].reservationId.value);
    }
  }

  /** No outcome is remembered under a release key. */
  predicate ReleaseKeyIsFree(s: Store, owner: Owner, key: string, now: Time) {
    var k := IdempotencyKey(owner, LlmContextRelease, key);
    k in s.idempotency ==> s.idempotency[k].state != OutcomeBusy && s.idempotency[k].retainUntil <= now
  }

  /**
   Exactly when a first release is granted, and what it leaves: a tombstone at the next version and
   a remembered receipt.
   */
  lemma ReleaseIsGrantedWhen(
    o: Options, s: Store, owner: Owner, contextId: string, baseVersion: nat, key: string, now: Time)
    requires Inv(o, s) && ReleaseKeyIsFree(s, owner, key, now)
    ensures var (t, r) := ReleaseContext(o, s, owner, contextId, baseVersion, key, now);
            && (r.Ok? <==>
                  && Release in o.supportedOperations && IsContextId(contextId)
                  && (exists i :: 0 <= i < |key| && !IsWhitespace(key[i]))
                  && contextId in s.contexts && s.contexts[contextId].owner == owner
                  && Serving(s.contexts[contextId], now) && s.contexts[contextId].reservationId == None
                  && s.contexts[contextId].version == baseVersion)
            && (r.Ok? ==>
                  && contextId in t.contexts
                  && t.contexts[contextId] == s.contexts[contextId].(
                                                version := baseVersion + 1, state := Released, expiresAt := None,
                                                tombstoneUntil := Some(now + o.tombstoneSeconds * 1_000_000_000))
                  && r.value == Receipt(contextId, baseVersion + 1, Release, Released, None, None, None)
                  && IdempotencyKey(owner, LlmContextRelease, key) in t.idempotency
                  && t.idempotency[IdempotencyKey(owner, LlmContextRelease, key)].retainUntil == now + o.idempotencyTtl)
  {
    var k := IdempotencyKey(owner, LlmContextRelease, key);
    if k in s.idempotency {
      SweptOutcome(o, s, now, k);
    }
    assert IsContextId(contextId) <==> ValidContextId(contextId);
    MutableIsServing(o, s, owner, contextId, now);
  }

  /** Why a release is refused, in order. */
  lemma ReleaseIsRefusedWhen(
    o: Options, s: Store, owner: Owner, contextId: string, baseVersion: nat, key: string, now: Time)
    requires Inv(o, s) && o.tombstoneSeconds > 0
    ensures var r := ReleaseContext(o, s, owner, contextId, baseVersion, key, now).1;
            if Release !in o.supportedOperations then r == Err(Error(OperationUnsupported, None))
            else if !IsContextId(contextId) || (forall i :: 0 <= i < |key| ==> IsWhitespace(key[i])) then
              r == Err(Error(ParamsInvalid, None))
            else if !ReleaseKeyIsFree(s, owner, key, now) then
              var prior := s.idempotency[IdempotencyKey(owner, LlmContextRelease, key)];
              if prior.state == OutcomeCompleted && prior.contextId == Some(contextId) && prior.baseVersion == Some(baseVersion)
              then r.Ok? && prior.receipt == Some(r.value)
              else r == Err(Error(IdempotencyConflict, None))
            else if contextId !in s.contexts then r == Err(Error(NotFound, None))
            else
              var e := s.contexts[contextId];
              if Ended(e) && e.tombstoneUntil.Some? && e.tombstoneUntil.value <= now then r == Err(Error(NotFound, None))
              else if e.owner != owner then r == Err(Error(Forbidden, None))
              else if e.state == Expired || Overdue(e, now) then r == Err(Error(ContextExpired, Some(e.version)))
              else if e.state == Released then r == Err(Error(NotFound, None))
              else if e.reservationId.Some? || e.version != baseVersion then r == Err(Error(VersionConflict, Some(e.version)))
              else r.Ok?
  {
    var k := IdempotencyKey(owner, LlmContextRelease, key);
    if k in s.idempotency {
      SweptOutcome(o, s, now, k);
    }
    assert IsContextId(contextId) <==> ValidContextId(contextId);
    if contextId in s.contexts {
      SweptContext(o, s, now, contextId);
    }
  }

  /**
   What the status of a key tells: busy or failed as it is remembered; once completed, the context's
   own status, or the receipt when the context is gone.
   */
  lemma KeyStatusTells(o: Options, s: Store, owner: Owner, key: string)
    requires Inv(o, s)
    ensures var k, r := IdempotencyKey(owner, LlmComplete, key), StatusOf(s, owner, None, Some(key));
            if k !in s.idempotency then r.Err? && r.error.code == NotFound
            else
              var outcome := s.idempotency[k];
              if outcome.state == OutcomeBusy then r == Ok(Status(Busy, None, None, None, outcome.requestId, None))
              else if outcome.state == OutcomeFailed then
                r == Ok(Status(Failed, None, None, None, outcome.requestId, outcome.errorCode))
              else
                && outcome.receipt.Some?
                && var receipt := outcome.receipt.value;
                   if receipt.contextId in s.contexts then r == StatusOf(s, owner, Some(receipt.contextId), None)
                   else r == Ok(Status(receipt.state, Some(receipt.contextId), Some(receipt.version), receipt.expiresAt, None, None))
  {
  }

  /** What the status of a context tells its owner: busy exactly while an append or reset holds it, else its own state. */
  lemma ContextStatusTells(o: Options, s: Store, owner: Owner, id: string)
    requires Inv(o, s)
    ensures var r := StatusOf(s, owner, Some(id), None);
            && (!IsContextId(id) ==> r == Err(Error(ParamsInvalid, None)))
            && (IsContextId(id) && id !in s.contexts ==> r == Err(Error(NotFound, None)))
            && (IsContextId(id) && id in s.contexts && s.contexts[id].owner != owner ==> r == Err(Error(Forbidden, None)))
            && (r.Ok? <==> IsContextId(id) && id in s.contexts && s.contexts[id].owner == owner)
            && (r.Ok? ==>
                  && r.value.contextId == Some(id) && r.value.version == Some(s.contexts[id].version)
                  && r.value.expiresAt == s.contexts[id].expiresAt
                  && (r.value.state == Busy <==> exists h :: PinnedBy(s.reservations, id, h))
                  && (r.value.state != Busy ==> r.value.state == s.contexts[id].state)
                  && forall h :: PinnedBy(s.reservations, id, h) && s.reservations[h].request.requestId != "" ==>
                       r.value.requestId == Some(s.reservations[h].request.requestId))
  {
    assert IsContextId(id) <==> ValidContextId(id);
    if id in s.contexts {
      HolderIsPinning(o, s, id);
    }
  }

  lemma HolderIsPinning(o: Options, s: Store, id: string)
    requires Inv(o, s) && id in s.contexts
    ensures s.contexts[id].reservationId.Some? <==> exists h :: PinnedBy(s.reservations, id, h)
    ensures forall h :: PinnedBy(s.reservations, id, h) ==> s.contexts[id].reservationId == Some(h)
  {
    forall h | PinnedBy(s.reservations, id, h) ensures s.contexts[id].reservationId == Some(h) {
      assert Pinned(s.contexts, s.reservations[h]);
    }
    if s.contexts[id].reservationId.Some? {
      assert PinnedBy(s.reservations, id, s.contexts[id].reservationId.value);
    }
  }

  // ---- a context's life over a run -----------------------------------------

  /** The call commits to this context or releases it. */
  predicate Replaces(o: Options, s: Store, call: Call, id: string) {
    var out := Step(o, s, call).1;
    (out.Committed? || out.ReleasedWith?) && out.receipt.contextId == id
  }

  /** The same context, but for the reservation that holds it. */
  predicate SameLife(a: ContextEntry, b: ContextEntry) {
    a == b.(reservationId := a.reservationId)
  }

  lemma SweptServes(o: Options, s: Store, now: Time, id: string)
    requires id in s.contexts && Serving(s.contexts[id], now)
    ensures id in Sweep(o, s, now).contexts && Sweep(o, s, now).contexts[id] == s.contexts[id]
  {
    SweptContext(o, s, now, id);
  }

  lemma CommitSpares(o: Options, w: World, call: Call, id: string)
    requires Inv(o, w.store) && call.CallCommit? && !Replaces(o, w.store, call, id) && id in w.store.contexts
    ensures id in Next(o, w, call).store.contexts && Next(o, w, call).store.contexts[id] == w.store.contexts[id]
  {
  }

  lemma AbortSpares(o: Options, w: World, call: Call, id: string)
    requires call.CallAbort? && id in w.store.contexts && w.store.contexts[id].state == Active
    requires w.store.contexts[id].expiresAt.Some? ==> call.now < w.store.contexts[id].expiresAt.value
    ensures var t := Next(o, w, call).store;
            id in t.contexts && SameLife(w.store.contexts[id], t.contexts[id])
  {
    var s := w.store;
    if call.handle.reservationId in s.reservations {
      var dropped := Drop(o, s, s.reservations[call.handle.reservationId], call.errorCode, call.now);
      assert id in dropped.contexts && SameLife(s.contexts[id], dropped.contexts[id]);
      SweptServes(o, dropped, call.now, id);
    }
  }

  /** Before its deadline a call changes nothing of a context but the reservation that holds it. */
  lemma ContextLivesStep(o: Options, w: World, call: Call, id: string)
    requires Inv(o, w.store) && Allowed(w, call) && !Replaces(o, w.store, call, id)
    requires id in w.store.contexts && w.store.contexts[id].state == Active
    requires w.store.contexts[id].expiresAt.Some? ==> call.now < w.store.contexts[id].expiresAt.value
    ensures var t := Next(o, w, call).store;
            id in t.contexts && SameLife(w.store.contexts[id], t.contexts[id])
  {
    if call.CallCommit? {
      CommitSpares(o, w, call, id);
    } else if call.CallAbort? {
      AbortSpares(o, w, call, id);
    } else {
      SweptServes(o, w.store, call.now, id);
    }
  }

  lemma ContextLivesTurn(o: Options, ws: seq<World>, calls: seq<Call>, k: nat, id: string)
    requires IsRun(o, ws, calls) && k < |calls| && !Replaces(o, ws[k].store, calls[k], id)
    requires id in ws[k].store.contexts && ws[k].store.contexts[id].state == Active
    requires ws[k].store.contexts[id].expiresAt.Some? ==> calls[k].now < ws[k].store.contexts[id].expiresAt.value
    ensures id in ws[k + 1].store.contexts && SameLife(ws[k].store.contexts[id], ws[k + 1].store.contexts[id])
  {
    ReachableStore(o, ws, calls, k);
    ContextLivesStep(o, ws[k], calls[k], id);
  }

  /**
   Over any run an active context stays active with its version, transcript, binding and deadline,
   for as long as every call comes before the deadline and none commits to it or releases it.
   */
  lemma {:induction false} ContextLives(o: Options, ws: seq<World>, calls: seq<Call>, i: nat, j: nat, id: string)
    requires IsRun(o, ws, calls) && i <= j < |ws|
    requires id in ws[i].store.contexts && ws[i].store.contexts[id].state == Active
    requires forall k :: i <= k < j ==> !Replaces(o, ws[k].store, calls[k], id)
    requires ws[i].store.contexts[id].expiresAt.Some? ==>
      forall k :: i <= k < j ==> calls[k].now < ws[i].store.contexts[id].expiresAt.value
    ensures id in ws[j].store.contexts && SameLife(ws[i].store.contexts[id], ws[j].store.contexts[id])
    decreases j
  {
    if i < j {
      ContextLives(o, ws, calls, i, j - 1, id);
      ContextLivesTurn(o, ws, calls, j - 1, id);
    }
  }

  /** The call sweeps: every one but a commit, and an abort only of an open reservation. */
  predicate Sweeps(s: Store, call: Call) {
    !call.CallCommit? && (call.CallAbort? ==> call.handle.reservationId in s.reservations)
  }

  /** A free context ends with the first call that sweeps at its deadline or later. */
  lemma IdleContextExpires(o: Options, ws: seq<World>, calls: seq<Call>, i: nat, id: string)
    requires IsRun(o, ws, calls) && i < |calls| && o.tombstoneSeconds > 0
    requires id in ws[i].store.contexts && ws[i].store.contexts[id].state == Active
    requires ws[i].store.contexts[id].reservationId == None && Sweeps(ws[i].store, calls[i])
    requires !Replaces(o, ws[i].store, calls[i], id)
    ensures id in ws[i + 1].store.contexts
    ensures var e, after := ws[i].store.contexts[id], ws[i + 1].store.contexts[id];
            after.state == Expired <==> e.expiresAt.Some? && e.expiresAt.value <= calls[i].now
  {
    ReachableStore(o, ws, calls, i);
    var s, now := ws[i].store, calls[i].now;
    if s.contexts[id].expiresAt.Some? && s.contexts[id].expiresAt.value <= now {
      ExpiresStep(o, ws[i], calls[i], id);
    } else {
      ContextLivesStep(o, ws[i], calls[i], id);
    }
  }

  lemma ExpiresStep(o: Options, w: World, call: Call, id: string)
    requires Inv(o, w.store) && Allowed(w, call) && o.tombstoneSeconds > 0 && Sweeps(w.store, call)
    requires id in w.store.contexts && Overdue(w.store.contexts[id], call.now)
    ensures var t := Next(o, w, call).store; id in t.contexts && t.contexts[id].state == Expired
  {
    var s, now := w.store, call.now;
    SweptContext(o, s, now, id);
    if call.CallAbort? {
      var dropped := Drop(o, s, s.reservations[call.handle.reservationId], call.errorCode, now);
      assert id in dropped.contexts && dropped.contexts[id] == s.contexts[id];
      SweptContext(o, dropped, now, id);
    }
  }

  /**
   What a commit promises: until the deadline on its receipt, whatever else is called, an append to
   the committed version is granted, if it is presentable and supported, its key is free, its binding
   is the one retained, and no reservation holds the context.
   */
  lemma CommittedContextServes(o: Options, ws: seq<World>, calls: seq<Call>, i: nat, j: nat)
    requires IsRun(o, ws, calls) && i < j < |calls|
    requires calls[i].CallCommit? && Step(o, ws[i].store, calls[i]).1.Committed?
    requires calls[i].handle.reservationId in ws[i].store.reservations
    requires var receipt := Step(o, ws[i].store, calls[i]).1.receipt;
             && receipt.contextId in ws[i + 1].store.contexts
             && (forall k :: i < k < j ==> !Replaces(o, ws[k].store, calls[k], receipt.contextId))
             && (receipt.expiresAt.Some? ==> forall k :: i < k <= j ==> calls[k].now < receipt.expiresAt.value)
             && calls[j].CallReserve? && calls[j].drawn.Some?
             && var request := calls[j].request;
             && request.operation == Append && Presentable(request) && Append in o.supportedOperations
             && KeyIsFree(ws[j].store, request, calls[j].now)
             && request.contextId == Some(receipt.contextId) && request.baseVersion == Some(receipt.version)
             && request.owner == ws[i].store.reservations[calls[i].handle.reservationId].request.owner
             && o.fingerprint(request.binding) == ws[i + 1].store.contexts[receipt.contextId].bindingFingerprint
             && forall r :: r in ws[j].store.reservations ==> !PinnedBy(ws[j].store.reservations, receipt.contextId, r)
    ensures Step(o, ws[j].store, calls[j]).1
         == Reserved(Reservation(calls[j].drawn.value, Append, calls[j].request.requestId))
  {
    var id := Step(o, ws[i].store, calls[i]).1.receipt.contextId;
    ReachableStore(o, ws, calls, i);
    CommitSetsDeadline(o, ws[i].store, calls[i].handle, calls[i].assistant, calls[i].now, calls[i].draws);
    ContextLives(o, ws, calls, i + 1, j, id);
    ReachableStore(o, ws, calls, j);
    HolderIsPinning(o, ws[j].store, id);
    ReserveIsGrantedWhen(o, ws[j].store, calls[j].request, calls[j].now, calls[j].drawn);
  }
}
