/**
 What every transition of the context store keeps: reservations pin their contexts,
 busy outcomes and reservations match one to one, and no owner exceeds the cap.
 */
module LlmContextInvariants {
  import opened Wrappers
  import opened Collections
  import opened LlmContextModel

  /** An append or reset reservation holds its context still at the version it was granted on. */
  ghost predicate Pinned(contexts: map<string, ContextEntry>, data: ReservationData) {
    && data.request.contextId.Some?
    && data.request.contextId.value in contexts
    && var entry := contexts[data.request.contextId.value];
    && entry.reservationId == Some(data.reservationId)
    && entry.state.Active?
    && entry.owner == data.request.owner
    && data.request.baseVersion == Some(entry.version)
    && entry.transcript == data.baseTranscript
  }

  ghost predicate PinnedBy(reservations: map<string, ReservationData>, id: string, r: string) {
    && r in reservations
    && !Allocates(reservations[r].request.operation)
    && reservations[r].request.contextId == Some(id)
  }

  ghost predicate PinsHold(s: Store) {
    && (forall r :: r in s.reservations && !Allocates(s.reservations[r].request.operation) ==>
          Pinned(s.contexts, s.reservations[r]))
    && (forall id :: id in s.contexts && s.contexts[id].reservationId.Some? ==>
          PinnedBy(s.reservations, id, s.contexts[id].reservationId.value))
  }

  ghost predicate Holds(s: Store, r: string, k: IdempotencyKey) {
    r in s.reservations && KeyOf(s.reservations[r]) == k
  }

  /** Busy outcomes and reservations correspond one to one. */
  ghost predicate BusyMatched(s: Store) {
    && (forall r :: r in s.reservations ==>
          KeyOf(s.reservations[r]) in s.idempotency && s.idempotency[KeyOf(s.reservations[r])].state.OutcomeBusy?)
    && (forall r, r', k :: Holds(s, r, k) && Holds(s, r', k) ==> r == r')
    && (forall k :: k in s.idempotency && s.idempotency[k].state.OutcomeBusy? ==> exists r :: Holds(s, r, k))
  }

  ghost predicate Receipted(s: Store) {
    && (forall k :: k in s.idempotency && s.idempotency[k].state.OutcomeCompleted? ==> s.idempotency[k].receipt.Some?)
    && (forall id :: id in s.contexts ==> s.contexts[id].state in {Active, Released, Expired})
  }

  ghost predicate OwnerWithin(o: Options, s: Store, owner: Owner) {
    |LiveIds(s.contexts, owner)| + |PendingIds(s.reservations, owner)| <= o.maxContextsPerPrincipal
  }

  ghost predicate WithinCap(o: Options, s: Store) {
    forall owner :: OwnerWithin(o, s, owner)
  }

  ghost predicate Inv(o: Options, s: Store) {
    WellFormed(s) && PinsHold(s) && BusyMatched(s) && Receipted(s) && WithinCap(o, s)
  }

  /** Removing live contexts and pending reservations keeps an owner within the cap. */
  lemma FewerIsWithin(o: Options, s: Store, t: Store, owner: Owner)
    requires OwnerWithin(o, s, owner)
    requires LiveIds(t.contexts, owner) <= LiveIds(s.contexts, owner)
    requires PendingIds(t.reservations, owner) <= PendingIds(s.reservations, owner)
    ensures OwnerWithin(o, t, owner)
  {
    SubsetSize(LiveIds(t.contexts, owner), LiveIds(s.contexts, owner));
    SubsetSize(PendingIds(t.reservations, owner), PendingIds(s.reservations, owner));
  }

  // ---- sweep ---------------------------------------------------------------

  lemma SweepKeepsPins(o: Options, s: Store, now: Time)
    requires PinsHold(s)
    ensures PinsHold(Sweep(o, s, now))
  {
    var t := Sweep(o, s, now);
    forall id | id in t.contexts && t.contexts[id].reservationId.Some?
      ensures PinnedBy(t.reservations, id, t.contexts[id].reservationId.value)
    {
      assert t.contexts[id] == s.contexts[id];
    }
  }

  lemma SweepKeepsBusy(o: Options, s: Store, now: Time)
    requires BusyMatched(s)
    ensures BusyMatched(Sweep(o, s, now))
  {
    var t := Sweep(o, s, now);
    assert forall r, k :: Holds(t, r, k) == Holds(s, r, k);
    forall k | k in t.idempotency && t.idempotency[k].state.OutcomeBusy?
      ensures exists r :: Holds(t, r, k)
    {
      var r :| Holds(s, r, k);
      assert Holds(t, r, k);
    }
  }

  lemma SweepKeepsCap(o: Options, s: Store, now: Time)
    requires WithinCap(o, s)
    ensures WithinCap(o, Sweep(o, s, now))
  {
    var t := Sweep(o, s, now);
    forall owner ensures OwnerWithin(o, t, owner) {
      assert OwnerWithin(o, s, owner);
      FewerIsWithin(o, s, t, owner);
    }
  }

  lemma SweepKeeps(o: Options, s: Store, now: Time)
    requires Inv(o, s)
    ensures Inv(o, Sweep(o, s, now))
  {
    SweepKeepsPins(o, s, now);
    SweepKeepsBusy(o, s, now);
    SweepKeepsCap(o, s, now);
  }

  // ---- reserve -------------------------------------------------------------

  /** What admission has established by the time a reservation is entered. */
  ghost predicate Admissible(o: Options, s: Store, request: Request, grant: Grant) {
    && !request.operation.Release?
    && IdempotencyKey(request.owner, LlmComplete, request.idempotencyKey) !in s.idempotency
    && (Allocates(request.operation) ==> AllocationAvailable(o, s, request.owner))
    && (!Allocates(request.operation) ==>
          && request.contextId.Some?
          && request.contextId.value in s.contexts
          && var entry := s.contexts[request.contextId.value];
          && entry.state.Active?
          && entry.owner == request.owner
          && entry.reservationId.None?
          && request.baseVersion == Some(entry.version)
          && grant.baseTranscript == entry.transcript)
  }

  lemma AdmittedIsAdmissible(o: Options, s: Store, request: Request, now: Time, grant: Grant)
    requires Receipted(s)
    requires Admit(o, s, request, now) == Ok(grant)
    ensures Admissible(o, s, request, grant)
  {
  }

  lemma EnterKeepsPins(o: Options, s: Store, request: Request, grant: Grant, now: Time, id: string)
    requires WellFormed(s) && PinsHold(s) && Admissible(o, s, request, grant)
    requires id !in s.reservations
    ensures PinsHold(Enter(o, s, request, grant, now, id))
  {
    var t := Enter(o, s, request, grant, now, id);
    forall r | r in t.reservations && !Allocates(t.reservations[r].request.operation)
      ensures Pinned(t.contexts, t.reservations[r])
    {
      if r != id {
        assert Pinned(s.contexts, s.reservations[r]);
      }
    }
  }

  lemma EnterKeepsBusy(o: Options, s: Store, request: Request, grant: Grant, now: Time, id: string)
    requires BusyMatched(s) && Admissible(o, s, request, grant)
    requires id !in s.reservations
    ensures BusyMatched(Enter(o, s, request, grant, now, id))
  {
    var t := Enter(o, s, request, grant, now, id);
    var key := IdempotencyKey(request.owner, LlmComplete, request.idempotencyKey);
    assert forall r, k :: Holds(t, r, k) <==> if r == id then k == key else Holds(s, r, k);
    forall k | k in t.idempotency && t.idempotency[k].state.OutcomeBusy?
      ensures exists r :: Holds(t, r, k)
    {
      if k == key {
        assert Holds(t, id, k);
      } else {
        var r :| Holds(s, r, k);
        assert Holds(t, r, k);
      }
    }
  }

  lemma EnterKeepsCap(o: Options, s: Store, request: Request, grant: Grant, now: Time, id: string)
    requires WithinCap(o, s) && Admissible(o, s, request, grant)
    requires id !in s.reservations
    ensures WithinCap(o, Enter(o, s, request, grant, now, id))
  {
    var t := Enter(o, s, request, grant, now, id);
    forall owner ensures OwnerWithin(o, t, owner) {
      assert OwnerWithin(o, s, owner);
      EnterLive(o, s, request, grant, now, id, owner);
      EnterPending(o, s, request, grant, now, id, owner);
    }
  }

  lemma EnterPending(o: Options, s: Store, request: Request, grant: Grant, now: Time, id: string, owner: Owner)
    requires Admissible(o, s, request, grant)
    requires id !in s.reservations
    ensures PendingIds(Enter(o, s, request, grant, now, id).reservations, owner)
         == PendingIds(s.reservations, owner)
            + (if owner == request.owner && Allocates(request.operation) then {id} else {})
  {
  }

  lemma EnterLive(o: Options, s: Store, request: Request, grant: Grant, now: Time, id: string, owner: Owner)
    requires Admissible(o, s, request, grant)
    ensures LiveIds(Enter(o, s, request, grant, now, id).contexts, owner) == LiveIds(s.contexts, owner)
  {
  }

  lemma EnterKeeps(o: Options, s: Store, request: Request, grant: Grant, now: Time, id: string)
    requires Inv(o, s) && Admissible(o, s, request, grant)
    requires id !in s.reservations
    ensures Inv(o, Enter(o, s, request, grant, now, id))
  {
    EnterKeepsShape(o, s, request, grant, now, id);
    EnterKeepsPins(o, s, request, grant, now, id);
    EnterKeepsBusy(o, s, request, grant, now, id);
    EnterKeepsCap(o, s, request, grant, now, id);
  }

  lemma EnterKeepsShape(o: Options, s: Store, request: Request, grant: Grant, now: Time, id: string)
    requires WellFormed(s) && Receipted(s) && Admissible(o, s, request, grant)
    ensures WellFormed(Enter(o, s, request, grant, now, id)) && Receipted(Enter(o, s, request, grant, now, id))
  {
  }

  lemma ReserveKeeps(o: Options, s: Store, request: Request, now: Time, drawn: Option<string>)
    requires Inv(o, s)
    requires drawn.Some? ==> drawn.value !in s.reservations
    ensures Inv(o, Reserve(o, s, request, now, drawn).0)
  {
    SweepKeeps(o, s, now);
    var u := Sweep(o, s, now);
    var admitted := Admit(o, u, request, now);
    if admitted.Ok? && drawn.Some? {
      AdmittedIsAdmissible(o, u, request, now, admitted.value);
      EnterKeeps(o, u, request, admitted.value, now, drawn.value);
    }
  }

  // ---- commit and abort ----------------------------------------------------

  /** A drawn context id is valid and new to the store. */
  lemma {:induction false} DrawnIdIsFree(contexts: map<string, ContextEntry>, draws: seq<Draw>)
    ensures NextContextId(contexts, draws).Ok? ==>
            && NextContextId(contexts, draws).value !in contexts
            && ValidContextId(NextContextId(contexts, draws).value)
            && Some(NextContextId(contexts, draws).value) in draws
  {
    if draws != [] && draws[0].Some? && draws[0].value in contexts {
      DrawnIdIsFree(contexts, draws[1..]);
    }
  }

  /** The store without `data`'s reservation, whose outcome is now settled. */
  ghost function Settled(s: Store, data: ReservationData, contexts: map<string, ContextEntry>, outcome: IdempotencyEntry)
    : Store
  {
    Store(contexts, s.idempotency[KeyOf(data) := outcome], s.reservations - {data.reservationId})
  }

  ghost predicate Current(s: Store, data: ReservationData) {
    data.reservationId in s.reservations && s.reservations[data.reservationId] == data
  }

  lemma SettledKeepsBusy(
    s: Store, data: ReservationData, contexts: map<string, ContextEntry>, outcome: IdempotencyEntry)
    requires BusyMatched(s) && Current(s, data)
    requires !outcome.state.OutcomeBusy?
    ensures BusyMatched(Settled(s, data, contexts, outcome))
  {
    var t := Settled(s, data, contexts, outcome);
    assert Holds(s, data.reservationId, KeyOf(data));
    forall r | r in t.reservations ensures KeyOf(t.reservations[r]) != KeyOf(data) {
      assert Holds(s, r, KeyOf(s.reservations[r]));
    }
    assert forall r, k :: Holds(t, r, k) ==> Holds(s, r, k);
    forall k | k in t.idempotency && t.idempotency[k].state.OutcomeBusy?
      ensures exists r :: Holds(t, r, k)
    {
      var r :| Holds(s, r, k);
      assert Holds(t, r, k);
    }
  }

  /** The context a commit or abort may write: the one its own reservation pinned, or a new one. */
  ghost predicate OwnContext(s: Store, data: ReservationData, id: string) {
    if Allocates(data.request.operation) then id !in s.contexts else data.request.contextId == Some(id)
  }

  lemma SettledKeepsPins(
    s: Store, data: ReservationData, id: string, entry: ContextEntry, outcome: IdempotencyEntry)
    requires WellFormed(s) && PinsHold(s) && Current(s, data)
    requires OwnContext(s, data, id) && entry.reservationId.None?
    ensures PinsHold(Settled(s, data, s.contexts[id := entry], outcome))
  {
    var t := Settled(s, data, s.contexts[id := entry], outcome);
    forall r | r in t.reservations && !Allocates(t.reservations[r].request.operation)
      ensures Pinned(t.contexts, t.reservations[r])
    {
      assert Pinned(s.contexts, s.reservations[r]);
      assert !Allocates(data.request.operation) ==> Pinned(s.contexts, data);
    }
    forall other | other in t.contexts && t.contexts[other].reservationId.Some?
      ensures PinnedBy(t.reservations, other, t.contexts[other].reservationId.value)
    {
      assert PinnedBy(s.reservations, other, s.contexts[other].reservationId.value);
      assert !Allocates(data.request.operation) ==> Pinned(s.contexts, data);
    }
  }

  lemma CommitKeepsCap(o: Options, s: Store, data: ReservationData, entry: ContextEntry, now: Time)
    requires WithinCap(o, s) && Current(s, data)
    requires entry.owner == data.request.owner
    requires Allocates(data.request.operation) ==> entry.contextId !in s.contexts
    requires !Allocates(data.request.operation) ==>
               && entry.contextId in s.contexts
               && s.contexts[entry.contextId].state.Active?
               && s.contexts[entry.contextId].owner == entry.owner
    ensures WithinCap(o, Settle(o, s, data, entry, now).0)
  {
    var t := Settle(o, s, data, entry, now).0;
    forall owner ensures OwnerWithin(o, t, owner) {
      assert OwnerWithin(o, s, owner);
      var pending := PendingIds(s.reservations, owner);
      if owner == data.request.owner && Allocates(data.request.operation) {
        assert PendingIds(t.reservations, owner) == pending - {data.reservationId};
        SubsetSize(LiveIds(t.contexts, owner), LiveIds(s.contexts, owner) + {entry.contextId});
      } else {
        assert PendingIds(t.reservations, owner) == pending;
        FewerIsWithin(o, s, t, owner);
      }
    }
  }

  lemma CommitKeeps(o: Options, s: Store, handle: Reservation, assistant: Message, now: Time, draws: seq<Draw>)
    requires Inv(o, s)
    ensures Inv(o, Commit(o, s, handle, assistant, now, draws).0)
  {
    var (t, r) := Commit(o, s, handle, assistant, now, draws);
    if r.Ok? {
      var data := s.reservations[handle.reservationId];
      var entry := Resolve(s, data, assistant, now, draws).value;
      DrawnIdIsFree(s.contexts, draws);
      assert !Allocates(data.request.operation) ==> Pinned(s.contexts, data);
      var outcome := t.idempotency[KeyOf(data)];
      assert t == Settled(s, data, s.contexts[entry.contextId := entry], outcome);
      SettledKeepsBusy(s, data, s.contexts[entry.contextId := entry], outcome);
      SettledKeepsPins(s, data, entry.contextId, entry, outcome);
      CommitKeepsCap(o, s, data, entry, now);
    }
  }

  lemma DropKeepsPins(o: Options, s: Store, data: ReservationData, errorCode: Option<string>, now: Time)
    requires WellFormed(s) && PinsHold(s) && Current(s, data)
    ensures PinsHold(Drop(o, s, data, errorCode, now))
  {
    var t := Drop(o, s, data, errorCode, now);
    if Allocates(data.request.operation) {
      assert Unpin(s.contexts, data) == s.contexts;
    } else {
      assert Pinned(s.contexts, data);
      var id := data.request.contextId.value;
      SettledKeepsPins(s, data, id, s.contexts[id].(reservationId := None), t.idempotency[KeyOf(data)]);
      assert t == Settled(s, data, s.contexts[id := s.contexts[id].(reservationId := None)], t.idempotency[KeyOf(data)]);
    }
  }

  lemma DropKeepsCap(o: Options, s: Store, data: ReservationData, errorCode: Option<string>, now: Time)
    requires WithinCap(o, s)
    ensures WithinCap(o, Drop(o, s, data, errorCode, now))
  {
    var t := Drop(o, s, data, errorCode, now);
    forall owner ensures OwnerWithin(o, t, owner) {
      assert OwnerWithin(o, s, owner);
      FewerIsWithin(o, s, t, owner);
    }
  }

  lemma AbortKeeps(o: Options, s: Store, handle: Reservation, errorCode: Option<string>, now: Time)
    requires Inv(o, s)
    ensures Inv(o, Abort(o, s, handle, errorCode, now).0)
  {
    if handle.reservationId in s.reservations {
      var data := s.reservations[handle.reservationId];
      var t := Drop(o, s, data, errorCode, now);
      DropKeepsPins(o, s, data, errorCode, now);
      DropKeepsCap(o, s, data, errorCode, now);
      SettledKeepsBusy(s, data, t.contexts, t.idempotency[KeyOf(data)]);
      assert t == Settled(s, data, t.contexts, t.idempotency[KeyOf(data)]);
      assert Inv(o, t);
      SweepKeeps(o, t, now);
    }
  }

  // ---- release -------------------------------------------------------------

  /** Rewriting one unreserved context and one settled outcome, as a release does. */
  ghost function Rewritten(s: Store, id: string, entry: ContextEntry, key: IdempotencyKey, outcome: IdempotencyEntry)
    : Store
  {
    Store(s.contexts[id := entry], s.idempotency[key := outcome], s.reservations)
  }

  lemma RewrittenKeeps(
    o: Options, s: Store, id: string, entry: ContextEntry, key: IdempotencyKey, outcome: IdempotencyEntry)
    requires Inv(o, s)
    requires id in s.contexts && s.contexts[id].reservationId.None?
    requires entry.contextId == id && entry.state.Released? && entry.reservationId.None?
    requires key !in s.idempotency && outcome.state.OutcomeCompleted? && outcome.receipt.Some?
    ensures Inv(o, Rewritten(s, id, entry, key, outcome))
  {
    RewrittenKeepsPins(s, id, entry, key, outcome);
    RewrittenKeepsBusy(s, id, entry, key, outcome);
    var t := Rewritten(s, id, entry, key, outcome);
    forall owner ensures OwnerWithin(o, t, owner) {
      assert OwnerWithin(o, s, owner);
      FewerIsWithin(o, s, t, owner);
    }
  }

  lemma RewrittenKeepsPins(
    s: Store, id: string, entry: ContextEntry, key: IdempotencyKey, outcome: IdempotencyEntry)
    requires PinsHold(s)
    requires id in s.contexts && s.contexts[id].reservationId.None? && entry.reservationId.None?
    ensures PinsHold(Rewritten(s, id, entry, key, outcome))
  {
    var t := Rewritten(s, id, entry, key, outcome);
    forall r | r in t.reservations && !Allocates(t.reservations[r].request.operation)
      ensures Pinned(t.contexts, t.reservations[r])
    {
      assert Pinned(s.contexts, s.reservations[r]);
    }
  }

  lemma RewrittenKeepsBusy(
    s: Store, id: string, entry: ContextEntry, key: IdempotencyKey, outcome: IdempotencyEntry)
    requires BusyMatched(s)
    requires key !in s.idempotency && outcome.state.OutcomeCompleted?
    ensures BusyMatched(Rewritten(s, id, entry, key, outcome))
  {
    var t := Rewritten(s, id, entry, key, outcome);
    assert forall r, k :: Holds(t, r, k) == Holds(s, r, k);
    forall k | k in t.idempotency && t.idempotency[k].state.OutcomeBusy?
      ensures exists r :: Holds(t, r, k)
    {
      var r :| Holds(s, r, k);
      assert Holds(t, r, k);
    }
  }

  lemma ReleaseKeeps(
    o: Options, s: Store, owner: Owner, contextId: string, baseVersion: nat, key: string, now: Time)
    requires Inv(o, s)
    ensures Inv(o, ReleaseContext(o, s, owner, contextId, baseVersion, key, now).0)
  {
    SweepKeeps(o, s, now);
    var u := Sweep(o, s, now);
    var t := ReleaseContext(o, s, owner, contextId, baseVersion, key, now).0;
    if JudgeRelease(o, u, owner, contextId, baseVersion, key).Proceed? {
      var k := IdempotencyKey(owner, LlmContextRelease, key);
      RewrittenKeeps(o, u, contextId, t.contexts[contextId], k, t.idempotency[k]);
      assert t == Rewritten(u, contextId, t.contexts[contextId], k, t.idempotency[k]);
    }
  }
}
