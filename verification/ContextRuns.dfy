/**
 Whole runs of the context store: any interleaving of its calls, with a log of what was
 committed. The reference is `History`, a sequential replay of that log that knows
 nothing of reservations, sweeps or clocks.
 */
module LlmContextRuns {
  import opened Wrappers
  import opened Text
  import opened LlmContextModel
  import opened LlmContextInvariants

  // ---- the reference: a sequential log -------------------------------------

  /**
   One committed step of one context. A fork also records its parent and how long the
   log was when the fork was reserved.
   */
  datatype LogEntry = LogEntry(
    contextId: string,
    operation: Operation,
    delta: seq<Message>,
    parent: Option<string>,
    reservedAt: nat)

  datatype Life = Life(version: nat, transcript: seq<Message>)

  function TranscriptIn(lives: map<string, Life>, id: Option<string>): seq<Message> {
    if id.Some? && id.value in lives then lives[id.value].transcript else []
  }

  /** One log entry applied to the lives before it; `base` is what a fork starts from. */
  function Apply(lives: map<string, Life>, base: seq<Message>, e: LogEntry): map<string, Life> {
    match e.operation
    case Create => lives[e.contextId := Life(1, e.delta)]
    case Fork => lives[e.contextId := Life(1, base + e.delta)]
    case Append => Advance(lives, e.contextId, TranscriptIn(lives, Some(e.contextId)) + e.delta)
    case Reset => Advance(lives, e.contextId, e.delta)
    case Release => Advance(lives, e.contextId, TranscriptIn(lives, Some(e.contextId)))
  }

  function Advance(lives: map<string, Life>, id: string, transcript: seq<Message>): map<string, Life> {
    if id in lives then lives[id := Life(lives[id].version + 1, transcript)] else lives
  }

  /**
   Replays the log one step at a time, each step seeing only the steps before it; a fork
   starts from its parent's transcript as the log stood when the fork was reserved.
   */
  function History(log: seq<LogEntry>): map<string, Life>
    decreases |log|
  {
    if log == [] then
      map[]
    else
      var e := log[|log| - 1];
      var base := if e.reservedAt < |log| then TranscriptIn(History(log[..e.reservedAt]), e.parent) else [];
      Apply(History(log[..|log| - 1]), base, e)
  }

  lemma {:induction false} HistoryExtends(log: seq<LogEntry>, e: LogEntry)
    requires e.reservedAt <= |log|
    ensures History(log + [e]) == Apply(History(log), TranscriptIn(History(log[..e.reservedAt]), e.parent), e)
  {
    var longer := log + [e];
    assert longer[..|longer| - 1] == log && longer[..e.reservedAt] == log[..e.reservedAt];
  }

  /** The log positions after `b` that committed to `id`. */
  function CommitsAfter(log: seq<LogEntry>, id: string, b: nat): set<nat> {
    set k | b < k < |log| && log[k].contextId == id
  }

  // ---- runs ----------------------------------------------------------------

  datatype Call =
    | CallReserve(request: Request, now: Time, drawn: Option<string>)
    | CallCommit(handle: Reservation, assistant: Message, now: Time, draws: seq<Draw>)
    | CallAbort(handle: Reservation, errorCode: Option<string>, now: Time)
    | CallRelease(owner: Owner, contextId: string, baseVersion: nat, key: string, now: Time)
    | CallQuery(now: Time)  // status, snapshot and sweep_expired only sweep

  datatype Outcome =
    | Reserved(reservation: Reservation)
    | Committed(receipt: Receipt)
    | Aborted
    | ReleasedWith(receipt: Receipt)
    | Swept
    | Refused(error: Error)

  function Step(o: Options, s: Store, call: Call): (Store, Outcome)
  {
    match call
    case CallReserve(request, now, drawn) =>
      var (t, r) := Reserve(o, s, request, now, drawn);
      (t, if r.Ok? then Reserved(r.value) else Refused(r.error))
    case CallCommit(handle, assistant, now, draws) =>
      var (t, r) := Commit(o, s, handle, assistant, now, draws);
      (t, if r.Ok? then Committed(r.value) else Refused(r.error))
    case CallAbort(handle, errorCode, now) =>
      var (t, r) := Abort(o, s, handle, errorCode, now);
      (t, if r.Ok? then Aborted else Refused(r.error))
    case CallRelease(owner, contextId, baseVersion, key, now) =>
      var (t, r) := ReleaseContext(o, s, owner, contextId, baseVersion, key, now);
      (t, if r.Ok? then ReleasedWith(r.value) else Refused(r.error))
    case CallQuery(now) => (Sweep(o, s, now), Swept)
  }

  /** The store, the log of its commits, and the log length at which each fork was reserved. */
  datatype World = World(store: Store, log: seq<LogEntry>, reservedAt: map<string, nat>)

  const GENESIS := World(EMPTY_STORE, [], map[])

  /** The random source never repeats an id that is still in use. */
  ghost predicate Allowed(w: World, call: Call) {
    call.CallReserve? && call.drawn.Some? ==> call.drawn.value !in w.store.reservations
  }

  function ReservedAt(w: World, r: string): nat {
    if r in w.reservedAt then w.reservedAt[r] else 0
  }

  /** The log entries a call adds: one per successful commit and one per first release. */
  function Logged(o: Options, w: World, call: Call): seq<LogEntry>
  {
    var out := Step(o, w.store, call).1;
    match call
    case CallCommit(handle, assistant, now, draws) =>
      if out.Committed? && handle.reservationId in w.store.reservations then
        var data := w.store.reservations[handle.reservationId];
        [LogEntry(
           out.receipt.contextId, data.request.operation, data.request.messages + [assistant],
           data.parentContextId, ReservedAt(w, handle.reservationId))]
      else
        []
    case CallRelease(owner, contextId, baseVersion, key, now) =>
      if out.ReleasedWith?
         && IdempotencyKey(owner, LlmContextRelease, key) !in Sweep(o, w.store, now).idempotency
      then
        [LogEntry(contextId, Release, [], None, 0)]
      else
        []
    case _ => []
  }

  function Next(o: Options, w: World, call: Call): World
  {
    var (t, out) := Step(o, w.store, call);
    World(
      t,
      w.log + Logged(o, w, call),
      if out.Reserved? then w.reservedAt[out.reservation.reservationId := |w.log|] else w.reservedAt)
  }

  /** Every live, expired or released context still in the store is exactly its replayed history. */
  ghost predicate Replayed(contexts: map<string, ContextEntry>, log: seq<LogEntry>) {
    forall id :: id in contexts ==>
      id in History(log) && History(log)[id] == Life(contexts[id].version, contexts[id].transcript)
  }

  /** A fork reservation holds its parent's transcript as it was when the fork was reserved. */
  ghost predicate ForkSnapshot(w: World, r: string)
    requires r in w.store.reservations
  {
    var data := w.store.reservations[r];
    data.request.operation.Fork? ==>
      && r in w.reservedAt
      && w.reservedAt[r] <= |w.log|
      && data.parentContextId == data.request.contextId
      && data.parentVersion == data.request.baseVersion
      && data.parentContextId.Some?
      && data.parentVersion.Some?
      && data.parentContextId.value in History(w.log[..w.reservedAt[r]])
      && History(w.log[..w.reservedAt[r]])[data.parentContextId.value]
         == Life(data.parentVersion.value, data.baseTranscript)
  }

  ghost predicate StampsInLog(w: World) {
    forall r :: r in w.reservedAt ==> w.reservedAt[r] <= |w.log|
  }

  ghost predicate WorldInv(o: Options, w: World) {
    && Inv(o, w.store)
    && Replayed(w.store.contexts, w.log)
    && (forall r :: r in w.store.reservations ==> ForkSnapshot(w, r))
    && StampsInLog(w)
  }

  ghost predicate IsRun(o: Options, ws: seq<World>, calls: seq<Call>) {
    && |ws| == |calls| + 1
    && ws[0] == GENESIS
    && forall i :: 0 <= i < |calls| ==>
         Allowed(ws[i], calls[i]) && ws[i + 1] == Next(o, ws[i], calls[i])
  }

  // ---- one step ------------------------------------------------------------

  lemma StepKeepsInv(o: Options, w: World, call: Call)
    requires Inv(o, w.store) && Allowed(w, call)
    ensures Inv(o, Next(o, w, call).store)
  {
    match call
    case CallReserve(request, now, drawn) => ReserveKeeps(o, w.store, request, now, drawn);
    case CallCommit(handle, assistant, now, draws) => CommitKeeps(o, w.store, handle, assistant, now, draws);
    case CallAbort(handle, errorCode, now) => AbortKeeps(o, w.store, handle, errorCode, now);
    case CallRelease(owner, contextId, baseVersion, key, now) =>
      ReleaseKeeps(o, w.store, owner, contextId, baseVersion, key, now);
    case CallQuery(now) => SweepKeeps(o, w.store, now);
  }

  /** Contexts that only lost members or changed outside version and transcript are still replayed. */
  lemma StillReplayed(before: map<string, ContextEntry>, after: map<string, ContextEntry>, log: seq<LogEntry>)
    requires Replayed(before, log)
    requires forall id :: id in after ==>
      id in before && after[id].version == before[id].version && after[id].transcript == before[id].transcript
    ensures Replayed(after, log)
  {
  }

  lemma ReserveReplayed(o: Options, w: World, request: Request, now: Time, drawn: Option<string>)
    requires WorldInv(o, w)
    requires Allowed(w, CallReserve(request, now, drawn))
    ensures Replayed(Reserve(o, w.store, request, now, drawn).0.contexts, w.log)
  {
    var u := Sweep(o, w.store, now);
    SweepKeeps(o, w.store, now);
    StillReplayed(w.store.contexts, u.contexts, w.log);
    var admitted := Admit(o, u, request, now);
    if admitted.Ok? && drawn.Some? {
      AdmittedIsAdmissible(o, u, request, now, admitted.value);
      StillReplayed(u.contexts, Enter(o, u, request, admitted.value, now, drawn.value).contexts, w.log);
    }
  }

  lemma ReserveSnapshots(o: Options, w: World, request: Request, now: Time, drawn: Option<string>)
    requires WorldInv(o, w)
    requires Allowed(w, CallReserve(request, now, drawn))
    ensures var next := Next(o, w, CallReserve(request, now, drawn));
            forall r :: r in next.store.reservations ==> ForkSnapshot(next, r)
  {
    var next := Next(o, w, CallReserve(request, now, drawn));
    forall r | r in next.store.reservations ensures ForkSnapshot(next, r) {
      if r in w.store.reservations {
        assert ForkSnapshot(w, r) && next.log == w.log + [] == w.log;
      } else {
        assert drawn == Some(r);
        NewSnapshot(o, w, request, now, r);
      }
    }
  }

  /** The reservation just made holds the transcript its parent has at the end of the log. */
  lemma NewSnapshot(o: Options, w: World, request: Request, now: Time, id: string)
    requires WorldInv(o, w) && id !in w.store.reservations
    requires Admit(o, Sweep(o, w.store, now), request, now).Ok?
    ensures ForkSnapshot(Next(o, w, CallReserve(request, now, Some(id))), id)
  {
    var u := Sweep(o, w.store, now);
    StillReplayed(w.store.contexts, u.contexts, w.log);
    SweepKeeps(o, w.store, now);
    assert w.log[..|w.log|] == w.log && w.log + [] == w.log;
    GrantedFork(o, u, request, now, Admit(o, u, request, now).value);
  }

  lemma GrantedFork(o: Options, s: Store, request: Request, now: Time, grant: Grant)
    requires WellFormed(s) && Receipted(s)
    requires Admit(o, s, request, now) == Ok(grant)
    ensures request.operation.Fork? ==>
              && request.contextId.Some?
              && request.contextId.value in s.contexts
              && grant.parentContextId == request.contextId
              && grant.parentVersion == request.baseVersion == Some(s.contexts[request.contextId.value].version)
              && grant.baseTranscript == s.contexts[request.contextId.value].transcript
  {
  }

  /** Extending the log leaves the replay of its earlier part alone. */
  lemma SnapshotsSurvive(w: World, next: World)
    requires forall r :: r in w.store.reservations ==> ForkSnapshot(w, r)
    requires next.reservedAt == w.reservedAt && w.log <= next.log
    requires forall r :: r in next.store.reservations ==>
      r in w.store.reservations && next.store.reservations[r] == w.store.reservations[r]
    ensures forall r :: r in next.store.reservations ==> ForkSnapshot(next, r)
  {
    forall r | r in next.store.reservations ensures ForkSnapshot(next, r) {
      assert ForkSnapshot(w, r);
      if w.store.reservations[r].request.operation.Fork? {
        assert next.log[..w.reservedAt[r]] == w.log[..w.reservedAt[r]];
      }
    }
  }

  lemma CommitReplayed(o: Options, w: World, handle: Reservation, assistant: Message, now: Time, draws: seq<Draw>)
    requires WorldInv(o, w)
    ensures var next := Next(o, w, CallCommit(handle, assistant, now, draws));
            Replayed(next.store.contexts, next.log)
  {
    var call := CallCommit(handle, assistant, now, draws);
    var next := Next(o, w, call);
    if Step(o, w.store, call).1.Committed? {
      var data := w.store.reservations[handle.reservationId];
      var entry := Resolve(w.store, data, assistant, now, draws).value;
      assert ForkSnapshot(w, handle.reservationId);
      CommitAdvances(w, data, entry, assistant, now, next.log);
    } else {
      assert next.log == w.log;
    }
  }

  /** The replay gains exactly the committed entry. */
  lemma CommitAdvances(
    w: World, data: ReservationData, entry: ContextEntry, assistant: Message, now: Time, log: seq<LogEntry>)
    requires Replayed(w.store.contexts, w.log)
    requires data.reservationId in w.store.reservations && w.store.reservations[data.reservationId] == data
    requires ForkSnapshot(w, data.reservationId)
    requires !data.request.operation.Release? && ReservedAt(w, data.reservationId) <= |w.log|
    requires log == w.log + [LogEntry(
                      entry.contextId, data.request.operation, data.request.messages + [assistant],
                      data.parentContextId, ReservedAt(w, data.reservationId))]
    requires Allocates(data.request.operation) ==> entry == BornEntry(data, entry.contextId, assistant, now)
    requires !Allocates(data.request.operation) ==>
      entry.contextId in w.store.contexts
      && entry == AdvancedEntry(data, w.store.contexts[entry.contextId], assistant, now)
    ensures Replayed(w.store.contexts[entry.contextId := entry], log)
  {
    var e := log[|w.log|];
    HistoryExtends(w.log, e);
    var base := TranscriptIn(History(w.log[..e.reservedAt]), e.parent);
    var lives := History(w.log);
    match data.request.operation
    case Create => assert entry.transcript == e.delta;
    case Fork => assert entry.transcript == base + e.delta;
    case Append => assert entry.transcript == lives[entry.contextId].transcript + e.delta;
    case Reset => assert entry.transcript == e.delta;
  }

  lemma ReleaseReplayed(
    o: Options, w: World, owner: Owner, contextId: string, baseVersion: nat, key: string, now: Time)
    requires WorldInv(o, w)
    ensures var next := Next(o, w, CallRelease(owner, contextId, baseVersion, key, now));
            Replayed(next.store.contexts, next.log)
  {
    var u := Sweep(o, w.store, now);
    var next := Next(o, w, CallRelease(owner, contextId, baseVersion, key, now));
    StillReplayed(w.store.contexts, u.contexts, w.log);
    var verdict := JudgeRelease(o, u, owner, contextId, baseVersion, key);
    if verdict.Proceed? {
      ReleaseAdvances(u.contexts, w.log, contextId, ReleasedEntry(o, verdict.entry, now));
    } else {
      assert next.log == w.log;
    }
  }

  lemma ReleaseAdvances(contexts: map<string, ContextEntry>, log: seq<LogEntry>, id: string, released: ContextEntry)
    requires Replayed(contexts, log) && id in contexts
    requires released.version == contexts[id].version + 1 && released.transcript == contexts[id].transcript
    ensures Replayed(contexts[id := released], log + [LogEntry(id, Release, [], None, 0)])
  {
    HistoryExtends(log, LogEntry(id, Release, [], None, 0));
  }

  lemma AbortReplayed(o: Options, w: World, handle: Reservation, errorCode: Option<string>, now: Time)
    requires WorldInv(o, w)
    ensures Replayed(Abort(o, w.store, handle, errorCode, now).0.contexts, w.log)
  {
    if handle.reservationId in w.store.reservations {
      var dropped := Drop(o, w.store, w.store.reservations[handle.reservationId], errorCode, now);
      StillReplayed(w.store.contexts, dropped.contexts, w.log);
      StillReplayed(dropped.contexts, Sweep(o, dropped, now).contexts, w.log);
    }
  }

  lemma StepReplays(o: Options, w: World, call: Call)
    requires WorldInv(o, w) && Allowed(w, call)
    ensures Replayed(Next(o, w, call).store.contexts, Next(o, w, call).log)
  {
    assert w.log + [] == w.log;
    match call
    case CallReserve(request, now, drawn) => ReserveReplayed(o, w, request, now, drawn);
    case CallCommit(handle, assistant, now, draws) => CommitReplayed(o, w, handle, assistant, now, draws);
    case CallAbort(handle, errorCode, now) => AbortReplayed(o, w, handle, errorCode, now);
    case CallRelease(owner, contextId, baseVersion, key, now) =>
      ReleaseReplayed(o, w, owner, contextId, baseVersion, key, now);
    case CallQuery(now) => StillReplayed(w.store.contexts, Next(o, w, call).store.contexts, w.log);
  }

  lemma StepKeepsSnapshots(o: Options, w: World, call: Call)
    requires WorldInv(o, w) && Allowed(w, call)
    ensures var next := Next(o, w, call);
            forall r :: r in next.store.reservations ==> ForkSnapshot(next, r)
  {
    if call.CallReserve? {
      ReserveSnapshots(o, w, call.request, call.now, call.drawn);
    } else {
      SnapshotsSurvive(w, Next(o, w, call));
    }
  }

  lemma StepKeeps(o: Options, w: World, call: Call)
    requires WorldInv(o, w) && Allowed(w, call)
    ensures WorldInv(o, Next(o, w, call))
  {
    StepKeepsInv(o, w, call);
    StepReplays(o, w, call);
    StepKeepsSnapshots(o, w, call);
  }

  // ---- every run -----------------------------------------------------------

  /** The store's own invariant, along any run. */
  lemma {:induction false} ReachableStore(o: Options, ws: seq<World>, calls: seq<Call>, i: nat)
    requires IsRun(o, ws, calls) && i < |ws|
    ensures Inv(o, ws[i].store)
  {
    if i == 0 {
      forall owner ensures OwnerWithin(o, EMPTY_STORE, owner) {
        assert LiveIds(EMPTY_STORE.contexts, owner) == {} && PendingIds(EMPTY_STORE.reservations, owner) == {};
      }
      assert forall r, k :: !Holds(EMPTY_STORE, r, k);
    } else {
      ReachableStore(o, ws, calls, i - 1);
      StepKeepsInv(o, ws[i - 1], calls[i - 1]);
    }
  }

  /**
   Safety over whole runs: in every state any interleaving of calls can reach, every
   context equals its replayed history, every append or reset reservation pins its
   context, busy outcomes match reservations one to one and no owner is over the cap.
   */
  lemma {:induction false} EveryReachableState(o: Options, ws: seq<World>, calls: seq<Call>, i: nat)
    requires IsRun(o, ws, calls) && i < |ws|
    ensures WorldInv(o, ws[i])
  {
    ReachableStore(o, ws, calls, i);
    if i > 0 {
      EveryReachableState(o, ws, calls, i - 1);
      StepKeeps(o, ws[i - 1], calls[i - 1]);
    }
  }

  predicate Settles(call: Call, r: string) {
    (call.CallCommit? || call.CallAbort?) && call.handle.reservationId == r
  }

  /** One step that does not settle a reservation leaves it alone. */
  lemma ReservationSurvivesStep(o: Options, w: World, call: Call, r: string)
    requires Inv(o, w.store) && Allowed(w, call)
    requires r in w.store.reservations && !Settles(call, r)
    ensures r in Next(o, w, call).store.reservations
    ensures Next(o, w, call).store.reservations[r] == w.store.reservations[r]
  {
  }

  lemma ReservationSurvivesTurn(o: Options, ws: seq<World>, calls: seq<Call>, k: nat, r: string)
    requires IsRun(o, ws, calls) && k < |calls| && !Settles(calls[k], r)
    requires r in ws[k].store.reservations
    ensures r in ws[k + 1].store.reservations && ws[k + 1].store.reservations[r] == ws[k].store.reservations[r]
  {
    ReachableStore(o, ws, calls, k);
    ReservationSurvivesStep(o, ws[k], calls[k], r);
  }

  /** The key of an open reservation is busy, and an append or reset holds its context. */
  ghost predicate Standing(s: Store, data: ReservationData) {
    && KeyOf(data) in s.idempotency && s.idempotency[KeyOf(data)].state.OutcomeBusy?
    && (!Allocates(data.request.operation) ==> Pinned(s.contexts, data))
  }

  lemma HeldIsStanding(o: Options, ws: seq<World>, calls: seq<Call>, j: nat, r: string)
    requires IsRun(o, ws, calls) && j < |ws| && r in ws[j].store.reservations
    ensures Standing(ws[j].store, ws[j].store.reservations[r])
  {
    ReachableStore(o, ws, calls, j);
  }

  /**
   A reservation of any kind lasts until its own commit or abort, whatever is called meanwhile: its
   key stays busy, and the context of an append or reset stays pinned at the version it saw.
   */
  lemma {:induction false} ReservationSurvives(o: Options, ws: seq<World>, calls: seq<Call>, i: nat, j: nat, r: string)
    requires IsRun(o, ws, calls) && i <= j < |ws|
    requires r in ws[i].store.reservations
    requires forall k :: i <= k < j ==> !Settles(calls[k], r)
    ensures r in ws[j].store.reservations && ws[j].store.reservations[r] == ws[i].store.reservations[r]
    ensures Standing(ws[j].store, ws[j].store.reservations[r])
    decreases j
  {
    if i < j {
      ReservationSurvives(o, ws, calls, i, j - 1, r);
      ReservationSurvivesTurn(o, ws, calls, j - 1, r);
    }
    HeldIsStanding(o, ws, calls, j, r);
  }

  /** What a granted append or reset has seen and recorded. */
  lemma MutationGranted(o: Options, s: Store, request: Request, now: Time, drawn: Option<string>)
    requires Inv(o, s) && !Allocates(request.operation)
    requires Reserve(o, s, request, now, drawn).1.Ok?
    ensures var (t, r) := Reserve(o, s, request, now, drawn);
            && request.contextId.Some? && request.contextId.value in s.contexts
            && var entry := s.contexts[request.contextId.value];
            && request.baseVersion == Some(entry.version)
            && r.value.reservationId in t.reservations
            && t.reservations[r.value.reservationId].request == request
            && t.reservations[r.value.reservationId].baseTranscript == entry.transcript
  {
    SweepKeeps(o, s, now);
    var u := Sweep(o, s, now);
    AdmittedIsAdmissible(o, u, request, now, Admit(o, u, request, now).value);
  }

  /** What a mutation builds on: a reset starts afresh. */
  function Kept(operation: Operation, transcript: seq<Message>): seq<Message> {
    if operation.Reset? then [] else transcript
  }

  lemma PinnedMutationCommits(
    o: Options, s: Store, handle: Reservation, assistant: Message, now: Time, draws: seq<Draw>)
    requires WellFormed(s) && handle.reservationId in s.reservations
    requires !Allocates(s.reservations[handle.reservationId].request.operation)
    requires Pinned(s.contexts, s.reservations[handle.reservationId])
    ensures var data := s.reservations[handle.reservationId];
            var id := data.request.contextId.value;
            var (t, r) := Commit(o, s, handle, assistant, now, draws);
            && r.Ok? && id in t.contexts
            && Some(t.contexts[id].version - 1) == data.request.baseVersion
            && r.value.version == t.contexts[id].version
            && t.contexts[id].transcript
               == Kept(data.request.operation, data.baseTranscript) + data.request.messages + [assistant]
            && (data.request.operation.Reset? ==> t.contexts[id].binding == data.request.binding)
  {
    var data := s.reservations[handle.reservationId];
    assert [] + data.request.messages == data.request.messages;
  }

  /**
   No update is lost: whatever other calls come between the reservation of an append or reset and
   its commit, the commit advances the very version the reservation saw; an append extends the
   transcript it saw, a reset replaces transcript and binding.
   */
  lemma NoUpdateIsLost(o: Options, ws: seq<World>, calls: seq<Call>, i: nat, j: nat)
    requires IsRun(o, ws, calls) && i < j < |calls|
    requires calls[i].CallReserve? && !Allocates(calls[i].request.operation)
    requires Step(o, ws[i].store, calls[i]).1.Reserved?
    requires calls[j].CallCommit? && calls[j].handle == Step(o, ws[i].store, calls[i]).1.reservation
    requires forall k :: i < k < j ==> !Settles(calls[k], calls[j].handle.reservationId)
    ensures var request, id := calls[i].request, calls[i].request.contextId.value;
            && id in ws[i].store.contexts && id in ws[j + 1].store.contexts
            && var before, after := ws[i].store.contexts[id], ws[j + 1].store.contexts[id];
            && Step(o, ws[j].store, calls[j]).1.Committed?
            && Step(o, ws[j].store, calls[j]).1.receipt.version == after.version == before.version + 1
            && Some(before.version) == request.baseVersion
            && after.transcript == Kept(request.operation, before.transcript) + request.messages + [calls[j].assistant]
            && (request.operation.Reset? ==> after.binding == request.binding)
  {
    ReachableStore(o, ws, calls, i);
    MutationGranted(o, ws[i].store, calls[i].request, calls[i].now, calls[i].drawn);
    ReservationSurvives(o, ws, calls, i + 1, j, calls[j].handle.reservationId);
    ReachableStore(o, ws, calls, j);
    PinnedMutationCommits(o, ws[j].store, calls[j].handle, calls[j].assistant, calls[j].now, calls[j].draws);
  }

  // ---- outcomes ------------------------------------------------------------

  /** A settled outcome changes only by a sweep whose clock has reached its retention time. */
  lemma OutcomeSurvivesStep(o: Options, w: World, call: Call, key: IdempotencyKey)
    requires Inv(o, w.store) && Allowed(w, call)
    requires key in w.store.idempotency && w.store.idempotency[key].state.OutcomeCompleted?
    requires w.store.idempotency[key].retainUntil > call.now
    ensures key in Next(o, w, call).store.idempotency
    ensures Next(o, w, call).store.idempotency[key] == w.store.idempotency[key]
  {
    var s := w.store;
    match call
    case CallReserve(request, now, drawn) =>
    case CallCommit(handle, assistant, now, draws) =>
      if handle.reservationId in s.reservations {
        assert KeyOf(s.reservations[handle.reservationId]) != key;
      }
    case CallAbort(handle, errorCode, now) =>
      if handle.reservationId in s.reservations {
        assert KeyOf(s.reservations[handle.reservationId]) != key;
      }
    case CallRelease(owner, contextId, baseVersion, k, now) =>
    case CallQuery(now) =>
  }

  /** The call commits the reservation made under this key. */
  predicate CommitsKey(o: Options, s: Store, call: Call, key: IdempotencyKey)
  {
    && call.CallCommit?
    && Step(o, s, call).1.Committed?
    && call.handle.reservationId in s.reservations
    && KeyOf(s.reservations[call.handle.reservationId]) == key
  }

  lemma {:induction false} OutcomeSurvives(
    o: Options, ws: seq<World>, calls: seq<Call>, i: nat, j: nat, key: IdempotencyKey)
    requires IsRun(o, ws, calls) && i <= j < |ws|
    requires key in ws[i].store.idempotency && ws[i].store.idempotency[key].state.OutcomeCompleted?
    requires forall k :: i <= k < j ==> calls[k].now < ws[i].store.idempotency[key].retainUntil
    ensures key in ws[j].store.idempotency && ws[j].store.idempotency[key] == ws[i].store.idempotency[key]
    decreases j
  {
    if i < j {
      OutcomeSurvives(o, ws, calls, i, j - 1, key);
      ReachableStore(o, ws, calls, j - 1);
      OutcomeSurvivesStep(o, ws[j - 1], calls[j - 1], key);
    }
  }

  /** At most one commit per key for as long as its outcome is retained, on any run. */
  lemma NoKeyCommitsTwice(o: Options, ws: seq<World>, calls: seq<Call>, i: nat, j: nat, key: IdempotencyKey)
    requires IsRun(o, ws, calls) && i < j < |calls|
    requires CommitsKey(o, ws[i].store, calls[i], key)
    requires forall k :: i < k < j ==> calls[k].now < calls[i].now + o.idempotencyTtl
    ensures !CommitsKey(o, ws[j].store, calls[j], key)
  {
    OutcomeSurvives(o, ws, calls, i + 1, j, key);
    ReachableStore(o, ws, calls, j);
    assert BusyMatched(ws[j].store);
  }

  /** Asking for a key's status answers busy exactly while a reservation under that key is open. */
  lemma BusyMeansReserved(o: Options, ws: seq<World>, calls: seq<Call>, i: nat, owner: Owner, key: string)
    requires IsRun(o, ws, calls) && i < |ws|
    ensures (StatusOf(ws[i].store, owner, None, Some(key)).Ok?
             && StatusOf(ws[i].store, owner, None, Some(key)).value.state.Busy?
             && StatusOf(ws[i].store, owner, None, Some(key)).value.contextId.None?)
            <==> exists r :: Holds(ws[i].store, r, IdempotencyKey(owner, LlmComplete, key))
  {
    ReachableStore(o, ws, calls, i);
    var s := ws[i].store;
    var k := IdempotencyKey(owner, LlmComplete, key);
    if k in s.idempotency && s.idempotency[k].state.OutcomeBusy? {
      var r :| Holds(s, r, k);
    }
  }

  /** A refused call changes nothing beyond the sweep it began with. */
  lemma RefusalOnlySweeps(o: Options, w: World, call: Call)
    requires Step(o, w.store, call).1.Refused?
    ensures Next(o, w, call).store == if call.CallReserve? || call.CallRelease? then Sweep(o, w.store, call.now) else w.store
    ensures Next(o, w, call).log == w.log && Next(o, w, call).reservedAt == w.reservedAt
  {
  }

  /** Commits of append and reset never fail on a reservation that is still open. */
  lemma OpenMutationCommits(
    o: Options, ws: seq<World>, calls: seq<Call>, i: nat, handle: Reservation, assistant: Message, now: Time,
    draws: seq<Draw>)
    requires IsRun(o, ws, calls) && i < |ws|
    requires handle.reservationId in ws[i].store.reservations
    requires !Allocates(ws[i].store.reservations[handle.reservationId].request.operation)
    ensures Commit(o, ws[i].store, handle, assistant, now, draws).1.Ok?
  {
    ReachableStore(o, ws, calls, i);
    assert Pinned(ws[i].store.contexts, ws[i].store.reservations[handle.reservationId]);
  }

  /** The outcome a release leaves: enough to answer the same release again. */
  ghost predicate RecordsRelease(s: Store, call: Call, receipt: Receipt)
    requires call.CallRelease?
  {
    var k := IdempotencyKey(call.owner, LlmContextRelease, call.key);
    && k in s.idempotency
    && s.idempotency[k].state.OutcomeCompleted?
    && s.idempotency[k].receipt == Some(receipt)
    && s.idempotency[k].contextId == Some(call.contextId)
    && s.idempotency[k].baseVersion == Some(call.baseVersion)
  }

  /** How long a release is remembered. */
  ghost function RetainedUntil(s: Store, call: Call): Time
    requires call.CallRelease?
  {
    var k := IdempotencyKey(call.owner, LlmContextRelease, call.key);
    if k in s.idempotency then s.idempotency[k].retainUntil else 0
  }

  lemma ReleaseIsRecorded(o: Options, s: Store, call: Call)
    requires call.CallRelease? && Step(o, s, call).1.ReleasedWith?
    ensures RecordsRelease(Step(o, s, call).0, call, Step(o, s, call).1.receipt)
    ensures IdempotencyKey(call.owner, LlmContextRelease, call.key) !in Sweep(o, s, call.now).idempotency ==>
              RetainedUntil(Step(o, s, call).0, call) == call.now + o.idempotencyTtl
    ensures Release in o.supportedOperations && ValidContextId(call.contextId) && !IsBlank(call.key)
  {
  }

  lemma RecordedIsReplayed(o: Options, w: World, call: Call, receipt: Receipt)
    requires call.CallRelease? && RecordsRelease(w.store, call, receipt)
    requires call.now < RetainedUntil(w.store, call)
    requires Release in o.supportedOperations && ValidContextId(call.contextId) && !IsBlank(call.key)
    ensures Step(o, w.store, call).1 == ReleasedWith(receipt) && Next(o, w, call).log == w.log
  {
    assert IdempotencyKey(call.owner, LlmContextRelease, call.key) in Sweep(o, w.store, call.now).idempotency;
  }

  /**
   Repeating a release with the same key, context and version answers with the same receipt and
   commits nothing, whatever calls come between, for as long as its outcome is retained.
   */
  lemma ReleaseIsIdempotent(o: Options, ws: seq<World>, calls: seq<Call>, i: nat, j: nat)
    requires IsRun(o, ws, calls) && i < j < |calls|
    requires calls[i].CallRelease?
    requires calls[j] == CallRelease(calls[i].owner, calls[i].contextId, calls[i].baseVersion, calls[i].key, calls[j].now)
    requires Step(o, ws[i].store, calls[i]).1.ReleasedWith?
    requires forall k :: i < k <= j ==> calls[k].now < RetainedUntil(ws[i + 1].store, calls[i])
    ensures Step(o, ws[j].store, calls[j]).1 == Step(o, ws[i].store, calls[i]).1
    ensures ws[j + 1].log == ws[j].log
  {
    var key := IdempotencyKey(calls[i].owner, LlmContextRelease, calls[i].key);
    ReleaseIsRecorded(o, ws[i].store, calls[i]);
    OutcomeSurvives(o, ws, calls, i + 1, j, key);
    RecordedIsReplayed(o, ws[j], calls[j], Step(o, ws[i].store, calls[i]).1.receipt);
  }

  /** A replayed version counts the commits since the context's latest birth. */
  lemma {:induction false} VersionCountsCommits(log: seq<LogEntry>, id: string) returns (b: nat)
    requires id in History(log)
    ensures b < |log| && log[b].contextId == id && Allocates(log[b].operation)
    ensures forall k :: k in CommitsAfter(log, id, b) ==> !Allocates(log[k].operation)
    ensures History(log)[id].version == 1 + |CommitsAfter(log, id, b)|
  {
    var last := |log| - 1;
    if log[last].contextId == id && Allocates(log[last].operation) {
      b := last;
      assert CommitsAfter(log, id, b) == {};
    } else {
      b := VersionCountsCommits(log[..last], id);
      CommitsGrow(log, id, b);
    }
  }

  lemma CommitsGrow(log: seq<LogEntry>, id: string, b: nat)
    requires b < |log| - 1
    ensures var last := |log| - 1;
            && CommitsAfter(log, id, b) == CommitsAfter(log[..last], id, b) + (if log[last].contextId == id then {last} else {})
            && last !in CommitsAfter(log[..last], id, b)
  {
  }

  /** The version of every context still held is one plus its committed appends, resets and releases. */
  lemma EveryVersionCountsCommits(o: Options, ws: seq<World>, calls: seq<Call>, i: nat, id: string)
    returns (b: nat)
    requires IsRun(o, ws, calls) && i < |ws| && id in ws[i].store.contexts
    ensures b < |ws[i].log| && ws[i].log[b].contextId == id && Allocates(ws[i].log[b].operation)
    ensures forall k :: k in CommitsAfter(ws[i].log, id, b) ==> !Allocates(ws[i].log[k].operation)
    ensures ws[i].store.contexts[id].version == 1 + |CommitsAfter(ws[i].log, id, b)|
  {
    EveryReachableState(o, ws, calls, i);
    b := VersionCountsCommits(ws[i].log, id);
  }

  /** A fork without its own ttl lives as long as its parent still had, rounded up to a second. */
  lemma ForkInheritsRemainingTtl(o: Options, request: Request, entry: ContextEntry, now: Time)
    requires request.operation.Fork? && request.ttlSeconds.None?
    requires entry.expiresAt.Some? && now < entry.expiresAt.value <= now + U32_MAX * SECOND
    ensures var ttl := EffectiveTtl(o, request, entry, now);
            ttl.Some? && now + (ttl.value - 1) * SECOND < entry.expiresAt.value <= now + ttl.value * SECOND
  {
  }
}
