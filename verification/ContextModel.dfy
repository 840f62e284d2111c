/**
 The LLM context store as a pure transition system over one value, `Store`.
 `LlmContextStore.InMemoryLlmContextStore` is the mutable object proved to follow
 these transitions; `LlmContextRuns` proves what holds over every run of them.

 The clock, the random reservation ids, the context-id factory and the SHA-256
 binding fingerprint are inputs.
 */
module LlmContextModel {
  import opened Wrappers
  import opened Text

  /** Nanoseconds since the Unix epoch. */
  type Time = int

  const SECOND: int := 1_000_000_000
  const U32_MAX: int := 0xFFFF_FFFF

  datatype Owner = Owner(nid: string, securityScope: string)

  datatype Message = Message(role: string, body: string)

  datatype Binding = Binding(
    model: string,
    systemMessages: seq<Message>,
    tools: seq<string>,
    runtimeRevision: string)

  datatype Operation = Create | Append | Fork | Reset | Release

  datatype ContextState = Busy | Active | Released | Expired | Failed

  datatype ErrorCode =
    | IdempotencyConflict
    | ParamsInvalid
    | NotFound
    | Forbidden
    | ContextExpired
    | VersionConflict
    | BindingMismatch
    | OperationUnsupported
    | LimitExceeded
    | Internal

  datatype Error = Error(code: ErrorCode, currentVersion: Option<nat>)

  datatype Request = Request(
    operation: Operation,
    owner: Owner,
    contextId: Option<string>,
    baseVersion: Option<nat>,
    binding: Binding,
    messages: seq<Message>,
    ttlSeconds: Option<nat>,
    idempotencyKey: string,
    requestId: string)

  /** The handle a successful `reserve` returns. */
  datatype Reservation = Reservation(reservationId: string, operation: Operation, requestId: string)

  datatype Receipt = Receipt(
    contextId: string,
    version: nat,
    operation: Operation,
    state: ContextState,
    expiresAt: Option<Time>,
    parentContextId: Option<string>,
    parentVersion: Option<nat>)

  datatype Status = Status(
    state: ContextState,
    contextId: Option<string>,
    version: Option<nat>,
    expiresAt: Option<Time>,
    requestId: Option<string>,
    errorCode: Option<string>)

  datatype ContextEntry = ContextEntry(
    contextId: string,
    owner: Owner,
    version: nat,
    state: ContextState,
    binding: Binding,
    bindingFingerprint: string,
    transcript: seq<Message>,
    ttlSeconds: nat,
    expiresAt: Option<Time>,
    tombstoneUntil: Option<Time>,
    reservationId: Option<string>)

  datatype ReservationData = ReservationData(
    reservationId: string,
    request: Request,
    bindingFingerprint: string,
    baseTranscript: seq<Message>,
    effectiveTtlSeconds: Option<nat>,
    parentContextId: Option<string>,
    parentVersion: Option<nat>)

  datatype OutcomeState = OutcomeBusy | OutcomeCompleted | OutcomeFailed

  datatype IdempotencyEntry = IdempotencyEntry(
    state: OutcomeState,
    retainUntil: Time,
    requestId: Option<string>,
    errorCode: Option<string>,
    receipt: Option<Receipt>,
    contextId: Option<string>,
    baseVersion: Option<nat>)

  datatype Action = LlmComplete | LlmContextRelease

  datatype IdempotencyKey = IdempotencyKey(owner: Owner, action: Action, key: string)

  datatype Store = Store(
    contexts: map<string, ContextEntry>,
    idempotency: map<IdempotencyKey, IdempotencyEntry>,
    reservations: map<string, ReservationData>)

  const EMPTY_STORE := Store(map[], map[], map[])

  /** Options after `normalized`: every zero has been replaced by its default. */
  datatype Options = Options(
    maxContextsPerPrincipal: nat,
    defaultTtlSeconds: nat,
    maxTtlSeconds: nat,
    tombstoneSeconds: nat,
    idempotencyTtl: int,
    supportedOperations: set<Operation>,
    fingerprint: Binding -> string)
  {
    function Normalized(): Options {
      this.(
        maxContextsPerPrincipal := if maxContextsPerPrincipal == 0 then 32 else maxContextsPerPrincipal,
        defaultTtlSeconds := if defaultTtlSeconds == 0 then 3600 else defaultTtlSeconds,
        maxTtlSeconds := if maxTtlSeconds == 0 then 3600 else maxTtlSeconds,
        tombstoneSeconds := if tombstoneSeconds == 0 then 86_400 else tombstoneSeconds,
        idempotencyTtl := if idempotencyTtl <= 0 then 86_400 * SECOND else idempotencyTtl)
    }

    function ClampTtl(value: nat): nat {
      if value <= maxTtlSeconds then value else maxTtlSeconds
    }

    function TombstoneAt(now: Time): Time {
      now + tombstoneSeconds * SECOND
    }
  }

  function Fail<T>(code: ErrorCode): Result<T, Error> {
    Err(Error(code, None))
  }

  function NonEmpty(value: string): Option<string> {
    if value == "" then None else Some(value)
  }

  function KeyOf(data: ReservationData): IdempotencyKey {
    IdempotencyKey(data.request.owner, LlmComplete, data.request.idempotencyKey)
  }

  /** The operations that, once committed, add a live context. */
  predicate Allocates(operation: Operation) {
    operation.Create? || operation.Fork?
  }

  predicate IsPrintableIdChar(c: char) {
    IsAsciiAlphanumeric(c) || c == '_' || c == '-'
  }

  predicate ValidContextId(value: string) {
    22 <= |value| <= 128 && forall i | 0 <= i < |value| :: IsPrintableIdChar(value[i])
  }

  // ---- sweep ---------------------------------------------------------------

  predicate Expires(entry: ContextEntry, now: Time) {
    entry.state.Active? && entry.reservationId.None? && entry.expiresAt.Some? && entry.expiresAt.value <= now
  }

  function ExpireEntry(o: Options, entry: ContextEntry, now: Time): ContextEntry {
    if Expires(entry, now) then
      entry.(state := Expired, expiresAt := None, tombstoneUntil := Some(o.TombstoneAt(now)))
    else
      entry
  }

  predicate Buried(entry: ContextEntry, now: Time) {
    && (entry.state.Expired? || entry.state.Released?)
    && entry.tombstoneUntil.Some?
    && entry.tombstoneUntil.value <= now
  }

  /** `tombstone_until.is_none_or(until > now)` keeps an entry; its negation removes it. */
  function SweepContexts(o: Options, contexts: map<string, ContextEntry>, now: Time): map<string, ContextEntry> {
    map id | id in contexts && !Buried(ExpireEntry(o, contexts[id], now), now) :: ExpireEntry(o, contexts[id], now)
  }

  predicate Retained(outcome: IdempotencyEntry, now: Time) {
    outcome.state.OutcomeBusy? || outcome.retainUntil > now
  }

  function SweepOutcomes(outcomes: map<IdempotencyKey, IdempotencyEntry>, now: Time)
    : map<IdempotencyKey, IdempotencyEntry>
  {
    map k | k in outcomes && Retained(outcomes[k], now) :: outcomes[k]
  }

  function Sweep(o: Options, s: Store, now: Time): Store {
    Store(SweepContexts(o, s.contexts, now), SweepOutcomes(s.idempotency, now), s.reservations)
  }

  // ---- reserve -------------------------------------------------------------

  function ValidateRequest(request: Request): Option<Error> {
    if request.operation.Release? then
      Some(Error(ParamsInvalid, None))
    else if IsBlank(request.idempotencyKey) then
      Some(Error(ParamsInvalid, None))
    else if request.ttlSeconds == Some(0) then
      Some(Error(ParamsInvalid, None))
    else if request.operation.Create? && (request.contextId.Some? || request.baseVersion.Some?) then
      Some(Error(ParamsInvalid, None))
    else if && !request.operation.Create?
            && (request.contextId.None? || request.baseVersion.None? || !ValidContextId(request.contextId.value)) then
      Some(Error(ParamsInvalid, None))
    else if !request.operation.Fork? && request.messages == [] then
      Some(Error(ParamsInvalid, None))
    else if (request.operation.Append? || request.operation.Fork?)
         && exists i | 0 <= i < |request.messages| :: EqIgnoreAsciiCase(request.messages[i].role, "system") then
      Some(Error(BindingMismatch, None))
    else
      None
  }

  function LiveIds(contexts: map<string, ContextEntry>, owner: Owner): set<string> {
    set id | id in contexts && contexts[id].owner == owner && contexts[id].state.Active?
  }

  function PendingIds(reservations: map<string, ReservationData>, owner: Owner): set<string> {
    set r | r in reservations && reservations[r].request.owner == owner && Allocates(reservations[r].request.operation)
  }

  /** `ensure_allocation_available` */
  predicate AllocationAvailable(o: Options, s: Store, owner: Owner) {
    |LiveIds(s.contexts, owner)| + |PendingIds(s.reservations, owner)| < o.maxContextsPerPrincipal
  }

  /** `require_mutable` */
  function RequireMutable(s: Store, owner: Owner, contextId: string): Result<ContextEntry, Error> {
    if contextId !in s.contexts then
      Fail(NotFound)
    else
      var entry := s.contexts[contextId];
      if entry.owner != owner then Fail(Forbidden)
      else if entry.state.Expired? then Err(Error(ContextExpired, Some(entry.version)))
      else if entry.state.Released? then Fail(NotFound)
      else Ok(entry)
  }

  /** Rust's `/` on a signed integer: truncation toward zero. */
  function TruncDiv(a: int, b: int): int
    requires b > 0
  {
    if a >= 0 then a / b else -((-a) / b)
  }

  /** Whole seconds left until `expiresAt`, rounded up, at least one and at most `u32::MAX`. */
  function RemainingSeconds(expiresAt: Time, now: Time): nat {
    var seconds := TruncDiv(expiresAt - now + 999_999_999, SECOND);
    var atLeastOne := if seconds < 1 then 1 else seconds;
    if atLeastOne > U32_MAX then U32_MAX else atLeastOne
  }

  function EffectiveTtl(o: Options, request: Request, entry: ContextEntry, now: Time): Option<nat> {
    if request.ttlSeconds.Some? then
      Some(o.ClampTtl(request.ttlSeconds.value))
    else if request.operation.Fork? then
      (match entry.expiresAt
       case None => None
       case Some(expiresAt) => Some(RemainingSeconds(expiresAt, now)))
    else if entry.ttlSeconds != 0 then
      Some(entry.ttlSeconds)
    else
      None
  }

  /** What an admitted request carries into its reservation. */
  datatype Grant = Grant(
    baseTranscript: seq<Message>,
    effectiveTtlSeconds: Option<nat>,
    parentContextId: Option<string>,
    parentVersion: Option<nat>)

  /** Admission against a store that has just been swept. */
  function Admit(o: Options, s: Store, request: Request, now: Time): Result<Grant, Error> {
    var invalid := ValidateRequest(request);
    if invalid.Some? then
      Err(invalid.value)
    else if request.operation !in o.supportedOperations then
      Fail(OperationUnsupported)
    else if IdempotencyKey(request.owner, LlmComplete, request.idempotencyKey) in s.idempotency then
      Fail(IdempotencyConflict)
    else if request.operation.Create? then
      if !AllocationAvailable(o, s, request.owner) then
        Fail(LimitExceeded)
      else
        var ttl := if request.ttlSeconds.Some? then request.ttlSeconds.value else o.defaultTtlSeconds;
        Ok(Grant([], Some(o.ClampTtl(ttl)), None, None))
    else
      match RequireMutable(s, request.owner, request.contextId.value)
      case Err(error) => Err(error)
      case Ok(entry) =>
        if entry.reservationId.Some? || entry.version != request.baseVersion.value then
          Err(Error(VersionConflict, Some(entry.version)))
        else if (request.operation.Append? || request.operation.Fork?)
             && entry.bindingFingerprint != o.fingerprint(request.binding) then
          Fail(BindingMismatch)
        else if request.operation.Fork? && !AllocationAvailable(o, s, request.owner) then
          Fail(LimitExceeded)
        else
          Ok(Grant(
               entry.transcript,
               EffectiveTtl(o, request, entry, now),
               if request.operation.Fork? then Some(entry.contextId) else None,
               if request.operation.Fork? then Some(entry.version) else None))
  }

  /** Records an admitted request under a fresh reservation id. */
  function Enter(o: Options, s: Store, request: Request, grant: Grant, now: Time, id: string): Store
    requires !Allocates(request.operation) ==> request.contextId.Some? && request.contextId.value in s.contexts
  {
    Store(
      if Allocates(request.operation) then s.contexts
      else s.contexts[request.contextId.value := s.contexts[request.contextId.value].(reservationId := Some(id))],
      s.idempotency[IdempotencyKey(request.owner, LlmComplete, request.idempotencyKey) :=
        IdempotencyEntry(
          OutcomeBusy, now + o.idempotencyTtl, NonEmpty(request.requestId), None, None, None, None)],
      s.reservations[id := ReservationData(
        id, request, o.fingerprint(request.binding), grant.baseTranscript, grant.effectiveTtlSeconds,
        grant.parentContextId, grant.parentVersion)])
  }

  /** `reserve`; `drawn` is the generated reservation id, `None` when the random source failed. */
  function Reserve(o: Options, s: Store, request: Request, now: Time, drawn: Option<string>)
    : (Store, Result<Reservation, Error>)
  {
    var swept := Sweep(o, s, now);
    match Admit(o, swept, request, now)
    case Err(error) => (swept, Err(error))
    case Ok(grant) =>
      match drawn
      case None => (swept, Fail(Internal))
      case Some(id) =>
        (Enter(o, swept, request, grant, now, id), Ok(Reservation(id, request.operation, request.requestId)))
  }

  // ---- commit, abort, release ----------------------------------------------

  /** One draw of the context-id factory; `None` is a factory failure. */
  type Draw = Option<string>

  function NextContextId(contexts: map<string, ContextEntry>, draws: seq<Draw>): Result<string, Error> {
    if draws == [] then
      Fail(Internal)
    else
      match draws[0]
      case None => Fail(Internal)
      case Some(value) =>
        if !ValidContextId(value) then Fail(ParamsInvalid)
        else if value !in contexts then Ok(value)
        else NextContextId(contexts, draws[1..])
  }

  function Expiry(data: ReservationData, now: Time): Option<Time> {
    match data.effectiveTtlSeconds
    case None => None
    case Some(seconds) => Some(now + seconds * SECOND)
  }

  function TtlOrZero(data: ReservationData): nat {
    match data.effectiveTtlSeconds
    case None => 0
    case Some(seconds) => seconds
  }

  /** The context a committed create or fork adds. */
  function BornEntry(data: ReservationData, contextId: string, assistant: Message, now: Time): ContextEntry {
    ContextEntry(
      contextId, data.request.owner, 1, Active, data.request.binding, data.bindingFingerprint,
      (if data.request.operation.Fork? then data.baseTranscript else []) + data.request.messages + [assistant],
      TtlOrZero(data), Expiry(data, now), None, None)
  }

  /** The context after a committed append or reset. */
  function AdvancedEntry(data: ReservationData, entry: ContextEntry, assistant: Message, now: Time): ContextEntry {
    var next := entry.(
      version := entry.version + 1,
      state := Active,
      reservationId := None,
      expiresAt := Expiry(data, now),
      ttlSeconds := TtlOrZero(data));
    if data.request.operation.Reset? then
      next.(
        binding := data.request.binding,
        bindingFingerprint := data.bindingFingerprint,
        transcript := data.request.messages + [assistant])
    else
      next.(transcript := entry.transcript + data.request.messages + [assistant])
  }

  /** Writes the new context version, its outcome and its receipt, and drops the reservation. */
  function Settle(o: Options, s: Store, data: ReservationData, entry: ContextEntry, now: Time): (Store, Receipt) {
    var receipt := Receipt(
      entry.contextId, entry.version, data.request.operation, Active, Expiry(data, now),
      data.parentContextId, data.parentVersion);
    (Store(
       s.contexts[entry.contextId := entry],
       s.idempotency[KeyOf(data) := IdempotencyEntry(
         OutcomeCompleted, now + o.idempotencyTtl, NonEmpty(data.request.requestId), None, Some(receipt), None, None)],
       s.reservations - {data.reservationId}),
     receipt)
  }

  /**
   The entry a commit writes, or the error that stops it. The source panics on a reserved
   release and on an append without a context id; `WellFormed` rules both out.
   */
  function Resolve(s: Store, data: ReservationData, assistant: Message, now: Time, draws: seq<Draw>)
    : Result<ContextEntry, Error>
  {
    if Allocates(data.request.operation) then
      match NextContextId(s.contexts, draws)
      case Err(error) => Err(error)
      case Ok(contextId) => Ok(BornEntry(data, contextId, assistant, now))
    else if data.request.operation.Release? || data.request.contextId.None? then
      Fail(Internal)
    else if data.request.contextId.value !in s.contexts then
      Fail(NotFound)
    else
      Ok(AdvancedEntry(data, s.contexts[data.request.contextId.value], assistant, now))
  }

  /** No reservation is ever a release, and every append or reset names its context. */
  ghost predicate WellFormed(s: Store) {
    && (forall id :: id in s.contexts ==> s.contexts[id].contextId == id)
    && (forall r :: r in s.reservations ==>
          && s.reservations[r].reservationId == r
          && !s.reservations[r].request.operation.Release?
          && (!Allocates(s.reservations[r].request.operation) ==> s.reservations[r].request.contextId.Some?))
  }

  function Commit(o: Options, s: Store, handle: Reservation, assistant: Message, now: Time, draws: seq<Draw>)
    : (Store, Result<Receipt, Error>)
  {
    if handle.reservationId !in s.reservations then
      (s, Fail(Internal))
    else
      var data := s.reservations[handle.reservationId];
      match Resolve(s, data, assistant, now, draws)
      case Err(error) => (s, Err(error))
      case Ok(entry) => var (next, receipt) := Settle(o, s, data, entry, now); (next, Ok(receipt))
  }

  /** `clear_reservation`: unpins the context if this reservation is the one that pinned it. */
  function Unpin(contexts: map<string, ContextEntry>, data: ReservationData): map<string, ContextEntry> {
    if && data.request.contextId.Some?
       && data.request.contextId.value in contexts
       && contexts[data.request.contextId.value].reservationId == Some(data.reservationId)
    then
      contexts[data.request.contextId.value := contexts[data.request.contextId.value].(reservationId := None)]
    else
      contexts
  }

  /** The store once a reservation has been dropped as failed, before the closing sweep. */
  function Drop(o: Options, s: Store, data: ReservationData, errorCode: Option<string>, now: Time): Store {
    Store(
      Unpin(s.contexts, data),
      s.idempotency[KeyOf(data) := IdempotencyEntry(
        OutcomeFailed, now + o.idempotencyTtl, NonEmpty(data.request.requestId), errorCode, None, None, None)],
      s.reservations - {data.reservationId})
  }

  function Abort(o: Options, s: Store, handle: Reservation, errorCode: Option<string>, now: Time)
    : (Store, Result<(), Error>)
  {
    if handle.reservationId !in s.reservations then
      (s, Fail(Internal))
    else
      (Sweep(o, Drop(o, s, s.reservations[handle.reservationId], errorCode, now), now), Ok(()))
  }

  /** What `release` decides once the store has been swept. */
  datatype ReleaseVerdict = Replay(receipt: Receipt) | Refuse(error: Error) | Proceed(entry: ContextEntry)

  function JudgeRelease(o: Options, s: Store, owner: Owner, contextId: string, baseVersion: nat, idempotency: string)
    : ReleaseVerdict
  {
    var key := IdempotencyKey(owner, LlmContextRelease, idempotency);
    if Release !in o.supportedOperations then
      Refuse(Error(OperationUnsupported, None))
    else if !ValidContextId(contextId) || IsBlank(idempotency) then
      Refuse(Error(ParamsInvalid, None))
    else if key in s.idempotency then
      var prior := s.idempotency[key];
      if prior.state.OutcomeCompleted? && prior.contextId == Some(contextId) && prior.baseVersion == Some(baseVersion) then
        match prior.receipt
        case None => Refuse(Error(Internal, None))
        case Some(receipt) => Replay(receipt)
      else
        Refuse(Error(IdempotencyConflict, None))
    else
      match RequireMutable(s, owner, contextId)
      case Err(error) => Refuse(error)
      case Ok(entry) =>
        if entry.reservationId.Some? || entry.version != baseVersion then
          Refuse(Error(VersionConflict, Some(entry.version)))
        else
          Proceed(entry)
  }

  function ReleasedEntry(o: Options, entry: ContextEntry, now: Time): ContextEntry {
    entry.(
      version := entry.version + 1,
      state := Released,
      expiresAt := None,
      tombstoneUntil := Some(o.TombstoneAt(now)))
  }

  function ReleaseContext(
    o: Options, s: Store, owner: Owner, contextId: string, baseVersion: nat, idempotency: string, now: Time)
    : (Store, Result<Receipt, Error>)
  {
    var swept := Sweep(o, s, now);
    match JudgeRelease(o, swept, owner, contextId, baseVersion, idempotency)
    case Replay(receipt) => (swept, Ok(receipt))
    case Refuse(error) => (swept, Err(error))
    case Proceed(entry) =>
      var released := ReleasedEntry(o, entry, now);
      var receipt := Receipt(contextId, released.version, Release, Released, None, None, None);
      (swept.(
         contexts := swept.contexts[contextId := released],
         idempotency := swept.idempotency[IdempotencyKey(owner, LlmContextRelease, idempotency) :=
           IdempotencyEntry(
             OutcomeCompleted, now + o.idempotencyTtl, None, None, Some(receipt), Some(contextId), Some(baseVersion))]),
       Ok(receipt))
  }

  // ---- status --------------------------------------------------------------

  function StatusByContext(s: Store, owner: Owner, contextId: string): Result<Status, Error> {
    if !ValidContextId(contextId) then
      Fail(ParamsInvalid)
    else if contextId !in s.contexts then
      Fail(NotFound)
    else
      var entry := s.contexts[contextId];
      if entry.owner != owner then
        Fail(Forbidden)
      else
        var requestId :=
          if entry.reservationId.Some? && entry.reservationId.value in s.reservations then
            NonEmpty(s.reservations[entry.reservationId.value].request.requestId)
          else
            None;
        Ok(Status(
             if entry.reservationId.Some? then Busy else entry.state,
             Some(entry.contextId), Some(entry.version), entry.expiresAt, requestId, None))
  }

  function StatusFromReceipt(s: Store, owner: Owner, receipt: Receipt): Result<Status, Error> {
    if receipt.contextId in s.contexts then
      StatusByContext(s, owner, receipt.contextId)
    else
      Ok(Status(receipt.state, Some(receipt.contextId), Some(receipt.version), receipt.expiresAt, None, None))
  }

  /** `status` against a store that has just been swept. */
  function StatusOf(s: Store, owner: Owner, contextId: Option<string>, idempotency: Option<string>)
    : Result<Status, Error>
  {
    if contextId.Some? == idempotency.Some? then
      Fail(ParamsInvalid)
    else if contextId.Some? then
      StatusByContext(s, owner, contextId.value)
    else
      var key := IdempotencyKey(owner, LlmComplete, idempotency.value);
      if key !in s.idempotency then
        Fail(NotFound)
      else
        var outcome := s.idempotency[key];
        match outcome.state
        case OutcomeBusy => Ok(Status(Busy, None, None, None, outcome.requestId, None))
        case OutcomeFailed => Ok(Status(Failed, None, None, None, outcome.requestId, outcome.errorCode))
        case OutcomeCompleted =>
          match outcome.receipt
          case None => Fail(Internal)
          case Some(receipt) => StatusFromReceipt(s, owner, receipt)
  }
}
