/**
 The process-local LLM context store as the mutable object it is. Each method runs
 under the store's mutex, so it is one atomic step; its contract says that step is the
 transition of the same name in `LlmContextModel`.
 */
module LlmContextStore {
  import opened Wrappers
  import opened Collections
  import opened Text
  import opened LlmContextModel

  /** The active, unreserved contexts whose deadline has passed. */
  function Expiring(contexts: map<string, ContextEntry>, now: Time): set<string> {
    set id | id in contexts && Expires(contexts[id], now)
  }

  /** Expiring and then dropping old tombstones is one sweep. */
  lemma UnburiedIsSweep(
    o: Options, was: map<string, ContextEntry>, expired: map<string, ContextEntry>, left: map<string, ContextEntry>,
    now: Time)
    requires expired.Keys == was.Keys && forall id :: id in was ==> expired[id] == ExpireEntry(o, was[id], now)
    requires forall id :: id in left <==> id in expired && !Buried(expired[id], now)
    requires forall id :: id in left ==> left[id] == expired[id]
    ensures left == SweepContexts(o, was, now)
    ensures |left| <= |expired| == |was|
  {
    SubmapSize(left, expired);
    SubmapSize(expired, was);
    SubmapSize(was, expired);
  }

  class InMemoryLlmContextStore {
    const options: Options
    var contexts: map<string, ContextEntry>
    var idempotency: map<IdempotencyKey, IdempotencyEntry>
    var reservations: map<string, ReservationData>

    ghost function View(): Store
      reads this
    {
      Store(contexts, idempotency, reservations)
    }

    ghost predicate Valid()
      reads this
    {
      WellFormed(View())
    }

    constructor (options: Options)
      ensures this.options.maxContextsPerPrincipal ==
              if options.maxContextsPerPrincipal == 0 then 32 else options.maxContextsPerPrincipal
      ensures this.options.defaultTtlSeconds == if options.defaultTtlSeconds == 0 then 3600 else options.defaultTtlSeconds
      ensures this.options.maxTtlSeconds == if options.maxTtlSeconds == 0 then 3600 else options.maxTtlSeconds
      ensures this.options.tombstoneSeconds == if options.tombstoneSeconds == 0 then 86_400 else options.tombstoneSeconds
      ensures this.options.idempotencyTtl ==
              if options.idempotencyTtl <= 0 then 86_400 * 1_000_000_000 else options.idempotencyTtl
      ensures this.options.supportedOperations == options.supportedOperations
      ensures this.options.fingerprint == options.fingerprint
      ensures Valid() && View() == EMPTY_STORE
    {
      this.options := options.Normalized();
      contexts, idempotency, reservations := map[], map[], map[];
    }

    /** The first loop of the sweep: overdue contexts become tombstones. */
    method ExpireOverdue(now: Time) returns (changed: nat)
      modifies this`contexts
      ensures contexts.Keys == old(contexts).Keys
      ensures forall id :: id in contexts ==> contexts[id] == ExpireEntry(options, old(contexts)[id], now)
      ensures changed == |Expiring(old(contexts), now)|
    {
      ghost var was := contexts;
      ghost var expiring: set<string> := {};
      var pending := contexts.Keys;
      changed := 0;
      while pending != {}
        invariant pending <= contexts.Keys == was.Keys
        invariant forall id :: id in was ==>
          contexts[id] == if id in pending then was[id] else ExpireEntry(options, was[id], now)
        invariant changed == |expiring|
        invariant forall id :: id in expiring <==> id in was && id !in pending && Expires(was[id], now)
        decreases pending
      {
        var id :| id in pending;
        var entry := contexts[id];
        if entry.state.Active? && entry.reservationId.None? && entry.expiresAt.Some? && entry.expiresAt.value <= now {
          contexts := contexts[id := entry.(
            state := Expired, expiresAt := None, tombstoneUntil := Some(options.TombstoneAt(now)))];
          expiring := expiring + {id};
          changed := changed + 1;
        }
        pending := pending - {id};
      }
      assert expiring == Expiring(was, now);
    }

    /** `retain` on the contexts. */
    method ForgetTombstones(now: Time) returns (forgotten: int)
      modifies this`contexts
      ensures forall id :: id in contexts <==> id in old(contexts) && !Buried(old(contexts)[id], now)
      ensures forall id :: id in contexts ==> contexts[id] == old(contexts)[id]
      ensures forgotten == |old(contexts)| - |contexts|
    {
      var before := |contexts|;
      contexts := map id | id in contexts && !Buried(contexts[id], now) :: contexts[id];
      forgotten := before - |contexts|;
    }

    /** `retain` on the outcomes. */
    method ForgetOutcomes(now: Time) returns (forgotten: int)
      modifies this`idempotency
      ensures idempotency == SweepOutcomes(old(idempotency), now)
      ensures forgotten == |old(idempotency)| - |idempotency| >= 0
    {
      var before := |idempotency|;
      idempotency := map k | k in idempotency && Retained(idempotency[k], now) :: idempotency[k];
      assert idempotency == SweepOutcomes(old(idempotency), now);
      SubmapSize(idempotency, old(idempotency));
      forgotten := before - |idempotency|;
    }

    /** Expires overdue contexts, then forgets old tombstones and old outcomes. */
    method SweepLocked(now: Time) returns (changed: nat)
      requires Valid()
      modifies this
      ensures Valid()
      ensures View() == Sweep(options, old(View()), now)
      ensures changed ==
              |Expiring(old(contexts), now)|
              + (|old(contexts)| - |contexts|) + (|old(idempotency)| - |idempotency|)
    {
      changed := ExpireOverdue(now);
      ghost var expired := contexts;
      var buried := ForgetTombstones(now);
      UnburiedIsSweep(options, old(contexts), expired, contexts, now);
      var forgotten := ForgetOutcomes(now);
      changed := changed + buried + forgotten;
    }

    method SweepExpired(now: Time) returns (changed: nat)
      requires Valid()
      modifies this
      ensures Valid()
      ensures View() == Sweep(options, old(View()), now)
      ensures changed ==
              |Expiring(old(contexts), now)|
              + (|old(contexts)| - |contexts|) + (|old(idempotency)| - |idempotency|)
    {
      changed := SweepLocked(now);
    }

    method EnsureAllocationAvailable(owner: Owner) returns (available: bool)
      ensures available == AllocationAvailable(options, View(), owner)
    {
      var live := set id | id in contexts && contexts[id].owner == owner && contexts[id].state.Active?;
      var pending := set r | r in reservations
        && reservations[r].request.owner == owner && Allocates(reservations[r].request.operation);
      assert live == LiveIds(contexts, owner) && pending == PendingIds(reservations, owner);
      available := |live| + |pending| < options.maxContextsPerPrincipal;
    }

    /** The checks of `reserve`, against a store that has just been swept. */
    method AdmitLocked(request: Request, now: Time) returns (r: Result<Grant, Error>)
      ensures r == Admit(options, View(), request, now)
    {
      var invalid := ValidateRequest(request);
      if invalid.Some? {
        return Err(invalid.value);
      }
      if request.operation !in options.supportedOperations {
        return Fail(OperationUnsupported);
      }
      if IdempotencyKey(request.owner, LlmComplete, request.idempotencyKey) in idempotency {
        return Fail(IdempotencyConflict);
      }
      if request.operation.Create? {
        var available := EnsureAllocationAvailable(request.owner);
        if !available {
          return Fail(LimitExceeded);
        }
        var ttl := if request.ttlSeconds.Some? then request.ttlSeconds.value else options.defaultTtlSeconds;
        return Ok(Grant([], Some(options.ClampTtl(ttl)), None, None));
      }
      var required := RequireMutable(Store(contexts, idempotency, reservations), request.owner, request.contextId.value);
      if required.Err? {
        return Err(required.error);
      }
      var entry := required.value;
      if entry.reservationId.Some? || entry.version != request.baseVersion.value {
        return Err(Error(VersionConflict, Some(entry.version)));
      }
      if (request.operation.Append? || request.operation.Fork?)
         && entry.bindingFingerprint != options.fingerprint(request.binding)
      {
        return Fail(BindingMismatch);
      }
      if request.operation.Fork? {
        var available := EnsureAllocationAvailable(request.owner);
        if !available {
          return Fail(LimitExceeded);
        }
      }
      r := Ok(Grant(
        entry.transcript,
        EffectiveTtl(options, request, entry, now),
        if request.operation.Fork? then Some(entry.contextId) else None,
        if request.operation.Fork? then Some(entry.version) else None));
    }

    method Reserve(request: Request, now: Time, drawn: Option<string>) returns (r: Result<Reservation, Error>)
      requires Valid()
      requires drawn.Some? ==> drawn.value !in reservations
      modifies this
      ensures Valid()
      ensures (View(), r) == LlmContextModel.Reserve(options, old(View()), request, now, drawn)
    {
      var _ := SweepLocked(now);
      var admitted := AdmitLocked(request, now);
      if admitted.Err? {
        return Err(admitted.error);
      }
      if drawn.None? {
        return Fail(Internal);
      }
      EnterLocked(request, admitted.value, now, drawn.value);
      r := Ok(Reservation(drawn.value, request.operation, request.requestId));
    }

    /** Pins the context of an append or reset and writes the reservation and its busy outcome. */
    method EnterLocked(request: Request, grant: Grant, now: Time, reservationId: string)
      requires Valid()
      requires !request.operation.Release?
      requires !Allocates(request.operation) ==> request.contextId.Some? && request.contextId.value in contexts
      modifies this
      ensures Valid()
      ensures View() == Enter(options, old(View()), request, grant, now, reservationId)
    {
      var data := ReservationData(
        reservationId, request, options.fingerprint(request.binding), grant.baseTranscript,
        grant.effectiveTtlSeconds, grant.parentContextId, grant.parentVersion);
      if request.operation != Create && request.operation != Fork {
        var contextId := request.contextId.value;
        contexts := contexts[contextId := contexts[contextId].(reservationId := Some(reservationId))];
      }
      reservations := reservations[reservationId := data];
      idempotency := idempotency[IdempotencyKey(request.owner, LlmComplete, request.idempotencyKey) := IdempotencyEntry(
        OutcomeBusy, now + options.idempotencyTtl, NonEmpty(request.requestId), None, None, None, None)];
    }

    /** Draws context ids until one is free, at most eight times. */
    method DrawContextId(factory: seq<Draw>) returns (r: Result<string, Error>)
      requires |factory| == 8
      ensures r == NextContextId(contexts, factory)
    {
      assert factory[0..] == factory;
      for i := 0 to 8
        invariant NextContextId(contexts, factory) == NextContextId(contexts, factory[i..])
      {
        assert factory[i..][1..] == factory[i + 1..];
        if factory[i].None? {
          return Fail(Internal);
        }
        var value := factory[i].value;
        if !ValidContextId(value) {
          return Fail(ParamsInvalid);
        }
        if value !in contexts {
          return Ok(value);
        }
      }
      r := Fail(Internal);
    }

    method Commit(handle: Reservation, assistant: Message, now: Time, factory: seq<Draw>)
      returns (r: Result<Receipt, Error>)
      requires Valid()
      requires |factory| == 8
      modifies this
      ensures Valid()
      ensures (View(), r) == LlmContextModel.Commit(options, old(View()), handle, assistant, now, factory)
    {
      if handle.reservationId !in reservations {
        return Fail(Internal);
      }
      var current := reservations[handle.reservationId];
      var expiry := Expiry(current, now);
      var contextId: string;
      var version: nat;
      if current.request.operation.Create? || current.request.operation.Fork? {
        var drawn := DrawContextId(factory);
        if drawn.Err? {
          return Err(drawn.error);
        }
        contextId := drawn.value;
        var transcript := if current.request.operation.Fork? then current.baseTranscript else [];
        transcript := transcript + current.request.messages;
        transcript := transcript + [assistant];
        contexts := contexts[contextId := ContextEntry(
          contextId, current.request.owner, 1, Active, current.request.binding, current.bindingFingerprint,
          transcript, TtlOrZero(current), expiry, None, None)];
        version := 1;
      } else {
        if current.request.contextId.value !in contexts {
          return Fail(NotFound);
        }
        var entry := contexts[current.request.contextId.value];
        entry := entry.(
          version := entry.version + 1,
          state := Active,
          reservationId := None,
          expiresAt := expiry,
          ttlSeconds := TtlOrZero(current));
        if current.request.operation.Reset? {
          entry := entry.(
            binding := current.request.binding,
            bindingFingerprint := current.bindingFingerprint,
            transcript := current.request.messages);
        } else {
          entry := entry.(transcript := entry.transcript + current.request.messages);
        }
        entry := entry.(transcript := entry.transcript + [assistant]);
        contexts := contexts[current.request.contextId.value := entry];
        contextId, version := entry.contextId, entry.version;
      }
      var receipt := Receipt(
        contextId, version, current.request.operation, Active, expiry, current.parentContextId, current.parentVersion);
      idempotency := idempotency[KeyOf(current) := IdempotencyEntry(
        OutcomeCompleted, now + options.idempotencyTtl, NonEmpty(current.request.requestId), None, Some(receipt), None, None)];
      reservations := reservations - {current.reservationId};
      r := Ok(receipt);
    }

    /** `clear_reservation`, the removal and the failed outcome of `abort`. */
    method DropReservation(current: ReservationData, errorCode: Option<string>, now: Time)
      requires Valid()
      modifies this
      ensures Valid()
      ensures View() == Drop(options, old(View()), current, errorCode, now)
    {
      if current.request.contextId.Some? && current.request.contextId.value in contexts {
        var contextId := current.request.contextId.value;
        if contexts[contextId].reservationId == Some(current.reservationId) {
          contexts := contexts[contextId := contexts[contextId].(reservationId := None)];
        }
      }
      reservations := reservations - {current.reservationId};
      idempotency := idempotency[KeyOf(current) := IdempotencyEntry(
        OutcomeFailed, now + options.idempotencyTtl, NonEmpty(current.request.requestId), errorCode, None, None, None)];
    }

    method Abort(handle: Reservation, errorCode: Option<string>, now: Time) returns (r: Result<(), Error>)
      requires Valid()
      modifies this
      ensures Valid()
      ensures (View(), r) == LlmContextModel.Abort(options, old(View()), handle, errorCode, now)
    {
      if handle.reservationId !in reservations {
        return Fail(Internal);
      }
      DropReservation(reservations[handle.reservationId], errorCode, now);
      var _ := SweepLocked(now);
      r := Ok(());
    }

    method Release(owner: Owner, contextId: string, baseVersion: nat, key: string, now: Time)
      returns (r: Result<Receipt, Error>)
      requires Valid()
      modifies this
      ensures Valid()
      ensures (View(), r) == ReleaseContext(options, old(View()), owner, contextId, baseVersion, key, now)
    {
      var _ := SweepLocked(now);
      if LlmContextModel.Release !in options.supportedOperations {
        return Fail(OperationUnsupported);
      }
      if !ValidContextId(contextId) {
        return Fail(ParamsInvalid);
      }
      if IsBlank(key) {
        return Fail(ParamsInvalid);
      }
      var outcomeKey := IdempotencyKey(owner, LlmContextRelease, key);
      if outcomeKey in idempotency {
        var prior := idempotency[outcomeKey];
        if prior.state.OutcomeCompleted? && prior.contextId == Some(contextId) && prior.baseVersion == Some(baseVersion) {
          if prior.receipt.None? {
            return Fail(Internal);
          }
          return Ok(prior.receipt.value);
        }
        return Fail(IdempotencyConflict);
      }
      var required := RequireMutable(Store(contexts, idempotency, reservations), owner, contextId);
      if required.Err? {
        return Err(required.error);
      }
      var entry := required.value;
      if entry.reservationId.Some? || entry.version != baseVersion {
        return Err(Error(VersionConflict, Some(entry.version)));
      }
      entry := entry.(
        version := entry.version + 1,
        state := Released,
        expiresAt := None,
        tombstoneUntil := Some(options.TombstoneAt(now)));
      contexts := contexts[contextId := entry];
      var receipt := Receipt(contextId, entry.version, LlmContextModel.Release, Released, None, None, None);
      idempotency := idempotency[outcomeKey := IdempotencyEntry(
        OutcomeCompleted, now + options.idempotencyTtl, None, None, Some(receipt), Some(contextId), Some(baseVersion))];
      r := Ok(receipt);
    }

    method QueryStatus(owner: Owner, contextId: Option<string>, key: Option<string>, now: Time)
      returns (r: Result<Status, Error>)
      requires Valid()
      modifies this
      ensures Valid()
      ensures View() == Sweep(options, old(View()), now)
      ensures r == StatusOf(View(), owner, contextId, key)
    {
      var _ := SweepLocked(now);
      r := StatusOf(Store(contexts, idempotency, reservations), owner, contextId, key);
    }
  }
}
