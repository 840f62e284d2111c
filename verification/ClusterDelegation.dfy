/**
 The failover cache of delegations. A lookup that misses gives up the lock while it asks the cluster,
 and comes back to insert: the interleavings of that with failovers and invalidations.
 */
module ClusterDelegation {
  import opened Wrappers

  datatype AnchorInfo = AnchorInfo(activeNid: string, epoch: nat)

  // ---- the object ----------------------------------------------------------

  class ClusterDelegationResolver {
    const resolveCluster: string -> Option<AnchorInfo>
    var active: map<string, AnchorInfo>

    constructor (resolveCluster: string -> Option<AnchorInfo>)
      ensures this.resolveCluster == resolveCluster && active == map[]
    {
      this.resolveCluster := resolveCluster;
      active := map[];
    }

    /** The locked lookup. */
    method Lookup(cluster: string) returns (hit: Option<AnchorInfo>)
      ensures hit == LookUp(active, cluster)
    {
      hit := if cluster in active then Some(active[cluster]) else None;
    }

    /** The locked insert that follows a miss and an answer from the cluster. */
    method Insert(cluster: string, answer: AnchorInfo)
      modifies this
      ensures active == old(active)[cluster := answer]
    {
      active := active[cluster := answer];
    }

    /** With no other thread in between: a hit asks nobody, and a negative answer is not cached. */
    method ResolveActive(cluster: string) returns (r: Option<AnchorInfo>)
      modifies this
      ensures cluster == "" ==> r == None && active == old(active)
      ensures cluster != "" ==>
                && r == (if cluster in old(active) then Some(old(active)[cluster]) else resolveCluster(cluster))
                && active == if cluster !in old(active) && r.Some? then old(active)[cluster := r.value] else old(active)
    {
      if cluster == "" {
        return None;
      }
      var hit := Lookup(cluster);
      if hit.Some? {
        return hit;
      }
      var answer := resolveCluster(cluster);
      if answer.None? {
        return None;
      }
      Insert(cluster, answer.value);
      return answer;
    }

    method OnAnchorFailover(cluster: string, successorNid: string, epoch: nat) returns (accepted: bool)
      modifies this
      ensures active == AfterFailover(old(active), cluster, successorNid, epoch)
      ensures accepted <==> Moves(old(active), cluster, successorNid, epoch)
    {
      if cluster == "" || successorNid == "" {
        return false;
      }
      if cluster in active && epoch <= active[cluster].epoch {
        return false;
      }
      active := active[cluster := AnchorInfo(successorNid, epoch)];
      return true;
    }

    method Invalidate(cluster: string)
      modifies this
      ensures active == old(active) - {cluster}
    {
      active := active - {cluster};
    }
  }

  // ---- interleavings -------------------------------------------------------

  type Cache = map<string, AnchorInfo>

  function LookUp(cache: Cache, cluster: string): Option<AnchorInfo> {
    if cluster in cache then Some(cache[cluster]) else None
  }

  /** A failover takes effect unless it is stale; an equal epoch is stale. */
  predicate Moves(cache: Cache, cluster: string, nid: string, epoch: nat) {
    cluster != "" && nid != "" && (cluster in cache ==> epoch > cache[cluster].epoch)
  }

  function AfterFailover(cache: Cache, cluster: string, nid: string, epoch: nat): Cache {
    if Moves(cache, cluster, nid, epoch) then cache[cluster := AnchorInfo(nid, epoch)] else cache
  }

  /** The cache, and the lookups that missed and have yet to come back. */
  datatype State = State(cache: Cache, inFlight: map<nat, string>)

  datatype Event =
    | Begin(t: nat, cluster: string)
    | Return(t: nat, answer: Option<AnchorInfo>)
    | Failover(cluster: string, nid: string, epoch: nat)
    | Invalidation(cluster: string)

  function Step(s: State, e: Event): State {
    match e
    case Begin(t, cluster) =>
      if cluster == "" || t in s.inFlight || LookUp(s.cache, cluster).Some? then s
      else s.(inFlight := s.inFlight[t := cluster])
    case Return(t, answer) =>
      if t !in s.inFlight then s
      else
        State(if answer.Some? then s.cache[s.inFlight[t] := answer.value] else s.cache, s.inFlight - {t})
    case Failover(cluster, nid, epoch) => s.(cache := AfterFailover(s.cache, cluster, nid, epoch))
    case Invalidation(cluster) => s.(cache := s.cache - {cluster})
  }

  function Run(s: State, events: seq<Event>): State
    decreases |events|
  {
    if events == [] then s else Step(Run(s, events[..|events| - 1]), events[|events| - 1])
  }

  ghost predicate Idle(s: State, cluster: string) {
    forall t :: t in s.inFlight ==> s.inFlight[t] != cluster
  }

  predicate NeverInvalidated(events: seq<Event>, cluster: string) {
    forall k :: 0 <= k < |events| ==> events[k] != Invalidation(cluster)
  }

  /** The events are those failovers that name a successor for this cluster. */
  predicate Announces(e: Event, cluster: string) {
    e.Failover? && e.cluster == cluster && e.nid != ""
  }

  /** Of the first entry and all failovers, one of the highest epoch: the earliest such. */
  function Newest(first: AnchorInfo, events: seq<Event>, cluster: string): AnchorInfo
    decreases |events|
  {
    if events == [] then first
    else
      var best, e := Newest(first, events[..|events| - 1], cluster), events[|events| - 1];
      if Announces(e, cluster) && e.epoch > best.epoch then AnchorInfo(e.nid, e.epoch) else best
  }

  lemma {:induction false} NewestIsTheMaximum(first: AnchorInfo, events: seq<Event>, cluster: string)
    ensures var best := Newest(first, events, cluster);
            && first.epoch <= best.epoch
            && (forall k :: 0 <= k < |events| && Announces(events[k], cluster) ==> events[k].epoch <= best.epoch)
            && (best == first || exists k :: 0 <= k < |events| && Announces(events[k], cluster)
                                             && best == AnchorInfo(events[k].nid, events[k].epoch))
    decreases |events|
  {
    if events != [] {
      var n := |events| - 1;
      NewestIsTheMaximum(first, events[..n], cluster);
      var best := Newest(first, events[..n], cluster);
      if best != first {
        var k :| 0 <= k < n && Announces(events[..n][k], cluster) && best == AnchorInfo(events[..n][k].nid, events[..n][k].epoch);
        assert Announces(events[k], cluster) && best == AnchorInfo(events[k].nid, events[k].epoch);
      }
      forall k | 0 <= k < |events| && Announces(events[k], cluster)
        ensures events[k].epoch <= Newest(first, events, cluster).epoch
      {
        if k < n {
          assert Announces(events[..n][k], cluster);
        }
      }
    }
  }

  /**
   Once an entry is cached with no lookup for it under way, and while it is not invalidated, it is
   the newest of itself and all failovers, under any interleaving.
   */
  lemma {:induction false} CachedEntryIsNewest(s: State, events: seq<Event>, cluster: string)
    requires cluster != "" && cluster in s.cache && Idle(s, cluster) && NeverInvalidated(events, cluster)
    ensures var t := Run(s, events);
            && Idle(t, cluster) && cluster in t.cache
            && t.cache[cluster] == Newest(s.cache[cluster], events, cluster)
    decreases |events|
  {
    if events != [] {
      var n := |events| - 1;
      assert NeverInvalidated(events[..n], cluster);
      CachedEntryIsNewest(s, events[..n], cluster);
      assert events[n] != Invalidation(cluster);
    }
  }

  /** Whatever happens short of an invalidation, the cached entry stays the newest. */
  ghost predicate StaysNewest(s: State, cluster: string)
    requires cluster in s.cache
  {
    forall events :: NeverInvalidated(events, cluster) ==>
      LookUp(Run(s, events).cache, cluster) == Some(Newest(s.cache[cluster], events, cluster))
  }

  /** A lookup under way can come back after a failover with the answer from before it. */
  lemma LateLookupRevertsTheEntry(s: State, cluster: string, t: nat)
    requires cluster != "" && cluster in s.cache && t in s.inFlight && s.inFlight[t] == cluster
    ensures var first := s.cache[cluster];
            var events := [Failover(cluster, "successor", first.epoch + 1), Return(t, Some(first))];
            && NeverInvalidated(events, cluster)
            && Newest(first, events, cluster) == AnchorInfo("successor", first.epoch + 1)
            && LookUp(Run(s, events).cache, cluster) == Some(first)
  {
    var first := s.cache[cluster];
    var moved := Failover(cluster, "successor", first.epoch + 1);
    var events := [moved, Return(t, Some(first))];
    assert events[..1] == [moved] && [moved][..0] == [];
    assert Newest(first, [moved], cluster) == AnchorInfo("successor", first.epoch + 1);
    assert Run(s, [moved]) == Step(Run(s, []), moved);
  }

  /** Exactly when no interleaving can take an entry back: when no lookup for it is under way. */
  lemma EntryStaysNewestWhen(s: State, cluster: string)
    requires cluster != "" && cluster in s.cache
    ensures StaysNewest(s, cluster) <==> Idle(s, cluster)
  {
    if Idle(s, cluster) {
      forall events | NeverInvalidated(events, cluster)
        ensures LookUp(Run(s, events).cache, cluster) == Some(Newest(s.cache[cluster], events, cluster))
      {
        CachedEntryIsNewest(s, events, cluster);
      }
    } else {
      var t :| t in s.inFlight && s.inFlight[t] == cluster;
      LateLookupRevertsTheEntry(s, cluster, t);
    }
  }

  /** The return of a lookup under way, with an older answer than the one cached meanwhile. */
  ghost predicate IsLate(s: State, e: Event, cluster: string) {
    && e.Return? && e.t in s.inFlight && s.inFlight[e.t] == cluster && e.answer.Some?
    && cluster in s.cache && e.answer.value.epoch < s.cache[cluster].epoch
  }

  ghost predicate HasLateReturn(s: State, events: seq<Event>, cluster: string) {
    exists k :: 0 <= k < |events| && IsLate(Run(s, events[..k]), events[k], cluster)
  }

  lemma LateReturnStays(s: State, events: seq<Event>, n: nat, cluster: string)
    requires n <= |events| && HasLateReturn(s, events[..n], cluster)
    ensures HasLateReturn(s, events, cluster)
  {
    var k :| 0 <= k < n && IsLate(Run(s, events[..n][..k]), events[..n][k], cluster);
    assert events[..n][..k] == events[..k] && events[..n][k] == events[k];
  }

  lemma OneEventLowers(s: State, e: Event, cluster: string)
    requires cluster in s.cache && e != Invalidation(cluster)
    ensures cluster in Step(s, e).cache
    ensures Step(s, e).cache[cluster].epoch < s.cache[cluster].epoch <==> IsLate(s, e, cluster)
  {
  }

  lemma {:induction false} StaysCached(s: State, events: seq<Event>, cluster: string)
    requires cluster in s.cache && NeverInvalidated(events, cluster)
    ensures cluster in Run(s, events).cache
    decreases |events|
  {
    if events != [] {
      var n := |events| - 1;
      StaysCached(s, events[..n], cluster);
      OneEventLowers(Run(s, events[..n]), events[n], cluster);
    }
  }

  /** Over any run without invalidations an epoch is lower than before only if some late lookup came back. */
  lemma {:induction false} OnlyLateLookupsLower(s: State, events: seq<Event>, cluster: string)
    requires cluster in s.cache && NeverInvalidated(events, cluster)
    ensures cluster in Run(s, events).cache
    ensures HasLateReturn(s, events, cluster) || s.cache[cluster].epoch <= Run(s, events).cache[cluster].epoch
    decreases |events|
  {
    StaysCached(s, events, cluster);
    if events != [] {
      var n := |events| - 1;
      OnlyLateLookupsLower(s, events[..n], cluster);
      OneEventLowers(Run(s, events[..n]), events[n], cluster);
      if HasLateReturn(s, events[..n], cluster) {
        LateReturnStays(s, events, n, cluster);
      } else if IsLate(Run(s, events[..n]), events[n], cluster) {
        assert HasLateReturn(s, events, cluster);
      }
    }
  }

  /** And that does happen: a lookup begun before a failover undoes it. */
  lemma LateLookupUndoesFailover(cluster: string, stale: AnchorInfo, successor: string, epoch: nat)
    requires cluster != "" && successor != "" && stale.epoch < epoch
    ensures var events := [Begin(0, cluster), Failover(cluster, successor, epoch), Return(0, Some(stale))];
            var s := State(map[], map[]);
            && Run(s, events[..2]).cache[cluster] == AnchorInfo(successor, epoch)
            && Run(s, events).cache[cluster] == stale
  {
    var events := [Begin(0, cluster), Failover(cluster, successor, epoch), Return(0, Some(stale))];
    var s := State(map[], map[]);
    assert events[..2][..1] == [Begin(0, cluster)] && [Begin(0, cluster)][..0] == [];
    assert Run(s, events[..1]) == State(map[], map[0 := cluster]);
    assert events[..2][1] == events[1];
    assert Run(s, events[..2]) == Step(Run(s, events[..1]), events[1]);
  }
}
