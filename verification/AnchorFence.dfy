/**
 The epoch fence of one anchor, its run-level guarantees, and a cluster of anchors in which no two
 active ones share an epoch.
 */
module AnchorFence {
  import opened Wrappers
  import opened Collections

  datatype Role = Active | Standby

  /** Events the host publishes: a change of owner at an epoch, or a lost quorum. */
  datatype TopologyEvent =
    | AnchorFailover(successor: string, epoch: nat, reason: string)
    | AnchorQuorumLost(quorumSize: nat, available: nat)

  datatype FenceError = EpochFenced | NotLeader

  const REASON_ACTIVE_LOST := "active_lost"

  datatype Ownership = Ownership(
    nid: string,
    ownEpoch: nat,
    role: Role,
    degraded: bool,
    highestObserved: nat,
    pendingEvents: seq<TopologyEvent>,
    streamsOpen: bool)

  datatype Call =
    | InboundFrame(epoch: Option<nat>, sender: Option<string>, isWrite: bool)
    | QuorumLost(quorumSize: nat, available: nat)
    | QuorumRestored
    | TakeOwnership(newEpoch: nat, reason: string)
    | TakePendingEvents

  /** A frame without an epoch counts as epoch 1. */
  function EpochOf(epoch: Option<nat>): nat {
    if epoch.Some? then epoch.value else 1
  }

  function Max(a: nat, b: nat): nat {
    if a < b then b else a
  }

  function OnInbound(s: Ownership, epoch: Option<nat>, sender: Option<string>, isWrite: bool)
    : (Ownership, Option<FenceError>)
  {
    var inbound := EpochOf(epoch);
    var seen := s.(highestObserved := Max(s.highestObserved, inbound));
    if inbound > s.ownEpoch then
      var successor := if sender.Some? then sender.value else "";
      (seen.(role := Standby,
             pendingEvents := s.pendingEvents + [AnchorFailover(successor, inbound, REASON_ACTIVE_LOST)],
             streamsOpen := false), Some(EpochFenced))
    else if isWrite && (s.role != Active || s.degraded) then (seen, Some(NotLeader))
    else (seen, None)
  }

  function OnTake(s: Ownership, newEpoch: nat, reason: string): (Ownership, Option<FenceError>) {
    if newEpoch <= s.highestObserved then (s, Some(EpochFenced))
    else
      (s.(ownEpoch := newEpoch, highestObserved := newEpoch, role := Active, degraded := false, streamsOpen := true,
          pendingEvents := s.pendingEvents + [AnchorFailover(s.nid, newEpoch, reason)]), None)
  }

  function Step(s: Ownership, c: Call): (Ownership, Option<FenceError>) {
    match c
    case InboundFrame(epoch, sender, isWrite) => OnInbound(s, epoch, sender, isWrite)
    case QuorumLost(size, available) =>
      (s.(degraded := true, pendingEvents := s.pendingEvents + [AnchorQuorumLost(size, available)]), None)
    case QuorumRestored => (s.(degraded := false), None)
    case TakeOwnership(newEpoch, reason) => OnTake(s, newEpoch, reason)
    case TakePendingEvents => (s.(pendingEvents := []), None)
  }

  // ---- the object ----------------------------------------------------------

  class AnchorOwnership {
    const nid: string
    var ownEpoch: nat
    var role: Role
    var degraded: bool
    var highestObserved: nat
    var pendingEvents: seq<TopologyEvent>
    var streamsOpen: bool

    ghost function Contents(): Ownership
      reads this
    {
      Ownership(nid, ownEpoch, role, degraded, highestObserved, pendingEvents, streamsOpen)
    }

    constructor (nid: string)
      ensures Contents() == Ownership(nid, 1, Active, false, 1, [], true)
    {
      this.nid := nid;
      ownEpoch, role, degraded, highestObserved, pendingEvents, streamsOpen := 1, Active, false, 1, [], true;
    }

    constructor AsStandby(nid: string, ownEpoch: nat)
      ensures Contents() == Ownership(nid, ownEpoch, Standby, false, ownEpoch, [], true)
    {
      this.nid := nid;
      this.ownEpoch, highestObserved := ownEpoch, ownEpoch;
      role, degraded, pendingEvents, streamsOpen := Standby, false, [], true;
    }

    method OnInboundFrame(inboundEpoch: Option<nat>, sender: Option<string>, isTopologyWrite: bool)
      returns (error: Option<FenceError>)
      modifies this
      ensures (Contents(), error) == Step(old(Contents()), InboundFrame(inboundEpoch, sender, isTopologyWrite))
    {
      var inbound := EpochOf(inboundEpoch);
      if inbound > highestObserved {
        highestObserved := inbound;
      }
      if inbound > ownEpoch {
        role := Standby;
        var successor := if sender.Some? then sender.value else "";
        pendingEvents := pendingEvents + [AnchorFailover(successor, inbound, REASON_ACTIVE_LOST)];
        streamsOpen := false;
        return Some(EpochFenced);
      }
      if isTopologyWrite && (role != Active || degraded) {
        return Some(NotLeader);
      }
      return None;
    }

    method OnQuorumLost(quorumSize: nat, available: nat)
      modifies this
      ensures Contents() == Step(old(Contents()), QuorumLost(quorumSize, available)).0
    {
      degraded := true;
      pendingEvents := pendingEvents + [AnchorQuorumLost(quorumSize, available)];
    }

    method OnQuorumRestored()
      modifies this
      ensures Contents() == Step(old(Contents()), QuorumRestored).0
    {
      degraded := false;
    }

    method OnTakeOwnership(newEpoch: nat, reason: string) returns (error: Option<FenceError>)
      modifies this
      ensures (Contents(), error) == Step(old(Contents()), TakeOwnership(newEpoch, reason))
    {
      if newEpoch <= highestObserved {
        return Some(EpochFenced);
      }
      ownEpoch := newEpoch;
      highestObserved := newEpoch;
      role := Active;
      degraded := false;
      streamsOpen := true;
      pendingEvents := pendingEvents + [AnchorFailover(nid, newEpoch, reason)];
      return None;
    }

    method TakeEvents() returns (events: seq<TopologyEvent>)
      modifies this
      ensures Contents() == Step(old(Contents()), TakePendingEvents).0
      ensures events == old(pendingEvents)
    {
      events := pendingEvents;
      pendingEvents := [];
    }
  }

  // ---- runs of one anchor --------------------------------------------------

  function Run(s: Ownership, calls: seq<Call>): Ownership
    decreases |calls|
  {
    if calls == [] then s else Step(Run(s, calls[..|calls| - 1]), calls[|calls| - 1]).0
  }

  /** What the two constructors build. */
  predicate IsStart(s: Ownership) {
    && (s.role == Active ==> s.ownEpoch == 1)
    && s.highestObserved == s.ownEpoch
    && !s.degraded && s.streamsOpen && s.pendingEvents == []
  }

  /** The epoch a call shows the anchor: an inbound frame's, or that of a takeover that went through. */
  function Shown(s: Ownership, c: Call): nat {
    match c
    case InboundFrame(epoch, _, _) => if epoch.Some? then epoch.value else 1
    case TakeOwnership(newEpoch, _) => if OnTake(s, newEpoch, c.reason).1.None? then newEpoch else 0
    case _ => 0
  }

  function HighestShown(s: Ownership, calls: seq<Call>): nat
    decreases |calls|
  {
    if calls == [] then s.ownEpoch
    else
      var n := |calls| - 1;
      Max(HighestShown(s, calls[..n]), Shown(Run(s, calls[..n]), calls[n]))
  }

  /** The anchor remembers this epoch as the highest; while active it owns it, and its streams are open. */
  predicate Remembers(s: Ownership, highest: nat) {
    && s.highestObserved == highest
    && s.ownEpoch <= highest
    && (s.role == Active ==> s.ownEpoch == highest && s.streamsOpen)
  }

  lemma StepRemembers(s: Ownership, c: Call, highest: nat)
    requires Remembers(s, highest)
    ensures Remembers(Step(s, c).0, Max(highest, Shown(s, c)))
  {
  }

  /** In every run the anchor knows the highest epoch it was ever shown, and while active that is its own. */
  lemma {:induction false} ActiveOwnsTheHighestEpoch(s: Ownership, calls: seq<Call>)
    requires IsStart(s)
    ensures Remembers(Run(s, calls), HighestShown(s, calls))
    decreases |calls|
  {
    if calls != [] {
      var n := |calls| - 1;
      ActiveOwnsTheHighestEpoch(s, calls[..n]);
      StepRemembers(Run(s, calls[..n]), calls[n], HighestShown(s, calls[..n]));
    }
  }

  /** No takeover among these calls succeeds. */
  ghost predicate NoTakeover(s: Ownership, calls: seq<Call>) {
    forall k :: 0 <= k < |calls| && calls[k].TakeOwnership? ==> Step(Run(s, calls[..k]), calls[k]).1.Some?
  }

  /**
   Until a takeover succeeds a standby stays one, refuses every write, keeps closed streams closed,
   and only learns higher epochs.
   */
  lemma {:induction false} FencedAcceptsNoWrite(s: Ownership, calls: seq<Call>)
    requires s.role == Standby && NoTakeover(s, calls)
    ensures Run(s, calls).role == Standby && s.highestObserved <= Run(s, calls).highestObserved
    ensures !s.streamsOpen ==> !Run(s, calls).streamsOpen
    ensures forall k :: 0 <= k < |calls| && calls[k].InboundFrame? && calls[k].isWrite ==>
              Step(Run(s, calls[..k]), calls[k]).1.Some?
    decreases |calls|
  {
    if calls != [] {
      var n := |calls| - 1;
      var before := calls[..n];
      forall k | 0 <= k < n ensures before[..k] == calls[..k] {
      }
      FencedAcceptsNoWrite(s, before);
      forall k | 0 <= k < |calls| && calls[k].InboundFrame? && calls[k].isWrite
        ensures Step(Run(s, calls[..k]), calls[k]).1.Some?
      {
        if k < n {
          assert before[k] == calls[k] && before[..k] == calls[..k];
        }
      }
    }
  }

  /** A takeover succeeds exactly when its epoch is strictly above everything ever shown. */
  lemma TakeoverNeedsAHigherEpoch(s: Ownership, calls: seq<Call>, newEpoch: nat, reason: string)
    requires IsStart(s)
    ensures Step(Run(s, calls), TakeOwnership(newEpoch, reason)).1 ==
            if newEpoch > HighestShown(s, calls) then None else Some(EpochFenced)
  {
    ActiveOwnsTheHighestEpoch(s, calls);
  }

  // ---- what the history decides --------------------------------------------

  /** The `k`-th call is a frame above the epoch owned at that point. */
  ghost predicate FencesAt(s: Ownership, calls: seq<Call>, k: nat)
    requires k < |calls|
  {
    calls[k].InboundFrame? &&
    (if calls[k].epoch.Some? then calls[k].epoch.value else 1) > Run(s, calls[..k]).ownEpoch
  }

  /** The `k`-th call takes over at an epoch above everything shown before. */
  ghost predicate TakesAt(s: Ownership, calls: seq<Call>, k: nat)
    requires k < |calls|
  {
    calls[k].TakeOwnership? && calls[k].newEpoch > HighestShown(s, calls[..k])
  }

  ghost predicate NoFenceFrom(s: Ownership, calls: seq<Call>, i: nat) {
    forall k :: i <= k < |calls| ==> !FencesAt(s, calls, k)
  }

  ghost predicate NoTakeoverFrom(s: Ownership, calls: seq<Call>, i: nat) {
    forall k :: i <= k < |calls| ==> !TakesAt(s, calls, k)
  }

  ghost predicate NoneRestoredFrom(calls: seq<Call>, i: nat) {
    forall k :: i <= k < |calls| ==> !calls[k].QuorumRestored?
  }

  ghost predicate LeadsSince(s: Ownership, calls: seq<Call>, k: nat) {
    k < |calls| && TakesAt(s, calls, k) && NoFenceFrom(s, calls, k + 1)
  }

  ghost predicate OwnsSince(s: Ownership, calls: seq<Call>, k: nat) {
    k < |calls| && TakesAt(s, calls, k) && NoTakeoverFrom(s, calls, k + 1)
  }

  ghost predicate LacksQuorumSince(s: Ownership, calls: seq<Call>, k: nat) {
    k < |calls| && calls[k].QuorumLost? && NoTakeoverFrom(s, calls, k + 1) && NoneRestoredFrom(calls, k + 1)
  }

  /** Active from the start or since a takeover, and not fenced from then on. */
  ghost predicate Leads(s: Ownership, calls: seq<Call>) {
    (s.role == Active && NoFenceFrom(s, calls, 0)) || exists k: nat :: LeadsSince(s, calls, k)
  }

  /** A quorum was lost, and since then neither restored nor followed by a takeover. */
  ghost predicate LacksQuorum(s: Ownership, calls: seq<Call>) {
    exists k: nat :: LacksQuorumSince(s, calls, k)
  }

  /** The epoch of the last takeover, or the one the anchor started with. */
  ghost predicate Owns(s: Ownership, calls: seq<Call>, epoch: nat) {
    || (epoch == s.ownEpoch && NoTakeoverFrom(s, calls, 0))
    || exists k: nat :: OwnsSince(s, calls, k) && calls[k].newEpoch == epoch
  }

  lemma LastCall(s: Ownership, before: seq<Call>, c: Call, i: nat)
    requires i <= |before|
    ensures var calls, n := before + [c], |before|;
            && (NoFenceFrom(s, calls, i) <==> NoFenceFrom(s, before, i) && !FencesAt(s, calls, n))
            && (NoTakeoverFrom(s, calls, i) <==> NoTakeoverFrom(s, before, i) && !TakesAt(s, calls, n))
            && (NoneRestoredFrom(calls, i) <==> NoneRestoredFrom(before, i) && !c.QuorumRestored?)
            && forall k: nat :: k < n ==> (TakesAt(s, calls, k) <==> TakesAt(s, before, k))
  {
    var calls := before + [c];
    forall k: nat | k < |before|
      ensures FencesAt(s, before, k) == FencesAt(s, calls, k) && TakesAt(s, before, k) == TakesAt(s, calls, k)
    {
      assert calls[..k] == before[..k] && calls[k] == before[k];
    }
    assert calls[|before|] == c && forall k :: 0 <= k < |before| ==> calls[k] == before[k];
  }

  lemma LastCallSince(s: Ownership, before: seq<Call>, c: Call, k: nat)
    ensures var calls, n := before + [c], |before|;
            && (LeadsSince(s, calls, k) <==>
                if k == n then TakesAt(s, calls, n) else LeadsSince(s, before, k) && !FencesAt(s, calls, n))
            && (OwnsSince(s, calls, k) <==>
                if k == n then TakesAt(s, calls, n) else OwnsSince(s, before, k) && !TakesAt(s, calls, n))
            && (LacksQuorumSince(s, calls, k) <==>
                if k == n then c.QuorumLost?
                else LacksQuorumSince(s, before, k) && !TakesAt(s, calls, n) && !c.QuorumRestored?)
  {
    if k < |before| {
      LastCall(s, before, c, k + 1);
      assert (before + [c])[k] == before[k];
    }
  }

  lemma LeadsMoves(s: Ownership, before: seq<Call>, c: Call)
    ensures var calls, n := before + [c], |before|;
            Leads(s, calls) <==> TakesAt(s, calls, n) || (Leads(s, before) && !FencesAt(s, calls, n))
  {
    var calls, n := before + [c], |before|;
    LastCall(s, before, c, 0);
    if k: nat :| LeadsSince(s, calls, k) {
      LastCallSince(s, before, c, k);
    }
    LastCallSince(s, before, c, n);
    if k: nat :| LeadsSince(s, before, k) {
      LastCallSince(s, before, c, k);
    }
  }

  lemma LacksQuorumMoves(s: Ownership, before: seq<Call>, c: Call)
    ensures var calls, n := before + [c], |before|;
            LacksQuorum(s, calls) <==>
            c.QuorumLost? || (LacksQuorum(s, before) && !TakesAt(s, calls, n) && !c.QuorumRestored?)
  {
    var calls, n := before + [c], |before|;
    if k: nat :| LacksQuorumSince(s, calls, k) {
      LastCallSince(s, before, c, k);
    }
    LastCallSince(s, before, c, n);
    if k: nat :| LacksQuorumSince(s, before, k) {
      LastCallSince(s, before, c, k);
    }
  }

  lemma OwnsMoves(s: Ownership, before: seq<Call>, c: Call, epoch: nat)
    requires if TakesAt(s, before + [c], |before|) then c.TakeOwnership? && epoch == c.newEpoch else Owns(s, before, epoch)
    ensures Owns(s, before + [c], epoch)
  {
    LastCall(s, before, c, 0);
    LastCallSince(s, before, c, |before|);
    if k: nat :| OwnsSince(s, before, k) && before[k].newEpoch == epoch {
      LastCallSince(s, before, c, k);
      assert (before + [c])[k] == before[k];
    }
  }

  /** What one call changes, field by field. */
  lemma StepTells(now: Ownership, c: Call)
    ensures var fences := c.InboundFrame? && (if c.epoch.Some? then c.epoch.value else 1) > now.ownEpoch;
            var takes := c.TakeOwnership? && c.newEpoch > now.highestObserved;
            var next := Step(now, c).0;
            && next.nid == now.nid
            && (next.role == Active <==> takes || (now.role == Active && !fences))
            && (next.streamsOpen <==> takes || (now.streamsOpen && !fences))
            && (next.degraded <==> c.QuorumLost? || (now.degraded && !takes && !c.QuorumRestored?))
            && next.ownEpoch == (if takes then c.newEpoch else now.ownEpoch)
  {
  }

  /** The role, the degradation, the streams and the epoch of an anchor are what its history says. */
  lemma {:induction false} HistoryDecides(s: Ownership, calls: seq<Call>)
    requires IsStart(s)
    ensures Run(s, calls).role == Active <==> Leads(s, calls)
    ensures Run(s, calls).degraded <==> LacksQuorum(s, calls)
    ensures Run(s, calls).streamsOpen <==> Leads(s, calls) || NoFenceFrom(s, calls, 0)
    ensures Owns(s, calls, Run(s, calls).ownEpoch)
    decreases |calls|
  {
    if calls != [] {
      var before, c := calls[..|calls| - 1], calls[|calls| - 1];
      assert calls == before + [c];
      HistoryDecides(s, before);
      ActiveOwnsTheHighestEpoch(s, before);
      LeadsMoves(s, before, c);
      LacksQuorumMoves(s, before, c);
      LastCall(s, before, c, 0);
      StepTells(Run(s, before), c);
      OwnsMoves(s, before, c, Run(s, calls).ownEpoch);
    }
  }

  /**
   An inbound frame is fenced exactly above the owned epoch; another is refused exactly when it writes
   and the anchor does not lead or lacks its quorum.
   */
  lemma InboundIsAnsweredWhen(
    s: Ownership, calls: seq<Call>, epoch: Option<nat>, sender: Option<string>, isWrite: bool, owned: nat)
    requires IsStart(s) && Run(s, calls).ownEpoch == owned
    ensures Owns(s, calls, owned)
    ensures var answer := Step(Run(s, calls), InboundFrame(epoch, sender, isWrite)).1;
            && (answer == Some(EpochFenced) <==> (if epoch.Some? then epoch.value else 1) > owned)
            && (answer == Some(NotLeader) <==>
                (if epoch.Some? then epoch.value else 1) <= owned && isWrite && (!Leads(s, calls) || LacksQuorum(s, calls)))
  {
    HistoryDecides(s, calls);
  }

  // ---- events --------------------------------------------------------------

  /** A fence, a lost quorum and a takeover each publish one event; nothing else does. */
  ghost function Published(now: Ownership, c: Call): seq<TopologyEvent> {
    match c
    case InboundFrame(epoch, sender, _) =>
      var shown := if epoch.Some? then epoch.value else 1;
      if shown > now.ownEpoch then [AnchorFailover(if sender.Some? then sender.value else "", shown, "active_lost")] else []
    case QuorumLost(size, available) => [AnchorQuorumLost(size, available)]
    case TakeOwnership(newEpoch, reason) =>
      if newEpoch > now.highestObserved then [AnchorFailover(now.nid, newEpoch, reason)] else []
    case _ => []
  }

  ghost function Log(s: Ownership, calls: seq<Call>): seq<TopologyEvent>
    decreases |calls|
  {
    if calls == [] then []
    else
      var n := |calls| - 1;
      Log(s, calls[..n]) + Published(Run(s, calls[..n]), calls[n])
  }

  /** What the host has taken, call by call. */
  ghost function Taken(s: Ownership, calls: seq<Call>): seq<TopologyEvent>
    decreases |calls|
  {
    if calls == [] then []
    else
      var n := |calls| - 1;
      Taken(s, calls[..n]) + if calls[n].TakePendingEvents? then Run(s, calls[..n]).pendingEvents else []
  }

  lemma StepPublishes(now: Ownership, c: Call)
    ensures Step(now, c).0.pendingEvents == if c.TakePendingEvents? then [] else now.pendingEvents + Published(now, c)
  {
  }

  /** No event is lost, doubled or moved: what was taken and what is pending are the log. */
  lemma {:induction false} EventsAreTheLog(s: Ownership, calls: seq<Call>)
    requires s.pendingEvents == []
    ensures Taken(s, calls) + Run(s, calls).pendingEvents == Log(s, calls)
    decreases |calls|
  {
    if calls != [] {
      var n := |calls| - 1;
      var before := Run(s, calls[..n]);
      EventsAreTheLog(s, calls[..n]);
      StepPublishes(before, calls[n]);
      Regroup(Taken(s, calls[..n]), before.pendingEvents, Published(before, calls[n]));
    }
  }

  // ---- a cluster -----------------------------------------------------------

  type Cluster = map<string, Ownership>

  datatype ClusterCall = ClusterCall(anchor: string, call: Call)

  function ClusterStep(cluster: Cluster, c: ClusterCall): Cluster {
    if c.anchor in cluster then cluster[c.anchor := Step(cluster[c.anchor], c.call).0] else cluster
  }

  function ClusterRun(cluster: Cluster, calls: seq<ClusterCall>): Cluster
    decreases |calls|
  {
    if calls == [] then cluster else ClusterStep(ClusterRun(cluster, calls[..|calls| - 1]), calls[|calls| - 1])
  }

  /** Consensus grants every epoch to one anchor; takeovers use only epochs granted to them. */
  ghost predicate UsesGrants(grant: nat -> string, calls: seq<ClusterCall>) {
    forall k :: 0 <= k < |calls| && calls[k].call.TakeOwnership? ==> grant(calls[k].call.newEpoch) == calls[k].anchor
  }

  /** One anchor starts active, at epoch 1, and the others on standby. */
  ghost predicate StartsWith(grant: nat -> string, cluster: Cluster) {
    forall id :: id in cluster ==>
      IsStart(cluster[id]) && (cluster[id].role == Active ==> grant(1) == id)
  }

  ghost predicate OwnGrants(grant: nat -> string, cluster: Cluster) {
    forall id :: id in cluster && cluster[id].role == Active ==> grant(cluster[id].ownEpoch) == id
  }

  lemma {:induction false} ActiveEpochsAreGranted(grant: nat -> string, cluster: Cluster, calls: seq<ClusterCall>)
    requires StartsWith(grant, cluster) && UsesGrants(grant, calls)
    ensures OwnGrants(grant, ClusterRun(cluster, calls))
    decreases |calls|
  {
    if calls != [] {
      var n := |calls| - 1;
      ActiveEpochsAreGranted(grant, cluster, calls[..n]);
    }
  }

  /** Whatever frames, losses and takeovers happen, no two active anchors share an epoch. */
  lemma NoTwoOwnersOfAnEpoch(
    grant: nat -> string, cluster: Cluster, calls: seq<ClusterCall>, a: string, b: string)
    requires StartsWith(grant, cluster) && UsesGrants(grant, calls)
    requires a in ClusterRun(cluster, calls) && b in ClusterRun(cluster, calls)
    requires ClusterRun(cluster, calls)[a].role == Active && ClusterRun(cluster, calls)[b].role == Active
    requires ClusterRun(cluster, calls)[a].ownEpoch == ClusterRun(cluster, calls)[b].ownEpoch
    ensures a == b
  {
    ActiveEpochsAreGranted(grant, cluster, calls);
  }
}
