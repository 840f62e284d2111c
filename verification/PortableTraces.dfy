/**
 What every orchestration trace satisfies: dependencies come first, one terminal event comes last,
 retries stay within their limit, and compensation undoes the right nodes in the right order.
 */
module PortableTraces {
  import opened Wrappers
  import opened Collections
  import opened DependencyGraph
  import opened PortableModel

  // ---- events --------------------------------------------------------------

  predicate IsTerminal(e: Event) {
    e.TaskCancelled? || e.TaskFailed? || e.TaskCompleted?
  }

  /** The event of some visit to this node, as opposed to its compensation. */
  predicate Visits(e: Event, id: string) {
    (e.NodeAttempt? || e.NodeRetrying? || e.NodeCompleted? || e.NodeSkipped? || e.NodeFailed?) && e.id == id
  }

  /** The node ended well in these events. */
  predicate EndedWell(events: seq<Event>, id: string) {
    NodeCompleted(id) in events || NodeSkipped(id) in events
  }

  /** Before any event of a visit to a node, each of its dependencies has completed or been skipped. */
  ghost predicate DependenciesFirst(g: Graph, events: seq<Event>) {
    forall k, id :: 0 <= k < |events| && Visits(events[k], id) ==> DepsEnded(g, events[..k], id)
  }

  ghost predicate DepsEnded(g: Graph, events: seq<Event>, id: string) {
    id in g && forall d :: d in g[id] ==> EndedWell(events, d)
  }

  ghost predicate NoTerminal(events: seq<Event>) {
    forall k :: 0 <= k < |events| ==> !IsTerminal(events[k])
  }

  /** Every event of these visits this one node. */
  ghost predicate OnlyVisits(events: seq<Event>, id: string) {
    forall k :: 0 <= k < |events| ==> Visits(events[k], id)
  }

  // ---- attempts ------------------------------------------------------------

  lemma {:induction false} AttemptsVisit(id: string, node: Node, retries: nat, k: nat)
    ensures var t := Attempts(id, node, retries, k);
            OnlyVisits(t.events, id) && (t.verdict.Succeeded? ==> NodeCompleted(id) in t.events)
    decreases |node.attempts| - k
  {
    if k < |node.attempts| && k <= retries && Retries(node, node.attempts[k]) {
      AttemptsVisit(id, node, retries, k + 1);
      var rest := Attempts(id, node, retries, k + 1);
      if rest.verdict.Succeeded? {
        assert NodeCompleted(id) in [NodeAttempt(id, k + 1), NodeRetrying(id)] + rest.events;
      }
    }
  }

  /** Every attempt before the `n`-th failed in a way the node retries. */
  ghost predicate AllRetried(node: Node, k: nat, n: nat)
    requires n <= |node.attempts|
  {
    forall j :: k <= j < n ==> Retries(node, node.attempts[j])
  }

  /** The script succeeds in its `n`-th entry, within the limit, all earlier entries being retried. */
  ghost predicate SucceedsAt(node: Node, retries: nat, k: nat, n: nat) {
    k <= n < |node.attempts| && n <= retries && node.attempts[n].Success? && AllRetried(node, k, n)
  }

  lemma RetriedMovesOn(node: Node, retries: nat, k: nat, n: nat)
    requires k < |node.attempts| && k <= retries && Retries(node, node.attempts[k])
    ensures SucceedsAt(node, retries, k, n) <==> SucceedsAt(node, retries, k + 1, n)
  {
    if SucceedsAt(node, retries, k + 1, n) {
      assert AllRetried(node, k, n);
    }
  }

  /** A node completes exactly when its script reaches a success through retried failures only. */
  lemma {:induction false} CompletesExactlyWhen(id: string, node: Node, retries: nat, k: nat)
    ensures Attempts(id, node, retries, k).verdict.Succeeded? <==> exists n: nat :: SucceedsAt(node, retries, k, n)
    ensures forall n: nat :: SucceedsAt(node, retries, k, n) ==>
              && Attempts(id, node, retries, k).verdict == Succeeded(node.attempts[n].result)
              && Attempts(id, node, retries, k).count == n + 1
    decreases |node.attempts| - k
  {
    if k < |node.attempts| && k <= retries {
      if node.attempts[k].Success? {
        assert SucceedsAt(node, retries, k, k);
        forall n: nat | SucceedsAt(node, retries, k, n) ensures n == k {
          assert n > k ==> Retries(node, node.attempts[k]);
        }
      } else if Retries(node, node.attempts[k]) {
        var next := k + 1;
        forall n: nat ensures SucceedsAt(node, retries, k, n) <==> SucceedsAt(node, retries, next, n) {
          RetriedMovesOn(node, retries, k, n);
        }
        CompletesExactlyWhen(id, node, retries, next);
        if n: nat :| SucceedsAt(node, retries, next, n) {
          assert SucceedsAt(node, retries, k, n);
        }
      } else {
        assert forall n: nat :: !SucceedsAt(node, retries, k, n);
      }
    }
  }

  /** The number of attempts never exceeds one more than the retry limit, nor the script. */
  lemma {:induction false} AttemptsWithinLimit(id: string, node: Node, retries: nat, k: nat)
    requires k <= retries + 1 && k <= |node.attempts|
    ensures var t := Attempts(id, node, retries, k); k <= t.count <= retries + 1 && t.count <= |node.attempts|
    decreases |node.attempts| - k
  {
    if k < |node.attempts| && k < retries && Retries(node, node.attempts[k]) {
      AttemptsWithinLimit(id, node, retries, k + 1);
    }
  }

  // ---- runs ----------------------------------------------------------------

  /** Before the `i`-th visit: everything earlier in the order has ended well, in state and in trace. */
  ghost predicate Settled(g: Graph, order: seq<string>, i: nat, p: Progress)
    requires i <= |order|
  {
    && NoTerminal(p.events)
    && DependenciesFirst(g, p.events)
    && (forall k :: 0 <= k < i ==> EndedWell(p.events, order[k]))
    && p.states.Keys == Elements(order[..i])
    && (forall id :: id in p.states ==> p.states[id].Completed? || p.states[id].Skipped?)
  }

  lemma TraceGrows(g: Graph, order: seq<string>, i: nat, events: seq<Event>, more: seq<Event>)
    requires IsTopological(g, order) && i < |order|
    requires NoTerminal(events) && DependenciesFirst(g, events)
    requires forall k :: 0 <= k < i ==> EndedWell(events, order[k])
    requires OnlyVisits(more, order[i])
    ensures NoTerminal(events + more) && DependenciesFirst(g, events + more)
    ensures forall k :: 0 <= k < i ==> EndedWell(events + more, order[k])
  {
    var all := events + more;
    forall k, id | 0 <= k < |all| && Visits(all[k], id) ensures DepsEnded(g, all[..k], id) {
      if k < |events| {
        assert all[..k] == events[..k];
      } else {
        assert Visits(more[k - |events|], order[i]) && id == order[i];
        assert order[i] in Elements(order);
        forall d | d in g[id] ensures EndedWell(all[..k], d) {
          assert d in order[..i];
          assert events <= all[..k];
        }
      }
    }
    forall k | 0 <= k < i ensures EndedWell(all, order[k]) {
      assert EndedWell(events, order[k]);
    }
  }

  /** What a visit adds to the trace, and the state it leaves the node in, if any. */
  ghost predicate Adds(p: Progress, v: Visited, id: string, more: seq<Event>) {
    && v.next.events == p.events + more && OnlyVisits(more, id)
    && (v.Goes? ==> EndedWell(more, id))
  }

  ghost predicate Sets(p: Progress, v: Visited, id: string) {
    if v.Goes? then
      v.next.states == p.states[id := Completed] || v.next.states == p.states[id := Skipped]
    else
      v.next.states == p.states || v.next.states == p.states[id := Failed]
  }

  lemma TryAdds(task: Task, id: string, node: Node, p: Progress) returns (more: seq<Event>)
    ensures Adds(p, Try(task, id, node, p), id, more) && Sets(p, Try(task, id, node, p), id)
  {
    more := Attempts(id, node, RetryLimit(task, node), 0).events;
    AttemptsVisit(id, node, RetryLimit(task, node), 0);
  }

  lemma VisitAdds(task: Task, reader: Reader, id: string, node: Node, p: Progress) returns (more: seq<Event>)
    ensures Adds(p, Visit(task, reader, id, node, p), id, more) && Sets(p, Visit(task, reader, id, node, p), id)
  {
    var v := Visit(task, reader, id, node, p);
    if v == Try(task, id, node, p) {
      more := TryAdds(task, id, node, p);
    } else if v.Cancels? {
      more := [];
    } else if v == Unattempted(p, id, CONDITION_EVAL_ERROR) || v == Unattempted(p, id, INPUT_MAPPING_ERROR) {
      more := [NodeFailed(id)];
    } else if v.next.attempts == p.attempts[id := 0] && v.next.events == p.events + [NodeSkipped(id)] {
      more := [NodeSkipped(id)];
    } else {
      var parameters := reader.mapping(node.inputMapping.value, p.results).value;
      more := TryAdds(task, id, node, p.(mapped := p.mapped[id := parameters]));
    }
  }

  /** A visit that lets the task go on keeps everything settled. */
  lemma VisitSettles(g: Graph, order: seq<string>, i: nat, task: Task, reader: Reader, node: Node, p: Progress)
    requires IsTopological(g, order) && i < |order| && Settled(g, order, i, p)
    requires Visit(task, reader, order[i], node, p).Goes?
    ensures Settled(g, order, i + 1, Visit(task, reader, order[i], node, p).next)
  {
    var q := Visit(task, reader, order[i], node, p).next;
    var more := VisitAdds(task, reader, order[i], node, p);
    TraceGrows(g, order, i, p.events, more);
    assert order[..i + 1] == order[..i] + [order[i]];
    assert q.states.Keys == p.states.Keys + {order[i]};
    assert EndedWell(q.events, order[i]);
  }

  /** What a report's trace promises. */
  ghost predicate GoodTrace(g: Graph, r: Report) {
    var events := r.progress.events;
    && events != []
    && DependenciesFirst(g, events)
    && NoTerminal(events[..|events| - 1])
    && events[|events| - 1] == match r.status
                               case RunCompleted => TaskCompleted
                               case RunCancelled => TaskCancelled
                               case RunFailed => TaskFailed
  }

  lemma EndsGood(g: Graph, events: seq<Event>, last: Event)
    requires NoTerminal(events) && DependenciesFirst(g, events) && IsTerminal(last)
    ensures DependenciesFirst(g, events + [last]) && NoTerminal((events + [last])[..|events|])
  {
    var all := events + [last];
    assert all[..|events|] == events;
    forall k, id | 0 <= k < |all| && Visits(all[k], id) ensures DepsEnded(g, all[..k], id) {
      assert k < |events| && all[..k] == events[..k];
    }
  }

  lemma {:induction false} UndoTrace(strict: bool, nodes: Nodes, candidates: seq<string>, states: map<string, NodeState>)
    requires AllKnown(nodes, candidates)
    ensures NoTerminal(Undo(strict, nodes, candidates, states).events)
    ensures forall k, id :: 0 <= k < |Undo(strict, nodes, candidates, states).events| ==>
              !Visits(Undo(strict, nodes, candidates, states).events[k], id)
  {
    if candidates != [] {
      var id, rest := candidates[0], candidates[1..];
      if !nodes[id].hasCompensation {
        UndoTrace(strict, nodes, rest, states);
      } else if !nodes[id].compensationFails {
        UndoTrace(strict, nodes, rest, states[id := Compensated]);
      } else if !strict {
        UndoTrace(strict, nodes, rest, states[id := CompensationFailed]);
      }
    }
  }

  lemma CompensationAddsNoVisits(g: Graph, events: seq<Event>, more: seq<Event>)
    requires NoTerminal(events) && DependenciesFirst(g, events) && NoTerminal(more)
    requires forall k, id :: 0 <= k < |more| ==> !Visits(more[k], id)
    ensures NoTerminal(events + more) && DependenciesFirst(g, events + more)
  {
    var all := events + more;
    forall k, id | 0 <= k < |all| && Visits(all[k], id) ensures DepsEnded(g, all[..k], id) {
      assert !(exists j :: 0 <= j < |more| && Visits(more[j], id));
      assert k < |events| && all[..k] == events[..k];
    }
  }

  lemma {:induction false} RunsAreGood(
    task: Task, reader: Reader, nodes: Nodes, order: seq<string>, i: nat, p: Progress)
    requires IsTopological(Dependencies(nodes), order) && forall id :: id in order ==> id in nodes
    requires i <= |order| && Settled(Dependencies(nodes), order, i, p)
    ensures GoodTrace(Dependencies(nodes), RunFrom(task, reader, nodes, order, i, p))
    decreases |order| - i
  {
    var g := Dependencies(nodes);
    if i == |order| {
      EndsGood(g, p.events, TaskCompleted);
    } else {
      var id := order[i];
      assert id in order;
      var v := Visit(task, reader, id, nodes[id], p);
      var more := VisitAdds(task, reader, id, nodes[id], p);
      TraceGrows(g, order, i, p.events, more);
      var q := v.next;
      match v
      case Goes(_) =>
        VisitSettles(g, order, i, task, reader, nodes[id], p);
        RunsAreGood(task, reader, nodes, order, i + 1, q);
      case Cancels(_) =>
        EndsGood(g, q.events, TaskCancelled);
      case Breaks(_, _) =>
        EndsGood(g, q.events, TaskFailed);
      case Exhausts(_, _) =>
        CompensationIsGood(task, nodes, order, id, q);
    }
  }

  lemma CompensationIsGood(task: Task, nodes: Nodes, order: seq<string>, id: string, q: Progress)
    requires forall x :: x in order ==> x in nodes
    requires NoTerminal(q.events) && DependenciesFirst(Dependencies(nodes), q.events)
    ensures var all := q.events + Compensate(task.policy, nodes, order, id, q.states).events;
            DependenciesFirst(Dependencies(nodes), all + [TaskFailed]) && NoTerminal((all + [TaskFailed])[..|all|])
  {
    var g := Dependencies(nodes);
    var c := Compensate(task.policy, nodes, order, id, q.states);
    var candidates := Candidates(order, Ancestors(g, id), q.states);
    CandidatesAre(order, Ancestors(g, id), q.states);
    UndoTrace(task.policy.Strict?, nodes, candidates, q.states);
    CompensationAddsNoVisits(g, q.events, c.events);
    EndsGood(g, q.events + c.events, TaskFailed);
  }

  /**
   Every run of a well-formed acyclic task visits a node only after all its dependencies have
   completed or been skipped, and ends its trace with the one terminal event its status names.
   */
  lemma EveryTraceIsGood(task: Task, reader: Reader, nodes: Nodes, order: seq<string>)
    requires IsTopological(Dependencies(nodes), order) && forall id :: id in order ==> id in nodes
    ensures GoodTrace(Dependencies(nodes), Evaluate(task, reader, nodes, order))
  {
    var start := if task.preflight then [TaskPreflight] else [];
    if !(task.preflight && PreflightFails(nodes, order)) {
      RunsAreGood(task, reader, nodes, order, 0, NOTHING.(events := start + [TaskRunning]));
    }
  }

  // ---- compensation --------------------------------------------------------

  /** Walking down a chain goes strictly back in a topological order. */
  lemma ChainGoesBack(g: Graph, order: seq<string>, x: string, d: string, p: nat)
    requires IsTopological(g, order) && DependsOn(g, x, d) && p < |order| && order[p] == x
    ensures d in order[..p]
  {
    var w :| IsChain(g, w) && w[0] == x && w[|w| - 1] == d;
    WalkDescends(g, order, w, |w| - 1, p);
  }

  /** The candidates are exactly the completed ancestors of the node that failed. */
  lemma CandidatesAreCompletedAncestors(
    nodes: Nodes, order: seq<string>, failed: string, states: map<string, NodeState>, id: string)
    requires IsTopological(Dependencies(nodes), order)
    ensures id in Candidates(order, Ancestors(Dependencies(nodes), failed), states) <==>
            id in nodes && DependsOn(Dependencies(nodes), failed, id) && id in states && states[id] == Completed
  {
    CandidatesAre(order, Ancestors(Dependencies(nodes), failed), states);
    assert id in order <==> id in Elements(order);
  }

  /** Each element stands later in the order than the next one. */
  ghost predicate Backwards(order: seq<string>, ids: seq<string>) {
    forall i, j, p, q ::
      (0 <= i < j < |ids| && 0 <= p < |order| && 0 <= q < |order| && order[p] == ids[i] && order[q] == ids[j]) ==> q < p
  }

  lemma {:induction false} CandidatesGoBackwards(order: seq<string>, ancestors: set<string>, states: map<string, NodeState>)
    requires Distinct(order)
    ensures Backwards(order, Candidates(order, ancestors, states))
  {
    if order != [] {
      var n := |order| - 1;
      var ids, rest := Candidates(order, ancestors, states), Candidates(order[..n], ancestors, states);
      CandidatesGoBackwards(order[..n], ancestors, states);
      CandidatesAre(order[..n], ancestors, states);
      forall i, j, p, q | 0 <= i < j < |ids| && 0 <= p < |order| && 0 <= q < |order|
        && order[p] == ids[i] && order[q] == ids[j] ensures q < p
      {
        var shift := |ids| - |rest|;
        assert ids[j] == rest[j - shift] && rest[j - shift] in rest;
        assert ids[j] in order[..n];
        if i >= shift {
          assert ids[i] == rest[i - shift] && rest[i - shift] in rest && ids[i] in order[..n];
          assert order[..n][p] == order[p] && order[..n][q] == order[q];
        }
      }
    }
  }

  /** Compensation runs dependents first: nothing compensated later depends on anything compensated before it. */
  ghost predicate DependentsFirst(g: Graph, ids: seq<string>) {
    forall i, j :: 0 <= i < j < |ids| ==> !DependsOn(g, ids[j], ids[i])
  }

  lemma CandidatesAreDependentsFirst(
    nodes: Nodes, order: seq<string>, ancestors: set<string>, states: map<string, NodeState>)
    requires IsTopological(Dependencies(nodes), order)
    ensures DependentsFirst(Dependencies(nodes), Candidates(order, ancestors, states))
  {
    var g, ids := Dependencies(nodes), Candidates(order, ancestors, states);
    CandidatesAre(order, ancestors, states);
    CandidatesGoBackwards(order, ancestors, states);
    forall i, j | 0 <= i < j < |ids| ensures !DependsOn(g, ids[j], ids[i]) {
      assert ids[i] in order && ids[j] in order;
      var p :| 0 <= p < |order| && order[p] == ids[i];
      var q :| 0 <= q < |order| && order[q] == ids[j];
      if DependsOn(g, ids[j], ids[i]) {
        ChainGoesBack(g, order, ids[j], ids[i], q);
        assert false;
      }
    }
  }

  /** The candidates with a compensating action. */
  function WithAction(nodes: Nodes, ids: seq<string>): seq<string>
    requires AllKnown(nodes, ids)
  {
    if ids == [] then []
    else (if nodes[ids[0]].hasCompensation then [ids[0]] else []) + WithAction(nodes, ids[1..])
  }

  predicate Fails(nodes: Nodes, id: string) {
    id in nodes && nodes[id].compensationFails
  }

  /** Under best effort every candidate with an action is compensated, failures or not. */
  lemma {:induction false} BestEffortUndoesAll(nodes: Nodes, candidates: seq<string>, states: map<string, NodeState>)
    requires AllKnown(nodes, candidates)
    ensures var c := Undo(false, nodes, candidates, states);
            c.order == WithAction(nodes, candidates) && c.error.None?
  {
    if candidates != [] {
      var id, rest := candidates[0], candidates[1..];
      if !nodes[id].hasCompensation {
        BestEffortUndoesAll(nodes, rest, states);
      } else if !nodes[id].compensationFails {
        BestEffortUndoesAll(nodes, rest, states[id := Compensated]);
      } else {
        BestEffortUndoesAll(nodes, rest, states[id := CompensationFailed]);
      }
    }
  }

  /** A prefix of the candidates, up to and including the first that fails. */
  ghost predicate StopsAtFirstFailure(nodes: Nodes, candidates: seq<string>, c: Compensation) {
    && c.order <= candidates
    && (forall i :: 0 <= i < |c.order| - 1 ==> !Fails(nodes, c.order[i]))
    && if c.error == None then
         c.order == candidates && forall i :: 0 <= i < |candidates| ==> !Fails(nodes, candidates[i])
       else
         c.error == Some(COMPENSATION_FAILED) && c.order != [] && Fails(nodes, c.order[|c.order| - 1])
  }

  lemma {:induction false} StrictStopsAtFirstFailure(nodes: Nodes, candidates: seq<string>, states: map<string, NodeState>)
    requires AllKnown(nodes, candidates) && forall i :: 0 <= i < |candidates| ==> nodes[candidates[i]].hasCompensation
    ensures StopsAtFirstFailure(nodes, candidates, Undo(true, nodes, candidates, states))
  {
    if candidates != [] {
      var id, rest := candidates[0], candidates[1..];
      if !nodes[id].compensationFails {
        StrictStopsAtFirstFailure(nodes, rest, states[id := Compensated]);
        var c, d := Undo(true, nodes, candidates, states), Undo(true, nodes, rest, states[id := Compensated]);
        assert c.order == [id] + d.order && candidates == [id] + rest;
      }
    }
  }

  /** Exactly the nodes in the order change state, each by its own outcome. */
  ghost predicate UndoneStates(nodes: Nodes, order: seq<string>, before: map<string, NodeState>, after: map<string, NodeState>) {
    && (forall id :: id in order ==> id in after && after[id] == if Fails(nodes, id) then CompensationFailed else Compensated)
    && (forall id :: id !in order ==> (id in before <==> id in after) && (id in before ==> before[id] == after[id]))
  }

  lemma {:induction false} UndoMarksWhatItUndoes(strict: bool, nodes: Nodes, candidates: seq<string>, states: map<string, NodeState>)
    requires AllKnown(nodes, candidates) && Distinct(candidates)
    ensures var c := Undo(strict, nodes, candidates, states);
            UndoneStates(nodes, c.order, states, c.states) && forall id :: id in c.order ==> id in candidates
  {
    if candidates != [] {
      var id, rest := candidates[0], candidates[1..];
      assert id !in rest;
      if !nodes[id].hasCompensation {
        UndoMarksWhatItUndoes(strict, nodes, rest, states);
      } else if !nodes[id].compensationFails {
        UndoMarksWhatItUndoes(strict, nodes, rest, states[id := Compensated]);
      } else if !strict {
        UndoMarksWhatItUndoes(strict, nodes, rest, states[id := CompensationFailed]);
      }
    }
  }

  /**
   After an attempt failure: nothing without a policy; under best effort all candidates with an
   action; under the strict policy none of them if one has no action, and otherwise a prefix that
   ends at the first failure. States change for exactly the nodes compensated.
   */
  ghost predicate FollowsPolicy(
    policy: Policy, nodes: Nodes, candidates: seq<string>, states: map<string, NodeState>, c: Compensation)
    requires AllKnown(nodes, candidates)
  {
    && UndoneStates(nodes, c.order, states, c.states)
    && match policy
       case NoCompensation => c.order == [] && c.error == None
       case BestEffort => c.order == WithAction(nodes, candidates) && c.error == None
       case Strict =>
         if WithAction(nodes, candidates) == candidates then StopsAtFirstFailure(nodes, candidates, c)
         else c.order == [] && c.error == Some(COMPENSATION_NOT_SUPPORTED)
  }

  lemma TheseFollowPolicy(policy: Policy, nodes: Nodes, candidates: seq<string>, states: map<string, NodeState>)
    requires AllKnown(nodes, candidates) && Distinct(candidates)
    ensures FollowsPolicy(policy, nodes, candidates, states, CompensateThese(policy, nodes, candidates, states))
  {
    AllHaveActions(nodes, candidates);
    UndoMarksWhatItUndoes(policy.Strict?, nodes, candidates, states);
    if policy.BestEffort? {
      BestEffortUndoesAll(nodes, candidates, states);
    } else if policy.Strict? && WithAction(nodes, candidates) == candidates {
      StrictStopsAtFirstFailure(nodes, candidates, states);
    }
  }

  /** The candidates are the completed ancestors, dependents first, and the policy decides how far they go. */
  lemma CompensationOrder(policy: Policy, nodes: Nodes, order: seq<string>, failed: string, states: map<string, NodeState>)
    requires IsTopological(Dependencies(nodes), order) && forall id :: id in order ==> id in nodes
    ensures var candidates := Candidates(order, Ancestors(Dependencies(nodes), failed), states);
            && AllKnown(nodes, candidates)
            && DependentsFirst(Dependencies(nodes), candidates)
            && FollowsPolicy(policy, nodes, candidates, states, Compensate(policy, nodes, order, failed, states))
  {
    var ancestors := Ancestors(Dependencies(nodes), failed);
    var candidates := Candidates(order, ancestors, states);
    CandidatesAre(order, ancestors, states);
    CandidatesAreDependentsFirst(nodes, order, ancestors, states);
    CandidatesGoBackwards(order, ancestors, states);
    BackwardsIsDistinct(order, candidates);
    TheseFollowPolicy(policy, nodes, candidates, states);
  }

  lemma BackwardsIsDistinct(order: seq<string>, ids: seq<string>)
    requires Backwards(order, ids) && forall id :: id in ids ==> id in order
    ensures Distinct(ids)
  {
    forall i, j | 0 <= i < j < |ids| ensures ids[i] != ids[j] {
      assert ids[i] in order;
      var p :| 0 <= p < |order| && order[p] == ids[i];
    }
  }

  lemma {:induction false} AllHaveActions(nodes: Nodes, ids: seq<string>)
    requires AllKnown(nodes, ids)
    ensures |WithAction(nodes, ids)| <= |ids|
    ensures WithAction(nodes, ids) == ids <==> forall i :: 0 <= i < |ids| ==> nodes[ids[i]].hasCompensation
  {
    if ids != [] {
      AllHaveActions(nodes, ids[1..]);
      assert ids == [ids[0]] + ids[1..];
      assert forall i :: 0 <= i < |ids| - 1 ==> ids[1..][i] == ids[i + 1];
      if nodes[ids[0]].hasCompensation {
        assert WithAction(nodes, ids)[1..] == WithAction(nodes, ids[1..]);
      }
    }
  }

  /** The task stopped at the `k`-th node, everything before it settled, in progress `p`. */
  ghost predicate StoppedAt(nodes: Nodes, order: seq<string>, k: nat, p: Progress) {
    k < |order| && order[k] in nodes && Settled(Dependencies(nodes), order, k, p)
  }

  /** The node used up its attempts, and the report is that of its compensation. */
  ghost predicate Compensates(
    task: Task, reader: Reader, nodes: Nodes, order: seq<string>, k: nat, p: Progress, r: Report)
    requires StoppedAt(nodes, order, k, p) && forall id :: id in order ==> id in nodes
  {
    var v := Visit(task, reader, order[k], nodes[order[k]], p);
    && v.Exhausts?
    && var c := Compensate(task.policy, nodes, order, order[k], v.next.states);
       && r.compensationOrder == c.order && r.progress.states == c.states
       && r.progress.events == v.next.events + c.events + [TaskFailed]
       && r.error == if c.error.Some? then c.error else if v.cause.Some? then v.cause else Some(DELEGATE_REJECTED)
  }

  /** The node was never attempted, for its condition or its mapping, and nothing is compensated. */
  ghost predicate BreaksOff(
    task: Task, reader: Reader, nodes: Nodes, order: seq<string>, k: nat, p: Progress, r: Report)
    requires StoppedAt(nodes, order, k, p)
  {
    var v := Visit(task, reader, order[k], nodes[order[k]], p);
    && v.Breaks?
    && r.compensationOrder == [] && r.progress.states == p.states[order[k] := Failed]
    && r.progress.events == p.events + [NodeFailed(order[k])] + [TaskFailed]
    && r.error == Some(v.error) && v.error in {CONDITION_EVAL_ERROR, INPUT_MAPPING_ERROR}
  }

  /** What a failed run went through: attempts used up and compensated, or a node that could not be attempted. */
  ghost predicate FailsProperly(
    task: Task, reader: Reader, nodes: Nodes, order: seq<string>, k: nat, p: Progress, r: Report)
    requires forall id :: id in order ==> id in nodes
  {
    StoppedAt(nodes, order, k, p)
    && (Compensates(task, reader, nodes, order, k, p, r) || BreaksOff(task, reader, nodes, order, k, p, r))
  }

  lemma ExhaustedIsCompensated(
    task: Task, reader: Reader, nodes: Nodes, order: seq<string>, i: nat, p: Progress)
    requires (forall id :: id in order ==> id in nodes) && StoppedAt(nodes, order, i, p)
    requires Visit(task, reader, order[i], nodes[order[i]], p).Exhausts?
    ensures RunFrom(task, reader, nodes, order, i, p).status == RunFailed
    ensures Compensates(task, reader, nodes, order, i, p, RunFrom(task, reader, nodes, order, i, p))
  {
  }

  lemma BrokenIsBrokenOff(
    task: Task, reader: Reader, nodes: Nodes, order: seq<string>, i: nat, p: Progress)
    requires (forall id :: id in order ==> id in nodes) && StoppedAt(nodes, order, i, p)
    requires Visit(task, reader, order[i], nodes[order[i]], p).Breaks?
    ensures RunFrom(task, reader, nodes, order, i, p).status == RunFailed
    ensures BreaksOff(task, reader, nodes, order, i, p, RunFrom(task, reader, nodes, order, i, p))
  {
  }

  /**
   A failed run stopped at some node with everything before it settled. Either that node used up
   its attempts, and its completed ancestors were compensated as the policy orders, or it was
   never attempted and nothing was. Runs that do not fail compensate nothing.
   */
  lemma {:induction false} RunFailsProperly(
    task: Task, reader: Reader, nodes: Nodes, order: seq<string>, i: nat, p: Progress) returns (k: nat, q: Progress)
    requires IsTopological(Dependencies(nodes), order) && forall id :: id in order ==> id in nodes
    requires i <= |order| && Settled(Dependencies(nodes), order, i, p)
    ensures var r := RunFrom(task, reader, nodes, order, i, p);
            if r.status == RunFailed then FailsProperly(task, reader, nodes, order, k, q, r) else r.compensationOrder == []
    decreases |order| - i
  {
    k, q := i, p;
    if i < |order| {
      var v := Visit(task, reader, order[i], nodes[order[i]], p);
      match v
      case Goes(next) =>
        VisitSettles(Dependencies(nodes), order, i, task, reader, nodes[order[i]], p);
        k, q := RunFailsProperly(task, reader, nodes, order, i + 1, next);
      case Cancels(_) =>
      case Breaks(_, _) => BrokenIsBrokenOff(task, reader, nodes, order, i, p);
      case Exhausts(_, _) => ExhaustedIsCompensated(task, reader, nodes, order, i, p);
    }
  }

  /** The same of a whole task that passes preflight; one that does not fails before any visit. */
  lemma EveryFailureIsProper(task: Task, reader: Reader, nodes: Nodes, order: seq<string>) returns (k: nat, q: Progress)
    requires IsTopological(Dependencies(nodes), order) && forall id :: id in order ==> id in nodes
    ensures var r := Evaluate(task, reader, nodes, order);
            if task.preflight && PreflightFails(nodes, order) then
              r.error == Some(RESOURCE_INSUFFICIENT) && r.compensationOrder == [] && r.progress.states == map[]
            else if r.status == RunFailed then FailsProperly(task, reader, nodes, order, k, q, r)
            else r.compensationOrder == []
  {
    var start := if task.preflight then [TaskPreflight] else [];
    k, q := 0, NOTHING;
    if !(task.preflight && PreflightFails(nodes, order)) {
      k, q := RunFailsProperly(task, reader, nodes, order, 0, NOTHING.(events := start + [TaskRunning]));
    }
  }
}
