/**
 `evaluate_orchestration` and `compensate`: the loops that build the trace, proved to follow the
 model along the least topological order.
 */
module PortableProfile {
  import opened Wrappers
  import opened Collections
  import opened DependencyGraph
  import opened StableTopology
  import opened Json
  import opened PortableModel
  import A = PortableAggregation

  /** The first `i` nodes have been read. */
  ghost predicate ReadSoFar(task: Task, nodes: Nodes, i: nat)
    requires i <= |task.nodes|
  {
    && (forall k :: 0 <= k < i ==> task.nodes[k].0.Some?)
    && (forall k :: 0 <= k < i ==> HasNode(nodes, task.nodes[k]))
    && (forall id :: id in nodes ==> exists k :: 0 <= k < i && task.nodes[k].0 == Some(id))
  }

  ghost predicate HasNode(nodes: Nodes, row: (Option<string>, Node)) {
    row.0.Some? && row.0.value in nodes && nodes[row.0.value] == row.1
  }

  lemma ReadAllIsNodeMap(task: Task, nodes: Nodes)
    requires DistinctIds(task) && ReadSoFar(task, nodes, |task.nodes|)
    ensures nodes == NodeMap(task)
  {
    forall k | 0 <= k < |task.nodes| ensures task.nodes[k].0.value in nodes && nodes[task.nodes[k].0.value] == task.nodes[k].1 {
      assert HasNode(nodes, task.nodes[k]);
    }
    assert nodes.Keys == NodeMap(task).Keys;
    assert nodes == NodeMap(task);
  }

  lemma ReadOneMore(task: Task, nodes: Nodes, i: nat, id: string)
    requires i < |task.nodes| && ReadSoFar(task, nodes, i)
    requires task.nodes[i].0 == Some(id) && id !in nodes
    ensures ReadSoFar(task, nodes[id := task.nodes[i].1], i + 1)
    ensures forall k :: 0 <= k < i ==> task.nodes[k].0 != Some(id)
  {
    forall k | 0 <= k < i ensures task.nodes[k].0 != Some(id) && HasNode(nodes[id := task.nodes[i].1], task.nodes[k]) {
      assert HasNode(nodes, task.nodes[k]);
    }
    forall other | other in nodes[id := task.nodes[i].1]
      ensures exists k :: 0 <= k < i + 1 && task.nodes[k].0 == Some(other)
    {
      if other in nodes {
        var k :| 0 <= k < i && task.nodes[k].0 == Some(other);
      }
    }
  }

  /** Reads the nodes into a map; `None` when an id is missing or repeated. */
  method ReadNodes(task: Task) returns (r: Option<Nodes>)
    ensures r.Some? <==> DistinctIds(task)
    ensures r.Some? ==> r.value == NodeMap(task)
  {
    var nodes: Nodes := map[];
    var i := 0;
    while i < |task.nodes|
      invariant 0 <= i <= |task.nodes| && ReadSoFar(task, nodes, i)
      invariant forall j, k :: 0 <= j < k < i ==> task.nodes[j].0 != task.nodes[k].0
    {
      var id := task.nodes[i].0;
      if id.None? {
        return None;
      }
      if id.value in nodes {
        var k :| 0 <= k < i && task.nodes[k].0 == id;
        return None;
      }
      ReadOneMore(task, nodes, i, id.value);
      nodes := nodes[id.value := task.nodes[i].1];
      i := i + 1;
    }
    ReadAllIsNodeMap(task, nodes);
    r := Some(nodes);
  }

  ghost function Prepend(events: seq<Event>, t: Tried): Tried {
    Tried(events + t.events, t.count, t.verdict)
  }

  /** The events so far, followed by the script from the `k`-th attempt on, are the whole script. */
  ghost predicate Trying(id: string, node: Node, maxRetries: nat, events: seq<Event>, k: nat) {
    Attempts(id, node, maxRetries, 0) == Prepend(events, Attempts(id, node, maxRetries, k))
  }

  lemma TryingStarts(id: string, node: Node, maxRetries: nat)
    ensures Trying(id, node, maxRetries, [], 0)
  {
    var t := Attempts(id, node, maxRetries, 0);
    assert [] + t.events == t.events;
  }

  lemma TryingStops(id: string, node: Node, maxRetries: nat, events: seq<Event>, k: nat)
    requires Trying(id, node, maxRetries, events, k) && (k >= |node.attempts| || k > maxRetries)
    ensures Attempts(id, node, maxRetries, 0) == Tried(events, k, NeverTried)
  {
    assert events + [] == events;
  }

  lemma TryingRetries(id: string, node: Node, maxRetries: nat, events: seq<Event>, k: nat)
    requires Trying(id, node, maxRetries, events, k) && k < |node.attempts| && k <= maxRetries
    requires Retries(node, node.attempts[k]) && k + 1 <= maxRetries && k + 1 < |node.attempts|
    ensures Trying(id, node, maxRetries, events + [NodeAttempt(id, k + 1)] + [NodeRetrying(id)], k + 1)
  {
    var rest := Attempts(id, node, maxRetries, k + 1);
    var two := [NodeAttempt(id, k + 1), NodeRetrying(id)];
    assert events + (two + rest.events) == (events + [NodeAttempt(id, k + 1)] + [NodeRetrying(id)]) + rest.events;
  }

  lemma TryingEnds(id: string, node: Node, maxRetries: nat, events: seq<Event>, k: nat)
    requires Trying(id, node, maxRetries, events, k) && k < |node.attempts| && k <= maxRetries
    ensures node.attempts[k].Success? ==>
              Tried(events + [NodeAttempt(id, k + 1)] + [NodeCompleted(id)], k + 1, Succeeded(node.attempts[k].result))
              == Attempts(id, node, maxRetries, 0)
    ensures !node.attempts[k].Success? && !(Retries(node, node.attempts[k]) && k + 1 <= maxRetries && k + 1 < |node.attempts|) ==>
              Tried(events + [NodeAttempt(id, k + 1)] + [NodeFailed(id)], k + 1, GaveUp(ErrorOf(node.attempts[k])))
              == Attempts(id, node, maxRetries, 0)
  {
    Collections.Regroup(events, [NodeAttempt(id, k + 1)], [NodeCompleted(id)]);
    Collections.Regroup(events, [NodeAttempt(id, k + 1)], [NodeFailed(id)]);
    assert [NodeAttempt(id, k + 1)] + [NodeCompleted(id)] == [NodeAttempt(id, k + 1), NodeCompleted(id)];
    assert [NodeAttempt(id, k + 1)] + [NodeFailed(id)] == [NodeAttempt(id, k + 1), NodeFailed(id)];
  }

  method MakeAttempts(id: string, node: Node, maxRetries: nat)
    returns (events: seq<Event>, count: nat, verdict: Verdict)
    ensures Tried(events, count, verdict) == Attempts(id, node, maxRetries, 0)
  {
    events, count, verdict := [], 0, NeverTried;
    TryingStarts(id, node, maxRetries);
    var index := 0;
    while index < |node.attempts| && index <= maxRetries
      invariant count == index <= |node.attempts| && verdict == NeverTried
      invariant Trying(id, node, maxRetries, events, index)
    {
      var outcome := node.attempts[index];
      ghost var before := events;
      TryingEnds(id, node, maxRetries, before, index);
      count := count + 1;
      events := events + [NodeAttempt(id, count)];
      if outcome.Success? {
        events := events + [NodeCompleted(id)];
        return events, count, Succeeded(outcome.result);
      }
      if Retries(node, outcome) && count <= maxRetries && index + 1 < |node.attempts| {
        TryingRetries(id, node, maxRetries, before, index);
        events := events + [NodeRetrying(id)];
        index := index + 1;
      } else {
        events := events + [NodeFailed(id)];
        return events, count, GaveUp(ErrorOf(outcome));
      }
    }
    TryingStops(id, node, maxRetries, events, index);
  }

  lemma ChainOn(g: Graph, x: string, y: string, d: string)
    requires x == y || DependsOn(g, x, y)
    requires y in g && d in g[y]
    ensures DependsOn(g, x, d)
  {
    if x == y {
      assert IsChain(g, [x, d]);
    } else {
      var w :| IsChain(g, w) && w[0] == x && w[|w| - 1] == y;
      var longer := w + [d];
      forall i | 0 <= i < |longer| - 1 ensures longer[i] in g && longer[i + 1] in g[longer[i]] {
        assert longer[i] == w[i];
        assert i < |w| - 1 ==> longer[i + 1] == w[i + 1];
      }
      assert IsChain(g, longer);
    }
  }

  /** A set that holds the dependencies of `x` and of its own members holds every ancestor. */
  lemma {:induction false} ClosedHoldsChain(g: Graph, s: set<string>, w: seq<string>, k: nat)
    requires IsChain(g, w) && 1 <= k < |w|
    requires forall d :: d in g[w[0]] ==> d in s
    requires forall y, d :: y in s && y in g && d in g[y] ==> d in s
    ensures w[k] in s
  {
    assert w[k - 1 + 1] in g[w[k - 1]];
    if k > 1 {
      ClosedHoldsChain(g, s, w, k - 1);
    }
  }

  /** What the search has met: the start and its ancestors so far. */
  ghost predicate Searching(g: Graph, x: string, ancestors: set<string>, pending: seq<string>) {
    && (forall d :: d in ancestors ==> d in g && DependsOn(g, x, d))
    && (forall y :: y in pending ==> y in g && (y == x || y in ancestors))
    && (forall y, d :: (y == x || y in ancestors) && y in g && d in g[y] ==> y in pending || d in ancestors)
  }

  /** The inner loop: every dependency of the node taken from the queue, seen for the first time or not. */
  method Expand(g: Graph, ghost x: string, id: string, ancestors: set<string>, pending: seq<string>)
    returns (ancestors': set<string>, pending': seq<string>)
    requires Known(g) && x in g && id in g && (id == x || id in ancestors)
    requires Searching(g, x, ancestors, [id] + pending)
    ensures Searching(g, x, ancestors', pending')
    ensures ancestors <= ancestors' && |ancestors'| - |ancestors| == |pending'| - |pending|
  {
    ancestors', pending' := ancestors, pending;
    assert KnownRow(g, g[id]);
    var i := 0;
    while i < |g[id]|
      invariant 0 <= i <= |g[id]| && ancestors <= ancestors'
      invariant |ancestors'| - |ancestors| == |pending'| - |pending|
      invariant forall d :: d in ancestors' ==> d in g && DependsOn(g, x, d)
      invariant forall y :: y in pending' ==> y in g && (y == x || y in ancestors')
      invariant forall y, d :: (y == x || y in ancestors') && y != id && y in g && d in g[y] ==> y in pending' || d in ancestors'
      invariant forall k :: 0 <= k < i ==> g[id][k] in ancestors'
    {
      var dependency := g[id][i];
      assert dependency in g[id];
      ChainOn(g, x, id, dependency);
      if dependency !in ancestors' {
        assert |ancestors' + {dependency}| == |ancestors'| + 1;
        ancestors' := ancestors' + {dependency};
        pending' := pending' + [dependency];
      }
      i := i + 1;
    }
  }

  method FindAncestors(g: Graph, x: string) returns (ancestors: set<string>)
    requires Known(g) && x in g
    ensures ancestors == Ancestors(g, x)
  {
    ancestors := {};
    var pending := [x];
    while pending != []
      invariant Searching(g, x, ancestors, pending) && ancestors <= g.Keys
      decreases |g| - |ancestors| + |pending|
    {
      var id := pending[0];
      assert pending == [id] + pending[1..];
      ghost var before := ancestors;
      ancestors, pending := Expand(g, x, id, ancestors, pending[1..]);
      SubsetSize(ancestors, g.Keys);
    }
    forall d | d in g && DependsOn(g, x, d) ensures d in ancestors {
      var w :| IsChain(g, w) && w[0] == x && w[|w| - 1] == d;
      ClosedHoldsChain(g, ancestors, w, |w| - 1);
    }
  }

  method ListCandidates(order: seq<string>, ancestors: set<string>, states: map<string, NodeState>)
    returns (candidates: seq<string>)
    ensures candidates == Candidates(order, ancestors, states)
  {
    candidates := [];
    var n := |order|;
    assert order[..n] == order;
    while n > 0
      invariant 0 <= n <= |order|
      invariant candidates + Candidates(order[..n], ancestors, states) == Candidates(order, ancestors, states)
    {
      var id := order[n - 1];
      assert order[..n][..n - 1] == order[..n - 1];
      if id in ancestors && id in states && states[id] == Completed {
        candidates := candidates + [id];
      }
      n := n - 1;
    }
  }

  /** What has been undone, followed by undoing the rest, is the whole. */
  ghost predicate Undoing(
    strict: bool, nodes: Nodes, rest: seq<string>, states: map<string, NodeState>,
    order: seq<string>, events: seq<Event>, whole: Compensation)
    requires AllKnown(nodes, rest)
  {
    var r := Undo(strict, nodes, rest, states);
    whole == Compensation(order + r.order, r.error, r.states, events + r.events)
  }

  lemma TwoEvents(events: seq<Event>, a: Event, b: Event, more: seq<Event>)
    ensures (events + [a] + [b]) + more == events + ([a, b] + more)
    ensures events + [a] + [b] == events + [a, b]
  {
  }

  lemma UndoingOne(
    strict: bool, nodes: Nodes, rest: seq<string>, states: map<string, NodeState>,
    order: seq<string>, events: seq<Event>, whole: Compensation)
    requires AllKnown(nodes, rest) && rest != [] && Undoing(strict, nodes, rest, states, order, events, whole)
    ensures var id := rest[0];
            if !nodes[id].hasCompensation then Undoing(strict, nodes, rest[1..], states, order, events, whole)
            else
              var attempted := events + [NodeCompensating(id)];
              if !nodes[id].compensationFails then
                Undoing(strict, nodes, rest[1..], states[id := Compensated], order + [id],
                        attempted + [NodeCompensated(id)], whole)
              else if strict then
                whole == Compensation(order + [id], Some(COMPENSATION_FAILED), states[id := CompensationFailed],
                                      attempted + [NodeCompensationFailed(id)])
              else
                Undoing(strict, nodes, rest[1..], states[id := CompensationFailed], order + [id],
                        attempted + [NodeCompensationFailed(id)], whole)
  {
    var id := rest[0];
    var state := if nodes[id].compensationFails then CompensationFailed else Compensated;
    var second := if nodes[id].compensationFails then NodeCompensationFailed(id) else NodeCompensated(id);
    var r := Undo(strict, nodes, rest[1..], states[id := state]);
    Regroup(order, [id], r.order);
    TwoEvents(events, NodeCompensating(id), second, r.events);
  }

  method UndoAll(strict: bool, nodes: Nodes, candidates: seq<string>, states: map<string, NodeState>)
    returns (c: Compensation)
    requires AllKnown(nodes, candidates)
    ensures c == Undo(strict, nodes, candidates, states)
  {
    var order: seq<string> := [];
    var events: seq<Event> := [];
    var states' := states;
    ghost var whole := Undo(strict, nodes, candidates, states);
    assert [] + whole.order == whole.order && [] + whole.events == whole.events && candidates[0..] == candidates;
    var i := 0;
    while i < |candidates|
      invariant 0 <= i <= |candidates|
      invariant Undoing(strict, nodes, candidates[i..], states', order, events, whole)
    {
      var id := candidates[i];
      assert candidates[i..][0] == id && candidates[i..][1..] == candidates[i + 1..];
      UndoingOne(strict, nodes, candidates[i..], states', order, events, whole);
      if nodes[id].hasCompensation {
        order := order + [id];
        events := events + [NodeCompensating(id)];
        if nodes[id].compensationFails {
          states' := states'[id := CompensationFailed];
          events := events + [NodeCompensationFailed(id)];
          if strict {
            return Compensation(order, Some(COMPENSATION_FAILED), states', events);
          }
        } else {
          states' := states'[id := Compensated];
          events := events + [NodeCompensated(id)];
        }
      }
      i := i + 1;
    }
    assert order + [] == order && events + [] == events;
    c := Compensation(order, None, states', events);
  }

  method RunCompensation(task: Task, failed: string, order: seq<string>, nodes: Nodes, states: map<string, NodeState>)
    returns (c: Compensation)
    requires Known(Dependencies(nodes)) && failed in nodes
    requires forall id :: id in order ==> id in nodes
    ensures c == Compensate(task.policy, nodes, order, failed, states)
  {
    if task.policy.NoCompensation? {
      return Compensation([], None, states, []);
    }
    var ancestors := FindAncestors(Dependencies(nodes), failed);
    var candidates := ListCandidates(order, ancestors, states);
    CandidatesAre(order, ancestors, states);
    if task.policy.Strict? && exists i :: 0 <= i < |candidates| && !nodes[candidates[i]].hasCompensation {
      return Compensation([], Some(COMPENSATION_NOT_SUPPORTED), states, []);
    }
    c := UndoAll(task.policy.Strict?, nodes, candidates, states);
  }

  /** The loop body for one node. */
  method VisitNode(task: Task, reader: Reader, id: string, node: Node, p: Progress) returns (v: Visited)
    ensures v == Visit(task, reader, id, node, p)
  {
    var q := p;
    if task.cancelBefore == Some(id) {
      return Cancels(p);
    }
    if node.condition.Some? {
      var holds := reader.condition(node.condition.value, q.results);
      if holds.None? {
        return Unattempted(p, id, CONDITION_EVAL_ERROR);
      }
      if !holds.value {
        return Goes(p.(events := p.events + [NodeSkipped(id)],
                       states := p.states[id := Skipped],
                       attempts := p.attempts[id := 0]));
      }
    }
    if node.inputMapping.Some? {
      var parameters := reader.mapping(node.inputMapping.value, q.results);
      if parameters.None? {
        return Unattempted(p, id, INPUT_MAPPING_ERROR);
      }
      q := q.(mapped := q.mapped[id := parameters.value]);
    }
    var maxRetries := if node.maxRetries.Some? then node.maxRetries.value else task.maxRetries;
    var events, count, verdict := MakeAttempts(id, node, maxRetries);
    q := q.(events := q.events + events, attempts := q.attempts[id := count]);
    match verdict
    case Succeeded(result) =>
      v := Goes(q.(results := q.results[id := result], states := q.states[id := Completed]));
    case GaveUp(error) =>
      v := Exhausts(q.(states := q.states[id := Failed]), Some(error));
    case NeverTried =>
      v := Exhausts(q, None);
  }

  /** The results of the end nodes in the order of the run, listed or merged. */
  method AggregateResults(mode: A.Mode, nodes: Nodes, order: seq<string>, p: Progress) returns (r: Json)
    ensures r == A.Aggregate(mode, EndValues(nodes, order, p))
  {
    var values: seq<Json> := [];
    var i := 0;
    while i < |order|
      invariant 0 <= i <= |order| && values == EndValues(nodes, order[..i], p)
    {
      assert order[..i + 1][..i] == order[..i];
      if IsEnd(nodes, p, order[i]) {
        values := values + [p.results[order[i]]];
      }
      i := i + 1;
    }
    assert order[..i] == order;
    r := A.AggregateValues(mode, values);
  }

  method VisitAll(task: Task, reader: Reader, nodes: Nodes, order: seq<string>, start: Progress) returns (r: Report)
    requires Known(Dependencies(nodes)) && forall id :: id in order ==> id in nodes
    ensures r == RunFrom(task, reader, nodes, order, 0, start)
  {
    var p := start;
    var i := 0;
    while i < |order|
      invariant 0 <= i <= |order|
      invariant RunFrom(task, reader, nodes, order, i, p) == RunFrom(task, reader, nodes, order, 0, start)
    {
      var id := order[i];
      assert id in order;
      var v := VisitNode(task, reader, id, nodes[id], p);
      if v.Goes? {
        p := v.next;
        i := i + 1;
      } else if v.Cancels? {
        return Report(RunCancelled, Some(TASK_CANCELLED), Null, v.next.(events := v.next.events + [TaskCancelled]), []);
      } else if v.Breaks? {
        return Report(RunFailed, Some(v.error), Null, v.next.(events := v.next.events + [TaskFailed]), []);
      } else {
        var c := RunCompensation(task, id, order, nodes, v.next.states);
        var error := if c.error.Some? then c.error else if v.cause.Some? then v.cause else Some(DELEGATE_REJECTED);
        return Report(RunFailed, error, Null, v.next.(events := v.next.events + c.events + [TaskFailed], states := c.states), c.order);
      }
    }
    var result := AggregateResults(task.aggregate, nodes, order, p);
    r := Report(RunCompleted, None, result, p.(events := p.events + [TaskCompleted]), []);
  }

  /** The least topological order of the task's nodes, if there is one. */
  ghost predicate IsStableOrder(g: Graph, order: seq<string>) {
    && Known(g) && !HasCycle(g) && IsTopological(g, order)
    && forall other :: IsTopological(g, other) ==> LexAtMost(order, other)
  }

  lemma OrderedAreNodes(nodes: Nodes, order: seq<string>)
    requires IsTopological(Dependencies(nodes), order)
    ensures forall id :: id in order <==> id in nodes
  {
    forall id ensures id in order <==> id in nodes {
      assert id in order <==> id in Elements(order);
    }
  }

  method EvaluateOrchestration(task: Task, reader: Reader) returns (r: Report, ghost order: seq<string>)
    ensures !DistinctIds(task) ==> r == Report(RunFailed, Some("NOP-TASK-DAG-INVALID"), Null, NOTHING, [])
    ensures DistinctIds(task) ==>
              var g := Dependencies(NodeMap(task));
              if Known(g) && !HasCycle(g) then
                IsStableOrder(g, order) && (OrderedAreNodes(NodeMap(task), order);
                                            r == Evaluate(task, reader, NodeMap(task), order))
              else r == Report(RunFailed, Some("NOP-TASK-DAG-CYCLE"), Null, NOTHING, [])
  {
    order := [];
    var read := ReadNodes(task);
    if read.None? {
      return EmptyFailure(TASK_DAG_INVALID), [];
    }
    var nodes := read.value;
    var topo := StableTopology.StableTopology(Dependencies(nodes));
    if topo.None? {
      return EmptyFailure(TASK_DAG_CYCLE), [];
    }
    order := topo.value;
    OrderedAreNodes(nodes, order);
    var events: seq<Event> := [];
    if task.preflight {
      events := [TaskPreflight];
      if exists i :: 0 <= i < |topo.value| && topo.value[i] in nodes && !nodes[topo.value[i]].preflightAvailable {
        events := events + [TaskFailed];
        return Report(RunFailed, Some(RESOURCE_INSUFFICIENT), Null, NOTHING.(events := events), []), order;
      }
    }
    events := events + [TaskRunning];
    r := VisitAll(task, reader, nodes, topo.value, NOTHING.(events := events));
  }
}
