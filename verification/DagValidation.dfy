/**
 `validate_dag`: the static rules on a task graph, then Kahn's algorithm with a FIFO queue.
 */
module DagValidation {
  import opened Wrappers
  import opened Collections
  import opened NopModels
  import opened DependencyGraph

  datatype DagError = DagInvalid | DagTooLarge | ConditionEvalError | DagCycle

  predicate Joins(ids: set<string>, e: DagEdge) {
    e.from in ids && e.to in ids
  }

  ghost predicate EdgesKnown(dag: TaskDag) {
    forall i :: 0 <= i < |dag.edges| ==> Joins(Ids(dag.nodes), dag.edges[i])
  }

  ghost predicate InputsKnown(nodes: seq<DagNode>, ids: set<string>) {
    forall i :: 0 <= i < |nodes| && nodes[i].inputFrom.Some? ==> AllIn(nodes[i].inputFrom.value, ids)
  }

  ghost predicate AllIn(s: seq<string>, ids: set<string>) {
    forall k :: 0 <= k < |s| ==> s[k] in ids
  }

  ghost predicate ConditionsShort(nodes: seq<DagNode>) {
    forall i :: 0 <= i < |nodes| && nodes[i].condition.Some? ==> |nodes[i].condition.value| <= MAX_CONDITION_LENGTH
  }

  /** The sources of the edges into `n`, with multiplicity. */
  function Sources(edges: seq<DagEdge>, n: string): seq<string> {
    if edges == [] then []
    else
      var e := edges[|edges| - 1];
      Sources(edges[..|edges| - 1], n) + if e.to == n then [e.from] else []
  }

  /** The graph that `edges` spans: each node waits for the sources of its incoming edges. */
  function EdgeGraph(dag: TaskDag): Graph {
    map n | n in Ids(dag.nodes) :: Sources(dag.edges, n)
  }

  ghost predicate HasStart(dag: TaskDag) {
    exists n :: n in Ids(dag.nodes) && Sources(dag.edges, n) == []
  }

  ghost predicate NoEdgeFrom(edges: seq<DagEdge>, n: string) {
    forall i :: 0 <= i < |edges| ==> edges[i].from != n
  }

  ghost predicate HasEnd(dag: TaskDag) {
    exists n :: n in Ids(dag.nodes) && NoEdgeFrom(dag.edges, n)
  }

  /** The rules an accepted graph obeys; cycles are excluded by definition, not by sorting. */
  ghost predicate Acceptable(dag: TaskDag) {
    && 0 < |dag.nodes| <= MAX_DAG_NODES
    && DistinctIds(dag.nodes)
    && EdgesKnown(dag)
    && InputsKnown(dag.nodes, Ids(dag.nodes))
    && ConditionsShort(dag.nodes)
    && !HasCycle(EdgeGraph(dag))
  }

  // ---- edges and the graph they span ---------------------------------------

  lemma {:induction false} SourcesAreEdges(edges: seq<DagEdge>, n: string, d: string)
    ensures d in Sources(edges, n) <==> exists i :: 0 <= i < |edges| && edges[i] == DagEdge(d, n)
  {
    if edges != [] {
      var last := |edges| - 1;
      SourcesAreEdges(edges[..last], n, d);
      if i :| 0 <= i < |edges| && edges[i] == DagEdge(d, n) {
        assert i < last ==> edges[..last][i] == DagEdge(d, n);
      }
      if d in Sources(edges[..last], n) {
        var i :| 0 <= i < last && edges[..last][i] == DagEdge(d, n);
        assert edges[i] == DagEdge(d, n);
      }
    }
  }

  lemma EdgeGraphIsKnown(dag: TaskDag)
    requires EdgesKnown(dag)
    ensures Known(EdgeGraph(dag))
  {
    var g := EdgeGraph(dag);
    forall n, d | n in g && d in g[n] ensures d in g {
      SourcesAreEdges(dag.edges, n, d);
    }
  }

  /** A walk along edges that comes back to where it began. */
  ghost predicate ReturnsAlong(edges: seq<DagEdge>, w: seq<string>) {
    && |w| >= 2 && w[0] == w[|w| - 1]
    && forall i :: 0 <= i < |w| - 1 ==> DagEdge(w[i], w[i + 1]) in edges
  }

  ghost predicate IsNode(dag: TaskDag, id: string) {
    exists i :: 0 <= i < |dag.nodes| && dag.nodes[i].id == id
  }

  function Backwards(w: seq<string>): seq<string> {
    seq(|w|, i requires 0 <= i < |w| => w[|w| - 1 - i])
  }

  lemma CycleIsWalkedBack(dag: TaskDag, w: seq<string>)
    requires EdgesKnown(dag)
    ensures ReturnsAlong(dag.edges, w) <==> IsCycle(EdgeGraph(dag), Backwards(w))
  {
    var g, c := EdgeGraph(dag), Backwards(w);
    forall i | 0 <= i < |w| - 1
      ensures DagEdge(w[i], w[i + 1]) in dag.edges <==> w[i + 1] in g && w[i] in g[w[i + 1]]
    {
      SourcesAreEdges(dag.edges, w[i + 1], w[i]);
      if k :| 0 <= k < |dag.edges| && dag.edges[k] == DagEdge(w[i], w[i + 1]) {
        assert Joins(Ids(dag.nodes), dag.edges[k]);
      }
    }
    if ReturnsAlong(dag.edges, w) {
      forall i | 0 <= i < |c| - 1 ensures c[i] in g && c[i + 1] in g[c[i]] {
        assert c[i] == w[|w| - 2 - i + 1] && c[i + 1] == w[|w| - 2 - i];
      }
    }
    if IsCycle(g, c) {
      forall i | 0 <= i < |w| - 1 ensures DagEdge(w[i], w[i + 1]) in dag.edges {
        assert c[|w| - 2 - i] == w[i + 1] && c[|w| - 2 - i + 1] == w[i];
      }
    }
  }

  lemma CyclesAreReturns(dag: TaskDag)
    requires EdgesKnown(dag)
    ensures HasCycle(EdgeGraph(dag)) <==> exists w :: ReturnsAlong(dag.edges, w)
  {
    if w :| ReturnsAlong(dag.edges, w) {
      CycleIsWalkedBack(dag, w);
    }
    if c :| IsCycle(EdgeGraph(dag), c) {
      assert Backwards(Backwards(c)) == c;
      CycleIsWalkedBack(dag, Backwards(c));
    }
  }

  lemma NodesAreIds(dag: TaskDag)
    ensures forall id :: IsNode(dag, id) <==> id in Ids(dag.nodes)
  {
    forall id ensures IsNode(dag, id) <==> id in Ids(dag.nodes) {
      if i :| 0 <= i < |dag.nodes| && dag.nodes[i].id == id {
        assert dag.nodes[i] in dag.nodes;
      }
    }
  }

  lemma InputsAreNodes(dag: TaskDag)
    ensures InputsKnown(dag.nodes, Ids(dag.nodes)) <==>
            forall n :: n in dag.nodes && n.inputFrom.Some? ==> forall d :: d in n.inputFrom.value ==> IsNode(dag, d)
  {
    NodesAreIds(dag);
    var ids := Ids(dag.nodes);
    assert InputsKnown(dag.nodes, ids) <==> forall n :: n in dag.nodes && n.inputFrom.Some? ==> AllIn(n.inputFrom.value, ids);
  }

  /** The rules read off the lists: sizes, names, and no way along the edges back to a node. */
  lemma AcceptableWhen(dag: TaskDag)
    ensures Acceptable(dag) <==>
            && 1 <= |dag.nodes| <= 32
            && (forall i, j :: 0 <= i < j < |dag.nodes| ==> dag.nodes[i].id != dag.nodes[j].id)
            && (forall e :: e in dag.edges ==> IsNode(dag, e.from) && IsNode(dag, e.to))
            && (forall n :: n in dag.nodes && n.inputFrom.Some? ==> forall d :: d in n.inputFrom.value ==> IsNode(dag, d))
            && (forall n :: n in dag.nodes && n.condition.Some? ==> |n.condition.value| <= 512)
            && !exists w :: ReturnsAlong(dag.edges, w)
  {
    var ids := Ids(dag.nodes);
    NodesAreIds(dag);
    if EdgesKnown(dag) {
      CyclesAreReturns(dag);
    }
    assert EdgesKnown(dag) <==> forall e :: e in dag.edges ==> Joins(ids, e);
    assert ConditionsShort(dag.nodes) <==> forall n :: n in dag.nodes && n.condition.Some? ==> |n.condition.value| <= 512;
    InputsAreNodes(dag);
  }

  /** In an accepted order every edge, however often it is repeated, goes forward. */
  lemma EdgesGoForward(dag: TaskDag, order: seq<string>, e: nat, q: nat)
    requires EdgesKnown(dag) && IsTopological(EdgeGraph(dag), order)
    requires e < |dag.edges| && q < |order| && order[q] == dag.edges[e].to
    ensures dag.edges[e].from in order[..q]
  {
    SourcesAreEdges(dag.edges, dag.edges[e].to, dag.edges[e].from);
  }

  /** The mirror image: each node waits for the targets of its outgoing edges. */
  ghost function Reversed(edges: seq<DagEdge>): seq<DagEdge> {
    seq(|edges|, i requires 0 <= i < |edges| => DagEdge(edges[i].to, edges[i].from))
  }

  lemma ReversedSources(edges: seq<DagEdge>, n: string, d: string)
    ensures d in Sources(Reversed(edges), n) <==> n in Sources(edges, d)
  {
    SourcesAreEdges(Reversed(edges), n, d);
    SourcesAreEdges(edges, d, n);
    if i :| 0 <= i < |edges| && edges[i] == DagEdge(n, d) {
      assert Reversed(edges)[i] == DagEdge(d, n);
    }
    if i :| 0 <= i < |edges| && Reversed(edges)[i] == DagEdge(d, n) {
      assert edges[i] == DagEdge(n, d);
    }
  }

  /** A cycle read backwards is a cycle of the mirror image. */
  lemma ReversedCycle(dag: TaskDag, c: seq<string>)
    requires EdgesKnown(dag)
    requires IsCycle(EdgeGraph(TaskDag(dag.nodes, Reversed(dag.edges))), c)
    ensures HasCycle(EdgeGraph(dag))
  {
    var n := |c| - 1;
    var b := Backwards(c);
    var g := EdgeGraph(dag);
    forall i | 0 <= i < |b| - 1 ensures b[i] in g && b[i + 1] in g[b[i]] {
      var from, to := c[n - i - 1], c[n - i];
      assert to in Sources(Reversed(dag.edges), from);
      ReversedSources(dag.edges, from, to);
      SourcesAreEdges(dag.edges, to, from);
    }
    assert IsCycle(g, b);
  }

  /** The start-node and end-node rules never reject a graph without cycles. */
  lemma AcyclicHasStartAndEnd(dag: TaskDag)
    requires dag.nodes != [] && EdgesKnown(dag) && !HasCycle(EdgeGraph(dag))
    ensures HasStart(dag) && HasEnd(dag)
  {
    assert dag.nodes[0].id in Ids(dag.nodes);
    EdgeGraphIsKnown(dag);
    assert dag.nodes[0].id in EdgeGraph(dag);
    AcyclicHasStart(EdgeGraph(dag));
    var mirror := TaskDag(dag.nodes, Reversed(dag.edges));
    EdgeGraphIsKnown(mirror);
    if c :| IsCycle(EdgeGraph(mirror), c) {
      ReversedCycle(dag, c);
    }
    assert dag.nodes[0].id in EdgeGraph(mirror);
    AcyclicHasStart(EdgeGraph(mirror));
    var n :| n in EdgeGraph(mirror) && EdgeGraph(mirror)[n] == [];
    forall i | 0 <= i < |dag.edges| ensures dag.edges[i].from != n {
      SourcesAreEdges(mirror.edges, n, dag.edges[i].to);
      assert mirror.edges[i] == DagEdge(dag.edges[i].to, dag.edges[i].from);
    }
  }

  // ---- the passes before the sort ------------------------------------------

  lemma OneMoreId(nodes: seq<DagNode>, i: nat)
    requires i < |nodes| && DistinctIds(nodes[..i])
    ensures Ids(nodes[..i + 1]) == Ids(nodes[..i]) + {nodes[i].id}
    ensures if nodes[i].id in Ids(nodes[..i]) then !DistinctIds(nodes) else DistinctIds(nodes[..i + 1])
  {
    assert nodes[..i + 1] == nodes[..i] + [nodes[i]];
    if nodes[i].id in Ids(nodes[..i]) {
      var k :| 0 <= k < i && nodes[..i][k].id == nodes[i].id;
      assert nodes[k].id == nodes[i].id;
    } else {
      forall k | 0 <= k < i ensures nodes[k].id != nodes[i].id {
        assert nodes[..i][k] in nodes[..i];
      }
    }
  }

  method CollectIds(nodes: seq<DagNode>) returns (r: Option<set<string>>)
    ensures r.Some? <==> DistinctIds(nodes)
    ensures r.Some? ==> r.value == Ids(nodes) && |r.value| == |nodes|
  {
    var ids: set<string> := {};
    for i := 0 to |nodes|
      invariant DistinctIds(nodes[..i]) && ids == Ids(nodes[..i]) && |ids| == i
    {
      OneMoreId(nodes, i);
      if nodes[i].id in ids {
        return None;
      }
      ids := ids + {nodes[i].id};
    }
    assert nodes[..|nodes|] == nodes;
    r := Some(ids);
  }

  /** `row` lists the targets of the edges out of `d`, with multiplicity. */
  ghost predicate TargetsOf(ids: set<string>, edges: seq<DagEdge>, row: seq<string>, d: string) {
    && (forall n {:trigger Times(row, n)} :: n in ids ==> Times(row, n) == Times(Sources(edges, n), d))
    && AllIn(row, ids)
    && (row == [] <==> NoEdgeFrom(edges, d))
  }

  /** What the edge pass has built after the first edges. */
  ghost predicate EdgesRead(ids: set<string>, edges: seq<DagEdge>, degree: map<string, nat>, adjacency: Graph) {
    && degree.Keys == ids && adjacency.Keys == ids
    && (forall n {:trigger degree[n]} :: n in ids ==> degree[n] == |Sources(edges, n)|)
    && (forall d {:trigger adjacency[d]} :: d in ids ==> TargetsOf(ids, edges, adjacency[d], d))
  }

  lemma SourcesStep(edges: seq<DagEdge>, e: DagEdge, n: string)
    ensures Sources(edges + [e], n) == if e.to == n then Sources(edges, n) + [e.from] else Sources(edges, n)
  {
    assert (edges + [e])[..|edges|] == edges;
  }

  lemma TargetsStep(ids: set<string>, edges: seq<DagEdge>, e: DagEdge, row: seq<string>, d: string)
    requires TargetsOf(ids, edges, row, d) && e.to in ids
    ensures TargetsOf(ids, edges + [e], if e.from == d then row + [e.to] else row, d)
  {
    var row' := if e.from == d then row + [e.to] else row;
    var edges' := edges + [e];
    forall n | n in ids ensures Times(row', n) == Times(Sources(edges', n), d) {
      TimesStep(edges, e, row, d, n);
    }
    NoEdgeStep(edges, e, d);
  }

  lemma TimesStep(edges: seq<DagEdge>, e: DagEdge, row: seq<string>, d: string, n: string)
    requires Times(row, n) == Times(Sources(edges, n), d)
    ensures Times(if e.from == d then row + [e.to] else row, n) == Times(Sources(edges + [e], n), d)
  {
    SourcesStep(edges, e, n);
    TimesAppend(row, e.to, n);
    TimesAppend(Sources(edges, n), e.from, d);
  }

  lemma NoEdgeStep(edges: seq<DagEdge>, e: DagEdge, d: string)
    ensures NoEdgeFrom(edges + [e], d) <==> NoEdgeFrom(edges, d) && e.from != d
  {
    var edges' := edges + [e];
    assert edges'[|edges|] == e;
    assert forall i :: 0 <= i < |edges| ==> edges'[i] == edges[i];
  }

  lemma EdgeStep(ids: set<string>, edges: seq<DagEdge>, e: DagEdge, degree: map<string, nat>, adjacency: Graph)
    requires EdgesRead(ids, edges, degree, adjacency) && e.from in ids && e.to in ids
    ensures EdgesRead(
              ids, edges + [e], degree[e.to := degree[e.to] + 1], adjacency[e.from := adjacency[e.from] + [e.to]])
  {
    var adjacency' := adjacency[e.from := adjacency[e.from] + [e.to]];
    forall d | d in ids ensures TargetsOf(ids, edges + [e], adjacency'[d], d) {
      TargetsStep(ids, edges, e, adjacency[d], d);
    }
    forall n | n in ids ensures |Sources(edges + [e], n)| == |Sources(edges, n)| + if n == e.to then 1 else 0 {
      SourcesStep(edges, e, n);
    }
  }

  function NoDegrees(ids: set<string>): map<string, nat> {
    map n | n in ids :: 0
  }

  function NoTargets(ids: set<string>): Graph {
    map n | n in ids :: []
  }

  /** The tables after the first edges, one edge at a time. */
  ghost function Tables(ids: set<string>, edges: seq<DagEdge>): (r: (map<string, nat>, Graph))
    requires forall i :: 0 <= i < |edges| ==> Joins(ids, edges[i])
    ensures r.0.Keys == ids && r.1.Keys == ids
  {
    if edges == [] then
      (NoDegrees(ids), NoTargets(ids))
    else
      var e := edges[|edges| - 1];
      var (degree, adjacency) := Tables(ids, edges[..|edges| - 1]);
      assert Joins(ids, e);
      (degree[e.to := degree[e.to] + 1], adjacency[e.from := adjacency[e.from] + [e.to]])
  }

  lemma {:induction false} TablesAreRead(ids: set<string>, edges: seq<DagEdge>)
    requires forall i :: 0 <= i < |edges| ==> Joins(ids, edges[i])
    ensures EdgesRead(ids, edges, Tables(ids, edges).0, Tables(ids, edges).1)
  {
    if edges != [] {
      var e := edges[|edges| - 1];
      TablesAreRead(ids, edges[..|edges| - 1]);
      var (degree, adjacency) := Tables(ids, edges[..|edges| - 1]);
      EdgeStep(ids, edges[..|edges| - 1], e, degree, adjacency);
      assert edges[..|edges| - 1] + [e] == edges;
    }
  }

  ghost predicate AreTables(ids: set<string>, edges: seq<DagEdge>, degree: map<string, nat>, adjacency: Graph) {
    (forall k :: 0 <= k < |edges| ==> Joins(ids, edges[k])) && Tables(ids, edges) == (degree, adjacency)
  }

  lemma TablesStep(ids: set<string>, edges: seq<DagEdge>, i: nat, degree: map<string, nat>, adjacency: Graph)
    requires i < |edges| && AreTables(ids, edges[..i], degree, adjacency) && Joins(ids, edges[i])
    ensures degree.Keys == ids && adjacency.Keys == ids
    ensures var e := edges[i];
            AreTables(
              ids, edges[..i + 1], degree[e.to := degree[e.to] + 1], adjacency[e.from := adjacency[e.from] + [e.to]])
  {
    assert edges[..i + 1][..i] == edges[..i];
    assert forall k :: 0 <= k < i ==> edges[..i + 1][k] == edges[..i][k];
  }

  method ReadEdges(ids: set<string>, edges: seq<DagEdge>) returns (r: Option<(map<string, nat>, Graph)>)
    ensures r.Some? <==> forall i :: 0 <= i < |edges| ==> Joins(ids, edges[i])
    ensures r.Some? ==> r.value == Tables(ids, edges)
  {
    var degree, adjacency := NoDegrees(ids), NoTargets(ids);
    for i := 0 to |edges|
      invariant AreTables(ids, edges[..i], degree, adjacency)
    {
      var e := edges[i];
      if e.from !in ids || e.to !in ids {
        assert !Joins(ids, edges[i]);
        return None;
      }
      TablesStep(ids, edges, i, degree, adjacency);
      adjacency := adjacency[e.from := adjacency[e.from] + [e.to]];
      degree := degree[e.to := degree[e.to] + 1];
    }
    assert edges[..|edges|] == edges;
    r := Some((degree, adjacency));
  }

  method CheckInputs(nodes: seq<DagNode>, ids: set<string>) returns (ok: bool)
    ensures ok == InputsKnown(nodes, ids)
  {
    for i := 0 to |nodes|
      invariant InputsKnown(nodes[..i], ids)
    {
      if nodes[i].inputFrom.Some? {
        var inputs := nodes[i].inputFrom.value;
        for k := 0 to |inputs|
          invariant AllIn(inputs[..k], ids)
        {
          if inputs[k] !in ids {
            return false;
          }
        }
        assert inputs[..|inputs|] == inputs;
      }
      assert nodes[..i + 1] == nodes[..i] + [nodes[i]];
    }
    assert nodes[..|nodes|] == nodes;
    ok := true;
  }

  method CheckConditions(nodes: seq<DagNode>) returns (ok: bool)
    ensures ok == ConditionsShort(nodes)
  {
    for i := 0 to |nodes|
      invariant ConditionsShort(nodes[..i])
    {
      if nodes[i].condition.Some? && |nodes[i].condition.value| > MAX_CONDITION_LENGTH {
        return false;
      }
      assert nodes[..i + 1] == nodes[..i] + [nodes[i]];
    }
    assert nodes[..|nodes|] == nodes;
    ok := true;
  }

  // ---- the sort ------------------------------------------------------------

  /** The queue lists the ready nodes, each once. */
  ghost predicate Queued(queue: seq<string>, ready: set<string>) {
    Distinct(queue) && Elements(queue) == ready
  }

  lemma Enqueue(queue: seq<string>, ready: set<string>, x: string)
    requires Queued(queue, ready) && x !in ready
    ensures Queued(queue + [x], ready + {x})
  {
    assert forall i :: 0 <= i < |queue| ==> queue[i] in Elements(queue);
    var q := queue + [x];
    assert forall y :: y in q <==> y in queue || y == x;
  }

  lemma Dequeue(queue: seq<string>, ready: set<string>)
    requires queue != [] && Queued(queue, ready)
    ensures queue[0] in ready && Queued(queue[1..], ready - {queue[0]})
  {
    assert queue == [queue[0]] + queue[1..];
    assert forall y :: y in queue <==> y == queue[0] || y in queue[1..];
  }

  method InitialQueue(nodes: seq<DagNode>, remaining: map<string, nat>) returns (queue: seq<string>)
    requires DistinctIds(nodes) && remaining.Keys == Ids(nodes)
    ensures Queued(queue, set n | n in remaining && remaining[n] == 0)
  {
    queue := [];
    ghost var taken: set<string> := {};
    for i := 0 to |nodes|
      invariant Queued(queue, taken)
      invariant forall n :: n in taken <==> exists k :: 0 <= k < i && nodes[k].id == n && remaining[n] == 0
    {
      assert nodes[i].id in Ids(nodes);
      if remaining[nodes[i].id] == 0 {
        Enqueue(queue, taken, nodes[i].id);
        queue := queue + [nodes[i].id];
        taken := taken + {nodes[i].id};
      }
    }
    assert taken == set n | n in remaining && remaining[n] == 0;
  }

  method VisitNeighbors(
    ghost g: Graph, ghost done: set<string>, neighbors: seq<string>,
    remaining: map<string, nat>, queue: seq<string>, ghost ready: set<string>)
    returns (remaining': map<string, nat>, queue': seq<string>, ghost ready': set<string>)
    requires Counts(g, remaining, done, neighbors)
    requires ReadySet(g, remaining, done, ready) && Queued(queue, ready)
    requires forall n :: n in neighbors ==> n in g && n !in done
    ensures Counts(g, remaining', done, [])
    ensures ReadySet(g, remaining', done, ready') && Queued(queue', ready')
  {
    remaining', queue', ready' := remaining, queue, ready;
    var j := 0;
    while j < |neighbors|
      invariant 0 <= j <= |neighbors|
      invariant Counts(g, remaining', done, neighbors[j..])
      invariant ReadySet(g, remaining', done, ready') && Queued(queue', ready')
    {
      var neighbor := neighbors[j];
      VisitStep(g, remaining', done, neighbors[j..], ready');
      assert remaining'[neighbor] >= 1 && neighbor !in ready';
      remaining' := remaining'[neighbor := remaining'[neighbor] - 1];
      if remaining'[neighbor] == 0 {
        Enqueue(queue', ready', neighbor);
        queue' := queue' + [neighbor];
        ready' := ready' + {neighbor};
      }
      j := j + 1;
    }
  }

  /** Kahn's loop over a FIFO queue; partial exactly when the graph has a cycle. */
  method Sort(ghost g: Graph, adjacency: Graph, degree: map<string, nat>, initial: seq<string>)
    returns (sorted: seq<string>)
    requires Known(g) && Dual(g, adjacency) && Closed(g, adjacency)
    requires Counts(g, degree, {}, [])
    requires Queued(initial, set n | n in degree && degree[n] == 0)
    ensures |sorted| == |g| <==> !HasCycle(g)
    ensures |sorted| == |g| ==> IsTopological(g, sorted)
  {
    var remaining, queue := degree, initial;
    ghost var ready := set n | n in degree && degree[n] == 0;
    sorted := [];
    assert Elements(sorted) == {};
    while queue != []
      invariant Between(g, adjacency, sorted, remaining, ready) && Queued(queue, ready)
      decreases |g| - |sorted|
    {
      var current := queue[0];
      Dequeue(queue, ready);
      OrderReady(g, adjacency, sorted, remaining, ready, current);
      queue, ready := queue[1..], ready - {current};
      sorted := sorted + [current];
      StepwiseIsDistinct(g, sorted);
      remaining, queue, ready := VisitNeighbors(g, Elements(sorted), adjacency[current], remaining, queue, ready);
    }
    assert ready == {};
    WhenNothingIsReady(g, adjacency, sorted, remaining);
  }

  lemma EdgesReadIsDual(dag: TaskDag, degree: map<string, nat>, adjacency: Graph)
    requires EdgesRead(Ids(dag.nodes), dag.edges, degree, adjacency)
    ensures Dual(EdgeGraph(dag), adjacency) && Closed(EdgeGraph(dag), adjacency)
    ensures Counts(EdgeGraph(dag), degree, {}, [])
  {
    var g := EdgeGraph(dag);
    forall n | n in g ensures degree[n] == Pending(g[n], {}) + Times([], n) {
      PendingAll(g[n]);
    }
    forall d, n | d in g && n in g ensures Times(adjacency[d], n) == Times(g[n], d) {
      assert TargetsOf(Ids(dag.nodes), dag.edges, adjacency[d], d);
    }
    forall d, n | d in adjacency && n in adjacency[d] ensures n in g {
      assert TargetsOf(Ids(dag.nodes), dag.edges, adjacency[d], d);
    }
  }

  lemma ReadStartsAndEnds(dag: TaskDag, degree: map<string, nat>, adjacency: Graph)
    requires EdgesRead(Ids(dag.nodes), dag.edges, degree, adjacency)
    ensures (exists n :: n in degree && degree[n] == 0) <==> HasStart(dag)
    ensures (exists n :: n in adjacency && adjacency[n] == []) <==> HasEnd(dag)
  {
    forall n | n in Ids(dag.nodes)
      ensures degree[n] == 0 <==> Sources(dag.edges, n) == []
      ensures adjacency[n] == [] <==> NoEdgeFrom(dag.edges, n)
    {
      assert TargetsOf(Ids(dag.nodes), dag.edges, adjacency[n], n);
    }
  }

  /** The sort over the tables of the edge pass; `None` when the graph has a cycle. */
  method SortNodes(dag: TaskDag, degree: map<string, nat>, adjacency: Graph) returns (r: Option<seq<string>>)
    requires DistinctIds(dag.nodes) && EdgesKnown(dag)
    requires EdgesRead(Ids(dag.nodes), dag.edges, degree, adjacency)
    ensures r.Some? <==> !HasCycle(EdgeGraph(dag))
    ensures r.Some? ==> IsTopological(EdgeGraph(dag), r.value)
  {
    EdgeGraphIsKnown(dag);
    EdgesReadIsDual(dag, degree, adjacency);
    var queue := InitialQueue(dag.nodes, degree);
    var sorted := Sort(EdgeGraph(dag), adjacency, degree, queue);
    assert |EdgeGraph(dag)| == |EdgeGraph(dag).Keys| && EdgeGraph(dag).Keys == degree.Keys && |degree.Keys| == |degree|;
    r := if |sorted| != |degree| then None else Some(sorted);
  }

  /**
   Accepts exactly the acceptable graphs, with a topological order of the edge graph; every
   other graph is rejected for the first rule it breaks.
   */
  method ValidateDag(dag: TaskDag) returns (r: Result<seq<string>, DagError>)
    ensures r.Ok? <==> Acceptable(dag)
    ensures r.Ok? ==> IsTopological(EdgeGraph(dag), r.value)
    ensures r.Err? ==>
              r.error ==
              if dag.nodes == [] then DagInvalid
              else if |dag.nodes| > 32 then DagTooLarge
              else if !DistinctIds(dag.nodes) || !EdgesKnown(dag) || !InputsKnown(dag.nodes, Ids(dag.nodes)) then DagInvalid
              else if !HasStart(dag) || !HasEnd(dag) then DagInvalid
              else if !ConditionsShort(dag.nodes) then ConditionEvalError
              else DagCycle
  {
    if dag.nodes == [] {
      return Err(DagInvalid);
    }
    if |dag.nodes| > MAX_DAG_NODES {
      return Err(DagTooLarge);
    }
    var collected := CollectIds(dag.nodes);
    if collected.None? {
      return Err(DagInvalid);
    }
    var ids := collected.value;
    var read := ReadEdges(ids, dag.edges);
    if read.None? {
      return Err(DagInvalid);
    }
    var (degree, adjacency) := read.value;
    var inputsKnown := CheckInputs(dag.nodes, ids);
    if !inputsKnown {
      return Err(DagInvalid);
    }
    TablesAreRead(ids, dag.edges);
    ReadStartsAndEnds(dag, degree, adjacency);
    AcyclicNeedsBoth(dag);
    if !exists n :: n in degree && degree[n] == 0 {
      return Err(DagInvalid);
    }
    if !exists n :: n in adjacency && adjacency[n] == [] {
      return Err(DagInvalid);
    }
    var short := CheckConditions(dag.nodes);
    if !short {
      return Err(ConditionEvalError);
    }
    var sorted := SortNodes(dag, degree, adjacency);
    r := if sorted.None? then Err(DagCycle) else Ok(sorted.value);
  }

  lemma AcyclicNeedsBoth(dag: TaskDag)
    requires dag.nodes != [] && EdgesKnown(dag)
    ensures !HasStart(dag) || !HasEnd(dag) ==> HasCycle(EdgeGraph(dag))
  {
    if !HasCycle(EdgeGraph(dag)) {
      AcyclicHasStartAndEnd(dag);
    }
  }
}
