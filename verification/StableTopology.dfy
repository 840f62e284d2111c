/**
 `stable_topology` of the portable profile: Kahn's algorithm that always takes the least
 ready id, hence the lexicographically least topological order there is.
 */
module StableTopology {
  import opened Wrappers
  import opened Text
  import opened DependencyGraph

  /** Lexicographic order on sequences of ids. */
  ghost predicate LexAtMost(a: seq<string>, b: seq<string>) {
    a == b || exists k :: 0 <= k < |a| && k < |b| && a[..k] == b[..k] && StringLess(a[k], b[k])
  }

  /** Each step of the order takes the least id that is ready at that step. */
  ghost predicate Greedy(g: Graph, order: seq<string>) {
    forall k :: 0 <= k < |order| ==> LeastReady(g, Elements(order[..k]), order[k])
  }

  ghost predicate LeastReady(g: Graph, done: set<string>, x: string) {
    Ready(g, done, x) && forall y :: Ready(g, done, y) ==> y == x || StringLess(x, y)
  }

  /** The greedy order comes before every other topological order. */
  lemma GreedyIsLeast(g: Graph, order: seq<string>, other: seq<string>)
    requires Greedy(g, order) && IsTopological(g, order) && IsTopological(g, other)
    ensures LexAtMost(order, other)
  {
    DistinctSize(order);
    DistinctSize(other);
    if order != other {
      var k := FirstDifference(order, other);
      assert LeastReady(g, Elements(order[..k]), order[k]);
      NextIsReady(g, other, k);
      assert StringLess(order[k], other[k]);
    }
  }

  lemma {:induction false} FirstDifference(a: seq<string>, b: seq<string>) returns (k: nat)
    requires |a| == |b| && a != b
    ensures k < |a| && a[..k] == b[..k] && a[k] != b[k]
  {
    k := 0;
    while k < |a| && a[k] == b[k]
      invariant k <= |a| && a[..k] == b[..k]
    {
      k := k + 1;
    }
  }

  /** At each position of a topological order the node there is ready. */
  lemma NextIsReady(g: Graph, order: seq<string>, k: nat)
    requires IsTopological(g, order) && k < |order|
    ensures Ready(g, Elements(order[..k]), order[k])
  {
    assert order[k] in Elements(order);
  }

  /** What the counting pass has built once the nodes in `left` are still to be read. */
  ghost predicate Tabulated(g: Graph, degree: map<string, nat>, outgoing: Graph, left: set<string>) {
    DegreesRead(g, degree, left) && OutgoingRead(g, outgoing, left)
  }

  ghost predicate DegreesRead(g: Graph, degree: map<string, nat>, left: set<string>) {
    && degree.Keys == g.Keys
    && (forall n :: n in left ==> n in g)
    && (forall n :: n in g && n !in left ==> degree[n] == |g[n]| && KnownRow(g, g[n]))
  }

  ghost predicate OutgoingRead(g: Graph, outgoing: Graph, left: set<string>) {
    && outgoing.Keys == g.Keys
    && (forall d, n :: d in g ==> Times(outgoing[d], n) == if n in g && n !in left then Times(g[n], d) else 0)
    && Closed(g, outgoing)
  }

  /** The first `i` dependencies of `id` have been entered on top of `before`. */
  ghost predicate RowRead(g: Graph, id: string, i: nat, before: Graph, outgoing: Graph)
    requires id in g && i <= |g[id]| && before.Keys == g.Keys
  {
    && outgoing.Keys == g.Keys
    && (forall d, n :: d in g ==>
          Times(outgoing[d], n) == Times(before[d], n) + if n == id then Times(g[id][..i], d) else 0)
    && Closed(g, outgoing)
  }

  lemma RowStep(g: Graph, id: string, i: nat, before: Graph, outgoing: Graph)
    requires id in g && i < |g[id]| && before.Keys == g.Keys
    requires RowRead(g, id, i, before, outgoing) && g[id][i] in g
    ensures var d := g[id][i]; RowRead(g, id, i + 1, before, outgoing[d := outgoing[d] + [id]])
  {
    var dependency := g[id][i];
    var outgoing' := outgoing[dependency := outgoing[dependency] + [id]];
    assert g[id][..i + 1] == g[id][..i] + [dependency];
    forall d, n | d in g
      ensures Times(outgoing'[d], n) == Times(before[d], n) + if n == id then Times(g[id][..i + 1], d) else 0
    {
      TimesAppend(g[id][..i], dependency, d);
      TimesAppend(outgoing[dependency], id, n);
    }
  }

  /** The inner counting loop: one node's dependencies. */
  method ReadDependencies(nodes: Graph, id: string, outgoing: Graph) returns (r: Option<(nat, Graph)>)
    requires id in nodes && outgoing.Keys == nodes.Keys && Closed(nodes, outgoing)
    ensures r.Some? <==> KnownRow(nodes, nodes[id])
    ensures r.Some? ==> r.value.0 == |nodes[id]| && RowRead(nodes, id, |nodes[id]|, outgoing, r.value.1)
  {
    var outgoing' := outgoing;
    var degree := 0;
    assert nodes[id][..0] == [] && forall d :: Times([], d) == 0;
    while degree < |nodes[id]|
      invariant 0 <= degree <= |nodes[id]|
      invariant RowRead(nodes, id, degree, outgoing, outgoing')
      invariant forall k :: 0 <= k < degree ==> nodes[id][k] in nodes
    {
      var dependency := nodes[id][degree];
      if dependency !in nodes {
        assert dependency in nodes[id];
        return None;
      }
      RowStep(nodes, id, degree, outgoing, outgoing');
      outgoing' := outgoing'[dependency := outgoing'[dependency] + [id]];
      degree := degree + 1;
    }
    r := Some((degree, outgoing'));
  }

  lemma RowTabulates(g: Graph, degree: map<string, nat>, before: Graph, outgoing: Graph, left: set<string>, id: string)
    requires Tabulated(g, degree, before, left) && id in left
    requires RowRead(g, id, |g[id]|, before, outgoing) && KnownRow(g, g[id])
    ensures Tabulated(g, degree[id := |g[id]|], outgoing, left - {id})
  {
    DegreeTabulates(g, degree, left, id);
    OutgoingTabulates(g, before, outgoing, left, id);
  }

  lemma DegreeTabulates(g: Graph, degree: map<string, nat>, left: set<string>, id: string)
    requires DegreesRead(g, degree, left) && id in left && KnownRow(g, g[id])
    ensures DegreesRead(g, degree[id := |g[id]|], left - {id})
  {
  }

  lemma OutgoingTabulates(g: Graph, before: Graph, outgoing: Graph, left: set<string>, id: string)
    requires OutgoingRead(g, before, left) && id in left && id in g
    requires RowRead(g, id, |g[id]|, before, outgoing)
    ensures OutgoingRead(g, outgoing, left - {id})
  {
    assert g[id][..|g[id]|] == g[id];
  }

  /**
   The first loop: one counter per node and, for each node, who waits for it. `None` when a
   dependency is unknown. Nodes are read in no particular order; the result does not depend on it.
   */
  method Tabulate(nodes: Graph) returns (r: Option<(map<string, nat>, Graph)>)
    ensures r.Some? <==> Known(nodes)
    ensures r.Some? ==> Counts(nodes, r.value.0, {}, []) && Dual(nodes, r.value.1) && Closed(nodes, r.value.1)
  {
    var degree: map<string, nat> := map n | n in nodes :: 0;
    var outgoing: Graph := map n | n in nodes :: [];
    var left := nodes.Keys;
    while left != {}
      invariant Tabulated(nodes, degree, outgoing, left)
      decreases left
    {
      var id :| id in left;
      var row := ReadDependencies(nodes, id, outgoing);
      if row.None? {
        return None;
      }
      RowTabulates(nodes, degree, outgoing, row.value.1, left, id);
      degree, outgoing := degree[id := row.value.0], row.value.1;
      left := left - {id};
    }
    forall n | n in nodes ensures degree[n] == Pending(nodes[n], {}) {
      PendingAll(nodes[n]);
    }
    r := Some((degree, outgoing));
  }

  /** The inner loop: take one off the counter of each successor of the node just ordered. */
  method VisitSuccessors(
    ghost g: Graph, ghost done: set<string>, successors: seq<string>, degree: map<string, nat>, ready: set<string>)
    returns (degree': map<string, nat>, ready': set<string>)
    requires Counts(g, degree, done, successors)
    requires ReadySet(g, degree, done, ready)
    requires forall n :: n in successors ==> n in g && n !in done
    ensures Counts(g, degree', done, [])
    ensures ReadySet(g, degree', done, ready')
  {
    degree', ready' := degree, ready;
    var j := 0;
    while j < |successors|
      invariant 0 <= j <= |successors|
      invariant Counts(g, degree', done, successors[j..])
      invariant ReadySet(g, degree', done, ready')
    {
      var next := successors[j];
      VisitStep(g, degree', done, successors[j..], ready');
      degree' := degree'[next := degree'[next] - 1];
      if degree'[next] == 0 {
        ready' := ready' + {next};
      }
      j := j + 1;
    }
  }

  lemma GreedyStep(g: Graph, order: seq<string>, id: string)
    requires Greedy(g, order) && LeastReady(g, Elements(order), id)
    ensures Greedy(g, order + [id])
  {
    var longer := order + [id];
    forall k | 0 <= k < |longer| ensures LeastReady(g, Elements(longer[..k]), longer[k]) {
      assert longer[..k] == if k < |order| then order[..k] else order;
    }
  }

  /** One turn of the main loop: order the least ready id and visit its successors. */
  method OrderLeast(nodes: Graph, outgoing: Graph, order: seq<string>, degree: map<string, nat>, ready: set<string>)
    returns (order': seq<string>, degree': map<string, nat>, ready': set<string>)
    requires ready != {} && Between(nodes, outgoing, order, degree, ready) && Greedy(nodes, order)
    ensures Between(nodes, outgoing, order', degree', ready') && Greedy(nodes, order')
    ensures |order'| == |order| + 1 && order' == order + [order'[|order|]]
  {
    ReadySetIsReady(nodes, degree, Elements(order), ready);
    ghost var least := LeastString(ready);
    var id :| id in ready && forall other :: other in ready ==> other == id || StringLess(id, other);
    assert LeastReady(nodes, Elements(order), id);
    GreedyStep(nodes, order, id);
    OrderReady(nodes, outgoing, order, degree, ready, id);
    order' := order + [id];
    degree', ready' := VisitSuccessors(nodes, Elements(order'), outgoing[id], degree, ready - {id});
  }

  /**
   An order exactly when every dependency exists and nothing waits for itself, and then the
   lexicographically least topological order of all.
   */
  method StableTopology(nodes: Graph) returns (r: Option<seq<string>>)
    ensures r.Some? <==> Known(nodes) && !HasCycle(nodes)
    ensures r.Some? ==> IsTopological(nodes, r.value)
    ensures r.Some? ==> forall other :: IsTopological(nodes, other) ==> LexAtMost(r.value, other)
  {
    var tables := Tabulate(nodes);
    if tables.None? {
      return None;
    }
    var (degree, outgoing) := tables.value;
    var ready := set n | n in nodes && degree[n] == 0;
    var order: seq<string> := [];
    assert Elements(order) == {};
    while ready != {}
      invariant Between(nodes, outgoing, order, degree, ready) && Greedy(nodes, order)
      decreases |nodes| - |order|
    {
      order, degree, ready := OrderLeast(nodes, outgoing, order, degree, ready);
      StepwiseIsDistinct(nodes, order);
    }
    WhenNothingIsReady(nodes, outgoing, order, degree);
    if |order| != |nodes| {
      return None;
    }
    forall other | IsTopological(nodes, other) ensures LexAtMost(order, other) {
      GreedyIsLeast(nodes, order, other);
    }
    r := Some(order);
  }
}
