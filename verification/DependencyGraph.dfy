/**
 Dependency graphs and their topological orders. A graph maps each node to the list of
 nodes it waits for; the list may repeat a node. Cycles are closed walks, so that what the
 sorters report is tied to a definition that mentions no sorting.
 */
module DependencyGraph {
  import opened Collections

  type Graph = map<string, seq<string>>

  ghost predicate KnownRow(g: Graph, ds: seq<string>) {
    forall d :: d in ds ==> d in g
  }

  /** Every dependency names a node. */
  ghost predicate Known(g: Graph) {
    forall n :: n in g ==> KnownRow(g, g[n])
  }

  /** A closed walk along dependencies. */
  ghost predicate IsCycle(g: Graph, c: seq<string>) {
    && |c| >= 2
    && c[0] == c[|c| - 1]
    && forall i :: 0 <= i < |c| - 1 ==> c[i] in g && c[i + 1] in g[c[i]]
  }

  ghost predicate HasCycle(g: Graph) {
    exists c :: IsCycle(g, c)
  }

  function Elements(s: seq<string>): set<string> {
    set x | x in s
  }

  /** A permutation of the nodes in which every node comes after all it waits for. */
  ghost predicate IsTopological(g: Graph, order: seq<string>) {
    && Distinct(order)
    && Elements(order) == g.Keys
    && forall i, d :: 0 <= i < |order| && order[i] in g && d in g[order[i]] ==> d in order[..i]
  }

  /** `x` may come next once `done` has been ordered. */
  ghost predicate Ready(g: Graph, done: set<string>, x: string) {
    x in g && x !in done && forall d :: d in g[x] ==> d in done
  }

  // ---- cycles --------------------------------------------------------------

  /** Along a walk, positions in a topological order strictly decrease. */
  lemma {:induction false} WalkDescends(g: Graph, order: seq<string>, c: seq<string>, k: nat, p: nat)
    requires IsTopological(g, order)
    requires 1 <= k < |c|
    requires forall i :: 0 <= i < |c| - 1 ==> c[i] in g && c[i + 1] in g[c[i]]
    requires p < |order| && order[p] == c[0]
    ensures c[k] in order[..p]
  {
    if k == 1 {
      assert c[1] in g[c[0]];
    } else {
      WalkDescends(g, order, c, k - 1, p);
      var q :| 0 <= q < p && order[q] == c[k - 1];
      assert c[k] in g[order[q]];
      assert c[k] in order[..q] && order[..q] <= order[..p];
    }
  }

  lemma TopologicalHasNoCycle(g: Graph, order: seq<string>)
    requires IsTopological(g, order)
    ensures !HasCycle(g)
  {
    forall c ensures !IsCycle(g, c) {
      if IsCycle(g, c) {
        assert c[0] in Elements(order);
        var p :| 0 <= p < |order| && order[p] == c[0];
        assert c[0] !in order[..p];
        WalkDescends(g, order, c, |c| - 1, p);
      }
    }
  }

  /** A node that waits for nothing. */
  predicate IsLeaf(g: Graph, x: string) {
    x in g && g[x] == []
  }

  lemma CycleGoesOn(g: Graph, c: seq<string>)
    requires IsCycle(g, c)
    ensures c[0] in g && c[1] in g[c[0]] && !IsLeaf(g, c[1])
  {
    assert c[0 + 1] in g[c[0]];
    if |c| > 2 {
      assert c[1 + 1] in g[c[1]];
    }
  }

  /** When nodes wait for leaves only, nothing waits for itself. */
  lemma FlatHasNoCycle(g: Graph)
    requires forall x, y :: x in g && y in g[x] ==> IsLeaf(g, y)
    ensures !HasCycle(g)
  {
    if HasCycle(g) {
      var c :| IsCycle(g, c);
      CycleGoesOn(g, c);
    }
  }

  /** A sequence longer than the set it draws from repeats an element. */
  lemma {:induction false} Pigeonhole(w: seq<string>, s: set<string>) returns (i: nat, j: nat)
    requires forall k :: 0 <= k < |w| ==> w[k] in s
    requires |w| > |s|
    ensures i < j < |w| && w[i] == w[j]
  {
    var last := |w| - 1;
    if k :| 0 <= k < last && w[k] == w[last] {
      return k, last;
    }
    i, j := Pigeonhole(w[..last], s - {w[last]});
  }

  ghost predicate IsWalk(g: Graph, s: set<string>, w: seq<string>) {
    && (forall k :: 0 <= k < |w| ==> w[k] in s)
    && (forall k :: 0 <= k < |w| - 1 ==> w[k] in g && w[k + 1] in g[w[k]])
  }

  ghost predicate WaitsWithin(g: Graph, s: set<string>, x: string) {
    x in g && exists d :: d in g[x] && d in s
  }

  /** Every node of `s` waits for a node of `s`. */
  ghost predicate Stuck(g: Graph, s: set<string>) {
    forall x {:trigger WaitsWithin(g, s, x)} :: x in s ==> WaitsWithin(g, s, x)
  }

  lemma {:induction false} WalkWithin(g: Graph, s: set<string>, start: string, n: nat) returns (w: seq<string>)
    requires start in s && Stuck(g, s)
    ensures |w| == n + 1 && IsWalk(g, s, w)
  {
    if n == 0 {
      return [start];
    }
    w := WalkWithin(g, s, start, n - 1);
    assert WaitsWithin(g, s, w[n - 1]);
    var d :| d in g[w[n - 1]] && d in s;
    w := w + [d];
  }

  /** If every node of a nonempty set waits for another node of the set, there is a cycle. */
  lemma StuckSetHasCycle(g: Graph, s: set<string>)
    requires s != {} && Stuck(g, s)
    ensures HasCycle(g)
  {
    var start :| start in s;
    var w := WalkWithin(g, s, start, |s|);
    var i, j := Pigeonhole(w, s);
    var c := w[i..j + 1];
    forall k | 0 <= k < |c| - 1 ensures c[k] in g && c[k + 1] in g[c[k]] {
      assert c[k] == w[i + k] && c[k + 1] == w[i + k + 1];
    }
    assert IsCycle(g, c);
  }

  /** A stuck set holds a cycle of its own nodes. */
  lemma CycleWithin(g: Graph, s: set<string>) returns (c: seq<string>)
    requires s != {} && s <= g.Keys && Stuck(g, s)
    ensures IsCycle(g, c) && forall i :: 0 <= i < |c| ==> c[i] in s
  {
    var part := map x | x in s :: g[x];
    forall x | x in s ensures WaitsWithin(part, s, x) {
      assert WaitsWithin(g, s, x);
    }
    StuckSetHasCycle(part, s);
    c :| IsCycle(part, c);
    assert c[|c| - 2] in part && c[|c| - 2 + 1] == c[0];
    forall i | 0 <= i < |c| - 1 ensures c[i] in g && c[i + 1] in g[c[i]] {
      assert c[i] in part && c[i + 1] in part[c[i]];
    }
  }

  /** A nonempty graph without cycles has a node that waits for nothing. */
  lemma AcyclicHasStart(g: Graph)
    requires Known(g) && g.Keys != {} && !HasCycle(g)
    ensures exists x :: x in g && g[x] == []
  {
    if forall x :: x in g ==> g[x] != [] {
      forall x | x in g ensures WaitsWithin(g, g.Keys, x) {
        assert g[x][0] in g[x];
      }
      StuckSetHasCycle(g, g.Keys);
    }
  }

  // ---- the counters of Kahn's algorithm ------------------------------------

  /** How many entries of a dependency list are still outstanding. */
  function Pending(ds: seq<string>, done: set<string>): nat {
    if ds == [] then 0 else Pending(ds[..|ds| - 1], done) + if ds[|ds| - 1] in done then 0 else 1
  }

  lemma {:induction false} PendingZero(ds: seq<string>, done: set<string>)
    ensures Pending(ds, done) == 0 <==> forall d :: d in ds ==> d in done
  {
    if ds != [] {
      PendingZero(ds[..|ds| - 1], done);
      assert ds == ds[..|ds| - 1] + [ds[|ds| - 1]];
    }
  }

  lemma {:induction false} PendingAll(ds: seq<string>)
    ensures Pending(ds, {}) == |ds|
  {
    if ds != [] {
      PendingAll(ds[..|ds| - 1]);
    }
  }

  /** Finishing a new node settles exactly its occurrences. */
  lemma {:induction false} PendingDrops(ds: seq<string>, done: set<string>, x: string)
    requires x !in done
    ensures Pending(ds, done) == Pending(ds, done + {x}) + Times(ds, x)
  {
    if ds != [] {
      PendingDrops(ds[..|ds| - 1], done, x);
    }
  }

  /** How often `x` occurs in `s`. */
  function Times(s: seq<string>, x: string): nat {
    if s == [] then 0 else Times(s[..|s| - 1], x) + if s[|s| - 1] == x then 1 else 0
  }

  lemma TimesAppend(s: seq<string>, y: string, x: string)
    ensures Times(s + [y], x) == Times(s, x) + if x == y then 1 else 0
  {
    assert (s + [y])[..|s|] == s;
  }

  lemma {:induction false} TimesCons(s: seq<string>, x: string)
    requires s != []
    ensures Times(s, x) == Times(s[1..], x) + if s[0] == x then 1 else 0
  {
    if |s| > 1 {
      TimesCons(s[..|s| - 1], x);
      assert s[1..][..|s| - 2] == s[..|s| - 1][1..];
    }
  }

  lemma {:induction false} TimesZero(s: seq<string>, x: string)
    ensures Times(s, x) == 0 <==> x !in s
  {
    if s != [] {
      TimesZero(s[..|s| - 1], x);
      assert s == s[..|s| - 1] + [s[|s| - 1]];
    }
  }

  /** `outgoing` lists, with multiplicity, who waits for each node. */
  ghost predicate Dual(g: Graph, outgoing: Graph) {
    && outgoing.Keys == g.Keys
    && forall d, n :: d in g && n in g ==> Times(outgoing[d], n) == Times(g[n], d)
  }

  ghost predicate Closed(g: Graph, outgoing: Graph) {
    forall d, n :: d in outgoing && n in outgoing[d] ==> n in g
  }

  /** The counters while the successors of the node just finished are being visited. */
  ghost predicate Counts(g: Graph, degree: map<string, nat>, done: set<string>, left: seq<string>) {
    && degree.Keys == g.Keys
    && forall n :: n in g ==> degree[n] == Pending(g[n], done) + Times(left, n)
  }

  /** Finishing `x` turns its settled counters into counters with all successors left to visit. */
  lemma CountsFinish(g: Graph, outgoing: Graph, degree: map<string, nat>, done: set<string>, x: string)
    requires Dual(g, outgoing) && Counts(g, degree, done, [])
    requires x in g && x !in done
    ensures Counts(g, degree, done + {x}, outgoing[x])
  {
    forall n | n in g ensures degree[n] == Pending(g[n], done + {x}) + Times(outgoing[x], n) {
      PendingDrops(g[n], done, x);
    }
  }

  /** Visiting the next successor takes one off its counter. */
  lemma CountsVisit(g: Graph, degree: map<string, nat>, done: set<string>, left: seq<string>)
    requires Counts(g, degree, done, left) && left != [] && left[0] in g
    ensures degree[left[0]] >= 1
    ensures Counts(g, degree[left[0] := degree[left[0]] - 1], done, left[1..])
  {
    forall n | n in g ensures Times(left, n) == Times(left[1..], n) + if left[0] == n then 1 else 0 {
      TimesCons(left, n);
    }
  }

  /** A node already ordered has no occurrence left to settle. */
  lemma FinishedIsSettled(g: Graph, outgoing: Graph, done: set<string>, x: string, n: string)
    requires Dual(g, outgoing) && x in g && n in g && x !in done
    requires forall d :: d in g[n] ==> d in done
    ensures n !in outgoing[x]
  {
    TimesZero(g[n], x);
    TimesZero(outgoing[x], n);
  }

  /** When nothing is ready, either everything has been ordered or there is a cycle. */
  lemma NothingReady(g: Graph, order: seq<string>)
    requires Known(g) && Distinct(order) && Elements(order) <= g.Keys
    requires forall x :: !Ready(g, Elements(order), x)
    ensures Elements(order) == g.Keys || HasCycle(g)
  {
    var rest := g.Keys - Elements(order);
    if rest == {} {
      assert forall x :: x in g.Keys ==> x in rest || x in Elements(order);
    } else {
      forall x | x in rest ensures WaitsWithin(g, rest, x) {
        assert !Ready(g, Elements(order), x);
        var d :| d in g[x] && d !in Elements(order);
        assert d in rest;
      }
      StuckSetHasCycle(g, rest);
    }
  }

  lemma {:induction false} DistinctSize(s: seq<string>)
    requires Distinct(s)
    ensures |Elements(s)| == |s|
  {
    if s != [] {
      var last := |s| - 1;
      DistinctSize(s[..last]);
      assert Elements(s) == Elements(s[..last]) + {s[last]};
    } else {
      assert Elements(s) == {};
    }
  }

  // ---- orders built one ready node at a time -------------------------------

  /** Each node of the order was ready when its turn came. */
  ghost predicate Stepwise(g: Graph, order: seq<string>) {
    forall k :: 0 <= k < |order| ==> Ready(g, Elements(order[..k]), order[k])
  }

  lemma StepwiseStep(g: Graph, order: seq<string>, id: string)
    requires Stepwise(g, order) && Ready(g, Elements(order), id)
    ensures Stepwise(g, order + [id]) && Elements(order + [id]) == Elements(order) + {id}
  {
    var longer := order + [id];
    forall k | 0 <= k < |longer| ensures Ready(g, Elements(longer[..k]), longer[k]) {
      assert longer[..k] == if k < |order| then order[..k] else order;
    }
  }

  lemma StepwiseIsDistinct(g: Graph, order: seq<string>)
    requires Stepwise(g, order)
    ensures Distinct(order) && Elements(order) <= g.Keys
    ensures |order| <= |g|
  {
    forall i, j | 0 <= i < j < |order| ensures order[i] != order[j] {
      assert Ready(g, Elements(order[..j]), order[j]);
      assert order[i] in order[..j];
    }
    forall x | x in Elements(order) ensures x in g {
      var k :| 0 <= k < |order| && order[k] == x;
      assert Ready(g, Elements(order[..k]), order[k]);
    }
    DistinctSize(order);
    assert g.Keys == Elements(order) + (g.Keys - Elements(order));
    assert |g| == |g.Keys|;
  }

  /** A stepwise order over all the nodes is topological. */
  lemma StepwiseIsTopological(g: Graph, order: seq<string>)
    requires Stepwise(g, order) && Elements(order) == g.Keys
    ensures IsTopological(g, order)
  {
    forall i, d | 0 <= i < |order| && order[i] in g && d in g[order[i]] ensures d in order[..i] {
      assert Ready(g, Elements(order[..i]), order[i]);
    }
    StepwiseIsDistinct(g, order);
  }

  /** The ready set holds exactly the nodes whose counter has reached zero. */
  ghost predicate ReadySet(g: Graph, degree: map<string, nat>, done: set<string>, ready: set<string>) {
    && degree.Keys == g.Keys
    && forall n :: n in ready <==> n in g && n !in done && degree[n] == 0
  }

  lemma ReadySetIsReady(g: Graph, degree: map<string, nat>, done: set<string>, ready: set<string>)
    requires Counts(g, degree, done, []) && ReadySet(g, degree, done, ready)
    ensures forall n :: n in ready <==> Ready(g, done, n)
  {
    forall n | n in g ensures degree[n] == 0 <==> forall d :: d in g[n] ==> d in done {
      PendingZero(g[n], done);
    }
  }

  /** Taking one off the counter of the next successor makes it ready exactly when it reaches zero. */
  lemma VisitStep(g: Graph, degree: map<string, nat>, done: set<string>, left: seq<string>, ready: set<string>)
    requires Counts(g, degree, done, left) && ReadySet(g, degree, done, ready)
    requires left != [] && left[0] in g && left[0] !in done
    ensures degree[left[0]] >= 1
    ensures var degree' := degree[left[0] := degree[left[0]] - 1];
            && Counts(g, degree', done, left[1..])
            && ReadySet(g, degree', done, if degree'[left[0]] == 0 then ready + {left[0]} else ready)
  {
    CountsVisit(g, degree, done, left);
  }

  /** Successors of the node being ordered are neither that node nor ordered already. */
  lemma SuccessorIsUnfinished(g: Graph, outgoing: Graph, order: seq<string>, id: string, n: string)
    requires Dual(g, outgoing) && Closed(g, outgoing) && Stepwise(g, order)
    requires id in g && Ready(g, Elements(order), id) && n in outgoing[id]
    ensures n !in Elements(order) && n != id
  {
    if n == id {
      FinishedIsSettled(g, outgoing, Elements(order), id, n);
    }
    if n in Elements(order) {
      var k :| 0 <= k < |order| && order[k] == n;
      assert Ready(g, Elements(order[..k]), order[k]);
      assert Elements(order[..k]) <= Elements(order);
      FinishedIsSettled(g, outgoing, Elements(order), id, n);
    }
  }

  /** The counters and the ready set that Kahn's loop keeps between steps. */
  ghost predicate Between(g: Graph, outgoing: Graph, order: seq<string>, degree: map<string, nat>, ready: set<string>) {
    && Stepwise(g, order)
    && Dual(g, outgoing) && Closed(g, outgoing)
    && Counts(g, degree, Elements(order), [])
    && ReadySet(g, degree, Elements(order), ready)
  }

  /** Ordering a ready node leaves its successors to visit. */
  lemma OrderReady(
    g: Graph, outgoing: Graph, order: seq<string>, degree: map<string, nat>, ready: set<string>, id: string)
    requires Between(g, outgoing, order, degree, ready) && id in ready
    ensures Ready(g, Elements(order), id)
    ensures Stepwise(g, order + [id]) && Elements(order + [id]) == Elements(order) + {id}
    ensures Counts(g, degree, Elements(order + [id]), outgoing[id])
    ensures ReadySet(g, degree, Elements(order + [id]), ready - {id})
    ensures forall n :: n in outgoing[id] ==> n in g && n !in Elements(order + [id])
  {
    ReadySetIsReady(g, degree, Elements(order), ready);
    StepwiseStep(g, order, id);
    CountsFinish(g, outgoing, degree, Elements(order), id);
    forall n | n in outgoing[id] ensures n !in Elements(order) && n != id {
      SuccessorIsUnfinished(g, outgoing, order, id, n);
    }
  }

  /** Once nothing is ready, a full order is the answer and a partial one means a cycle. */
  lemma WhenNothingIsReady(g: Graph, outgoing: Graph, order: seq<string>, degree: map<string, nat>)
    requires Known(g) && Between(g, outgoing, order, degree, {})
    ensures |order| == |g| <==> !HasCycle(g)
    ensures |order| == |g| ==> IsTopological(g, order)
  {
    ReadySetIsReady(g, degree, Elements(order), {});
    StepwiseIsDistinct(g, order);
    NothingReady(g, order);
    DistinctSize(order);
    assert |g| == |g.Keys|;
    if |order| == |g| {
      SubsetOfSameSize(Elements(order), g.Keys);
      StepwiseIsTopological(g, order);
      TopologicalHasNoCycle(g, order);
    }
  }
}
