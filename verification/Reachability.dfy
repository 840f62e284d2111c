/** `can_reach_end_node`: breadth-first search along the task's edges. */
module Reachability {
  import opened NopModels

  /** A walk along edges, both ends included. */
  ghost predicate IsWalk(edges: seq<DagEdge>, from: string, to: string, w: seq<string>) {
    && |w| >= 1 && w[0] == from && w[|w| - 1] == to
    && forall i :: 0 <= i < |w| - 1 ==> DagEdge(w[i], w[i + 1]) in edges
  }

  ghost predicate Reachable(edges: seq<DagEdge>, from: string, to: string) {
    exists w :: IsWalk(edges, from, to, w)
  }

  lemma ReachesSelf(edges: seq<DagEdge>, x: string)
    ensures Reachable(edges, x, x)
  {
    assert IsWalk(edges, x, x, [x]);
  }

  lemma ReachesOn(edges: seq<DagEdge>, from: string, mid: string, to: string)
    requires Reachable(edges, from, mid) && DagEdge(mid, to) in edges
    ensures Reachable(edges, from, to)
  {
    var w :| IsWalk(edges, from, mid, w);
    assert IsWalk(edges, from, to, w + [to]);
  }

  /** A set closed under edges that holds the start of a walk holds all of it. */
  lemma {:induction false} ClosedHoldsWalk(edges: seq<DagEdge>, s: set<string>, from: string, to: string, w: seq<string>, k: nat)
    requires IsWalk(edges, from, to, w) && from in s && k < |w|
    requires forall e :: e in edges && e.from in s ==> e.to in s
    ensures w[k] in s
  {
    if k > 0 {
      ClosedHoldsWalk(edges, s, from, to, w, k - 1);
      assert DagEdge(w[k - 1], w[k - 1 + 1]) in edges;
    }
  }

  /** `adj` lists the edge targets of every edge source. */
  ghost predicate Lists(edges: seq<DagEdge>, adj: map<string, seq<string>>) {
    forall x, y :: DagEdge(x, y) in edges <==> x in adj && y in adj[x]
  }

  method BuildAdjacency(edges: seq<DagEdge>) returns (adj: map<string, seq<string>>)
    ensures Lists(edges, adj)
  {
    adj := map[];
    for i := 0 to |edges|
      invariant Lists(edges[..i], adj)
    {
      var e := edges[i];
      var row := if e.from in adj then adj[e.from] else [];
      adj := adj[e.from := row + [e.to]];
      assert edges[..i + 1] == edges[..i] + [e];
    }
    assert edges[..|edges|] == edges;
  }

  /** The nodes a search from `start` can meet. */
  function Universe(edges: seq<DagEdge>, start: string): set<string> {
    {start} + set e | e in edges :: e.to
  }

  /** Exactly reachability along edges, every node reaching itself. */
  method CanReachEndNode(endNode: string, start: string, edges: seq<DagEdge>) returns (b: bool)
    ensures b <==> Reachable(edges, start, endNode)
  {
    var adj := BuildAdjacency(edges);
    var visited: set<string> := {};
    var queue := [start];
    ReachesSelf(edges, start);
    while queue != []
      invariant forall x :: x in visited || x in queue ==> Reachable(edges, start, x) && x in Universe(edges, start)
      invariant start in visited || start in queue
      invariant forall e :: e in edges && e.from in visited ==> e.to in visited || e.to in queue
      invariant endNode !in visited
      decreases Universe(edges, start) - visited, |queue|
    {
      var current := queue[0];
      assert queue == [current] + queue[1..];
      queue := queue[1..];
      if current == endNode {
        return true;
      }
      if current !in visited {
        visited := visited + {current};
        if current in adj {
          forall y | y in adj[current] ensures Reachable(edges, start, y) && y in Universe(edges, start) {
            assert DagEdge(current, y) in edges;
            ReachesOn(edges, start, current, y);
          }
          queue := queue + adj[current];
        }
      }
    }
    if Reachable(edges, start, endNode) {
      var w :| IsWalk(edges, start, endNode, w);
      ClosedHoldsWalk(edges, visited, start, endNode, w, |w| - 1);
    }
    b := false;
  }
}
