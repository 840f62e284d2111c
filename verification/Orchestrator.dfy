/**
 `run_dag` and `run_saga_compensation`. Waiting for the next in-flight node is a
 nondeterministic choice of the node and of its outcome, so the contracts hold for every
 schedule and every worker.
 */
module Orchestrator {
  import opened Wrappers
  import opened Collections
  import opened Text
  import opened NopModels
  import opened DependencyGraph
  import opened DagValidation
  import opened Aggregator
  import opened DagRun
  import opened DagResults
  import opened Reachability

  // ---- saga compensation ---------------------------------------------------

  datatype Policy = NoCompensation | BestEffort | Strict | OnFailure | Always

  predicate RunsOnFailure(policy: Policy) {
    !policy.NoCompensation?
  }

  predicate RunsOnSuccess(policy: Policy) {
    policy.Always?
  }

  datatype SagaResult = SagaResult(attempted: nat, succeeded: nat, failed: nat, failedNodeIds: seq<string>)

  predicate HasAction(node: DagNode) {
    node.compensateAction.Some? && !IsBlank(node.compensateAction.value)
  }

  predicate IsCompleted(states: States, id: string) {
    id in states && states[id].Completed?
  }

  function NodeMap(nodes: seq<DagNode>): map<string, DagNode> {
    if nodes == [] then map[] else NodeMap(nodes[..|nodes| - 1])[nodes[|nodes| - 1].id := nodes[|nodes| - 1]]
  }

  /** Completed nodes in reverse topological order. */
  function CompletedBackwards(nodes: map<string, DagNode>, topo: seq<string>, states: States): (r: seq<string>)
    ensures forall id :: id in r <==> id in topo && id in nodes && IsCompleted(states, id)
  {
    if topo == [] then []
    else
      var rest := CompletedBackwards(nodes, topo[1..], states);
      assert topo == [topo[0]] + topo[1..];
      if topo[0] in nodes && IsCompleted(states, topo[0]) then rest + [topo[0]] else rest
  }

  /** The ids whose node has a compensation action, or those whose node has none. */
  function WithAction(nodes: map<string, DagNode>, ids: seq<string>, has: bool): (r: seq<string>)
    requires forall id :: id in ids ==> id in nodes
    ensures forall id :: id in r <==> id in ids && HasAction(nodes[id]) == has
  {
    if ids == [] then []
    else
      var rest := WithAction(nodes, ids[1..], has);
      assert ids == [ids[0]] + ids[1..];
      if HasAction(nodes[ids[0]]) == has then [ids[0]] + rest else rest
  }

  /** `a` before `b` in `s`. */
  ghost predicate Before(s: seq<string>, a: string, b: string) {
    exists i, j :: 0 <= i < j < |s| && s[i] == a && s[j] == b
  }

  lemma {:induction false} BackwardsReverses(
    nodes: map<string, DagNode>, topo: seq<string>, states: States, a: string, b: string)
    requires Before(topo, a, b) && a in nodes && b in nodes && IsCompleted(states, a) && IsCompleted(states, b)
    ensures Before(CompletedBackwards(nodes, topo, states), b, a)
  {
    var r := CompletedBackwards(nodes, topo, states);
    var rest := CompletedBackwards(nodes, topo[1..], states);
    var i, j :| 0 <= i < j < |topo| && topo[i] == a && topo[j] == b;
    if i == 0 {
      assert topo[1..][j - 1] == b;
      var p :| 0 <= p < |rest| && rest[p] == b;
      assert r[p] == b && r[|rest|] == a;
    } else {
      assert topo[1..][i - 1] == a && topo[1..][j - 1] == b;
      BackwardsReverses(nodes, topo[1..], states, a, b);
      var p, q :| 0 <= p < q < |rest| && rest[p] == b && rest[q] == a;
      assert r[p] == b && r[q] == a;
    }
  }

  lemma {:induction false} FilterKeepsOrder(nodes: map<string, DagNode>, ids: seq<string>, has: bool, a: string, b: string)
    requires forall id :: id in ids ==> id in nodes
    requires Before(ids, a, b) && HasAction(nodes[a]) == has && HasAction(nodes[b]) == has
    ensures Before(WithAction(nodes, ids, has), a, b)
  {
    var r := WithAction(nodes, ids, has);
    var rest := WithAction(nodes, ids[1..], has);
    var i, j :| 0 <= i < j < |ids| && ids[i] == a && ids[j] == b;
    if i == 0 {
      assert ids[1..][j - 1] == b;
      var p :| 0 <= p < |rest| && rest[p] == b;
      assert r == [a] + rest && r[0] == a && r[p + 1] == b;
    } else {
      assert ids[1..][i - 1] == a && ids[1..][j - 1] == b;
      FilterKeepsOrder(nodes, ids[1..], has, a, b);
      var p, q :| 0 <= p < q < |rest| && rest[p] == a && rest[q] == b;
      var shift := |r| - |rest|;
      assert r[p + shift] == a && r[q + shift] == b;
    }
  }

  /** What the saga dispatches unless it refuses. */
  function Dispatched(nodes: map<string, DagNode>, topo: seq<string>, states: States): seq<string> {
    WithAction(nodes, CompletedBackwards(nodes, topo, states), true)
  }

  /**
   Dispatch covers exactly the nodes recorded as completed that have an action, and undoes
   the target of every edge before its source.
   */
  lemma DispatchIsBackwards(dag: TaskDag, topo: seq<string>, states: States)
    requires Acceptable(dag) && IsTopological(EdgeGraph(dag), topo)
    ensures var nodes := NodeMap(dag.nodes);
            && (forall id :: id in Dispatched(nodes, topo, states) <==>
                  && id in nodes && id in states && states[id] == Completed
                  && nodes[id].compensateAction.Some? && !IsBlank(nodes[id].compensateAction.value))
            && (forall e | e in dag.edges ::
                  e.from in Dispatched(nodes, topo, states) && e.to in Dispatched(nodes, topo, states)
                  ==> Before(Dispatched(nodes, topo, states), e.to, e.from))
  {
    var nodes := NodeMap(dag.nodes);
    NodeMapKeys(dag.nodes);
    forall e | e in dag.edges
      && e.from in Dispatched(nodes, topo, states) && e.to in Dispatched(nodes, topo, states)
      ensures Before(Dispatched(nodes, topo, states), e.to, e.from)
    {
      var k :| 0 <= k < |dag.edges| && dag.edges[k] == e;
      var q :| 0 <= q < |topo| && topo[q] == e.to;
      EdgesGoForward(dag, topo, k, q);
      var p :| 0 <= p < q && topo[..q][p] == e.from;
      assert Before(topo, e.from, e.to);
      BackwardsReverses(nodes, topo, states, e.from, e.to);
      FilterKeepsOrder(nodes, CompletedBackwards(nodes, topo, states), true, e.to, e.from);
    }
    forall id | id in nodes ensures id in topo {
      assert id in Elements(topo);
    }
  }

  lemma {:induction false} NodeMapKeys(nodes: seq<DagNode>)
    ensures NodeMap(nodes).Keys == Ids(nodes)
    ensures forall id :: id in NodeMap(nodes) ==> NodeMap(nodes)[id] in nodes && NodeMap(nodes)[id].id == id
  {
    if nodes != [] {
      var last := |nodes| - 1;
      NodeMapKeys(nodes[..last]);
      forall id ensures id in Ids(nodes) <==> id in Ids(nodes[..last]) || id == nodes[last].id {
        if i :| 0 <= i < |nodes| && nodes[i].id == id {
          assert i < last ==> nodes[..last][i].id == id;
        }
        if i :| 0 <= i < last && nodes[..last][i].id == id {
          assert nodes[i].id == id;
        }
      }
    }
  }

  /** The ids whose dispatch did not complete, in order. */
  function NotUndone(ids: seq<string>, answers: seq<NodeOutcome>): seq<string>
    requires |answers| == |ids|
  {
    if ids == [] then []
    else
      var n := |ids| - 1;
      NotUndone(ids[..n], answers[..n]) + if answers[n].state.Completed? then [] else [ids[n]]
  }

  /** The dispatches that completed. */
  ghost function Undone(answers: seq<NodeOutcome>): set<int> {
    set i | 0 <= i < |answers| && answers[i].state == Completed
  }

  /** A completed node that the saga cannot undo. */
  ghost predicate LacksAction(nodes: map<string, DagNode>, topo: seq<string>, states: States) {
    exists id :: id in topo && id in nodes && IsCompleted(states, id) && !HasAction(nodes[id])
  }

  lemma MissingWhen(nodes: map<string, DagNode>, topo: seq<string>, states: States)
    ensures WithAction(nodes, CompletedBackwards(nodes, topo, states), false) != [] <==> LacksAction(nodes, topo, states)
  {
    var missing := WithAction(nodes, CompletedBackwards(nodes, topo, states), false);
    if LacksAction(nodes, topo, states) {
      var id :| id in topo && id in nodes && IsCompleted(states, id) && !HasAction(nodes[id]);
      assert id in missing;
    }
    if missing != [] {
      assert missing[0] in missing;
    }
  }

  /** The report of one saga run, given what each dispatch answered. */
  ghost predicate SagaReport(
    nodes: map<string, DagNode>, topo: seq<string>, policy: Policy, states: States, answers: seq<NodeOutcome>,
    r: SagaResult)
  {
    var missing := WithAction(nodes, CompletedBackwards(nodes, topo, states), false);
    var dispatched := Dispatched(nodes, topo, states);
    if policy == Strict && LacksAction(nodes, topo, states) then
      answers == [] && r == SagaResult(0, 0, |missing|, missing)
    else
      && |answers| == |dispatched| == r.attempted
      && r.succeeded == |Undone(answers)|
      && r.failedNodeIds == NotUndone(dispatched, answers)
      && r.failed == |r.failedNodeIds| == r.attempted - r.succeeded
  }

  /** The failed ids are exactly those whose dispatch answered anything but completed. */
  lemma {:induction false} NotUndoneAre(ids: seq<string>, answers: seq<NodeOutcome>)
    requires |answers| == |ids|
    ensures forall id :: id in NotUndone(ids, answers) <==>
              exists i :: 0 <= i < |ids| && ids[i] == id && answers[i].state != Completed
  {
    if ids != [] {
      var n := |ids| - 1;
      NotUndoneAre(ids[..n], answers[..n]);
      forall id
        ensures id in NotUndone(ids, answers) <==>
                exists i :: 0 <= i < |ids| && ids[i] == id && answers[i].state != Completed
      {
        if i :| 0 <= i < n && ids[..n][i] == id && answers[..n][i].state != Completed {
          assert ids[i] == id && answers[i].state != Completed;
        }
        if i :| 0 <= i < |ids| && ids[i] == id && answers[i].state != Completed {
          assert i < n ==> ids[..n][i] == id && answers[..n][i].state != Completed;
        }
      }
    }
  }

  lemma OneMoreAnswer(ids: seq<string>, answers: seq<NodeOutcome>, i: nat, outcome: NodeOutcome)
    requires i < |ids| && |answers| == i
    ensures NotUndone(ids[..i + 1], answers + [outcome])
         == NotUndone(ids[..i], answers) + if outcome.state.Completed? then [] else [ids[i]]
    ensures |Undone(answers + [outcome])| == |Undone(answers)| + if outcome.state.Completed? then 1 else 0
  {
    assert ids[..i + 1][..i] == ids[..i] && (answers + [outcome])[..i] == answers;
    assert Undone(answers + [outcome]) == Undone(answers) + if outcome.state.Completed? then {i} else {};
  }

  /**
   Dispatches compensation one node at a time, whatever each dispatch answers. The log of
   dispatches is returned with the report.
   */
  method RunSagaCompensation(nodes: map<string, DagNode>, topo: seq<string>, policy: Policy, states: States)
    returns (r: SagaResult, dispatched: seq<string>, ghost answers: seq<NodeOutcome>)
    ensures SagaReport(nodes, topo, policy, states, answers, r)
    ensures policy == Strict && LacksAction(nodes, topo, states) ==> dispatched == []
    ensures !(policy == Strict && LacksAction(nodes, topo, states)) ==> dispatched == Dispatched(nodes, topo, states)
  {
    answers := [];
    var completed := CompletedBackwards(nodes, topo, states);
    if policy.Strict? {
      var missing := WithAction(nodes, completed, false);
      MissingWhen(nodes, topo, states);
      if missing != [] {
        return SagaResult(0, 0, |missing|, missing), [], [];
      }
    }
    var toCompensate := WithAction(nodes, completed, true);
    dispatched := [];
    assert Undone([]) == {};
    if toCompensate == [] {
      return SagaResult(0, 0, 0, []), [], [];
    }
    var succeeded := 0;
    var failedIds: seq<string> := [];
    for i := 0 to |toCompensate|
      invariant dispatched == toCompensate[..i] && |answers| == i
      invariant succeeded == |Undone(answers)| && failedIds == NotUndone(toCompensate[..i], answers)
      invariant succeeded + |failedIds| == i
    {
      dispatched := dispatched + [toCompensate[i]];
      var outcome: NodeOutcome := *;
      OneMoreAnswer(toCompensate, answers, i, outcome);
      answers := answers + [outcome];
      if outcome.state.Completed? {
        succeeded := succeeded + 1;
      } else {
        failedIds := failedIds + [toCompensate[i]];
      }
    }
    assert toCompensate[..|toCompensate|] == toCompensate;
    r := SagaResult(|toCompensate|, succeeded, |failedIds|, failedIds);
  }

  // ---- the scheduler -------------------------------------------------------

  datatype ErrorCode = SyncDependencyFailed | CompensationNotSupported | CompensationFailed

  datatype TaskResult =
    | TaskCompleted(aggregated: Value, results: map<string, Value>, compensation: Option<SagaResult>)
    | TaskFailed(errorCode: ErrorCode, compensation: Option<SagaResult>)

  /** End nodes have no outgoing edge. */
  ghost predicate IsEnd(dag: TaskDag, id: string) {
    id in Ids(dag.nodes) && NoEdgeFrom(dag.edges, id)
  }

  /** Some end node downstream of a failure can no longer gather K successes. */
  ghost predicate MustAbort(dag: TaskDag, nodes: map<string, DagNode>, states: States, failed: string) {
    exists e :: IsEnd(dag, e) && e in nodes && Reachable(dag.edges, failed, e) && !CanStillSucceed(nodes[e], states)
  }

  /** The last choice was a failure that aborts the run. */
  ghost predicate Aborts(dag: TaskDag, limit: nat, choices: seq<Choice>) {
    && choices != []
    && choices[|choices| - 1].outcome.state.Failed?
    && MustAbort(dag, NodeMap(dag.nodes), After(dag.nodes, limit, choices).states, choices[|choices| - 1].id)
  }

  /** The states the verdict is taken on. */
  ghost function FinalStates(dag: TaskDag, limit: nat, choices: seq<Choice>): States {
    if Aborts(dag, limit, choices) then After(dag.nodes, limit, choices).states
    else Fill(dag.nodes, limit, After(dag.nodes, limit, choices)).states
  }

  /** A finished run: aborted, or with nothing left in flight; and never aborted before. */
  ghost predicate Finished(dag: TaskDag, limit: nat, choices: seq<Choice>) {
    && IsRun(dag.nodes, limit, choices)
    && (forall k :: 0 <= k < |choices| ==> !Aborts(dag, limit, choices[..k]))
    && (Aborts(dag, limit, choices) || Fill(dag.nodes, limit, After(dag.nodes, limit, choices)).inFlight == {})
  }

  ghost predicate EndFailed(dag: TaskDag, states: States) {
    exists e :: IsEnd(dag, e) && HasFailed(states, e)
  }

  function CompensationError(policy: Policy, compensation: Option<SagaResult>): ErrorCode {
    if !policy.Strict? || compensation.None? || compensation.value.failed == 0 then SyncDependencyFailed
    else if compensation.value.attempted == 0 then CompensationNotSupported
    else CompensationFailed
  }

  /**
   What a failed task's code tells of its compensation: under the strict policy that some completed
   node has no action, or that some dispatch did not complete; otherwise only that a node failed.
   */
  lemma ErrorCodeTells(
    nodes: map<string, DagNode>, topo: seq<string>, policy: Policy, states: States, answers: seq<NodeOutcome>,
    r: SagaResult)
    requires SagaReport(nodes, topo, policy, states, answers, r)
    ensures CompensationError(policy, Some(r)) ==
            if policy == Strict && LacksAction(nodes, topo, states) then CompensationNotSupported
            else if policy == Strict && exists i :: 0 <= i < |answers| && answers[i].state != Completed then
              CompensationFailed
            else SyncDependencyFailed
    ensures CompensationError(policy, None) == SyncDependencyFailed
  {
    var missing := WithAction(nodes, CompletedBackwards(nodes, topo, states), false);
    MissingWhen(nodes, topo, states);
    if !(policy.Strict? && missing != []) {
      NoneNotUndone(Dispatched(nodes, topo, states), answers);
    }
  }

  lemma NoneNotUndone(ids: seq<string>, answers: seq<NodeOutcome>)
    requires |answers| == |ids|
    ensures NotUndone(ids, answers) == [] <==> forall i :: 0 <= i < |answers| ==> answers[i].state == Completed
  {
    var failed := NotUndone(ids, answers);
    NotUndoneAre(ids, answers);
    if failed != [] {
      assert failed[0] in failed;
    } else {
      forall i | 0 <= i < |answers| ensures answers[i].state == Completed {
        assert ids[i] !in failed;
      }
    }
  }

  /** The pass so far and the rest of it make the whole pass. */
  ghost predicate Cascading(goal: (seq<DagNode>, States), kept: seq<DagNode>, i: nat, states: States)
    requires i <= |kept|
  {
    goal == (kept[..i] + Cascade(kept[i..], states).0, Cascade(kept[i..], states).1)
  }

  lemma CascadeKeepsOne(goal: (seq<DagNode>, States), kept: seq<DagNode>, i: nat, states: States)
    requires i < |kept| && Cascading(goal, kept, i, states) && Satisfied(kept[i], states)
    ensures Cascading(goal, kept, i + 1, states)
  {
    var rest := Cascade(kept[i + 1..], states);
    assert kept[i..][1..] == kept[i + 1..];
    assert kept[..i + 1] + rest.0 == kept[..i] + ([kept[i]] + rest.0);
  }

  lemma CascadeDropsOne(goal: (seq<DagNode>, States), kept: seq<DagNode>, i: nat, states: States)
    requires i < |kept| && Cascading(goal, kept, i, states) && !Satisfied(kept[i], states)
    ensures Cascading(goal, kept[..i] + kept[i + 1..], i, states[kept[i].id := Failed])
  {
    var shorter := kept[..i] + kept[i + 1..];
    assert kept[i..][1..] == kept[i + 1..];
    assert shorter[..i] == kept[..i] && shorter[i..] == kept[i + 1..];
  }

  lemma CascadeEnds(goal: (seq<DagNode>, States), kept: seq<DagNode>, states: States)
    requires Cascading(goal, kept, |kept|, states)
    ensures goal == (kept, states)
  {
    assert kept[|kept|..] == [] && kept[..|kept|] + [] == kept;
  }

  method CascadeReady(ready: seq<DagNode>, states: States) returns (kept: seq<DagNode>, states': States)
    ensures (kept, states') == Cascade(ready, states)
  {
    kept, states' := ready, states;
    ghost var goal := Cascade(ready, states);
    assert ready[0..] == ready && ready[..0] + goal.0 == goal.0;
    var i := 0;
    while i < |kept|
      invariant 0 <= i <= |kept| && Cascading(goal, kept, i, states')
      decreases |kept| - i
    {
      var n := kept[i];
      if n.inputFrom.None? || n.inputFrom.value == [] {
        CascadeKeepsOne(goal, kept, i, states');
        i := i + 1;
      } else {
        var deps := n.inputFrom.value;
        var k := if n.minRequired > 0 then n.minRequired else |deps|;
        if Successes(deps, states') < k {
          CascadeDropsOne(goal, kept, i, states');
          states' := states'[n.id := Failed];
          kept := kept[..i] + kept[i + 1..];
        } else {
          CascadeKeepsOne(goal, kept, i, states');
          i := i + 1;
        }
      }
    }
    CascadeEnds(goal, kept, states');
  }

  method LaunchReady(ready: seq<DagNode>, limit: nat, s: RunState) returns (t: RunState)
    ensures t == LaunchAll(ready, limit, s)
  {
    t := s;
    var i := 0;
    while i < |ready| && |t.inFlight| < limit
      invariant 0 <= i <= |ready|
      invariant LaunchAll(ready, limit, s) == LaunchAll(ready[i..], limit, t)
    {
      assert ready[i..][1..] == ready[i + 1..];
      t := t.(inFlight := t.inFlight + {ready[i].id},
              launches := t.launches + [Launch(ready[i], t.states, t.results)]);
      i := i + 1;
    }
  }

  method FillRound(nodes: seq<DagNode>, limit: nat, s: RunState) returns (t: RunState)
    ensures t == Fill(nodes, limit, s)
  {
    var ready := ReadyNodes(nodes, s.states, s.inFlight);
    var kept, states := CascadeReady(ready, s.states);
    t := LaunchReady(kept, limit, s.(states := states));
  }

  method CheckAbort(dag: TaskDag, nodes: map<string, DagNode>, ends: set<string>, states: States, failed: string)
    returns (abort: bool)
    requires nodes == NodeMap(dag.nodes) && forall e :: e in ends <==> IsEnd(dag, e)
    ensures abort <==> MustAbort(dag, nodes, states, failed)
  {
    NodeMapKeys(dag.nodes);
    var left := ends;
    while left != {}
      invariant left <= ends
      invariant forall e :: e in ends && e !in left ==>
        !(Reachable(dag.edges, failed, e) && !CanStillSucceed(nodes[e], states))
      decreases left
    {
      var e :| e in left;
      var reaches := CanReachEndNode(e, failed, dag.edges);
      if reaches && !CanStillSucceed(nodes[e], states) {
        return true;
      }
      left := left - {e};
    }
    abort := false;
  }

  method Compensate(nodes: map<string, DagNode>, topo: seq<string>, policy: Policy, states: States, runs: bool)
    returns (r: Option<SagaResult>, dispatched: seq<string>, ghost answers: seq<NodeOutcome>)
    ensures r.Some? == runs
    ensures r.Some? ==> SagaReport(nodes, topo, policy, states, answers, r.value)
    ensures !runs || (policy == Strict && LacksAction(nodes, topo, states)) ==> dispatched == []
    ensures runs && !(policy == Strict && LacksAction(nodes, topo, states)) ==> dispatched == Dispatched(nodes, topo, states)
  {
    if !runs {
      return None, [], [];
    }
    var report;
    report, dispatched, answers := RunSagaCompensation(nodes, topo, policy, states);
    r := Some(report);
  }

  lemma {:induction false} NodeMapSize(nodes: seq<DagNode>)
    requires DistinctIds(nodes)
    ensures |NodeMap(nodes)| == |nodes|
  {
    if nodes != [] {
      NodeMapSize(nodes[..|nodes| - 1]);
      NodeMapKeys(nodes[..|nodes| - 1]);
    }
  }

  /** No prefix of the choices, nor all of them, aborts. */
  ghost predicate NeverAborts(dag: TaskDag, limit: nat, choices: seq<Choice>) {
    forall k :: 0 <= k <= |choices| ==> !Aborts(dag, limit, choices[..k])
  }

  /** One more choice extends the run and finishes one more node. */
  lemma RunStep(dag: TaskDag, limit: nat, choices: seq<Choice>, c: Choice)
    requires DistinctIds(dag.nodes) && IsRun(dag.nodes, limit, choices) && NeverAborts(dag, limit, choices)
    requires |After(dag.nodes, limit, choices).states| < |dag.nodes|
    requires c.id in Fill(dag.nodes, limit, After(dag.nodes, limit, choices)).inFlight
    ensures IsRun(dag.nodes, limit, choices + [c])
    ensures After(dag.nodes, limit, choices + [c])
         == Finish(Fill(dag.nodes, limit, After(dag.nodes, limit, choices)), c.id, c.outcome)
    ensures |After(dag.nodes, limit, choices).states| < |After(dag.nodes, limit, choices + [c]).states| <= |dag.nodes|
    ensures if Aborts(dag, limit, choices + [c]) then Finished(dag, limit, choices + [c])
            else NeverAborts(dag, limit, choices + [c])
  {
    var longer := choices + [c];
    var s := After(dag.nodes, limit, choices);
    assert longer[..|longer| - 1] == choices;
    RoundGrows(dag.nodes, limit, choices, c);
    PrefixesNeverAbort(dag, limit, choices, c);
  }

  lemma RoundGrows(nodes: seq<DagNode>, limit: nat, choices: seq<Choice>, c: Choice)
    requires DistinctIds(nodes) && IsRun(nodes, limit, choices) && IsRun(nodes, limit, choices + [c])
    requires c.id in Fill(nodes, limit, After(nodes, limit, choices)).inFlight
    ensures |After(nodes, limit, choices).states| < |After(nodes, limit, choices + [c]).states| <= |nodes|
  {
    var s := After(nodes, limit, choices);
    assert (choices + [c])[..|choices|] == choices;
    EveryRun(nodes, limit, choices);
    EveryRun(nodes, limit, choices + [c]);
    FillKeeps(nodes, limit, s);
    SubmapSize(s.states, Fill(nodes, limit, s).states);
    FinishKeeps(nodes, limit, Fill(nodes, limit, s), c.id, c.outcome);
  }

  lemma PrefixesNeverAbort(dag: TaskDag, limit: nat, choices: seq<Choice>, c: Choice)
    requires NeverAborts(dag, limit, choices) && IsRun(dag.nodes, limit, choices + [c])
    ensures if Aborts(dag, limit, choices + [c]) then Finished(dag, limit, choices + [c])
            else NeverAborts(dag, limit, choices + [c])
  {
    var longer := choices + [c];
    assert longer[..|longer|] == longer;
    PrefixesNever(cs => Aborts(dag, limit, cs), choices, c);
  }

  lemma PrefixesNever(aborts: seq<Choice> -> bool, choices: seq<Choice>, c: Choice)
    requires forall k :: 0 <= k <= |choices| ==> !aborts(choices[..k])
    ensures forall k :: 0 <= k < |choices + [c]| ==> !aborts((choices + [c])[..k])
  {
    forall k | 0 <= k <= |choices| ensures (choices + [c])[..k] == choices[..k] {
    }
  }

  /**
   The loop: it follows a run and stops when the run aborts, when nothing is left in
   flight, or when every node has a state.
   */
  method Schedule(dag: TaskDag, limit: nat, ends: set<string>)
    returns (s: RunState, aborted: bool, ghost choices: seq<Choice>)
    requires DistinctIds(dag.nodes) && |NodeMap(dag.nodes)| == |dag.nodes|
    requires forall e :: e in ends <==> IsEnd(dag, e)
    ensures Finished(dag, limit, choices) && aborted == Aborts(dag, limit, choices)
    ensures s.states == FinalStates(dag, limit, choices)
    ensures s.results == After(dag.nodes, limit, choices).results
  {
    var nodes := NodeMap(dag.nodes);
    s := START;
    choices := [];
    while |s.states| < |nodes|
      invariant |s.states| <= |dag.nodes|
      invariant IsRun(dag.nodes, limit, choices) && s == After(dag.nodes, limit, choices)
      invariant NeverAborts(dag, limit, choices)
      decreases |nodes| - |s.states|
    {
      var filled := FillRound(dag.nodes, limit, s);
      if filled.inFlight == {} {
        StoppedRun(dag, limit, choices);
        return filled, false, choices;
      }
      var id :| id in filled.inFlight;
      var outcome: NodeOutcome := *;
      RunStep(dag, limit, choices, Choice(id, outcome));
      choices := choices + [Choice(id, outcome)];
      s := Finish(filled, id, outcome);
      if outcome.state.Failed? {
        var abort := CheckAbort(dag, nodes, ends, s.states, id);
        if abort {
          return s, true, choices;
        }
      }
    }
    EveryRun(dag.nodes, limit, choices);
    AllDoneFillsNothing(dag.nodes, limit, s);
    StoppedRun(dag, limit, choices);
    aborted := false;
  }

  lemma StoppedRun(dag: TaskDag, limit: nat, choices: seq<Choice>)
    requires DistinctIds(dag.nodes) && IsRun(dag.nodes, limit, choices) && NeverAborts(dag, limit, choices)
    requires Fill(dag.nodes, limit, After(dag.nodes, limit, choices)).inFlight == {}
    ensures Finished(dag, limit, choices) && !Aborts(dag, limit, choices)
    ensures Fill(dag.nodes, limit, After(dag.nodes, limit, choices)).results == After(dag.nodes, limit, choices).results
  {
    assert choices[..|choices|] == choices;
    EveryRun(dag.nodes, limit, choices);
    FillKeeps(dag.nodes, limit, After(dag.nodes, limit, choices));
  }

  /** The end nodes, each once, in the order a hash map happens to give them. */
  ghost predicate ListsEnds(dag: TaskDag, listed: seq<string>) {
    Distinct(listed) && forall e :: e in listed <==> IsEnd(dag, e)
  }

  /** Any order will do. */
  method ListAll(ids: set<string>) returns (listed: seq<string>)
    ensures Distinct(listed) && forall id :: id in listed <==> id in ids
  {
    listed := [];
    var left := ids;
    while left != {}
      invariant left <= ids && Distinct(listed)
      invariant forall id :: id in listed <==> id in ids && id !in left
      decreases left
    {
      var id :| id in left;
      listed := listed + [id];
      left := left - {id};
    }
  }

  /**
   For every schedule and every worker: the method follows a run, ends it exactly when it
   aborts or nothing is left in flight, and fails the task exactly when it aborted or an
   end node failed. Compensation runs on the recorded states, as the policy says; a completed
   task aggregates the results of its end nodes in some order.
   */
  method RunDag(dag: TaskDag, limit: nat, policy: Policy, topo: seq<string>, strategy: Strategy)
    returns (
      r: TaskResult, states: States, dispatched: seq<string>,
      ghost choices: seq<Choice>, ghost listed: seq<string>, ghost answers: seq<NodeOutcome>)
    requires Acceptable(dag) && IsTopological(EdgeGraph(dag), topo)
    ensures DistinctIds(dag.nodes) && Finished(dag, limit, choices)
    ensures states == FinalStates(dag, limit, choices)
    ensures r.TaskFailed? <==> Aborts(dag, limit, choices) || EndFailed(dag, states)
    ensures r.TaskCompleted? ==> r.results == After(dag.nodes, limit, choices).results && Records(r.results, choices)
    ensures ListsEnds(dag, listed)
    ensures r.TaskCompleted? ==> r.aggregated == Aggregate(strategy, ResultsOf(listed, r.results), 0)
    ensures r.compensation.Some? == (if r.TaskFailed? then policy != NoCompensation else policy == Always)
    ensures r.compensation.Some? ==> SagaReport(NodeMap(dag.nodes), topo, policy, states, answers, r.compensation.value)
    ensures r.compensation.None? || (policy == Strict && LacksAction(NodeMap(dag.nodes), topo, states)) ==> dispatched == []
    ensures r.compensation.Some? && !(policy == Strict && LacksAction(NodeMap(dag.nodes), topo, states)) ==>
              dispatched == Dispatched(NodeMap(dag.nodes), topo, states)
    ensures r.TaskFailed? ==> r.errorCode == CompensationError(policy, r.compensation)
  {
    NodeMapSize(dag.nodes);
    var nodes := NodeMap(dag.nodes);
    var sources := set e | e in dag.edges :: e.from;
    var ends := set id | id in nodes && id !in sources;
    EndsAreEnds(dag, sources, ends);
    var endIds := ListAll(ends);
    listed := endIds;
    var s, aborted;
    s, aborted, choices := Schedule(dag, limit, ends);
    states := s.states;
    if aborted {
      var compensation;
      compensation, dispatched, answers := Compensate(nodes, topo, policy, states, RunsOnFailure(policy));
      r := TaskFailed(CompensationError(policy, compensation), compensation);
    } else {
      ResultsAreRecorded(dag.nodes, limit, choices);
      r, dispatched, answers := Conclude(dag, nodes, endIds, policy, topo, states, s.results, strategy);
    }
  }

  lemma EndsAreEnds(dag: TaskDag, sources: set<string>, ends: set<string>)
    requires sources == (set e | e in dag.edges :: e.from)
    requires ends == set id | id in NodeMap(dag.nodes) && id !in sources
    ensures forall id :: id in ends <==> IsEnd(dag, id)
  {
    NodeMapKeys(dag.nodes);
    forall id ensures id in sources <==> !NoEdgeFrom(dag.edges, id) {
      if i :| 0 <= i < |dag.edges| && dag.edges[i].from == id {
        assert dag.edges[i] in dag.edges;
      }
    }
  }

  /** Once every node has a state, a further round would change nothing. */
  lemma AllDoneFillsNothing(nodes: seq<DagNode>, limit: nat, s: RunState)
    requires DistinctIds(nodes) && RunInv(nodes, limit, s) && |s.states| >= |nodes|
    ensures s.inFlight == {} && Fill(nodes, limit, s) == s
  {
    IdsFit(nodes);
    assert |s.states.Keys| == |s.states|;
    SubsetSize(s.states.Keys, Ids(nodes));
    SubsetOfSameSize(s.states.Keys, Ids(nodes));
    forall n | n in nodes ensures n.id in s.states {
      assert n.id in Ids(nodes);
    }
    NoneReady(nodes, s.states, s.inFlight);
  }

  lemma {:induction false} NoneReady(nodes: seq<DagNode>, states: States, inFlight: set<string>)
    requires forall n :: n in nodes ==> n.id in states
    ensures ReadyNodes(nodes, states, inFlight) == []
  {
    if nodes != [] {
      NoneReady(nodes[1..], states, inFlight);
    }
  }

  /** The verdict of a run that was not aborted. */
  method Conclude(
    dag: TaskDag, nodes: map<string, DagNode>, ends: seq<string>, policy: Policy, topo: seq<string>,
    states: States, results: map<string, Value>, strategy: Strategy)
    returns (r: TaskResult, dispatched: seq<string>, ghost answers: seq<NodeOutcome>)
    requires nodes == NodeMap(dag.nodes) && forall e :: e in ends <==> IsEnd(dag, e)
    ensures r.TaskFailed? <==> EndFailed(dag, states)
    ensures r.TaskCompleted? ==> r.results == results && r.aggregated == Aggregate(strategy, ResultsOf(ends, results), 0)
    ensures r.compensation.Some? == (if r.TaskFailed? then RunsOnFailure(policy) else RunsOnSuccess(policy))
    ensures r.compensation.Some? ==> SagaReport(nodes, topo, policy, states, answers, r.compensation.value)
    ensures r.compensation.None? || (policy == Strict && LacksAction(nodes, topo, states)) ==> dispatched == []
    ensures r.compensation.Some? && !(policy == Strict && LacksAction(nodes, topo, states)) ==>
              dispatched == Dispatched(nodes, topo, states)
    ensures r.TaskFailed? ==> r.errorCode == CompensationError(policy, r.compensation)
  {
    if exists e :: e in ends && e in states && states[e].Failed? {
      var compensation;
      compensation, dispatched, answers := Compensate(nodes, topo, policy, states, RunsOnFailure(policy));
      r := TaskFailed(CompensationError(policy, compensation), compensation);
    } else {
      var aggregated := AggregateEndNodes(ends, results, strategy);
      var compensation;
      compensation, dispatched, answers := Compensate(nodes, topo, policy, states, RunsOnSuccess(policy));
      r := TaskCompleted(aggregated, results, compensation);
    }
  }

  // ---- when a failure ends the run -----------------------------------------

  /** The node cannot succeed any more: it waits for nothing, or too many of its inputs went wrong. */
  ghost predicate Lost(n: DagNode, states: States) {
    n.inputFrom.None? || n.inputFrom.value == [] ||
    if n.minRequired == 0 then exists i :: 0 <= i < |n.inputFrom.value| && WentWrong(states, n.inputFrom.value[i])
    else |n.inputFrom.value| - |BadInputs(n.inputFrom.value, states)| < n.minRequired
  }

  /** An end node downstream of this one is lost. */
  ghost predicate LosesAnEnd(dag: TaskDag, states: States, failed: string) {
    exists n :: n in dag.nodes && NoEdgeFrom(dag.edges, n.id) && Reachable(dag.edges, failed, n.id) && Lost(n, states)
  }

  /** The `k`-th choice was a failure that loses an end node. */
  ghost predicate FatalAt(dag: TaskDag, limit: nat, choices: seq<Choice>, k: nat) {
    && k < |choices| && choices[k].outcome.state == Failed
    && LosesAnEnd(dag, After(dag.nodes, limit, choices[..k + 1]).states, choices[k].id)
  }

  lemma MustAbortWhen(dag: TaskDag, states: States, failed: string)
    requires DistinctIds(dag.nodes)
    ensures MustAbort(dag, NodeMap(dag.nodes), states, failed) <==> LosesAnEnd(dag, states, failed)
  {
    NodeMapKeys(dag.nodes);
    forall n | n in dag.nodes ensures n.id in NodeMap(dag.nodes) && NodeMap(dag.nodes)[n.id] == n {
      NodeIsUnique(dag.nodes, n);
    }
    forall n ensures CanStillSucceed(n, states) <==> !Lost(n, states) {
      CanStillSucceedWhen(n, states);
      HopelessWhen(n, states);
    }
    if LosesAnEnd(dag, states, failed) {
      var n :| n in dag.nodes && NoEdgeFrom(dag.edges, n.id) && Reachable(dag.edges, failed, n.id) && Lost(n, states);
      assert IsEnd(dag, n.id);
    }
    if MustAbort(dag, NodeMap(dag.nodes), states, failed) {
      var e :| IsEnd(dag, e) && e in NodeMap(dag.nodes) && Reachable(dag.edges, failed, e)
            && !CanStillSucceed(NodeMap(dag.nodes)[e], states);
      assert Lost(NodeMap(dag.nodes)[e], states);
    }
  }

  lemma AbortsWhen(dag: TaskDag, limit: nat, choices: seq<Choice>, k: nat)
    requires DistinctIds(dag.nodes) && k <= |choices|
    ensures Aborts(dag, limit, choices[..k]) <==> k > 0 && FatalAt(dag, limit, choices, k - 1)
  {
    if k > 0 {
      MustAbortWhen(dag, After(dag.nodes, limit, choices[..k]).states, choices[k - 1].id);
    }
  }

  /** A run ends at the first failure that loses an end node, and without one when nothing is left in flight. */
  lemma EndsAtTheFirstFatalFailure(dag: TaskDag, limit: nat, choices: seq<Choice>)
    requires DistinctIds(dag.nodes) && Finished(dag, limit, choices)
    ensures forall k: nat :: k + 1 < |choices| ==> !FatalAt(dag, limit, choices, k)
    ensures Aborts(dag, limit, choices) <==> choices != [] && FatalAt(dag, limit, choices, |choices| - 1)
    ensures !Aborts(dag, limit, choices) ==> Fill(dag.nodes, limit, After(dag.nodes, limit, choices)).inFlight == {}
  {
    forall k: nat | k + 1 < |choices| ensures !FatalAt(dag, limit, choices, k) {
      AbortsWhen(dag, limit, choices, k + 1);
    }
    assert choices[..|choices|] == choices;
    AbortsWhen(dag, limit, choices, |choices|);
  }

  // ---- when a completed verdict covers the end nodes -----------------------

  lemma InputsAreKnown(dag: TaskDag)
    requires Acceptable(dag)
    ensures Known(InputGraph(dag.nodes))
  {
    var g := InputGraph(dag.nodes);
    forall x | x in g ensures KnownRow(g, g[x]) {
      var n := NodeWithId(dag.nodes, x);
      var i :| 0 <= i < |dag.nodes| && dag.nodes[i] == n;
      if n.inputFrom.Some? {
        assert AllIn(n.inputFrom.value, Ids(dag.nodes));
      }
    }
  }

  lemma EndIsNode(dag: TaskDag, e: string) returns (n: DagNode)
    requires IsEnd(dag, e)
    ensures n in dag.nodes && n.id == e
  {
    n := NodeWithId(dag.nodes, e);
  }

  /**
   A completed task has every end node completed or skipped exactly when no end node's inputs
   lead, through nodes still waiting, to a node that the last K-of-N pass failed or round a cycle.
   */
  lemma CompletedCoversEndNodesWhen(dag: TaskDag, limit: nat, choices: seq<Choice>)
    requires Acceptable(dag) && limit > 0 && Finished(dag, limit, choices)
    requires !Aborts(dag, limit, choices) && !EndFailed(dag, FinalStates(dag, limit, choices))
    ensures (forall e :: IsEnd(dag, e) ==> Succeeded(FinalStates(dag, limit, choices), e))
            <==> forall n :: n in dag.nodes && IsEnd(dag, n.id) ==> !IsStuck(dag.nodes, After(dag.nodes, limit, choices), n)
  {
    InputsAreKnown(dag);
    var states, s := FinalStates(dag, limit, choices), After(dag.nodes, limit, choices);
    forall e | IsEnd(dag, e)
      ensures Succeeded(states, e) <==> forall n :: n in dag.nodes && n.id == e ==> !IsStuck(dag.nodes, s, n)
    {
      var n := EndIsNode(dag, e);
      LacksStateWhen(dag.nodes, limit, choices, n);
      NodeIsUnique(dag.nodes, n);
      forall m | m in dag.nodes && m.id == e ensures m == n {
        NodeIsUnique(dag.nodes, m);
      }
      assert e in states ==> !HasFailed(states, e);
    }
  }

  /** When nodes wait only on nodes without inputs, a completed task has run or skipped every end node. */
  lemma FlatCompletedCoversEndNodes(dag: TaskDag, limit: nat, choices: seq<Choice>)
    requires Acceptable(dag) && limit > 0 && Finished(dag, limit, choices)
    requires !Aborts(dag, limit, choices) && !EndFailed(dag, FinalStates(dag, limit, choices))
    requires forall n, m :: n in dag.nodes && m in dag.nodes && m.id in Deps(n) ==> Deps(m) == []
    ensures forall e :: IsEnd(dag, e) ==> Succeeded(FinalStates(dag, limit, choices), e)
  {
    InputsAreKnown(dag);
    FlatInputsAreCovered(dag.nodes, limit, choices);
    forall e | IsEnd(dag, e) ensures Succeeded(FinalStates(dag, limit, choices), e) {
      var _ := EndIsNode(dag, e);
      assert !HasFailed(FinalStates(dag, limit, choices), e);
    }
  }

  // ---- a completed verdict without its end node ----------------------------

  function Link(id: string, upstream: Option<seq<string>>): DagNode {
    DagNode(id, "nwp://x", upstream, 0, None, None)
  }

  /** Three nodes in a chain, with edges and `input_from` in full agreement. */
  const CHAIN := TaskDag(
    [Link("a", None), Link("b", Some(["a"])), Link("c", Some(["b"]))],
    [DagEdge("a", "b"), DagEdge("b", "c")])

  /**
   A completed verdict does not mean that every end node ran: when the first node of a
   chain fails, the second is failed by dependency while nothing is in flight, the loop
   stops there, and the only end node has no state at all.
   */
  lemma CompletedVerdictCanSkipTheEndNode(limit: nat)
    requires limit > 0
    ensures var choices := [Choice("a", NodeOutcome(Failed, None))];
            && Finished(CHAIN, limit, choices)
            && !Aborts(CHAIN, limit, choices)
            && IsEnd(CHAIN, "c")
            && "c" !in FinalStates(CHAIN, limit, choices)
            && !EndFailed(CHAIN, FinalStates(CHAIN, limit, choices))
  {
    ChainFirstRound(limit);
    var choices := [Choice("a", NodeOutcome(Failed, None))];
    assert choices[..|choices| - 1] == [] && After(CHAIN.nodes, limit, []) == START;
    var s := After(CHAIN.nodes, limit, choices);
    assert s == Finish(Fill(CHAIN.nodes, limit, START), "a", NodeOutcome(Failed, None));
    ChainSecondRound(limit, s);
    ChainEnds();
    var nodes := CHAIN.nodes;
    assert nodes[..2] == [nodes[0], nodes[1]] && NodeMap(nodes)["c"] == nodes[2];
    assert Deps(nodes[2]) == ["b"] && ["b"][1..] == [] && CanStillSucceed(nodes[2], s.states);
  }

  lemma ChainFirstRound(limit: nat)
    requires limit > 0
    ensures Fill(CHAIN.nodes, limit, START)
         == RunState(map[], map[], {"a"}, [Launch(CHAIN.nodes[0], map[], map[])])
  {
    var nodes := CHAIN.nodes;
    var a, b, c := nodes[0], nodes[1], nodes[2];
    assert nodes[1..] == [b, c] && [b, c][1..] == [c] && [c][1..] == [];
    assert ["b"][1..] == [] && ["a"][1..] == [];
    assert ReadyNodes([c], map[], {}) == [];
    assert ReadyNodes([b, c], map[], {}) == [];
    assert ReadyNodes(nodes, map[], {}) == [a];
    assert [a][1..] == [] && Cascade([a], map[]) == ([a], map[]);
    var launched := RunState(map[], map[], {"a"}, [Launch(a, map[], map[])]);
    assert {} + {"a"} == {"a"};
    assert LaunchAll([], limit, launched) == launched;
    assert LaunchAll([a], limit, START) == launched;
  }

  lemma ChainSecondRound(limit: nat, s: RunState)
    requires s.states == map["a" := Failed] && s.inFlight == {}
    ensures Fill(CHAIN.nodes, limit, s) == s.(states := map["a" := Failed, "b" := Failed])
  {
    var nodes := CHAIN.nodes;
    var b, c := nodes[1], nodes[2];
    assert nodes[1..] == [b, c] && [b, c][1..] == [c] && [c][1..] == [];
    assert ["b"][1..] == [] && ["a"][1..] == [];
    assert ReadyNodes([c], s.states, {}) == [];
    assert ReadyNodes([b, c], s.states, {}) == [b];
    assert ReadyNodes(nodes, s.states, {}) == [b];
    assert [b][1..] == [] && Cascade([b], s.states) == ([], map["a" := Failed, "b" := Failed]);
  }

  lemma ChainEnds()
    ensures forall e :: IsEnd(CHAIN, e) <==> e == "c"
  {
    assert CHAIN.edges[0].from == "a" && CHAIN.edges[1].from == "b";
    assert CHAIN.nodes[2].id == "c";
    forall e | e in Ids(CHAIN.nodes) ensures e == "a" || e == "b" || e == "c" {
      var i :| 0 <= i < |CHAIN.nodes| && CHAIN.nodes[i].id == e;
    }
  }
}
