/**
 `run_dag` as rounds. A round computes the ready nodes, fails those whose K-of-N can no
 longer be met, launches the rest up to the concurrency limit, and then waits for some
 in-flight node to finish. Which one finishes, and how, is the environment's choice, so a
 run is any sequence of such choices.
 */
module DagRun {
  import opened Wrappers
  import opened Collections
  import opened NopModels
  import opened DependencyGraph
  import J = Json

  /** A node result. */
  type Value = J.Json

  datatype TaskState = Completed | Skipped | Failed

  datatype NodeOutcome = NodeOutcome(state: TaskState, result: Option<Value>)

  type States = map<string, TaskState>

  /** One launch: the node, what had finished by then, and the results it was given. */
  datatype Launch = Launch(node: DagNode, seen: States, context: map<string, Value>)

  datatype RunState = RunState(
    states: States,
    results: map<string, Value>,
    inFlight: set<string>,
    launches: seq<Launch>)

  const START := RunState(map[], map[], {}, [])

  // ---- dependencies --------------------------------------------------------

  function Deps(node: DagNode): seq<string> {
    if node.inputFrom.Some? then node.inputFrom.value else []
  }

  /** K of K-of-N: `min_required`, or all of them when it is zero. */
  function Needed(node: DagNode): nat {
    if node.minRequired > 0 then node.minRequired else |Deps(node)|
  }

  predicate Succeeded(states: States, d: string) {
    d in states && (states[d].Completed? || states[d].Skipped?)
  }

  predicate HasFailed(states: States, d: string) {
    d in states && states[d].Failed?
  }

  function Successes(deps: seq<string>, states: States): (n: nat)
    ensures n <= |deps|
  {
    if deps == [] then 0 else Successes(deps[1..], states) + if Succeeded(states, deps[0]) then 1 else 0
  }

  function Failures(deps: seq<string>, states: States): (n: nat)
    ensures n <= |deps|
  {
    if deps == [] then 0 else Failures(deps[1..], states) + if HasFailed(states, deps[0]) then 1 else 0
  }

  /** Enough of the dependencies succeeded. */
  predicate Satisfied(node: DagNode, states: States) {
    Deps(node) == [] || Successes(Deps(node), states) >= Needed(node)
  }

  /** Too few of the dependencies can still succeed. */
  predicate Hopeless(node: DagNode, states: States) {
    Deps(node) != [] && |Deps(node)| - Failures(Deps(node), states) < Needed(node)
  }

  /** `are_deps_done`: the node may be launched, or must be failed. */
  predicate AreDepsDone(node: DagNode, states: States) {
    Satisfied(node, states) || Hopeless(node, states)
  }

  /** `can_end_node_still_succeed`: false for a node without dependencies. */
  predicate CanStillSucceed(node: DagNode, states: States) {
    Deps(node) != [] && |Deps(node)| - Failures(Deps(node), states) >= Needed(node)
  }

  // ---- one round -----------------------------------------------------------

  function ReadyNodes(nodes: seq<DagNode>, states: States, inFlight: set<string>): (r: seq<DagNode>)
    ensures forall n :: n in r <==> n in nodes && n.id !in states && n.id !in inFlight && AreDepsDone(n, states)
  {
    if nodes == [] then []
    else
      var n := nodes[0];
      var rest := ReadyNodes(nodes[1..], states, inFlight);
      assert nodes == [n] + nodes[1..];
      if n.id !in states && n.id !in inFlight && AreDepsDone(n, states) then [n] + rest else rest
  }

  /** The K-of-N pass: ready nodes short of successes fail at once, the others stay ready. */
  function Cascade(ready: seq<DagNode>, states: States): (seq<DagNode>, States) {
    if ready == [] then
      ([], states)
    else if !Satisfied(ready[0], states) then
      Cascade(ready[1..], states[ready[0].id := Failed])
    else
      var (kept, states') := Cascade(ready[1..], states);
      ([ready[0]] + kept, states')
  }

  /** Launches ready nodes in order until the limit is reached. */
  function LaunchAll(ready: seq<DagNode>, limit: nat, s: RunState): RunState {
    if ready == [] || |s.inFlight| >= limit then s
    else
      LaunchAll(
        ready[1..], limit,
        s.(inFlight := s.inFlight + {ready[0].id},
           launches := s.launches + [Launch(ready[0], s.states, s.results)]))
  }

  /** A round up to the point where it waits. */
  function Fill(nodes: seq<DagNode>, limit: nat, s: RunState): RunState {
    var (ready, states) := Cascade(ReadyNodes(nodes, s.states, s.inFlight), s.states);
    LaunchAll(ready, limit, s.(states := states))
  }

  /** An in-flight node finishes. */
  function Finish(s: RunState, id: string, outcome: NodeOutcome): RunState {
    s.(states := s.states[id := outcome.state],
       results := if outcome.state.Completed? && outcome.result.Some? then s.results[id := outcome.result.value]
                  else s.results,
       inFlight := s.inFlight - {id})
  }

  // ---- runs ----------------------------------------------------------------

  datatype Choice = Choice(id: string, outcome: NodeOutcome)

  /** The state at the head of the loop after the environment's first choices. */
  function After(nodes: seq<DagNode>, limit: nat, choices: seq<Choice>): RunState {
    if choices == [] then START
    else
      var c := choices[|choices| - 1];
      Finish(Fill(nodes, limit, After(nodes, limit, choices[..|choices| - 1])), c.id, c.outcome)
  }

  /** Every choice picks a node then in flight, in a round the loop really entered. */
  ghost predicate IsRun(nodes: seq<DagNode>, limit: nat, choices: seq<Choice>) {
    choices == [] ||
    (var before := choices[..|choices| - 1];
     && IsRun(nodes, limit, before)
     && |After(nodes, limit, before).states| < |nodes|
     && choices[|choices| - 1].id in Fill(nodes, limit, After(nodes, limit, before)).inFlight)
  }

  // ---- what every round keeps ----------------------------------------------

  ghost predicate Extends(small: States, big: States) {
    forall d :: d in small ==> d in big && big[d] == small[d]
  }

  /** A launch was justified by what had finished, and got all the results there were. */
  ghost predicate Justified(l: Launch, s: RunState) {
    && Satisfied(l.node, l.seen)
    && Extends(l.seen, s.states)
    && l.node.id !in l.seen
    && (forall d :: d in l.context ==> d in l.seen && d in s.results && s.results[d] == l.context[d])
    && (forall d :: d in s.results && d in l.seen ==> d in l.context)
  }

  ghost predicate WasLaunched(launches: seq<Launch>, id: string) {
    exists i :: 0 <= i < |launches| && launches[i].node.id == id
  }

  /** Launches are of distinct nodes, each in flight or finished, and nothing else is in flight. */
  ghost predicate LaunchedOnce(s: RunState) {
    && (forall i, j :: 0 <= i < j < |s.launches| ==> s.launches[i].node.id != s.launches[j].node.id)
    && (forall i :: 0 <= i < |s.launches| ==>
          s.launches[i].node.id in s.inFlight || s.launches[i].node.id in s.states)
    && (forall id {:trigger WasLaunched(s.launches, id)} :: id in s.inFlight ==> WasLaunched(s.launches, id))
  }

  ghost predicate Bounded(nodes: seq<DagNode>, limit: nat, s: RunState) {
    && s.states.Keys <= Ids(nodes) && s.inFlight <= Ids(nodes)
    && s.states.Keys !! s.inFlight
    && |s.inFlight| <= limit
    && (forall d :: d in s.results ==> d in s.states && s.states[d].Completed?)
  }

  ghost predicate RunInv(nodes: seq<DagNode>, limit: nat, s: RunState) {
    Bounded(nodes, limit, s) && LaunchedOnce(s) && AllJustified(nodes, s)
  }

  ghost predicate AllJustified(nodes: seq<DagNode>, s: RunState) {
    forall i :: 0 <= i < |s.launches| ==> s.launches[i].node in nodes && Justified(s.launches[i], s)
  }

  /** A list of nodes waiting to be failed or launched: distinct, unstarted, done waiting. */
  ghost predicate Unstarted(nodes: seq<DagNode>, ready: seq<DagNode>, s: RunState) {
    && DistinctIds(ready)
    && forall n :: n in ready ==> n in nodes && n.id !in s.states && n.id !in s.inFlight
  }

  lemma {:induction false} ReadyAreUnstarted(all: seq<DagNode>, nodes: seq<DagNode>, s: RunState)
    requires DistinctIds(nodes) && forall n :: n in nodes ==> n in all
    ensures Unstarted(all, ReadyNodes(nodes, s.states, s.inFlight), s)
  {
    if nodes != [] {
      assert nodes == [nodes[0]] + nodes[1..];
      ReadyAreUnstarted(all, nodes[1..], s);
      assert forall n :: n in nodes[1..] ==> n.id != nodes[0].id;
    }
  }

  /** More failures never make a dependency succeed, and never undo a success. */
  lemma {:induction false} SuccessesUnchanged(deps: seq<string>, states: States, id: string)
    requires id !in states
    ensures Successes(deps, states[id := Failed]) == Successes(deps, states)
  {
    if deps != [] {
      SuccessesUnchanged(deps[1..], states, id);
    }
  }

  /** A failure not recorded yet changes whether no other node has its successes. */
  lemma SatisfiedAlike(m: DagNode, states: States, id: string)
    requires id !in states
    ensures Satisfied(m, states[id := Failed]) <==> Satisfied(m, states)
  {
    SuccessesUnchanged(Deps(m), states, id);
  }

  lemma UnstartedRest(nodes: seq<DagNode>, ready: seq<DagNode>, s: RunState)
    requires Unstarted(nodes, ready, s) && ready != []
    ensures Unstarted(nodes, ready[1..], s)
    ensures Unstarted(nodes, ready[1..], s.(states := s.states[ready[0].id := Failed]))
    ensures ready[0].id !in s.states && forall m :: m in ready <==> m == ready[0] || m in ready[1..]
  {
    assert ready == [ready[0]] + ready[1..];
  }

  lemma {:induction false} CascadeKeeps(nodes: seq<DagNode>, ready: seq<DagNode>, s: RunState)
    requires Unstarted(nodes, ready, s)
    ensures var (kept, states) := Cascade(ready, s.states);
            && Extends(s.states, states)
            && Unstarted(nodes, kept, s.(states := states))
            && (forall n :: n in kept ==> n in ready && Satisfied(n, states))
    decreases |ready|
  {
    if ready != [] {
      var n := ready[0];
      UnstartedRest(nodes, ready, s);
      if !Satisfied(n, s.states) {
        CascadeKeeps(nodes, ready[1..], s.(states := s.states[n.id := Failed]));
      } else {
        CascadeKeeps(nodes, ready[1..], s);
        CascadeKeepsSatisfied(ready[1..], s.states, n);
      }
    }
  }

  ghost predicate FellShort(ready: seq<DagNode>, d: string, states: States) {
    exists n :: n in ready && n.id == d && !Satisfied(n, states)
  }

  lemma FellShortBefore(ready: seq<DagNode>, d: string, states: States, id: string)
    requires ready != [] && id !in states && FellShort(ready[1..], d, states[id := Failed])
    ensures FellShort(ready, d, states)
  {
    var n :| n in ready[1..] && n.id == d && !Satisfied(n, states[id := Failed]);
    SatisfiedAlike(n, states, id);
    assert n in ready;
  }

  lemma {:induction false} CascadeFails(nodes: seq<DagNode>, ready: seq<DagNode>, s: RunState)
    requires Unstarted(nodes, ready, s)
    ensures var states := Cascade(ready, s.states).1;
            && (forall d :: d in states && d !in s.states ==> states[d].Failed? && FellShort(ready, d, s.states))
            && (forall n :: n in ready && !Satisfied(n, s.states) ==> n.id in states)
    decreases |ready|
  {
    if ready != [] {
      var n, rest := ready[0], ready[1..];
      var states := Cascade(ready, s.states).1;
      UnstartedRest(nodes, ready, s);
      CascadeKeeps(nodes, ready, s);
      if !Satisfied(n, s.states) {
        var t := s.(states := s.states[n.id := Failed]);
        CascadeKeeps(nodes, rest, t);
        CascadeFails(nodes, rest, t);
        forall d | d in states && d !in s.states ensures states[d].Failed? && FellShort(ready, d, s.states) {
          if d != n.id {
            FellShortBefore(ready, d, s.states, n.id);
          } else {
            assert n in ready;
          }
        }
        forall m | m in ready && !Satisfied(m, s.states) ensures m.id in states {
          SatisfiedAlike(m, s.states, n.id);
        }
      } else {
        CascadeFails(nodes, rest, s);
        forall d | d in states && d !in s.states ensures FellShort(ready, d, s.states) {
          var m :| m in rest && m.id == d && !Satisfied(m, s.states);
          assert m in ready;
        }
      }
    }
  }

  /**
   The K-of-N pass only adds failures, for nodes that were ready and short of successes;
   what it keeps is satisfied.
   */
  lemma CascadeOnlyFails(nodes: seq<DagNode>, ready: seq<DagNode>, s: RunState)
    requires Unstarted(nodes, ready, s)
    ensures var (kept, states) := Cascade(ready, s.states);
            && Extends(s.states, states)
            && Unstarted(nodes, kept, s.(states := states))
            && (forall n :: n in kept ==> n in ready && Satisfied(n, states))
            && (forall d :: d in states && d !in s.states ==> states[d].Failed? && FellShort(ready, d, s.states))
            && (forall n :: n in ready && !Satisfied(n, s.states) ==> n.id in states)
  {
    CascadeKeeps(nodes, ready, s);
    CascadeFails(nodes, ready, s);
  }

  lemma {:induction false} CascadeKeepsSatisfied(ready: seq<DagNode>, states: States, n: DagNode)
    requires DistinctIds(ready) && (forall m :: m in ready ==> m.id !in states && m.id != n.id) && n.id !in states
    ensures Satisfied(n, Cascade(ready, states).1) <==> Satisfied(n, states)
    ensures n.id !in Cascade(ready, states).1
    decreases |ready|
  {
    if ready != [] {
      assert ready == [ready[0]] + ready[1..];
      if !Satisfied(ready[0], states) {
        SuccessesUnchanged(Deps(n), states, ready[0].id);
        CascadeKeepsSatisfied(ready[1..], states[ready[0].id := Failed], n);
      } else {
        CascadeKeepsSatisfied(ready[1..], states, n);
      }
    }
  }

  lemma ExtendKeepsLaunches(nodes: seq<DagNode>, limit: nat, s: RunState, states: States)
    requires RunInv(nodes, limit, s)
    requires Extends(s.states, states) && states.Keys <= Ids(nodes) && states.Keys !! s.inFlight
    ensures RunInv(nodes, limit, s.(states := states))
  {
    var t := s.(states := states);
    forall i | 0 <= i < |t.launches| ensures Justified(t.launches[i], t) {
      assert Justified(s.launches[i], s);
    }
  }

  lemma LaunchKeeps(nodes: seq<DagNode>, limit: nat, n: DagNode, s: RunState)
    requires RunInv(nodes, limit, s) && |s.inFlight| < limit
    requires n in nodes && n.id !in s.states && n.id !in s.inFlight && Satisfied(n, s.states)
    ensures RunInv(nodes, limit, s.(inFlight := s.inFlight + {n.id},
                                    launches := s.launches + [Launch(n, s.states, s.results)]))
  {
    var t := s.(inFlight := s.inFlight + {n.id}, launches := s.launches + [Launch(n, s.states, s.results)]);
    forall i | 0 <= i < |t.launches| ensures t.launches[i].node in nodes && Justified(t.launches[i], t) {
      if i < |s.launches| {
        assert Justified(s.launches[i], s);
      }
    }
    LaunchKeepsOnce(n, s);
  }

  lemma LaunchKeepsOnce(n: DagNode, s: RunState)
    requires LaunchedOnce(s) && n.id !in s.states && n.id !in s.inFlight
    ensures LaunchedOnce(s.(inFlight := s.inFlight + {n.id},
                            launches := s.launches + [Launch(n, s.states, s.results)]))
  {
    var t := s.(inFlight := s.inFlight + {n.id}, launches := s.launches + [Launch(n, s.states, s.results)]);
    forall id | id in t.inFlight ensures WasLaunched(t.launches, id) {
      if id == n.id {
        assert t.launches[|s.launches|].node.id == id;
      } else {
        assert WasLaunched(s.launches, id);
        var i :| 0 <= i < |s.launches| && s.launches[i].node.id == id;
        assert t.launches[i].node.id == id;
      }
    }
  }

  lemma {:induction false} LaunchAllKeeps(nodes: seq<DagNode>, limit: nat, ready: seq<DagNode>, s: RunState)
    requires RunInv(nodes, limit, s) && Unstarted(nodes, ready, s)
    requires forall n :: n in ready ==> Satisfied(n, s.states)
    ensures RunInv(nodes, limit, LaunchAll(ready, limit, s))
    ensures LaunchAll(ready, limit, s).states == s.states && LaunchAll(ready, limit, s).results == s.results
    ensures s.inFlight <= LaunchAll(ready, limit, s).inFlight
    ensures s.launches <= LaunchAll(ready, limit, s).launches
    ensures LaunchAll(ready, limit, s).inFlight == {} ==> ready == [] || limit == 0
    decreases |ready|
  {
    if ready != [] && |s.inFlight| < limit {
      var n := ready[0];
      assert ready == [n] + ready[1..];
      LaunchKeeps(nodes, limit, n, s);
      var t := s.(inFlight := s.inFlight + {n.id}, launches := s.launches + [Launch(n, s.states, s.results)]);
      forall m | m in ready[1..] ensures m.id != n.id {
      }
      LaunchAllKeeps(nodes, limit, ready[1..], t);
      assert n.id in LaunchAll(ready, limit, s).inFlight;
    }
  }

  /** What a round does before it waits. */
  lemma FillKeeps(nodes: seq<DagNode>, limit: nat, s: RunState)
    requires RunInv(nodes, limit, s) && DistinctIds(nodes)
    ensures var t := Fill(nodes, limit, s);
            && RunInv(nodes, limit, t)
            && Extends(s.states, t.states) && s.results == t.results
            && s.inFlight <= t.inFlight && s.launches <= t.launches
            && (forall d :: d in t.states && d !in s.states ==>
                  t.states[d].Failed? && exists n :: n in nodes && n.id == d && !Satisfied(n, s.states) && Hopeless(n, s.states))
            && (t.inFlight == {} && limit > 0 ==>
                  forall n :: n in nodes && n.id !in t.states ==> !AreDepsDone(n, s.states))
  {
    var ready := ReadyNodes(nodes, s.states, s.inFlight);
    ReadyAreUnstarted(nodes, nodes, s);
    CascadeOnlyFails(nodes, ready, s);
    var (kept, states) := Cascade(ready, s.states);
    forall d | d in states ensures d in Ids(nodes) && d !in s.inFlight {
      if d !in s.states {
        var n :| n in ready && n.id == d;
      }
    }
    ExtendKeepsLaunches(nodes, limit, s, states);
    LaunchAllKeeps(nodes, limit, kept, s.(states := states));
    var t := Fill(nodes, limit, s);
    if t.inFlight == {} && limit > 0 {
      forall n | n in nodes && n.id !in t.states ensures !AreDepsDone(n, s.states) {
        if AreDepsDone(n, s.states) {
          assert n in ready;
          StaysReady(ready, s.states, n);
        }
      }
    }
  }

  /** A ready node is either failed by the pass or kept for launching. */
  lemma {:induction false} StaysReady(ready: seq<DagNode>, states: States, n: DagNode)
    requires n in ready
    ensures n in Cascade(ready, states).0 || n.id in Cascade(ready, states).1
    decreases |ready|
  {
    assert ready == [ready[0]] + ready[1..];
    if n == ready[0] {
      if !Satisfied(n, states) {
        CascadeGrows(ready[1..], states[n.id := Failed]);
      }
    } else if !Satisfied(ready[0], states) {
      StaysReady(ready[1..], states[ready[0].id := Failed], n);
    } else {
      StaysReady(ready[1..], states, n);
    }
  }

  lemma {:induction false} CascadeGrows(ready: seq<DagNode>, states: States)
    ensures states.Keys <= Cascade(ready, states).1.Keys
    decreases |ready|
  {
    if ready != [] {
      CascadeGrows(ready[1..], if !Satisfied(ready[0], states) then states[ready[0].id := Failed] else states);
    }
  }

  lemma FinishKeeps(nodes: seq<DagNode>, limit: nat, s: RunState, id: string, outcome: NodeOutcome)
    requires RunInv(nodes, limit, s) && id in s.inFlight
    ensures RunInv(nodes, limit, Finish(s, id, outcome))
    ensures Extends(s.states, Finish(s, id, outcome).states)
    ensures |Finish(s, id, outcome).states| == |s.states| + 1
  {
    FinishKeepsBounds(nodes, limit, s, id, outcome);
    FinishKeepsOnce(s, id, outcome);
    FinishKeepsJustified(nodes, s, id, outcome);
  }

  lemma FinishKeepsBounds(nodes: seq<DagNode>, limit: nat, s: RunState, id: string, outcome: NodeOutcome)
    requires Bounded(nodes, limit, s) && id in s.inFlight
    ensures Bounded(nodes, limit, Finish(s, id, outcome))
    ensures |Finish(s, id, outcome).states| == |s.states| + 1
  {
    var t := Finish(s, id, outcome);
    SubsetSize(t.inFlight, s.inFlight);
    assert id !in s.states;
    OneMoreKey(s.states, id, outcome.state);
  }

  lemma OneMoreKey(states: States, id: string, state: TaskState)
    requires id !in states
    ensures |states[id := state]| == |states| + 1 && states[id := state].Keys == states.Keys + {id}
  {
    assert |states[id := state].Keys| == |states[id := state]| && |states.Keys| == |states|;
  }

  lemma FinishKeepsOnce(s: RunState, id: string, outcome: NodeOutcome)
    requires LaunchedOnce(s) && id in s.inFlight
    ensures LaunchedOnce(Finish(s, id, outcome))
  {
    forall x | x in Finish(s, id, outcome).inFlight ensures WasLaunched(s.launches, x) {
    }
  }

  lemma FinishKeepsJustified(nodes: seq<DagNode>, s: RunState, id: string, outcome: NodeOutcome)
    requires AllJustified(nodes, s) && id in s.inFlight && id !in s.states && id !in s.results
    ensures AllJustified(nodes, Finish(s, id, outcome))
  {
    var t := Finish(s, id, outcome);
    forall i | 0 <= i < |t.launches| ensures Justified(t.launches[i], t) {
      assert Justified(s.launches[i], s);
    }
  }

  // ---- every run -----------------------------------------------------------

  /**
   On every run, whatever order nodes finish in: each node is launched at most once, only
   once at least K of its dependencies completed or were skipped and with every result
   they produced; no more nodes are in flight than allowed; and every round finishes a
   node, so there are at most as many rounds as nodes.
   */
  lemma {:induction false} EveryRun(nodes: seq<DagNode>, limit: nat, choices: seq<Choice>)
    requires DistinctIds(nodes) && IsRun(nodes, limit, choices)
    ensures RunInv(nodes, limit, After(nodes, limit, choices))
    ensures RunInv(nodes, limit, Fill(nodes, limit, After(nodes, limit, choices)))
    ensures |choices| <= |After(nodes, limit, choices).states| <= |nodes|
  {
    if choices != [] {
      var before := choices[..|choices| - 1];
      EveryRun(nodes, limit, before);
      var s := Fill(nodes, limit, After(nodes, limit, before));
      FillKeeps(nodes, limit, After(nodes, limit, before));
      SubmapSize(After(nodes, limit, before).states, s.states);
      FinishKeeps(nodes, limit, s, choices[|choices| - 1].id, choices[|choices| - 1].outcome);
    }
    FillKeeps(nodes, limit, After(nodes, limit, choices));
    StatesFit(nodes, After(nodes, limit, choices).states);
  }

  lemma StatesFit(nodes: seq<DagNode>, states: States)
    requires states.Keys <= Ids(nodes)
    ensures |states| <= |nodes|
  {
    IdsFit(nodes);
    assert Ids(nodes) == states.Keys + (Ids(nodes) - states.Keys);
    assert |states| == |states.Keys|;
  }

  lemma {:induction false} IdsFit(nodes: seq<DagNode>)
    ensures |Ids(nodes)| <= |nodes|
  {
    if nodes == [] {
      assert Ids(nodes) == {};
    } else {
      IdsFit(nodes[1..]);
      assert nodes == [nodes[0]] + nodes[1..];
      assert Ids(nodes) == {nodes[0].id} + Ids(nodes[1..]);
    }
  }

  /** A state once written is never rewritten, and launches are only appended. */
  lemma {:induction false} StatesAreWrittenOnce(nodes: seq<DagNode>, limit: nat, choices: seq<Choice>, k: nat)
    requires DistinctIds(nodes) && IsRun(nodes, limit, choices) && k <= |choices|
    ensures Extends(After(nodes, limit, choices[..k]).states, After(nodes, limit, choices).states)
    ensures After(nodes, limit, choices[..k]).launches <= After(nodes, limit, choices).launches
  {
    if k < |choices| {
      var before := choices[..|choices| - 1];
      assert before[..k] == choices[..k];
      StatesAreWrittenOnce(nodes, limit, before, k);
      EveryRun(nodes, limit, before);
      FillKeeps(nodes, limit, After(nodes, limit, before));
      FinishKeeps(
        nodes, limit, Fill(nodes, limit, After(nodes, limit, before)),
        choices[|choices| - 1].id, choices[|choices| - 1].outcome);
    } else {
      assert choices[..k] == choices;
    }
  }

  /** A node is failed without being launched only when K of its dependencies can no longer succeed. */
  lemma FailedByDependency(nodes: seq<DagNode>, limit: nat, choices: seq<Choice>, d: string)
    requires DistinctIds(nodes) && IsRun(nodes, limit, choices)
    requires d in Fill(nodes, limit, After(nodes, limit, choices)).states
    requires d !in After(nodes, limit, choices).states
    ensures Fill(nodes, limit, After(nodes, limit, choices)).states[d].Failed?
    ensures exists n :: n in nodes && n.id == d && Hopeless(n, After(nodes, limit, choices).states)
  {
    EveryRun(nodes, limit, choices);
    FillKeeps(nodes, limit, After(nodes, limit, choices));
  }

  // ---- when a run covers every node ----------------------------------------

  /** The graph the scheduler waits on: `input_from`, not the edges. */
  function InputGraph(nodes: seq<DagNode>): Graph
    requires DistinctIds(nodes)
  {
    map n | n in Ids(nodes) :: Deps(NodeWithId(nodes, n))
  }

  function NodeWithId(nodes: seq<DagNode>, id: string): (n: DagNode)
    requires id in Ids(nodes)
    ensures n in nodes && n.id == id
  {
    if nodes[0].id == id then nodes[0]
    else
      assert nodes == [nodes[0]] + nodes[1..];
      NodeWithId(nodes[1..], id)
  }

  lemma NodeIsUnique(nodes: seq<DagNode>, n: DagNode)
    requires DistinctIds(nodes) && n in nodes
    ensures n.id in Ids(nodes) && NodeWithId(nodes, n.id) == n
  {
    var m := NodeWithId(nodes, n.id);
    var i :| 0 <= i < |nodes| && nodes[i] == n;
    var j :| 0 <= j < |nodes| && nodes[j] == m;
  }

  lemma {:induction false} NoFailures(deps: seq<string>, states: States)
    requires forall d :: d in deps && d in states ==> !states[d].Failed?
    ensures Failures(deps, states) == 0
    ensures (forall d :: d in deps ==> d in states) ==> Successes(deps, states) == |deps|
  {
    if deps != [] {
      assert deps == [deps[0]] + deps[1..];
      NoFailures(deps[1..], states);
    }
  }

  /**
   A run in which no node fails ends with every node completed or skipped, provided the
   scheduler's own graph has no cycle, K never asks for more dependencies than there are,
   and at least one node may run at a time.
   */
  lemma UnfailingRunsCoverEveryNode(nodes: seq<DagNode>, limit: nat, choices: seq<Choice>)
    requires DistinctIds(nodes) && limit > 0 && IsRun(nodes, limit, choices)
    requires Known(InputGraph(nodes)) && !HasCycle(InputGraph(nodes))
    requires forall n :: n in nodes ==> n.minRequired <= |Deps(n)|
    requires forall i :: 0 <= i < |choices| ==> !choices[i].outcome.state.Failed?
    requires Fill(nodes, limit, After(nodes, limit, choices)).inFlight == {}
    ensures forall n :: n in nodes ==> Succeeded(After(nodes, limit, choices).states, n.id)
  {
    var s := After(nodes, limit, choices);
    var g := InputGraph(nodes);
    EveryRun(nodes, limit, choices);
    FillKeeps(nodes, limit, s);
    NothingFailed(nodes, limit, choices);
    var rest := Ids(nodes) - s.states.Keys;
    if rest != {} {
      forall x | x in rest ensures WaitsWithin(g, rest, x) {
        var n := NodeWithId(nodes, x);
        NoFailures(Deps(n), s.states);
        assert !Hopeless(n, s.states);
        assert !AreDepsDone(n, s.states);
        var d :| d in Deps(n) && d !in s.states;
        assert d in g[x] && KnownRow(g, g[x]);
      }
      StuckSetHasCycle(g, rest);
    }
    forall n | n in nodes ensures Succeeded(s.states, n.id) {
      NodeIsUnique(nodes, n);
      assert n.id !in rest;
    }
  }

  lemma {:induction false} NothingFailed(nodes: seq<DagNode>, limit: nat, choices: seq<Choice>)
    requires DistinctIds(nodes) && IsRun(nodes, limit, choices)
    requires forall n :: n in nodes ==> n.minRequired <= |Deps(n)|
    requires forall i :: 0 <= i < |choices| ==> !choices[i].outcome.state.Failed?
    ensures forall d :: d in After(nodes, limit, choices).states ==> !After(nodes, limit, choices).states[d].Failed?
    ensures Fill(nodes, limit, After(nodes, limit, choices)).states == After(nodes, limit, choices).states
  {
    if choices != [] {
      NothingFailed(nodes, limit, choices[..|choices| - 1]);
    }
    EveryRun(nodes, limit, choices);
    FillWithoutFailures(nodes, limit, After(nodes, limit, choices));
  }

  lemma FillWithoutFailures(nodes: seq<DagNode>, limit: nat, s: RunState)
    requires RunInv(nodes, limit, s) && DistinctIds(nodes)
    requires forall n :: n in nodes ==> n.minRequired <= |Deps(n)|
    requires forall d :: d in s.states ==> !s.states[d].Failed?
    ensures Fill(nodes, limit, s).states == s.states
  {
    FillKeeps(nodes, limit, s);
    forall n | n in nodes ensures !Hopeless(n, s.states) {
      NoFailures(Deps(n), s.states);
    }
  }

  // ---- exactly when a stopped run covers every node ------------------------

  /** Not ready at the head of a round: neither satisfied nor hopeless. */
  predicate Waiting(n: DagNode, s: RunState) {
    n.id !in s.states && !AreDepsDone(n, s.states)
  }

  /** Ready at the head of a round and short of successes: the K-of-N pass fails it. */
  predicate FailsLate(n: DagNode, s: RunState) {
    n.id !in s.states && AreDepsDone(n, s.states) && !Satisfied(n, s.states)
  }

  /** The run has nothing left in flight after its last pass. */
  ghost predicate Stopped(nodes: seq<DagNode>, limit: nat, choices: seq<Choice>) {
    && DistinctIds(nodes) && limit > 0 && IsRun(nodes, limit, choices)
    && Fill(nodes, limit, After(nodes, limit, choices)).inFlight == {}
  }

  /** After the last pass a node lacks a state exactly when it was waiting, and got one late exactly when the pass failed it. */
  lemma LastPass(nodes: seq<DagNode>, limit: nat, choices: seq<Choice>, n: DagNode)
    requires Stopped(nodes, limit, choices) && n in nodes
    ensures var s := After(nodes, limit, choices);
            && (n.id in Fill(nodes, limit, s).states <==> !Waiting(n, s))
            && (n.id in Fill(nodes, limit, s).states && n.id !in s.states <==> FailsLate(n, s))
  {
    var s := After(nodes, limit, choices);
    EveryRun(nodes, limit, choices);
    FillKeeps(nodes, limit, s);
    NodeIsUnique(nodes, n);
    forall m | m in nodes && m.id == n.id ensures m == n {
      NodeIsUnique(nodes, m);
    }
  }

  lemma {:induction false} AllCounted(deps: seq<string>, states: States)
    requires forall d :: d in deps ==> d in states
    ensures Successes(deps, states) + Failures(deps, states) == |deps|
  {
    if deps != [] {
      assert deps == [deps[0]] + deps[1..];
      AllCounted(deps[1..], states);
    }
  }

  /** A waiting node waits on some node that has no state yet. */
  lemma WaitsOnOpenNode(n: DagNode, s: RunState) returns (d: string)
    requires Waiting(n, s)
    ensures d in Deps(n) && d !in s.states
  {
    if forall d :: d in Deps(n) ==> d in s.states {
      AllCounted(Deps(n), s.states);
      assert false;
    }
    d :| d in Deps(n) && d !in s.states;
  }

  /** The node was waiting, on a node that the last pass failed. */
  ghost predicate Stranded(nodes: seq<DagNode>, s: RunState, n: DagNode) {
    Waiting(n, s) && exists m :: m in nodes && m.id in Deps(n) && FailsLate(m, s)
  }

  /** Waiting nodes, each waiting on the next. */
  ghost predicate WaitingChain(nodes: seq<DagNode>, s: RunState, c: seq<DagNode>) {
    && (forall i :: 0 <= i < |c| ==> c[i] in nodes && Waiting(c[i], s))
    && (forall i :: 0 <= i < |c| - 1 ==> c[i + 1].id in Deps(c[i]))
  }

  ghost predicate ReachedBy(nodes: seq<DagNode>, s: RunState, from: DagNode, x: string, c: seq<DagNode>) {
    c != [] && c[0] == from && c[|c| - 1].id == x && WaitingChain(nodes, s, c)
  }

  /** What a waiting node can be followed to through waiting nodes. */
  ghost function WaitingFrom(nodes: seq<DagNode>, s: RunState, from: DagNode): set<string> {
    set x | x in Ids(nodes) && exists c :: ReachedBy(nodes, s, from, x, c)
  }

  /** From the node a chain of waiting nodes comes to one that waits on a node failed by the last pass. */
  ghost predicate LeadsToLate(nodes: seq<DagNode>, s: RunState, n: DagNode, c: seq<DagNode>) {
    c != [] && c[0] == n && WaitingChain(nodes, s, c) && Stranded(nodes, s, c[|c| - 1])
  }

  /** From the node waiting nodes come to a cycle of waiting nodes. */
  ghost predicate LeadsToCycle(nodes: seq<DagNode>, s: RunState, n: DagNode, c: seq<string>)
    requires DistinctIds(nodes)
  {
    IsCycle(InputGraph(nodes), c) && forall i :: 0 <= i < |c| ==> c[i] in WaitingFrom(nodes, s, n)
  }

  ghost predicate IsStuck(nodes: seq<DagNode>, s: RunState, n: DagNode)
    requires DistinctIds(nodes)
  {
    (exists c :: LeadsToLate(nodes, s, n, c)) || (exists c :: LeadsToCycle(nodes, s, n, c))
  }

  /**
   After a stopped run a node has no state exactly when its inputs lead, through waiting nodes,
   to a node that the last K-of-N pass failed or round a cycle.
   */
  lemma LacksStateWhen(nodes: seq<DagNode>, limit: nat, choices: seq<Choice>, n: DagNode)
    requires Stopped(nodes, limit, choices) && Known(InputGraph(nodes)) && n in nodes
    ensures n.id !in Fill(nodes, limit, After(nodes, limit, choices)).states
            <==> IsStuck(nodes, After(nodes, limit, choices), n)
  {
    var s := After(nodes, limit, choices);
    LastPass(nodes, limit, choices, n);
    if Waiting(n, s) {
      WaitingIsStuck(nodes, limit, choices, n);
    } else {
      forall c ensures !LeadsToLate(nodes, s, n, c) {
      }
      forall c ensures !LeadsToCycle(nodes, s, n, c) {
      }
    }
  }

  lemma WaitingIsStuck(nodes: seq<DagNode>, limit: nat, choices: seq<Choice>, n: DagNode)
    requires Stopped(nodes, limit, choices) && Known(InputGraph(nodes))
    requires n in nodes && Waiting(n, After(nodes, limit, choices))
    ensures IsStuck(nodes, After(nodes, limit, choices), n)
  {
    var s := After(nodes, limit, choices);
    if c :| LeadsToLate(nodes, s, n, c) {
    } else {
      WaitingNodesAreStuck(nodes, limit, choices, n);
      var c := CycleWithin(InputGraph(nodes), WaitingFrom(nodes, s, n));
      assert LeadsToCycle(nodes, s, n, c);
    }
  }

  /** When no chain comes to a node failed by the last pass, the nodes reached wait for each other. */
  lemma WaitingNodesAreStuck(nodes: seq<DagNode>, limit: nat, choices: seq<Choice>, n: DagNode)
    requires Stopped(nodes, limit, choices) && Known(InputGraph(nodes))
    requires n in nodes && Waiting(n, After(nodes, limit, choices))
    requires forall c :: !LeadsToLate(nodes, After(nodes, limit, choices), n, c)
    ensures var reached := WaitingFrom(nodes, After(nodes, limit, choices), n);
            n.id in reached && reached <= Ids(nodes) && Stuck(InputGraph(nodes), reached)
  {
    var s := After(nodes, limit, choices);
    var reached := WaitingFrom(nodes, s, n);
    assert ReachedBy(nodes, s, n, n.id, [n]);
    forall x | x in reached ensures WaitsWithin(InputGraph(nodes), reached, x) {
      var w :| ReachedBy(nodes, s, n, x, w);
      assert !LeadsToLate(nodes, s, n, w);
      NextWaits(nodes, limit, choices, n, x, w);
    }
  }

  /**
   A stopped run gives every node a state exactly when no waiting node waits on a node that
   the last K-of-N pass failed, and no waiting nodes wait for each other in a cycle.
   */
  lemma StoppedRunCoversWhen(nodes: seq<DagNode>, limit: nat, choices: seq<Choice>)
    requires Stopped(nodes, limit, choices) && Known(InputGraph(nodes))
    ensures var s := After(nodes, limit, choices);
            (forall n :: n in nodes ==> n.id in Fill(nodes, limit, s).states)
            <==> (forall n :: n in nodes ==> !Stranded(nodes, s, n)) && (forall c :: !WaitingCycle(nodes, s, c))
  {
    var s := After(nodes, limit, choices);
    forall n | n in nodes ensures n.id in Fill(nodes, limit, s).states <==> !Waiting(n, s) {
      LastPass(nodes, limit, choices, n);
    }
    if n :| n in nodes && Waiting(n, s) {
      WaitingIsStuck(nodes, limit, choices, n);
      if c :| LeadsToLate(nodes, s, n, c) {
        assert c[|c| - 1] in nodes && Stranded(nodes, s, c[|c| - 1]);
      } else {
        var c :| LeadsToCycle(nodes, s, n, c);
        forall i | 0 <= i < |c| ensures WaitingId(nodes, s, c[i]) {
          ReachedIsWaiting(nodes, s, n, c[i]);
        }
        assert WaitingCycle(nodes, s, c);
      }
    } else {
      forall c ensures !WaitingCycle(nodes, s, c) {
        assert |c| >= 2 ==> !WaitingId(nodes, s, c[0]);
      }
    }
  }

  ghost predicate WaitingId(nodes: seq<DagNode>, s: RunState, id: string) {
    exists n :: n in nodes && n.id == id && Waiting(n, s)
  }

  ghost predicate WaitingCycle(nodes: seq<DagNode>, s: RunState, c: seq<string>)
    requires DistinctIds(nodes)
  {
    IsCycle(InputGraph(nodes), c) && forall i :: 0 <= i < |c| ==> WaitingId(nodes, s, c[i])
  }

  lemma ReachedIsWaiting(nodes: seq<DagNode>, s: RunState, from: DagNode, x: string)
    requires x in WaitingFrom(nodes, s, from)
    ensures WaitingId(nodes, s, x)
  {
    var c :| ReachedBy(nodes, s, from, x, c);
    assert c[|c| - 1] in nodes;
  }

  lemma ChainGrows(nodes: seq<DagNode>, s: RunState, from: DagNode, x: string, w: seq<DagNode>, m: DagNode)
    requires ReachedBy(nodes, s, from, x, w) && m in nodes && Waiting(m, s) && m.id in Deps(w[|w| - 1])
    ensures ReachedBy(nodes, s, from, m.id, w + [m])
  {
    var longer := w + [m];
    assert forall i :: 0 <= i < |w| ==> longer[i] == w[i];
    assert longer[|w|] == m;
  }

  lemma NextWaits(nodes: seq<DagNode>, limit: nat, choices: seq<Choice>, n: DagNode, x: string, w: seq<DagNode>)
    requires Stopped(nodes, limit, choices) && Known(InputGraph(nodes))
    requires var s := After(nodes, limit, choices);
             x in WaitingFrom(nodes, s, n) && ReachedBy(nodes, s, n, x, w) && !Stranded(nodes, s, w[|w| - 1])
    ensures WaitsWithin(InputGraph(nodes), WaitingFrom(nodes, After(nodes, limit, choices), n), x)
  {
    var s, g, last := After(nodes, limit, choices), InputGraph(nodes), w[|w| - 1];
    NodeIsUnique(nodes, last);
    var d := WaitsOnOpenNode(last, s);
    assert d in g[x] && KnownRow(g, g[x]);
    var m := NodeWithId(nodes, d);
    LastPass(nodes, limit, choices, m);
    assert Waiting(m, s);
    ChainGrows(nodes, s, n, x, w, m);
  }

  lemma FlatRow(nodes: seq<DagNode>, x: string, y: string)
    requires DistinctIds(nodes) && Known(InputGraph(nodes)) && x in Ids(nodes) && y in InputGraph(nodes)[x]
    requires forall n, m :: n in nodes && m in nodes && m.id in Deps(n) ==> Deps(m) == []
    ensures IsLeaf(InputGraph(nodes), y)
  {
    assert KnownRow(InputGraph(nodes), InputGraph(nodes)[x]);
    assert NodeWithId(nodes, y).id in Deps(NodeWithId(nodes, x));
  }

  /**
   When every node that is waited on has no inputs of its own, every stopped run gives every
   node a state, whatever fails.
   */
  lemma FlatInputsAreCovered(nodes: seq<DagNode>, limit: nat, choices: seq<Choice>)
    requires Stopped(nodes, limit, choices) && Known(InputGraph(nodes))
    requires forall n, m :: n in nodes && m in nodes && m.id in Deps(n) ==> Deps(m) == []
    ensures forall n :: n in nodes ==> n.id in Fill(nodes, limit, After(nodes, limit, choices)).states
  {
    var g := InputGraph(nodes);
    forall x, y | x in g && y in g[x] ensures IsLeaf(g, y) {
      FlatRow(nodes, x, y);
    }
    FlatHasNoCycle(g);
    StoppedRunCoversWhen(nodes, limit, choices);
  }
}
