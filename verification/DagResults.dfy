/**
 What a run records: the state and the result of every node that finished, what each launch was
 given of them, and what K of N asks for, counted over input positions.
 */
module DagResults {
  import opened Wrappers
  import opened NopModels
  import opened DagRun

  /** Some choice finished the node completed, with this result. */
  ghost predicate Produced(choices: seq<Choice>, id: string, v: Value) {
    exists i :: 0 <= i < |choices| && choices[i] == Choice(id, NodeOutcome(Completed, Some(v)))
  }

  ghost predicate HasFinished(choices: seq<Choice>, id: string) {
    exists i :: 0 <= i < |choices| && choices[i].id == id
  }

  /** The map holds exactly the results that were produced. */
  ghost predicate Records(results: map<string, Value>, choices: seq<Choice>) {
    forall id, v :: (id in results && results[id] == v) <==> Produced(choices, id, v)
  }

  lemma ProducedOneMore(choices: seq<Choice>, c: Choice, id: string, v: Value)
    ensures Produced(choices + [c], id, v) <==>
            Produced(choices, id, v) || c == Choice(id, NodeOutcome(Completed, Some(v)))
  {
    var all := choices + [c];
    if i :| 0 <= i < |choices| && choices[i] == Choice(id, NodeOutcome(Completed, Some(v))) {
      assert all[i] == choices[i];
    }
    assert all[|choices|] == c;
  }

  lemma ChoicesSplit(choices: seq<Choice>)
    requires choices != []
    ensures choices == choices[..|choices| - 1] + [choices[|choices| - 1]]
  {
  }

  /** One round's finish, on the results recorded before it. */
  lemma FinishRecords(s: RunState, choices: seq<Choice>, c: Choice)
    requires Records(s.results, choices) && c.id !in s.results
    ensures Records(Finish(s, c.id, c.outcome).results, choices + [c])
  {
    var after := Finish(s, c.id, c.outcome).results;
    forall id, v ensures (id in after && after[id] == v) <==> Produced(choices + [c], id, v) {
      ProducedOneMore(choices, c, id, v);
      assert (id in s.results && s.results[id] == v) <==> Produced(choices, id, v);
    }
  }

  /**
   On every run a node has a result exactly when it finished completed with one, and it is that one:
   nothing is lost, invented or overwritten.
   */
  lemma {:induction false} ResultsAreRecorded(nodes: seq<DagNode>, limit: nat, choices: seq<Choice>)
    requires DistinctIds(nodes) && IsRun(nodes, limit, choices)
    ensures Records(After(nodes, limit, choices).results, choices)
    ensures Fill(nodes, limit, After(nodes, limit, choices)).results == After(nodes, limit, choices).results
  {
    if choices != [] {
      var before, c := choices[..|choices| - 1], choices[|choices| - 1];
      ResultsAreRecorded(nodes, limit, before);
      EveryRun(nodes, limit, before);
      FinishRecords(Fill(nodes, limit, After(nodes, limit, before)), before, c);
      ChoicesSplit(choices);
    }
    EveryRun(nodes, limit, choices);
    FillKeeps(nodes, limit, After(nodes, limit, choices));
  }

  /** A finish writes one state, of a node that had none, and the pass before it only adds failures. */
  lemma RoundStates(nodes: seq<DagNode>, limit: nat, choices: seq<Choice>)
    requires DistinctIds(nodes) && IsRun(nodes, limit, choices) && choices != []
    ensures IsRun(nodes, limit, choices[..|choices| - 1])
    ensures var n := |choices| - 1;
            RoundWrites(After(nodes, limit, choices[..n]).states, After(nodes, limit, choices).states, choices[n])
  {
    var before := choices[..|choices| - 1];
    EveryRun(nodes, limit, before);
    FillKeeps(nodes, limit, After(nodes, limit, before));
  }

  ghost predicate RoundWrites(s: States, t: States, c: Choice) {
    && c.id !in s && Extends(s, t) && Tells(t, c)
    && forall d :: d in t && d !in s && d != c.id ==> t[d] == Failed
  }

  ghost predicate Tells(states: States, c: Choice) {
    c.id in states && states[c.id] == c.outcome.state
  }

  lemma StillTells(s: States, t: States, c: Choice)
    requires Extends(s, t) && Tells(s, c)
    ensures Tells(t, c)
  {
  }

  /** A node that finished has the state it finished with. */
  lemma {:induction false} FinishedStates(nodes: seq<DagNode>, limit: nat, choices: seq<Choice>, i: nat)
    requires DistinctIds(nodes) && IsRun(nodes, limit, choices) && i < |choices|
    ensures Tells(After(nodes, limit, choices).states, choices[i])
    decreases |choices|
  {
    var n := |choices| - 1;
    var s, t := After(nodes, limit, choices[..n]).states, After(nodes, limit, choices).states;
    RoundStates(nodes, limit, choices);
    if i < n {
      assert choices[..n][i] == choices[i];
      FinishedStates(nodes, limit, choices[..n], i);
      StillTells(s, t, choices[i]);
    }
  }

  /** Any other node that has a state was failed without running. */
  lemma {:induction false} OtherStates(nodes: seq<DagNode>, limit: nat, choices: seq<Choice>, d: string)
    requires DistinctIds(nodes) && IsRun(nodes, limit, choices)
    requires d in After(nodes, limit, choices).states && !HasFinished(choices, d)
    ensures After(nodes, limit, choices).states[d] == Failed
  {
    if choices != [] {
      var before := choices[..|choices| - 1];
      RoundStates(nodes, limit, choices);
      StillUnfinished(choices, d);
      if d in After(nodes, limit, before).states {
        OtherStates(nodes, limit, before, d);
      }
    }
  }

  lemma StillUnfinished(choices: seq<Choice>, d: string)
    requires choices != [] && !HasFinished(choices, d)
    ensures !HasFinished(choices[..|choices| - 1], d) && choices[|choices| - 1].id != d
  {
    var before := choices[..|choices| - 1];
    forall i | 0 <= i < |before| ensures before[i].id != d {
      assert before[i] == choices[i];
    }
  }

  /** States tell outcomes: a node that finished has its own, any other with a state was failed unrun. */
  lemma StatesAreRecorded(nodes: seq<DagNode>, limit: nat, choices: seq<Choice>)
    requires DistinctIds(nodes) && IsRun(nodes, limit, choices)
    ensures var states := After(nodes, limit, choices).states;
            && (forall i :: 0 <= i < |choices| ==>
                  choices[i].id in states && states[choices[i].id] == choices[i].outcome.state)
            && (forall d :: d in states && !HasFinished(choices, d) ==> states[d] == Failed)
  {
    var states := After(nodes, limit, choices).states;
    forall i | 0 <= i < |choices| ensures choices[i].id in states && states[choices[i].id] == choices[i].outcome.state {
      FinishedStates(nodes, limit, choices, i);
    }
    forall d | d in states && !HasFinished(choices, d) ensures states[d] == Failed {
      OtherStates(nodes, limit, choices, d);
    }
  }

  /** Every launch is given exactly the results of the nodes it had seen complete with one. */
  lemma LaunchesGetTheResults(nodes: seq<DagNode>, limit: nat, choices: seq<Choice>, i: nat)
    requires DistinctIds(nodes) && IsRun(nodes, limit, choices)
    requires i < |Fill(nodes, limit, After(nodes, limit, choices)).launches|
    ensures var l := Fill(nodes, limit, After(nodes, limit, choices)).launches[i];
            && (forall d, v :: (d in l.context && l.context[d] == v) <==> d in l.seen && Produced(choices, d, v))
            && (forall d :: d in l.seen && HasFinished(choices, d) ==>
                  exists k :: 0 <= k < |choices| && choices[k].id == d && choices[k].outcome.state == l.seen[d])
  {
    var t := Fill(nodes, limit, After(nodes, limit, choices));
    var l := t.launches[i];
    EveryRun(nodes, limit, choices);
    ResultsAreRecorded(nodes, limit, choices);
    assert Justified(l, t);
    forall d, v ensures (d in l.context && l.context[d] == v) <==> d in l.seen && Produced(choices, d, v) {
      assert (d in t.results && t.results[d] == v) <==> Produced(choices, d, v);
    }
    FillKeeps(nodes, limit, After(nodes, limit, choices));
    StatesAreRecorded(nodes, limit, choices);
    forall d | d in l.seen && HasFinished(choices, d)
      ensures exists k :: 0 <= k < |choices| && choices[k].id == d && choices[k].outcome.state == l.seen[d]
    {
      var k :| 0 <= k < |choices| && choices[k].id == d;
      assert t.states[d] == choices[k].outcome.state;
    }
  }

  // ---- K of N --------------------------------------------------------------

  predicate WentWell(states: States, d: string) {
    d in states && states[d] != Failed
  }

  predicate WentWrong(states: States, d: string) {
    d in states && states[d] == Failed
  }

  /** The input positions whose node completed or was skipped, and those whose node failed. */
  ghost function GoodInputs(deps: seq<string>, states: States): set<int> {
    set i | 0 <= i < |deps| && WentWell(states, deps[i])
  }

  ghost function BadInputs(deps: seq<string>, states: States): set<int> {
    set i | 0 <= i < |deps| && WentWrong(states, deps[i])
  }

  lemma {:induction false} LastCounts(deps: seq<string>, states: States)
    requires deps != []
    ensures var n := |deps| - 1;
            && Successes(deps, states) == Successes(deps[..n], states) + (if WentWell(states, deps[n]) then 1 else 0)
            && Failures(deps, states) == Failures(deps[..n], states) + (if WentWrong(states, deps[n]) then 1 else 0)
  {
    if |deps| > 1 {
      LastCounts(deps[1..], states);
      assert deps[1..][..|deps| - 2] == deps[..|deps| - 1][1..];
    }
  }

  lemma LastInputs(deps: seq<string>, states: States)
    requires deps != []
    ensures var n := |deps| - 1;
            && GoodInputs(deps, states) == GoodInputs(deps[..n], states) + (if WentWell(states, deps[n]) then {n} else {})
            && BadInputs(deps, states) == BadInputs(deps[..n], states) + (if WentWrong(states, deps[n]) then {n} else {})
            && n !in GoodInputs(deps[..n], states) && n !in BadInputs(deps[..n], states)
  {
    var n := |deps| - 1;
    assert forall i :: 0 <= i < n ==> deps[..n][i] == deps[i];
  }

  lemma {:induction false} CountsPositions(deps: seq<string>, states: States)
    ensures Successes(deps, states) == |GoodInputs(deps, states)|
    ensures Failures(deps, states) == |BadInputs(deps, states)|
  {
    if deps == [] {
      assert GoodInputs(deps, states) == {} && BadInputs(deps, states) == {};
    } else {
      CountsPositions(deps[..|deps| - 1], states);
      LastCounts(deps, states);
      LastInputs(deps, states);
    }
  }

  lemma {:induction false} AllOrNone(deps: seq<string>, states: States)
    ensures Successes(deps, states) == |deps| <==> forall i :: 0 <= i < |deps| ==> WentWell(states, deps[i])
    ensures Failures(deps, states) == 0 <==> forall i :: 0 <= i < |deps| ==> !WentWrong(states, deps[i])
  {
    if deps != [] {
      AllOrNone(deps[1..], states);
      assert forall i :: 1 <= i < |deps| ==> deps[i] == deps[1..][i - 1];
      assert forall i :: 0 <= i < |deps| - 1 ==> deps[1..][i] == deps[i + 1];
    }
  }

  /**
   A node may be launched exactly when it has no inputs or enough of them went well: all of them when
   `min_required` is zero, else at least that many.
   */
  lemma SatisfiedWhen(n: DagNode, states: States)
    ensures Satisfied(n, states) <==>
            || n.inputFrom.None? || n.inputFrom.value == []
            || (if n.minRequired == 0 then forall i :: 0 <= i < |n.inputFrom.value| ==> WentWell(states, n.inputFrom.value[i])
                else |GoodInputs(n.inputFrom.value, states)| >= n.minRequired)
  {
    if n.inputFrom.Some? {
      CountsPositions(n.inputFrom.value, states);
      AllOrNone(n.inputFrom.value, states);
    }
  }

  /** It must be failed exactly when too many inputs went wrong: any at all when all are required. */
  lemma HopelessWhen(n: DagNode, states: States)
    ensures Hopeless(n, states) <==>
            && n.inputFrom.Some? && n.inputFrom.value != []
            && (if n.minRequired == 0 then exists i :: 0 <= i < |n.inputFrom.value| && WentWrong(states, n.inputFrom.value[i])
                else |n.inputFrom.value| - |BadInputs(n.inputFrom.value, states)| < n.minRequired)
  {
    if n.inputFrom.Some? {
      CountsPositions(n.inputFrom.value, states);
      AllOrNone(n.inputFrom.value, states);
    }
  }

  /** An end node can still make it exactly when it waits on some nodes and not too many of them went wrong. */
  lemma CanStillSucceedWhen(n: DagNode, states: States)
    ensures CanStillSucceed(n, states) <==> n.inputFrom.Some? && n.inputFrom.value != [] && !Hopeless(n, states)
  {
  }

  /** Every launch came after enough of its inputs had gone well. */
  lemma LaunchedAfterEnough(nodes: seq<DagNode>, limit: nat, choices: seq<Choice>, i: nat)
    requires DistinctIds(nodes) && IsRun(nodes, limit, choices)
    requires i < |Fill(nodes, limit, After(nodes, limit, choices)).launches|
    ensures var l := Fill(nodes, limit, After(nodes, limit, choices)).launches[i];
            && l.node in nodes
            && (|| l.node.inputFrom.None? || l.node.inputFrom.value == []
                || if l.node.minRequired == 0
                   then forall k :: 0 <= k < |l.node.inputFrom.value| ==> WentWell(l.seen, l.node.inputFrom.value[k])
                   else |GoodInputs(l.node.inputFrom.value, l.seen)| >= l.node.minRequired)
  {
    EveryRun(nodes, limit, choices);
    var t := Fill(nodes, limit, After(nodes, limit, choices));
    assert Justified(t.launches[i], t);
    SatisfiedWhen(t.launches[i].node, t.launches[i].seen);
  }
}
