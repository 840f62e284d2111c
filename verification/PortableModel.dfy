/**
 The deterministic orchestration profile as functions: what one attempt script does, what visiting
 one node does, and what compensation does. `PortableProfile` holds the loops.
 */
module PortableModel {
  import opened Wrappers
  import opened Json
  import opened DependencyGraph
  import A = PortableAggregation

  const TASK_DAG_INVALID := "NOP-TASK-DAG-INVALID"
  const TASK_DAG_CYCLE := "NOP-TASK-DAG-CYCLE"
  const TASK_CANCELLED := "NOP-TASK-CANCELLED"
  const RESOURCE_INSUFFICIENT := "NOP-RESOURCE-INSUFFICIENT"
  const CONDITION_EVAL_ERROR := "NOP-CONDITION-EVAL-ERROR"
  const INPUT_MAPPING_ERROR := "NOP-INPUT-MAPPING-ERROR"
  const DELEGATE_REJECTED := "NOP-DELEGATE-REJECTED"
  const DELEGATE_TIMEOUT := "NOP-DELEGATE-TIMEOUT"
  const COMPENSATION_FAILED := "NOP-COMPENSATION-FAILED"
  const COMPENSATION_NOT_SUPPORTED := "NOP-COMPENSATION-NOT-SUPPORTED"

  datatype Outcome =
    | Success(result: Json)
    | Timeout
    | Failure(errorCode: Option<string>, retryable: bool)

  type Mapping = map<string, Json>

  datatype Node = Node(
    dependsOn: seq<string>,
    condition: Option<string>,
    inputMapping: Option<Mapping>,
    maxRetries: Option<nat>,
    attempts: seq<Outcome>,
    retryOn: Option<seq<string>>,
    hasCompensation: bool,
    compensationFails: bool,
    preflightAvailable: bool)

  datatype Policy = NoCompensation | BestEffort | Strict

  /** A task as it arrives: node ids may be missing or repeated. */
  datatype Task = Task(
    nodes: seq<(Option<string>, Node)>,
    preflight: bool,
    cancelBefore: Option<string>,
    maxRetries: nat,
    policy: Policy,
    aggregate: A.Mode)

  type Nodes = map<string, Node>
  type Results = map<string, Json>

  /** Conditions and input mappings, read against the results so far. */
  datatype Reader = Reader(
    condition: (string, Results) -> Option<bool>,
    mapping: (Mapping, Results) -> Option<Mapping>)

  datatype NodeState = Completed | Skipped | Failed | Compensated | CompensationFailed

  datatype Event =
    | TaskPreflight | TaskRunning | TaskCancelled | TaskFailed | TaskCompleted
    | NodeAttempt(id: string, number: nat) | NodeRetrying(id: string)
    | NodeCompleted(id: string) | NodeSkipped(id: string) | NodeFailed(id: string)
    | NodeCompensating(id: string) | NodeCompensated(id: string) | NodeCompensationFailed(id: string)

  datatype Progress = Progress(
    events: seq<Event>,
    results: Results,
    states: map<string, NodeState>,
    attempts: map<string, nat>,
    mapped: map<string, Mapping>)

  datatype Status = RunFailed | RunCancelled | RunCompleted

  datatype Report = Report(
    status: Status,
    error: Option<string>,
    result: Json,
    progress: Progress,
    compensationOrder: seq<string>)

  function Dependencies(nodes: Nodes): Graph {
    map id | id in nodes :: nodes[id].dependsOn
  }

  // ---- one node ------------------------------------------------------------

  function ErrorOf(o: Outcome): string
    requires !o.Success?
  {
    match o
    case Timeout => DELEGATE_TIMEOUT
    case Failure(code, _) => if code.Some? then code.value else DELEGATE_REJECTED
  }

  /** The failure is of a kind the node retries. */
  predicate Retries(node: Node, o: Outcome) {
    && !o.Success?
    && (o.Timeout? || o.retryable)
    && (node.retryOn.None? || ErrorOf(o) in node.retryOn.value)
  }

  datatype Verdict = Succeeded(result: Json) | GaveUp(error: string) | NeverTried

  datatype Tried = Tried(events: seq<Event>, count: nat, verdict: Verdict)

  /** The script of one node from its `k`-th attempt on. */
  function Attempts(id: string, node: Node, retries: nat, k: nat): Tried
    decreases |node.attempts| - k
  {
    if k >= |node.attempts| || k > retries then Tried([], k, NeverTried)
    else
      var o := node.attempts[k];
      var attempt := NodeAttempt(id, k + 1);
      if o.Success? then Tried([attempt, NodeCompleted(id)], k + 1, Succeeded(o.result))
      else if Retries(node, o) && k + 1 <= retries && k + 1 < |node.attempts| then
        var rest := Attempts(id, node, retries, k + 1);
        Tried([attempt, NodeRetrying(id)] + rest.events, rest.count, rest.verdict)
      else Tried([attempt, NodeFailed(id)], k + 1, GaveUp(ErrorOf(o)))
  }

  function RetryLimit(task: Task, node: Node): nat {
    if node.maxRetries.Some? then node.maxRetries.value else task.maxRetries
  }

  /** How a visit ends: the task goes on, or it stops and why. */
  datatype Visited =
    | Goes(next: Progress)
    | Cancels(next: Progress)
    | Breaks(next: Progress, error: string)
    | Exhausts(next: Progress, cause: Option<string>)

  /** A condition that cannot be evaluated, or a mapping that cannot be resolved: no attempt is made. */
  function Unattempted(p: Progress, id: string, error: string): Visited {
    Breaks(
      p.(events := p.events + [NodeFailed(id)], states := p.states[id := Failed], attempts := p.attempts[id := 0]),
      error)
  }

  function Try(task: Task, id: string, node: Node, p: Progress): Visited {
    var tried := Attempts(id, node, RetryLimit(task, node), 0);
    var q := p.(events := p.events + tried.events, attempts := p.attempts[id := tried.count]);
    match tried.verdict
    case Succeeded(result) => Goes(q.(results := q.results[id := result], states := q.states[id := Completed]))
    case GaveUp(error) => Exhausts(q.(states := q.states[id := Failed]), Some(error))
    case NeverTried => Exhausts(q, None)
  }

  function Visit(task: Task, reader: Reader, id: string, node: Node, p: Progress): Visited {
    if task.cancelBefore == Some(id) then Cancels(p)
    else
      var holds := if node.condition.None? then Some(true) else reader.condition(node.condition.value, p.results);
      if holds.None? then Unattempted(p, id, CONDITION_EVAL_ERROR)
      else if !holds.value then
        Goes(p.(events := p.events + [NodeSkipped(id)], states := p.states[id := Skipped], attempts := p.attempts[id := 0]))
      else if node.inputMapping.None? then Try(task, id, node, p)
      else
        match reader.mapping(node.inputMapping.value, p.results)
        case None => Unattempted(p, id, INPUT_MAPPING_ERROR)
        case Some(parameters) => Try(task, id, node, p.(mapped := p.mapped[id := parameters]))
  }

  // ---- compensation --------------------------------------------------------

  ghost predicate IsChain(g: Graph, w: seq<string>) {
    |w| >= 2 && forall i :: 0 <= i < |w| - 1 ==> w[i] in g && w[i + 1] in g[w[i]]
  }

  /** `x` waits for `d`, directly or through others. */
  ghost predicate DependsOn(g: Graph, x: string, d: string) {
    exists w :: IsChain(g, w) && w[0] == x && w[|w| - 1] == d
  }

  ghost function Ancestors(g: Graph, x: string): set<string> {
    set d | d in g && DependsOn(g, x, d)
  }

  /** The completed ancestors, latest in the order first. */
  function Candidates(order: seq<string>, ancestors: set<string>, states: map<string, NodeState>): seq<string> {
    if order == [] then []
    else
      var id := order[|order| - 1];
      (if id in ancestors && id in states && states[id] == Completed then [id] else [])
      + Candidates(order[..|order| - 1], ancestors, states)
  }

  datatype Compensation = Compensation(
    order: seq<string>,
    error: Option<string>,
    states: map<string, NodeState>,
    events: seq<Event>)

  predicate AllKnown(nodes: Nodes, ids: seq<string>) {
    forall i :: 0 <= i < |ids| ==> ids[i] in nodes
  }

  /** Compensating the candidates one by one; under the strict policy the first failure stops it. */
  function Undo(strict: bool, nodes: Nodes, candidates: seq<string>, states: map<string, NodeState>): Compensation
    requires AllKnown(nodes, candidates)
  {
    if candidates == [] then Compensation([], None, states, [])
    else
      var id, rest := candidates[0], candidates[1..];
      if !nodes[id].hasCompensation then Undo(strict, nodes, rest, states)
      else if !nodes[id].compensationFails then
        var c := Undo(strict, nodes, rest, states[id := Compensated]);
        Compensation([id] + c.order, c.error, c.states, [NodeCompensating(id), NodeCompensated(id)] + c.events)
      else if strict then
        Compensation([id], Some(COMPENSATION_FAILED), states[id := CompensationFailed],
                     [NodeCompensating(id), NodeCompensationFailed(id)])
      else
        var c := Undo(strict, nodes, rest, states[id := CompensationFailed]);
        Compensation([id] + c.order, c.error, c.states, [NodeCompensating(id), NodeCompensationFailed(id)] + c.events)
  }

  lemma {:induction false} CandidatesAre(order: seq<string>, ancestors: set<string>, states: map<string, NodeState>)
    ensures forall id :: id in Candidates(order, ancestors, states) <==>
              id in order && id in ancestors && id in states && states[id] == Completed
  {
    if order != [] {
      CandidatesAre(order[..|order| - 1], ancestors, states);
      assert order == order[..|order| - 1] + [order[|order| - 1]];
    }
  }

  /** `compensate`, once the candidates are known. */
  function CompensateThese(policy: Policy, nodes: Nodes, candidates: seq<string>, states: map<string, NodeState>): Compensation
    requires AllKnown(nodes, candidates)
  {
    if policy.NoCompensation? then Compensation([], None, states, [])
    else if policy.Strict? && exists i :: 0 <= i < |candidates| && !nodes[candidates[i]].hasCompensation then
      Compensation([], Some(COMPENSATION_NOT_SUPPORTED), states, [])
    else Undo(policy.Strict?, nodes, candidates, states)
  }

  ghost function Compensate(policy: Policy, nodes: Nodes, order: seq<string>, failed: string, states: map<string, NodeState>): Compensation
    requires forall id :: id in order ==> id in nodes
  {
    var candidates := Candidates(order, Ancestors(Dependencies(nodes), failed), states);
    CandidatesAre(order, Ancestors(Dependencies(nodes), failed), states);
    CompensateThese(policy, nodes, candidates, states)
  }

  // ---- end nodes -----------------------------------------------------------

  predicate HasDependent(nodes: Nodes, id: string) {
    exists n :: n in nodes && id in nodes[n].dependsOn
  }

  predicate IsEnd(nodes: Nodes, p: Progress, id: string) {
    !HasDependent(nodes, id) && id in p.states && p.states[id] == Completed && id in p.results
  }

  /** The results of the completed end nodes, in the order of the run. */
  function EndValues(nodes: Nodes, order: seq<string>, p: Progress): seq<Json> {
    if order == [] then []
    else
      var n := |order| - 1;
      EndValues(nodes, order[..n], p) + if IsEnd(nodes, p, order[n]) then [p.results[order[n]]] else []
  }

  // ---- the whole task ------------------------------------------------------

  /** Visiting nodes from the `i`-th on, until one stops the task. */
  ghost function RunFrom(task: Task, reader: Reader, nodes: Nodes, order: seq<string>, i: nat, p: Progress): Report
    requires forall id :: id in order ==> id in nodes
    requires i <= |order|
    decreases |order| - i
  {
    if i == |order| then
      Report(RunCompleted, None, A.Aggregate(task.aggregate, EndValues(nodes, order, p)), p.(events := p.events + [TaskCompleted]), [])
    else
      var id := order[i];
      match Visit(task, reader, id, nodes[id], p)
      case Goes(q) => RunFrom(task, reader, nodes, order, i + 1, q)
      case Cancels(q) => Report(RunCancelled, Some(TASK_CANCELLED), Null, q.(events := q.events + [TaskCancelled]), [])
      case Breaks(q, error) => Report(RunFailed, Some(error), Null, q.(events := q.events + [TaskFailed]), [])
      case Exhausts(q, cause) =>
        var c := Compensate(task.policy, nodes, order, id, q.states);
        var error := if c.error.Some? then c.error else if cause.Some? then cause else Some(DELEGATE_REJECTED);
        Report(RunFailed, error, Null, q.(events := q.events + c.events + [TaskFailed], states := c.states), c.order)
  }

  const NOTHING := Progress([], map[], map[], map[], map[])

  function EmptyFailure(error: string): Report {
    Report(RunFailed, Some(error), Null, NOTHING, [])
  }

  /** The ids are all there and all different. */
  ghost predicate DistinctIds(task: Task) {
    && (forall i :: 0 <= i < |task.nodes| ==> task.nodes[i].0.Some?)
    && (forall i, j :: 0 <= i < j < |task.nodes| ==> task.nodes[i].0 != task.nodes[j].0)
  }

  ghost function NodeMap(task: Task): Nodes
    requires DistinctIds(task)
  {
    map i | 0 <= i < |task.nodes| :: task.nodes[i].0.value := task.nodes[i].1
  }

  predicate PreflightFails(nodes: Nodes, order: seq<string>) {
    exists i :: 0 <= i < |order| && order[i] in nodes && !nodes[order[i]].preflightAvailable
  }

  /** The run of a well-formed acyclic task along one of its orders. */
  ghost function Evaluate(task: Task, reader: Reader, nodes: Nodes, order: seq<string>): Report
    requires forall id :: id in order ==> id in nodes
  {
    var start := if task.preflight then [TaskPreflight] else [];
    if task.preflight && PreflightFails(nodes, order) then
      Report(RunFailed, Some(RESOURCE_INSUFFICIENT), Null, NOTHING.(events := start + [TaskFailed]), [])
    else RunFrom(task, reader, nodes, order, 0, NOTHING.(events := start + [TaskRunning]))
  }
}
