/**
 What a report tells of every node that was visited: why it was skipped, broken off or attempted,
 what came of the attempts, and that conditions, mappings and the aggregate read exactly the results
 of the nodes completed before.
 */
module PortableVisits {
  import opened Wrappers
  import opened Collections
  import opened Json
  import opened DependencyGraph
  import opened PortableModel
  import opened PortableTraces
  import A = PortableAggregation

  // ---- attempt scripts -----------------------------------------------------

  /** The error a failed outcome carries. */
  predicate Carries(o: Outcome, error: string) {
    || (o.Timeout? && error == "NOP-DELEGATE-TIMEOUT")
    || (o.Failure? && error == if o.errorCode.Some? then o.errorCode.value else "NOP-DELEGATE-REJECTED")
  }

  /** A timeout, or a failure marked so, whose error the node has not left out of its list. */
  predicate TriesAgain(node: Node, o: Outcome) {
    && (o.Timeout? || (o.Failure? && o.retryable))
    && (node.retryOn.Some? ==> exists i :: 0 <= i < |node.retryOn.value| && Carries(o, node.retryOn.value[i]))
  }

  /** The script comes to its `n`-th entry: the limit allows it and all before are tried again. */
  ghost predicate ComesTo(node: Node, limit: nat, n: nat) {
    n < |node.attempts| && n <= limit && forall j :: 0 <= j < n ==> TriesAgain(node, node.attempts[j])
  }

  ghost predicate EndsAt(node: Node, limit: nat, n: nat) {
    && ComesTo(node, limit, n)
    && (node.attempts[n].Success? || !TriesAgain(node, node.attempts[n]) || n == limit || n + 1 == |node.attempts|)
  }

  lemma TriesAgainIsRetries(node: Node, o: Outcome)
    ensures TriesAgain(node, o) <==> Retries(node, o)
  {
    if !o.Success? {
      if node.retryOn.Some? && ErrorOf(o) in node.retryOn.value {
        var i :| 0 <= i < |node.retryOn.value| && node.retryOn.value[i] == ErrorOf(o);
        assert Carries(o, node.retryOn.value[i]);
      }
    }
  }

  /** Every script that may be tried at all ends at one entry. */
  lemma {:induction false} ScriptEnds(node: Node, limit: nat, k: nat) returns (n: nat)
    requires ComesTo(node, limit, k)
    ensures k <= n && EndsAt(node, limit, n)
    decreases |node.attempts| - k
  {
    n := k;
    if !EndsAt(node, limit, k) {
      n := ScriptEnds(node, limit, k + 1);
    }
  }

  /** What the attempts come to, from the entry the script ends at. */
  lemma {:induction false} AttemptsTell(id: string, node: Node, limit: nat, k: nat, n: nat)
    requires EndsAt(node, limit, n) && k <= n
    ensures var t, o := Attempts(id, node, limit, k), node.attempts[n];
            && t.count == n + 1
            && (o.Success? ==> t.verdict == Succeeded(o.result))
            && (!o.Success? ==> t.verdict.GaveUp? && Carries(o, t.verdict.error))
    decreases n - k
  {
    TriesAgainIsRetries(node, node.attempts[k]);
    if k < n {
      AttemptsTell(id, node, limit, k + 1, n);
    }
  }

  // ---- visits --------------------------------------------------------------

  /** The results of the nodes that come before the `k`-th. */
  ghost function Earlier(order: seq<string>, k: nat, results: Results): Results
    requires k <= |order|
  {
    map id | id in results && id in order[..k] :: results[id]
  }

  /** The node's own limit, or the task's. */
  ghost function Limit(task: Task, node: Node): nat {
    if node.maxRetries == None then task.maxRetries else node.maxRetries.value
  }

  predicate IsDone(state: NodeState) {
    state == Completed || state == Compensated || state == CompensationFailed
  }

  /** No attempt was made and nothing is recorded but how the visit ended. */
  ghost predicate NotTried(p: Progress, id: string, state: NodeState) {
    && id in p.states && p.states[id] == state
    && id in p.attempts && p.attempts[id] == 0
    && id !in p.results && id !in p.mapped
  }

  /** The attempts were made with these parameters and came to what the script says. */
  ghost predicate WasTried(task: Task, node: Node, p: Progress, id: string) {
    && id in p.attempts
    && if node.attempts == [] then p.attempts[id] == 0 && id !in p.results && id !in p.states
       else exists n: nat :: TriedTo(task, node, p, id, n)
  }

  ghost predicate TriedTo(task: Task, node: Node, p: Progress, id: string, n: nat) {
    && EndsAt(node, Limit(task, node), n)
    && id in p.attempts && p.attempts[id] == n + 1
    && id in p.states
    && if node.attempts[n].Success? then
         IsDone(p.states[id]) && id in p.results && p.results[id] == node.attempts[n].result
       else p.states[id] == Failed && id !in p.results
  }

  /**
   The visit of one node, given the results it could read: skipped exactly when its condition is
   false on them, broken off when its condition or mapping cannot be read, and otherwise attempted.
   */
  ghost predicate Accounts(task: Task, reader: Reader, node: Node, seen: Results, p: Progress, id: string) {
    && task.cancelBefore != Some(id)
    && if node.condition.Some? && reader.condition(node.condition.value, seen) == None then NotTried(p, id, Failed)
       else if node.condition.Some? && reader.condition(node.condition.value, seen) == Some(false) then
         NotTried(p, id, Skipped)
       else if node.inputMapping.Some? && reader.mapping(node.inputMapping.value, seen) == None then NotTried(p, id, Failed)
       else
         && WasTried(task, node, p, id)
         && (id in p.mapped <==> node.inputMapping.Some?)
         && (id in p.mapped ==> reader.mapping(node.inputMapping.value, seen) == Some(p.mapped[id]))
  }

  /** Nothing is recorded of the node. */
  ghost predicate Unvisited(p: Progress, id: string) {
    id !in p.states && id !in p.attempts && id !in p.results && id !in p.mapped
  }

  /** The first `i` nodes have been visited and are accounted for, and no others have. */
  ghost predicate AllAccounted(
    task: Task, reader: Reader, nodes: Nodes, order: seq<string>, i: nat, p: Progress)
    requires i <= |order| && forall id :: id in order ==> id in nodes
  {
    && (forall k :: 0 <= k < i ==>
          Accounts(task, reader, nodes[order[k]], Earlier(order, k, p.results), p, order[k]))
    && (forall id :: id !in order[..i] ==> Unvisited(p, id))
  }

  /** Only this node's record changes. */
  ghost predicate OnlyTouches(p: Progress, q: Progress, id: string) {
    forall x :: x != id ==> RecordedAlike(p, q, x)
  }

  ghost predicate Alike<V(!new)>(a: map<string, V>, b: map<string, V>, id: string) {
    (id in a <==> id in b) && (id in a && id in b ==> a[id] == b[id])
  }

  ghost predicate RecordedAlike(p: Progress, q: Progress, id: string) {
    && Alike(p.states, q.states, id) && Alike(p.attempts, q.attempts, id)
    && Alike(p.results, q.results, id) && Alike(p.mapped, q.mapped, id)
  }

  /** The two records of the node agree, but for how far a completed node has been compensated. */
  ghost predicate ToldAlike(p: Progress, q: Progress, id: string) {
    && Alike(p.attempts, q.attempts, id) && Alike(p.results, q.results, id) && Alike(p.mapped, q.mapped, id)
    && (id in p.states <==> id in q.states)
    && (id in p.states ==> p.states[id] == q.states[id] || (IsDone(p.states[id]) && IsDone(q.states[id])))
  }

  lemma TryAccounts(task: Task, id: string, node: Node, p: Progress)
    requires id !in p.results && id !in p.states
    ensures WasTried(task, node, Try(task, id, node, p).next, id)
    ensures OnlyTouches(p, Try(task, id, node, p).next, id) && Try(task, id, node, p).next.mapped == p.mapped
  {
    if node.attempts != [] {
      var n := ScriptEnds(node, Limit(task, node), 0);
      AttemptsTell(id, node, RetryLimit(task, node), 0, n);
      assert TriedTo(task, node, Try(task, id, node, p).next, id, n);
    }
  }

  /** One visit, read off what it leaves behind. */
  lemma VisitAccounts(task: Task, reader: Reader, id: string, node: Node, p: Progress)
    requires Unvisited(p, id)
    ensures var v := Visit(task, reader, id, node, p);
            && OnlyTouches(p, v.next, id)
            && (v.Cancels? <==> task.cancelBefore == Some(id))
            && (v.Cancels? ==> v.next == p)
            && (!v.Cancels? ==> Accounts(task, reader, node, p.results, v.next, id))
  {
    if task.cancelBefore != Some(id) {
      if node.condition.Some? && reader.condition(node.condition.value, p.results) != Some(true) {
        UntriedAccounts(task, reader, id, node, p);
      } else if node.inputMapping.None? {
        TryAccounts(task, id, node, p);
      } else if reader.mapping(node.inputMapping.value, p.results).Some? {
        TryMappedAccounts(task, reader, id, node, p);
      } else {
        UntriedAccounts(task, reader, id, node, p);
      }
    }
  }

  /** Without an attempt. */
  lemma UntriedAccounts(task: Task, reader: Reader, id: string, node: Node, p: Progress)
    requires Unvisited(p, id) && task.cancelBefore != Some(id)
    requires || (node.condition.Some? && reader.condition(node.condition.value, p.results) != Some(true))
             || (node.inputMapping.Some? && reader.mapping(node.inputMapping.value, p.results).None?)
    ensures var v := Visit(task, reader, id, node, p);
            !v.Cancels? && OnlyTouches(p, v.next, id) && Accounts(task, reader, node, p.results, v.next, id)
  {
  }

  lemma TryMappedAccounts(task: Task, reader: Reader, id: string, node: Node, p: Progress)
    requires Unvisited(p, id) && node.inputMapping.Some?
    requires reader.mapping(node.inputMapping.value, p.results).Some?
    ensures var parameters := reader.mapping(node.inputMapping.value, p.results).value;
            var v := Try(task, id, node, p.(mapped := p.mapped[id := parameters]));
            && OnlyTouches(p, v.next, id) && WasTried(task, node, v.next, id)
            && id in v.next.mapped && v.next.mapped[id] == parameters
  {
    var q := p.(mapped := p.mapped[id := reader.mapping(node.inputMapping.value, p.results).value]);
    assert OnlyTouches(p, q, id);
    TryAccounts(task, id, node, q);
    TouchesCompose(p, q, Try(task, id, node, q).next, id);
  }

  lemma TouchesCompose(p: Progress, q: Progress, r: Progress, id: string)
    requires OnlyTouches(p, q, id) && OnlyTouches(q, r, id)
    ensures OnlyTouches(p, r, id)
  {
    forall x | x != id ensures RecordedAlike(p, r, x) {
      assert RecordedAlike(p, q, x) && RecordedAlike(q, r, x);
    }
  }

  lemma AccountsAlike(task: Task, reader: Reader, node: Node, seen: Results, p: Progress, q: Progress, id: string)
    requires ToldAlike(p, q, id) && Accounts(task, reader, node, seen, p, id)
    ensures Accounts(task, reader, node, seen, q, id)
  {
    if node.attempts != [] && WasTried(task, node, p, id) {
      var n: nat :| TriedTo(task, node, p, id, n);
      assert TriedTo(task, node, q, id, n);
    }
  }

  lemma EarlierAlike(order: seq<string>, i: nat, k: nat, p: Progress, q: Progress)
    requires k <= i < |order| && Distinct(order) && OnlyTouches(p, q, order[i])
    ensures Earlier(order, k, q.results) == Earlier(order, k, p.results)
  {
    assert order[i] !in order[..k];
    forall id ensures id in Earlier(order, k, q.results) <==> id in Earlier(order, k, p.results) {
      assert id != order[i] ==> RecordedAlike(p, q, id);
    }
    forall id | id in Earlier(order, k, p.results) ensures p.results[id] == q.results[id] {
      assert RecordedAlike(p, q, id);
    }
  }

  lemma EarlierIsAll(task: Task, reader: Reader, nodes: Nodes, order: seq<string>, i: nat, p: Progress)
    requires i < |order| && forall id :: id in order ==> id in nodes
    requires AllAccounted(task, reader, nodes, order, i, p)
    ensures Earlier(order, i, p.results) == p.results
  {
    forall id | id in p.results ensures id in order[..i] {
      assert !Unvisited(p, id);
    }
  }

  /** Visiting the next node keeps the account of the others and adds its own. */
  lemma VisitKeepsAccounts(
    task: Task, reader: Reader, nodes: Nodes, order: seq<string>, i: nat, p: Progress)
    requires IsTopological(Dependencies(nodes), order) && forall id :: id in order ==> id in nodes
    requires i < |order| && AllAccounted(task, reader, nodes, order, i, p)
    requires !Visit(task, reader, order[i], nodes[order[i]], p).Cancels?
    ensures AllAccounted(task, reader, nodes, order, i + 1, Visit(task, reader, order[i], nodes[order[i]], p).next)
  {
    var id := order[i];
    var q := Visit(task, reader, id, nodes[id], p).next;
    assert id !in order[..i];
    VisitAccounts(task, reader, id, nodes[id], p);
    EarlierIsAll(task, reader, nodes, order, i, p);
    forall k | 0 <= k < i + 1
      ensures Accounts(task, reader, nodes[order[k]], Earlier(order, k, q.results), q, order[k])
    {
      EarlierAlike(order, i, k, p, q);
      if k < i {
        assert RecordedAlike(p, q, order[k]);
        AccountsAlike(task, reader, nodes[order[k]], Earlier(order, k, p.results), p, q, order[k]);
      }
    }
    OthersUnvisited(order, i, p, q);
  }

  lemma OthersUnvisited(order: seq<string>, i: nat, p: Progress, q: Progress)
    requires i < |order| && OnlyTouches(p, q, order[i])
    requires forall id :: id !in order[..i] ==> Unvisited(p, id)
    ensures forall id :: id !in order[..i + 1] ==> Unvisited(q, id)
  {
    assert order[..i + 1] == order[..i] + [order[i]];
    forall id | id !in order[..i + 1] ensures Unvisited(q, id) {
      assert id !in order[..i] && id != order[i] && Unvisited(p, id) && RecordedAlike(p, q, id);
    }
  }

  /** Compensation only moves completed nodes on to their compensated states. */
  lemma CompensationKeepsAccounts(
    task: Task, reader: Reader, nodes: Nodes, order: seq<string>, i: nat, p: Progress, failed: string)
    requires IsTopological(Dependencies(nodes), order) && forall id :: id in order ==> id in nodes
    requires i <= |order| && AllAccounted(task, reader, nodes, order, i, p)
    ensures var c := Compensate(task.policy, nodes, order, failed, p.states);
            AllAccounted(task, reader, nodes, order, i, p.(states := c.states))
  {
    var c := Compensate(task.policy, nodes, order, failed, p.states);
    OnlyDoneChange(task.policy, nodes, order, failed, p.states);
    AllAccountedAlike(task, reader, nodes, order, i, p, p.(states := c.states));
  }

  /** The account is read off states, attempts, results and parameters alone. */
  lemma AllAccountedAlike(
    task: Task, reader: Reader, nodes: Nodes, order: seq<string>, i: nat, p: Progress, q: Progress)
    requires (forall id :: id in order ==> id in nodes) && i <= |order|
    requires AllAccounted(task, reader, nodes, order, i, p)
    requires q.results == p.results && forall id :: ToldAlike(p, q, id)
    ensures AllAccounted(task, reader, nodes, order, i, q)
  {
    forall k | 0 <= k < i
      ensures Accounts(task, reader, nodes[order[k]], Earlier(order, k, q.results), q, order[k])
    {
      assert ToldAlike(p, q, order[k]);
      AccountsAlike(task, reader, nodes[order[k]], Earlier(order, k, p.results), p, q, order[k]);
    }
    forall id | id !in order[..i] ensures Unvisited(q, id) {
      assert Unvisited(p, id) && ToldAlike(p, q, id);
    }
  }

  lemma OnlyDoneChange(policy: Policy, nodes: Nodes, order: seq<string>, failed: string, states: map<string, NodeState>)
    requires IsTopological(Dependencies(nodes), order) && forall id :: id in order ==> id in nodes
    ensures var after := Compensate(policy, nodes, order, failed, states).states;
            && (forall id :: id in after <==> id in states)
            && forall id :: id in states ==> after[id] == states[id] || (IsDone(states[id]) && IsDone(after[id]))
  {
    var candidates := Candidates(order, Ancestors(Dependencies(nodes), failed), states);
    CandidatesAre(order, Ancestors(Dependencies(nodes), failed), states);
    CandidatesAreDistinct(order, Ancestors(Dependencies(nodes), failed), states);
    TheseOnlyMoveDone(policy, nodes, candidates, states);
  }

  lemma CandidatesAreDistinct(order: seq<string>, ancestors: set<string>, states: map<string, NodeState>)
    requires Distinct(order)
    ensures Distinct(Candidates(order, ancestors, states))
  {
    CandidatesAre(order, ancestors, states);
    CandidatesGoBackwards(order, ancestors, states);
    BackwardsIsDistinct(order, Candidates(order, ancestors, states));
  }

  lemma TheseOnlyMoveDone(policy: Policy, nodes: Nodes, candidates: seq<string>, states: map<string, NodeState>)
    requires AllKnown(nodes, candidates) && Distinct(candidates)
    requires forall id :: id in candidates ==> id in states && states[id] == Completed
    ensures var after := CompensateThese(policy, nodes, candidates, states).states;
            && (forall id :: id in after <==> id in states)
            && forall id :: id in states ==> after[id] == states[id] || (IsDone(states[id]) && IsDone(after[id]))
  {
    UndoMarksWhatItUndoes(policy.Strict?, nodes, candidates, states);
    var c := CompensateThese(policy, nodes, candidates, states);
    forall id ensures id in c.states <==> id in states {
      assert id in c.order ==> id in candidates;
    }
  }


  /** The error a run stops with at a node, given the results it could read. */
  ghost predicate StopsWith(task: Task, reader: Reader, node: Node, seen: Results, error: Option<string>) {
    if node.condition.Some? && reader.condition(node.condition.value, seen) == None then
      error == Some("NOP-CONDITION-EVAL-ERROR")
    else if node.inputMapping.Some? && reader.mapping(node.inputMapping.value, seen) == None then
      error == Some("NOP-INPUT-MAPPING-ERROR")
    else
      || (task.policy == Strict
          && (error == Some("NOP-COMPENSATION-FAILED") || error == Some("NOP-COMPENSATION-NOT-SUPPORTED")))
      || (node.attempts == [] && error == Some("NOP-DELEGATE-REJECTED"))
      || exists n: nat :: FailsAt(task, node, n, error)
  }

  ghost predicate FailsAt(task: Task, node: Node, n: nat, error: Option<string>) {
    && EndsAt(node, Limit(task, node), n) && !node.attempts[n].Success?
    && error.Some? && Carries(node.attempts[n], error.value)
  }

  lemma {:induction false} UndoErrs(strict: bool, nodes: Nodes, candidates: seq<string>, states: map<string, NodeState>)
    requires AllKnown(nodes, candidates)
    ensures var e := Undo(strict, nodes, candidates, states).error;
            e == None || (strict && e == Some("NOP-COMPENSATION-FAILED"))
    decreases |candidates|
  {
    if candidates != [] {
      UndoErrs(strict, nodes, candidates[1..], states[candidates[0] := Compensated]);
      UndoErrs(strict, nodes, candidates[1..], states[candidates[0] := CompensationFailed]);
      UndoErrs(strict, nodes, candidates[1..], states);
    }
  }

  /** What the attempts of an exhausted node failed with. */
  lemma ExhaustedFails(task: Task, id: string, node: Node, p: Progress)
    requires Try(task, id, node, p).Exhausts?
    ensures var v := Try(task, id, node, p);
            && v.next.results == p.results
            && if node.attempts == [] then v.cause == None
               else v.cause.Some? && exists n: nat :: FailsAt(task, node, n, v.cause)
  {
    if node.attempts != [] {
      var n := ScriptEnds(node, Limit(task, node), 0);
      AttemptsTell(id, node, RetryLimit(task, node), 0, n);
      assert FailsAt(task, node, n, Try(task, id, node, p).cause);
    }
  }

  lemma StopTells(task: Task, reader: Reader, nodes: Nodes, order: seq<string>, i: nat, p: Progress)
    requires i < |order| && forall id :: id in order ==> id in nodes
    requires var v := Visit(task, reader, order[i], nodes[order[i]], p); v.Breaks? || v.Exhausts?
    ensures RunFrom(task, reader, nodes, order, i, p).progress.results == p.results
    ensures StopsWith(task, reader, nodes[order[i]], p.results, RunFrom(task, reader, nodes, order, i, p).error)
  {
    var id, node := order[i], nodes[order[i]];
    var v := Visit(task, reader, id, node, p);
    if v.Exhausts? {
      var q := if node.inputMapping.None? then p
               else p.(mapped := p.mapped[id := reader.mapping(node.inputMapping.value, p.results).value]);
      assert v == Try(task, id, node, q);
      ExhaustedFails(task, id, node, q);
      var candidates := Candidates(order, Ancestors(Dependencies(nodes), id), v.next.states);
      CandidatesAre(order, Ancestors(Dependencies(nodes), id), v.next.states);
      UndoErrs(task.policy.Strict?, nodes, candidates, v.next.states);
    }
  }

  /** How far a run got, and what its status and its error say of that. */
  ghost predicate Reaches(
    task: Task, reader: Reader, nodes: Nodes, order: seq<string>, m: nat, r: Report)
    requires forall id :: id in order ==> id in nodes
  {
    && m <= |order|
    && (r.status == RunCompleted ==> m == |order| && r.error == None)
    && (r.status == RunCancelled ==>
          m < |order| && task.cancelBefore == Some(order[m]) && r.error == Some("NOP-TASK-CANCELLED"))
    && (r.status == RunFailed ==>
          m > 0 && StopsWith(task, reader, nodes[order[m - 1]], Earlier(order, m - 1, r.progress.results), r.error))
    && (r.status != RunCompleted ==> r.result == Null)
  }

  lemma StopReaches(task: Task, reader: Reader, nodes: Nodes, order: seq<string>, i: nat, p: Progress)
    requires i < |order| && forall id :: id in order ==> id in nodes
    requires AllAccounted(task, reader, nodes, order, i, p)
    requires var v := Visit(task, reader, order[i], nodes[order[i]], p); v.Breaks? || v.Exhausts?
    ensures Reaches(task, reader, nodes, order, i + 1, RunFrom(task, reader, nodes, order, i, p))
  {
    EarlierIsAll(task, reader, nodes, order, i, p);
    StopTells(task, reader, nodes, order, i, p);
  }

  lemma EndReaches(task: Task, reader: Reader, nodes: Nodes, order: seq<string>, p: Progress)
    requires forall id :: id in order ==> id in nodes
    requires AllAccounted(task, reader, nodes, order, |order|, p)
    ensures var r := RunFrom(task, reader, nodes, order, |order|, p);
            Reaches(task, reader, nodes, order, |order|, r) && AllAccounted(task, reader, nodes, order, |order|, r.progress)
  {
    AllAccountedAlike(task, reader, nodes, order, |order|, p, RunFrom(task, reader, nodes, order, |order|, p).progress);
  }

  lemma {:induction false} RunAccounts(
    task: Task, reader: Reader, nodes: Nodes, order: seq<string>, i: nat, p: Progress) returns (m: nat)
    requires IsTopological(Dependencies(nodes), order) && forall id :: id in order ==> id in nodes
    requires i <= |order| && AllAccounted(task, reader, nodes, order, i, p)
    ensures Reaches(task, reader, nodes, order, m, RunFrom(task, reader, nodes, order, i, p))
    ensures AllAccounted(task, reader, nodes, order, m, RunFrom(task, reader, nodes, order, i, p).progress)
    decreases |order| - i
  {
    m := i;
    if i == |order| {
      EndReaches(task, reader, nodes, order, p);
    } else {
      var v := Visit(task, reader, order[i], nodes[order[i]], p);
      NextVisit(task, reader, nodes, order, i, p);
      if v.Cancels? {
        AllAccountedAlike(task, reader, nodes, order, i, p, RunFrom(task, reader, nodes, order, i, p).progress);
      } else if v.Goes? {
        m := RunAccounts(task, reader, nodes, order, i + 1, v.next);
      } else {
        m := i + 1;
        StopKeepsAccounts(task, reader, nodes, order, i, p);
        StopReaches(task, reader, nodes, order, i, p);
      }
    }
  }

  lemma NextVisit(task: Task, reader: Reader, nodes: Nodes, order: seq<string>, i: nat, p: Progress)
    requires IsTopological(Dependencies(nodes), order) && forall id :: id in order ==> id in nodes
    requires i < |order| && AllAccounted(task, reader, nodes, order, i, p)
    ensures var v := Visit(task, reader, order[i], nodes[order[i]], p);
            && (v.Cancels? ==> v.next == p && task.cancelBefore == Some(order[i]))
            && (!v.Cancels? ==> AllAccounted(task, reader, nodes, order, i + 1, v.next))
  {
    assert order[i] !in order[..i];
    VisitAccounts(task, reader, order[i], nodes[order[i]], p);
    if !Visit(task, reader, order[i], nodes[order[i]], p).Cancels? {
      VisitKeepsAccounts(task, reader, nodes, order, i, p);
    }
  }

  lemma StopKeepsAccounts(task: Task, reader: Reader, nodes: Nodes, order: seq<string>, i: nat, p: Progress)
    requires IsTopological(Dependencies(nodes), order) && forall id :: id in order ==> id in nodes
    requires i < |order|
    requires var v := Visit(task, reader, order[i], nodes[order[i]], p);
             (v.Breaks? || v.Exhausts?) && AllAccounted(task, reader, nodes, order, i + 1, v.next)
    ensures AllAccounted(task, reader, nodes, order, i + 1, RunFrom(task, reader, nodes, order, i, p).progress)
  {
    var v := Visit(task, reader, order[i], nodes[order[i]], p);
    var r := RunFrom(task, reader, nodes, order, i, p);
    if v.Breaks? {
      AllAccountedAlike(task, reader, nodes, order, i + 1, v.next, r.progress);
    } else {
      var q := v.next.(states := Compensate(task.policy, nodes, order, order[i], v.next.states).states);
      CompensationKeepsAccounts(task, reader, nodes, order, i + 1, v.next, order[i]);
      AllAccountedAlike(task, reader, nodes, order, i + 1, q, r.progress);
    }
  }

  /** Some node says it is not available, and the task asks beforehand. */
  ghost predicate Unavailable(task: Task, nodes: Nodes, order: seq<string>) {
    task.preflight && exists i :: 0 <= i < |order| && order[i] in nodes && nodes[order[i]].preflightAvailable == false
  }

  /**
   The whole account of a report: the first `m` nodes of the order were visited, each as its condition,
   its mapping and its script say, given exactly the results of the nodes completed before it; of the
   others nothing is recorded.
   */
  lemma EveryVisitIsAccounted(task: Task, reader: Reader, nodes: Nodes, order: seq<string>) returns (m: nat)
    requires IsTopological(Dependencies(nodes), order) && forall id :: id in order ==> id in nodes
    ensures if Unavailable(task, nodes, order) then
              m == 0 && Evaluate(task, reader, nodes, order).status == RunFailed
              && Evaluate(task, reader, nodes, order).error == Some("NOP-RESOURCE-INSUFFICIENT")
            else Reaches(task, reader, nodes, order, m, Evaluate(task, reader, nodes, order))
    ensures AllAccounted(task, reader, nodes, order, m, Evaluate(task, reader, nodes, order).progress)
  {
    m := 0;
    if !(task.preflight && PreflightFails(nodes, order)) {
      var start := if task.preflight then [TaskPreflight] else [];
      m := RunAccounts(task, reader, nodes, order, 0, NOTHING.(events := start + [TaskRunning]));
    }
  }

  lemma TrueFalseOrNone(b: Option<bool>)
    ensures b == None || b == Some(true) || b == Some(false)
  {
    if b.Some? {
      assert b == if b.value then Some(true) else Some(false);
    }
  }

  /** A node is reported skipped exactly when it was visited and its condition was false on the results before it. */
  lemma SkippedWhen(task: Task, reader: Reader, nodes: Nodes, order: seq<string>, k: nat)
    requires IsTopological(Dependencies(nodes), order) && forall id :: id in order ==> id in nodes
    requires k < |order|
    ensures var p, node := Evaluate(task, reader, nodes, order).progress, nodes[order[k]];
            var seen := Earlier(order, k, p.results);
            && (order[k] in p.states && p.states[order[k]] == Skipped <==>
                  order[k] in p.attempts && node.condition.Some?
                  && reader.condition(node.condition.value, seen) == Some(false))
            && (order[k] in p.attempts && p.attempts[order[k]] > 0 ==>
                  node.condition.Some? ==> reader.condition(node.condition.value, seen) == Some(true))
            && (order[k] in p.results ==>
                  && (node.condition.Some? ==> reader.condition(node.condition.value, seen) == Some(true))
                  && exists n: nat :: EndsAt(node, Limit(task, node), n) && node.attempts[n] == Success(p.results[order[k]]))
  {
    var m := EveryVisitIsAccounted(task, reader, nodes, order);
    var p, node := Evaluate(task, reader, nodes, order).progress, nodes[order[k]];
    if k < m {
      assert Accounts(task, reader, node, Earlier(order, k, p.results), p, order[k]);
      TrueFalseOrNone(if node.condition.None? then Some(true) else reader.condition(node.condition.value, Earlier(order, k, p.results)));
      if node.attempts != [] && WasTried(task, node, p, order[k]) {
        var n: nat :| TriedTo(task, node, p, order[k], n);
        assert EndsAt(node, Limit(task, node), n);
      }
    } else {
      assert order[k] !in order[..m];
      assert Unvisited(p, order[k]);
    }
  }

  // ---- traces --------------------------------------------------------------

  /** The first `n` attempts, each of them retried. */
  ghost function Retried(id: string, n: nat): seq<Event> {
    if n == 0 then [] else Retried(id, n - 1) + [NodeAttempt(id, n), NodeRetrying(id)]
  }

  /** The trace of a script that ends at its `n`-th entry. */
  ghost function ScriptTrace(id: string, node: Node, n: nat): seq<Event>
    requires n < |node.attempts|
  {
    Retried(id, n)
    + [NodeAttempt(id, n + 1), if node.attempts[n].Success? then NodeCompleted(id) else NodeFailed(id)]
  }

  lemma {:induction false} AttemptsTrace(id: string, node: Node, limit: nat, k: nat, n: nat)
    requires EndsAt(node, limit, n) && k <= n
    ensures Retried(id, k) + Attempts(id, node, limit, k).events == ScriptTrace(id, node, n)
    decreases n - k
  {
    TriesAgainIsRetries(node, node.attempts[k]);
    if k < n {
      AttemptsTrace(id, node, limit, k + 1, n);
      Regroup(Retried(id, k), [NodeAttempt(id, k + 1), NodeRetrying(id)], Attempts(id, node, limit, k + 1).events);
    }
  }

  /** What one visit adds to the trace. */
  lemma VisitTrace(task: Task, reader: Reader, id: string, node: Node, p: Progress) returns (more: seq<Event>)
    requires task.cancelBefore != Some(id)
    ensures Visit(task, reader, id, node, p).next.events == p.events + more
    ensures if node.condition.Some? && reader.condition(node.condition.value, p.results) == None then more == [NodeFailed(id)]
            else if node.condition.Some? && reader.condition(node.condition.value, p.results) == Some(false) then
              more == [NodeSkipped(id)]
            else if node.inputMapping.Some? && reader.mapping(node.inputMapping.value, p.results) == None then
              more == [NodeFailed(id)]
            else if node.attempts == [] then more == []
            else exists n: nat :: EndsAt(node, Limit(task, node), n) && more == ScriptTrace(id, node, n)
  {
    if node.condition.Some? && reader.condition(node.condition.value, p.results) == None {
      more := [NodeFailed(id)];
    } else if node.condition.Some? && reader.condition(node.condition.value, p.results) == Some(false) {
      more := [NodeSkipped(id)];
    } else if node.inputMapping.Some? && reader.mapping(node.inputMapping.value, p.results) == None {
      more := [NodeFailed(id)];
    } else {
      more := Attempts(id, node, RetryLimit(task, node), 0).events;
      if node.attempts != [] {
        var n := ScriptEnds(node, Limit(task, node), 0);
        AttemptsTrace(id, node, RetryLimit(task, node), 0, n);
        assert [] + more == more;
      }
    }
  }

  // ---- the aggregate -------------------------------------------------------

  /** The `k`-th node has a result, and no node depends on it. */
  ghost predicate EndsWith(nodes: Nodes, order: seq<string>, k: int, results: Results) {
    0 <= k < |order| && order[k] in results && forall n :: n in nodes ==> order[k] !in nodes[n].dependsOn
  }

  /** These positions, in rising order, are exactly those of end nodes with a result, and these are their results. */
  ghost predicate ListsEnds(nodes: Nodes, order: seq<string>, results: Results, at: seq<int>, values: seq<Json>) {
    && |at| == |values|
    && (forall j :: 0 <= j < |at| ==> EndsWith(nodes, order, at[j], results) && values[j] == results[order[at[j]]])
    && (forall i, j :: 0 <= i < j < |at| ==> at[i] < at[j])
    && (forall k :: EndsWith(nodes, order, k, results) ==> k in at)
  }

  lemma {:induction false} EndValuesAre(nodes: Nodes, order: seq<string>, p: Progress) returns (at: seq<int>)
    requires forall id :: id in order ==> (id in p.results <==> id in p.states && p.states[id] == Completed)
    ensures ListsEnds(nodes, order, p.results, at, EndValues(nodes, order, p))
  {
    if order == [] {
      at := [];
    } else {
      var n := |order| - 1;
      var before := EndValuesAre(nodes, order[..n], p);
      at := before + if IsEnd(nodes, p, order[n]) then [n] else [];
      forall k: int ensures EndsWith(nodes, order[..n], k, p.results) <==> k < n && EndsWith(nodes, order, k, p.results) {
      }
      assert IsEnd(nodes, p, order[n]) <==> EndsWith(nodes, order, n, p.results);
      forall j | 0 <= j < |before| ensures EndsWith(nodes, order, before[j], p.results) {
        assert EndsWith(nodes, order[..n], before[j], p.results);
      }
      forall k | EndsWith(nodes, order, k, p.results) ensures k in at {
        if k < n {
          assert k in before;
        } else {
          assert at[|before|] == n;
        }
      }
    }
  }

  /** Before compensation a node has a result exactly when its state is completed. */
  ghost predicate ResultsAreCompleted(p: Progress) {
    forall id :: id in p.results <==> id in p.states && p.states[id] == Completed
  }

  lemma VisitKeepsResults(task: Task, reader: Reader, id: string, node: Node, p: Progress)
    requires ResultsAreCompleted(p) && Unvisited(p, id)
    ensures ResultsAreCompleted(Visit(task, reader, id, node, p).next)
  {
    if node.inputMapping.None? {
      TryKeepsResults(task, id, node, p);
    } else if reader.mapping(node.inputMapping.value, p.results).Some? {
      var parameters := reader.mapping(node.inputMapping.value, p.results).value;
      TryKeepsResults(task, id, node, p.(mapped := p.mapped[id := parameters]));
    }
  }

  lemma TryKeepsResults(task: Task, id: string, node: Node, p: Progress)
    requires ResultsAreCompleted(p) && id !in p.states && id !in p.results
    ensures ResultsAreCompleted(Try(task, id, node, p).next)
  {
  }

  /** What a completed task answers: the results of its end nodes in the order of the run, null for none, listed or merged. */
  ghost predicate Aggregates(task: Task, nodes: Nodes, order: seq<string>, r: Report, at: seq<int>, values: seq<Json>) {
    && ListsEnds(nodes, order, r.progress.results, at, values)
    && (values == [] ==> r.result == Null)
    && (values != [] && task.aggregate == A.All ==> r.result == Array(values))
    && (values != [] && task.aggregate != A.All ==>
          r.result.Object? && forall key :: key in r.result.fields <==> exists i :: 0 <= i < |values| && A.Holds(values[i], key))
  }

  lemma {:induction false} RunAggregates(task: Task, reader: Reader, nodes: Nodes, order: seq<string>, i: nat, p: Progress)
    returns (at: seq<int>, values: seq<Json>)
    requires IsTopological(Dependencies(nodes), order) && forall id :: id in order ==> id in nodes
    requires i <= |order| && ResultsAreCompleted(p) && forall id :: id !in order[..i] ==> Unvisited(p, id)
    ensures var r := RunFrom(task, reader, nodes, order, i, p);
            r.status == RunCompleted ==> Aggregates(task, nodes, order, r, at, values)
    decreases |order| - i
  {
    at, values := [], [];
    if i == |order| {
      at := EndValuesAre(nodes, order, p);
      values := EndValues(nodes, order, p);
      MergedAre(task.aggregate, values);
    } else {
      var id := order[i];
      assert id !in order[..i];
      VisitAccounts(task, reader, id, nodes[id], p);
      VisitKeepsResults(task, reader, id, nodes[id], p);
      var v := Visit(task, reader, id, nodes[id], p);
      if v.Goes? {
        OthersUnvisited(order, i, p, v.next);
        at, values := RunAggregates(task, reader, nodes, order, i + 1, v.next);
      }
    }
  }

  lemma MergedAre(mode: A.Mode, values: seq<Json>)
    ensures forall key :: key in A.MergeAllOf(mode, values) <==> exists i :: 0 <= i < |values| && A.Holds(values[i], key)
  {
    forall key ensures key in A.MergeAllOf(mode, values) <==> exists i :: 0 <= i < |values| && A.Holds(values[i], key) {
      A.MergedKeys(mode, values, key);
    }
  }

  /** The aggregate of a completed task. */
  lemma CompletedTaskAggregates(task: Task, reader: Reader, nodes: Nodes, order: seq<string>)
    returns (at: seq<int>, values: seq<Json>)
    requires IsTopological(Dependencies(nodes), order) && forall id :: id in order ==> id in nodes
    ensures var r := Evaluate(task, reader, nodes, order);
            r.status == RunCompleted ==> Aggregates(task, nodes, order, r, at, values)
  {
    var start := if task.preflight then [TaskPreflight] else [];
    at, values := RunAggregates(task, reader, nodes, order, 0, NOTHING.(events := start + [TaskRunning]));
  }
}
