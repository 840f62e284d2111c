/**
 Task leases of the portable profile: claims, renewals and terminal marks, event by event. The
 lease table is shown to be a memory of the last grant, and grants to different runners not to overlap.
 */
module Leases {
  import opened Wrappers

  datatype Lease = Lease(runner: string, expiresAt: int)

  datatype Event =
    | Claim(at: int, task: string, runner: string, seconds: int)
    | Renew(at: int, task: string, runner: string, seconds: int)
    | MarkTerminal(key: string)
    | AskTerminal(key: string)
    | Unknown

  datatype Outcome = Granted | Reclaimed | Conflict | Recorded | Terminal | Pending

  datatype Table = Table(leases: map<string, Lease>, terminal: set<string>)

  const EMPTY := Table(map[], {})

  /** `lease_seconds` is kept between 10 and 600. */
  function Clamp(seconds: int): int {
    if seconds < 10 then 10 else if seconds > 600 then 600 else seconds
  }

  function LeaseOf(e: Event): Lease
    requires e.Claim? || e.Renew?
  {
    Lease(e.runner, e.at + Clamp(e.seconds))
  }

  predicate Live(t: Table, task: string, at: int) {
    task in t.leases && t.leases[task].expiresAt > at
  }

  /** An event that is not understood has no outcome. */
  function OutcomeOf(t: Table, e: Event): Option<Outcome> {
    match e
    case Claim(at, task, runner, _) =>
      if Live(t, task, at) then Some(if t.leases[task].runner == runner then Granted else Conflict)
      else Some(if task in t.leases then Reclaimed else Granted)
    case Renew(at, task, runner, _) =>
      Some(if Live(t, task, at) && t.leases[task].runner == runner then Granted else Conflict)
    case MarkTerminal(_) => Some(Recorded)
    case AskTerminal(key) => Some(if key in t.terminal then Terminal else Pending)
    case Unknown => None
  }

  predicate Grants(t: Table, e: Event) {
    (e.Claim? || e.Renew?) && OutcomeOf(t, e) != Some(Conflict)
  }

  function After(t: Table, e: Event): Table {
    if Grants(t, e) then t.(leases := t.leases[e.task := LeaseOf(e)])
    else if e.MarkTerminal? then t.(terminal := t.terminal + {e.key})
    else t
  }

  function Run(events: seq<Event>): Table {
    if events == [] then EMPTY else After(Run(events[..|events| - 1]), events[|events| - 1])
  }

  function Outcomes(events: seq<Event>): seq<Outcome> {
    if events == [] then []
    else
      var n := |events| - 1;
      var o := OutcomeOf(Run(events[..n]), events[n]);
      Outcomes(events[..n]) + if o.Some? then [o.value] else []
  }

  /** The loop, with its two tables. */
  method EvaluateLease(events: seq<Event>) returns (outcomes: seq<Outcome>)
    ensures outcomes == Outcomes(events)
  {
    var leases: map<string, Lease> := map[];
    var terminal: set<string> := {};
    outcomes := [];
    var i := 0;
    while i < |events|
      invariant 0 <= i <= |events|
      invariant Table(leases, terminal) == Run(events[..i]) && outcomes == Outcomes(events[..i])
    {
      var e := events[i];
      assert events[..i + 1][..i] == events[..i];
      match e {
        case Claim(at, task, runner, seconds) =>
          var until := at + Clamp(seconds);
          if task in leases && leases[task].expiresAt > at {
            if leases[task].runner == runner {
              leases := leases[task := Lease(runner, until)];
              outcomes := outcomes + [Granted];
            } else {
              outcomes := outcomes + [Conflict];
            }
          } else {
            var reclaimed := task in leases;
            leases := leases[task := Lease(runner, until)];
            outcomes := outcomes + [if reclaimed then Reclaimed else Granted];
          }
        case Renew(at, task, runner, seconds) =>
          if task in leases && leases[task].expiresAt > at && leases[task].runner == runner {
            leases := leases[task := Lease(runner, at + Clamp(seconds))];
            outcomes := outcomes + [Granted];
          } else {
            outcomes := outcomes + [Conflict];
          }
        case MarkTerminal(key) =>
          terminal := terminal + {key};
          outcomes := outcomes + [Recorded];
        case AskTerminal(key) =>
          outcomes := outcomes + [if key in terminal then Terminal else Pending];
        case Unknown =>
          assert Outcomes(events[..i + 1]) == outcomes + [];
      }
      i := i + 1;
    }
    assert events[..i] == events;
  }

  // ---- whole runs ----------------------------------------------------------

  /** The `k`-th event was a grant of this task: a claim or renewal answered so. */
  predicate GrantAt(events: seq<Event>, k: nat, task: string)
    requires k < |events|
  {
    && (events[k].Claim? || events[k].Renew?) && events[k].task == task
    && var o := OutcomeOf(Run(events[..k]), events[k]);
       o == Some(Granted) || o == Some(Reclaimed)
  }

  /** At this time the grant still stands: ten seconds always do, then what was asked for up to ten minutes. */
  predicate Stands(grant: Event, at: int)
    requires grant.Claim? || grant.Renew?
  {
    at < grant.at + 10 || (at < grant.at + 600 && at < grant.at + grant.seconds)
  }

  /** The `k`-th event is the last grant of this task among the first `n`. */
  ghost predicate LastGrant(events: seq<Event>, n: nat, task: string, k: nat)
    requires n <= |events|
  {
    k < n && GrantAt(events, k, task) && forall j :: k < j < n ==> !GrantAt(events, j, task)
  }

  /** The table remembers exactly the last grant of each task. */
  lemma {:induction false} TableIsLastGrant(events: seq<Event>, n: nat, task: string)
    requires n <= |events|
    ensures task in Run(events[..n]).leases <==> exists k: nat :: LastGrant(events, n, task, k)
    ensures forall k: nat :: LastGrant(events, n, task, k) ==> Run(events[..n]).leases[task] == LeaseOf(events[k])
  {
    if n > 0 {
      var m := n - 1;
      assert events[..n][..m] == events[..m] && events[..n][m] == events[m];
      TableIsLastGrant(events, m, task);
      assert Run(events[..n]) == After(Run(events[..m]), events[m]);
      forall k: nat
        ensures LastGrant(events, n, task, k) <==> if GrantAt(events, m, task) then k == m else LastGrant(events, m, task, k)
      {
        LastGrantMoves(events, m, task, k);
      }
    }
  }

  /** A grant becomes the last one; any other event leaves the last one in place. */
  lemma LastGrantMoves(events: seq<Event>, m: nat, task: string, k: nat)
    requires m < |events|
    ensures LastGrant(events, m + 1, task, k) <==> if GrantAt(events, m, task) then k == m else LastGrant(events, m, task, k)
  {
  }

  /** Some grant of the task came before, and this is the last one. */
  ghost predicate Held(events: seq<Event>, n: nat, task: string, grant: Event)
    requires n <= |events|
  {
    exists k: nat :: LastGrant(events, n, task, k) && grant == events[k]
  }

  lemma HeldIsTheLease(events: seq<Event>, n: nat, task: string)
    requires n <= |events|
    ensures task in Run(events[..n]).leases <==> exists g :: Held(events, n, task, g)
    ensures forall g :: Held(events, n, task, g) ==> Run(events[..n]).leases[task] == LeaseOf(g)
  {
    TableIsLastGrant(events, n, task);
    if k: nat :| LastGrant(events, n, task, k) {
      assert Held(events, n, task, events[k]);
    }
  }

  /** A claim is in conflict exactly with a standing grant to another runner, and reclaims exactly what no longer stands. */
  lemma ClaimIsAnsweredWhen(events: seq<Event>, n: nat)
    requires n < |events| && events[n].Claim?
    ensures var e, o := events[n], OutcomeOf(Run(events[..n]), events[n]);
            && (o == Some(Conflict) <==> exists g :: Held(events, n, e.task, g) && g.runner != e.runner && Stands(g, e.at))
            && (o == Some(Reclaimed) <==> exists g :: Held(events, n, e.task, g) && !Stands(g, e.at))
            && (o == Some(Granted) || o == Some(Reclaimed) || o == Some(Conflict))
  {
    HeldIsTheLease(events, n, events[n].task);
  }

  /** A renewal is granted exactly to the runner of the last grant while it stands; any other is in conflict. */
  lemma RenewalIsGrantedWhen(events: seq<Event>, n: nat)
    requires n < |events| && events[n].Renew?
    ensures var e, o := events[n], OutcomeOf(Run(events[..n]), events[n]);
            && (o == Some(Granted) <==> exists g :: Held(events, n, e.task, g) && g.runner == e.runner && Stands(g, e.at))
            && (o == Some(Granted) || o == Some(Conflict))
  {
    HeldIsTheLease(events, n, events[n].task);
  }

  /** Successive grants of a task to different runners never overlap: the later starts when the earlier no longer stands. */
  lemma GrantsDoNotOverlap(events: seq<Event>, i: nat, j: nat, task: string)
    requires j < |events| && GrantAt(events, j, task) && LastGrant(events, j, task, i)
    requires events[i].runner != events[j].runner
    ensures !Stands(events[i], events[j].at)
  {
    TableIsLastGrant(events, j, task);
  }

  /** A key is answered terminal exactly when it was marked before, and pending otherwise. */
  lemma {:induction false} TerminalIsMarked(events: seq<Event>, n: nat, key: string)
    requires n <= |events|
    ensures var o := OutcomeOf(Run(events[..n]), AskTerminal(key));
            && (o == Some(Terminal) <==> exists k :: 0 <= k < n && events[k] == MarkTerminal(key))
            && (o == Some(Terminal) || o == Some(Pending))
  {
    if n > 0 {
      var m := n - 1;
      assert events[..n][..m] == events[..m] && events[..n][m] == events[m];
      TerminalIsMarked(events, m, key);
    }
  }
}
