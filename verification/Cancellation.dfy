/**
 The cancellation token under every interleaving. Any number of threads call `on_cancel` or
 `cancel`; each step is one atomic action on the flag, the lock or the list of listeners. A thread
 that registers a listener names it by its own number.
 */
module Cancellation {
  import opened Wrappers
  import opened Collections

  /** Where a thread stands: what it does in its next step. */
  datatype Pc =
    // on_cancel: load the flag; lock; load it again; then unlock and run, or push and unlock
    | LoadFlag | LockToAdd | LoadAgain | UnlockAndRun | Push | UnlockAdded | RunNow | Registered
    // cancel: swap the flag; lock; take the list; unlock; run what was taken
    | Swap | LockToTake | Take | UnlockTaken | RunTaken | LostRace | Cancelled

  /** `batch` is what the cancelling thread has taken and not yet run; `ran` is what has been run. */
  datatype State = State(
    flag: bool,
    holder: Option<nat>,
    listeners: seq<nat>,
    batch: seq<nat>,
    ran: seq<nat>,
    threads: map<nat, Pc>)

  const INIT := State(false, None, [], [], [], map[])

  datatype Action = CallOnCancel(t: nat) | CallCancel(t: nat) | Move(t: nat)

  function At(s: State, t: nat, pc: Pc): State {
    s.(threads := s.threads[t := pc])
  }

  /** One step of a thread; `None` when it waits for the lock or has finished. */
  function Next(s: State, t: nat): Option<State>
    requires t in s.threads
  {
    match s.threads[t]
    case LoadFlag => Some(At(s, t, if s.flag then RunNow else LockToAdd))
    case LockToAdd => if s.holder.Some? then None else Some(At(s, t, LoadAgain).(holder := Some(t)))
    case LoadAgain => Some(At(s, t, if s.flag then UnlockAndRun else Push))
    case UnlockAndRun => Some(At(s, t, RunNow).(holder := None))
    case Push => Some(At(s, t, UnlockAdded).(listeners := s.listeners + [t]))
    case UnlockAdded => Some(At(s, t, Registered).(holder := None))
    case RunNow => Some(At(s, t, Registered).(ran := s.ran + [t]))
    case Registered => None
    case Swap => Some(At(s, t, if s.flag then LostRace else LockToTake).(flag := true))
    case LockToTake => if s.holder.Some? then None else Some(At(s, t, Take).(holder := Some(t)))
    case Take => Some(At(s, t, UnlockTaken).(batch := s.listeners, listeners := []))
    case UnlockTaken => Some(At(s, t, RunTaken).(holder := None))
    case RunTaken =>
      if s.batch == [] then Some(At(s, t, Cancelled))
      else Some(s.(ran := s.ran + [s.batch[0]], batch := s.batch[1..]))
    case LostRace => None
    case Cancelled => None
  }

  /** An action that is not possible leaves the state as it is. */
  function Act(s: State, a: Action): State {
    match a
    case CallOnCancel(t) => if t in s.threads then s else At(s, t, LoadFlag)
    case CallCancel(t) => if t in s.threads then s else At(s, t, Swap)
    case Move(t) => if t in s.threads && Next(s, t).Some? then Next(s, t).value else s
  }

  function Run(actions: seq<Action>): State {
    if actions == [] then INIT else Act(Run(actions[..|actions| - 1]), actions[|actions| - 1])
  }

  // ---- the invariant -------------------------------------------------------

  predicate HoldsLock(pc: Pc) {
    pc.LoadAgain? || pc.UnlockAndRun? || pc.Push? || pc.UnlockAdded? || pc.Take? || pc.UnlockTaken?
  }

  /** The lock is held by exactly the threads between locking and unlocking: one at most. */
  ghost predicate Exclusive(s: State) {
    && (s.holder.Some? ==> s.holder.value in s.threads)
    && forall t :: t in s.threads ==> (HoldsLock(s.threads[t]) <==> s.holder == Some(t))
  }

  /** The thread whose swap found the flag down. */
  predicate Won(pc: Pc) {
    pc.LockToTake? || pc.Take? || pc.UnlockTaken? || pc.RunTaken? || pc.Cancelled?
  }

  predicate HasTaken(pc: Pc) {
    pc.UnlockTaken? || pc.RunTaken? || pc.Cancelled?
  }

  ghost predicate SomeWinner(s: State) {
    exists t :: t in s.threads && Won(s.threads[t])
  }

  ghost predicate OneWinner(s: State) {
    && (s.flag <==> SomeWinner(s))
    && (forall t, u :: t in s.threads && u in s.threads && Won(s.threads[t]) && Won(s.threads[u]) ==> t == u)
  }

  /** Once the list has been taken it stays empty, and nobody is about to push. */
  ghost predicate NothingAddedAfterTaking(s: State) {
    forall t :: t in s.threads && HasTaken(s.threads[t]) ==> s.listeners == [] && NobodyPushes(s)
  }

  ghost predicate NobodyPushes(s: State) {
    forall u :: u in s.threads ==> !s.threads[u].Push?
  }

  /** Something is run or taken only after the flag went up; the batch is the winner's until it is empty. */
  ghost predicate RunsOnlyIfCancelled(s: State) {
    && (!s.flag ==> s.ran == [] && s.batch == [])
    && (forall t :: t in s.threads && RunsItself(s.threads[t]) ==> s.flag)
    && (forall t :: t in s.threads && HoldsNoBatch(s.threads[t]) ==> s.batch == [])
  }

  predicate RunsItself(pc: Pc) {
    pc.UnlockAndRun? || pc.RunNow?
  }

  predicate HoldsNoBatch(pc: Pc) {
    pc.LockToTake? || pc.Take? || pc.Cancelled?
  }

  /** Every listener that was handed over is in line once: run, taken, or on the list. */
  function Line(s: State): seq<nat> {
    s.ran + s.batch + s.listeners
  }

  predicate HandedOver(pc: Pc) {
    pc.UnlockAdded? || pc.Registered?
  }

  ghost predicate InLineOnce(s: State) {
    && Distinct(Line(s))
    && forall t :: t in Line(s) <==> t in s.threads && HandedOver(s.threads[t])
  }

  ghost predicate Inv(s: State) {
    && Exclusive(s)
    && OneWinner(s)
    && NothingAddedAfterTaking(s)
    && RunsOnlyIfCancelled(s)
    && InLineOnce(s)
  }

  // ---- preservation --------------------------------------------------------

  lemma ExclusiveKept(s: State, t: nat)
    requires t in s.threads && Exclusive(s) && Next(s, t).Some?
    ensures Exclusive(Next(s, t).value)
  {
  }

  lemma OneWinnerKept(s: State, t: nat)
    requires t in s.threads && OneWinner(s) && Next(s, t).Some?
    ensures OneWinner(Next(s, t).value)
  {
    var s' := Next(s, t).value;
    if s'.flag {
      if s.flag {
        var w :| w in s.threads && Won(s.threads[w]);
        assert w in s'.threads && Won(s'.threads[w]);
      } else {
        assert t in s'.threads && Won(s'.threads[t]);
      }
    }
    forall u | u in s'.threads && Won(s'.threads[u]) ensures u in s.threads && (Won(s.threads[u]) || (u == t && !s.flag)) {
    }
  }

  /** A step moves one thread. */
  lemma ThreadMoves(s: State, t: nat) returns (pc: Pc)
    requires t in s.threads && Next(s, t).Some?
    ensures Next(s, t).value.threads == s.threads[t := pc]
  {
    pc := Next(s, t).value.threads[t];
    if s.threads[t].RunTaken? && s.batch != [] {
      assert s.threads[t := pc] == s.threads;
    }
  }

  lemma OneTakes(s: State, t: nat)
    requires t in s.threads && Next(s, t).Some? && !s.threads[t].Take? && t in Next(s, t).value.threads
    ensures HasTaken(Next(s, t).value.threads[t]) ==> HasTaken(s.threads[t])
  {
  }

  lemma TakenBefore(s: State, t: nat, w: nat)
    requires t in s.threads && Next(s, t).Some? && !s.threads[t].Take?
    requires w in Next(s, t).value.threads && HasTaken(Next(s, t).value.threads[w])
    ensures w in s.threads && HasTaken(s.threads[w])
  {
    if w == t {
      OneTakes(s, t);
    } else {
      var pc := ThreadMoves(s, t);
    }
  }

  /** With the flag up, the list empty and nobody pushing, a step that does not take keeps it so. */
  lemma StaysTaken(s: State, t: nat)
    requires t in s.threads && Next(s, t).Some? && s.flag && s.listeners == [] && NobodyPushes(s)
    ensures Next(s, t).value.listeners == [] && NobodyPushes(Next(s, t).value)
  {
  }

  lemma NothingAddedKept(s: State, t: nat)
    requires t in s.threads && Inv(s) && Next(s, t).Some?
    ensures NothingAddedAfterTaking(Next(s, t).value)
  {
    var s' := Next(s, t).value;
    if s.threads[t].Take? {
      assert s.holder == Some(t) && s'.listeners == [] && NobodyPushes(s');
    } else {
      forall w | w in s'.threads && HasTaken(s'.threads[w]) ensures s'.listeners == [] && NobodyPushes(s') {
        TakenBefore(s, t, w);
        StaysTaken(s, t);
      }
    }
  }

  lemma RunsOnlyKept(s: State, t: nat)
    requires t in s.threads && OneWinner(s) && RunsOnlyIfCancelled(s) && Next(s, t).Some?
    ensures RunsOnlyIfCancelled(Next(s, t).value)
  {
    assert Won(s.threads[t]) ==> s.flag;
    forall w | w in s.threads && Won(s.threads[w]) && Won(s.threads[t]) ensures w == t {
    }
  }

  /** The line stays the same when no one is added to it and its parts only move along. */
  lemma SameLine(s: State, s': State, t: nat, pc: Pc)
    requires InLineOnce(s) && t in s.threads && s'.threads == s.threads[t := pc]
    requires Line(s') == Line(s) && HandedOver(pc) == HandedOver(s.threads[t])
    ensures InLineOnce(s')
  {
  }

  lemma JoinsLine(s: State, s': State, t: nat, pc: Pc, a: seq<nat>, b: seq<nat>)
    requires InLineOnce(s) && t in s.threads && s'.threads == s.threads[t := pc]
    requires Line(s) == a + b && Line(s') == a + [t] + b && !HandedOver(s.threads[t]) && HandedOver(pc)
    ensures InLineOnce(s')
  {
    DistinctInsert(a, t, b);
  }

  lemma PushJoins(s: State, t: nat)
    requires t in s.threads && InLineOnce(s) && s.threads[t].Push?
    ensures InLineOnce(Next(s, t).value)
  {
    var s' := Next(s, t).value;
    assert Line(s) == Line(s) + [] && Line(s') == Line(s) + [t] + [];
    JoinsLine(s, s', t, UnlockAdded, Line(s), []);
  }

  lemma RunNowJoins(s: State, t: nat)
    requires t in s.threads && InLineOnce(s) && s.threads[t].RunNow?
    ensures InLineOnce(Next(s, t).value)
  {
    var s' := Next(s, t).value;
    var rest := s.batch + s.listeners;
    assert Line(s) == s.ran + rest && Line(s') == s.ran + [t] + rest;
    JoinsLine(s, s', t, Registered, s.ran, rest);
  }

  /** Taking the list and running the batch move listeners along the line. */
  lemma LineMoves(s: State, t: nat)
    requires t in s.threads && Next(s, t).Some? && !s.threads[t].Push? && !s.threads[t].RunNow?
    requires s.threads[t].Take? ==> s.batch == []
    ensures Line(Next(s, t).value) == Line(s)
  {
    if s.threads[t].RunTaken? && s.batch != [] {
      assert s.batch == [s.batch[0]] + s.batch[1..];
      assert (s.ran + [s.batch[0]]) + s.batch[1..] == s.ran + s.batch;
    } else if s.threads[t].Take? {
      assert s.ran + [] + s.listeners == s.ran + s.listeners + [];
    }
  }

  lemma StandsAlike(s: State, t: nat, pc: Pc)
    requires t in s.threads && Next(s, t).Some? && !s.threads[t].Push? && !s.threads[t].RunNow?
    requires t in Next(s, t).value.threads && Next(s, t).value.threads[t] == pc
    ensures HandedOver(pc) == HandedOver(s.threads[t])
  {
  }

  lemma LineKept(s: State, t: nat)
    requires t in s.threads && Inv(s) && Next(s, t).Some?
    ensures InLineOnce(Next(s, t).value)
  {
    if s.threads[t].Push? {
      PushJoins(s, t);
    } else if s.threads[t].RunNow? {
      RunNowJoins(s, t);
    } else {
      LineMoves(s, t);
      var pc := ThreadMoves(s, t);
      StandsAlike(s, t, pc);
      SameLine(s, Next(s, t).value, t, pc);
    }
  }

  lemma StepKeepsInv(s: State, a: Action)
    requires Inv(s)
    ensures Inv(Act(s, a))
  {
    if a.Move? {
      if a.t in s.threads && Next(s, a.t).Some? {
        ExclusiveKept(s, a.t);
        OneWinnerKept(s, a.t);
        NothingAddedKept(s, a.t);
        RunsOnlyKept(s, a.t);
        LineKept(s, a.t);
      }
    } else {
      CallKeepsInv(s, a);
    }
  }

  lemma CallKeepsInv(s: State, a: Action)
    requires Inv(s) && !a.Move?
    ensures Inv(Act(s, a))
  {
    if a.t !in s.threads {
      var pc := if a.CallOnCancel? then LoadFlag else Swap;
      NewThreadInLine(s, a.t, pc);
      NewThreadWins(s, a.t, pc);
    }
  }

  lemma NewThreadInLine(s: State, t: nat, pc: Pc)
    requires t !in s.threads && InLineOnce(s) && !HandedOver(pc)
    ensures InLineOnce(At(s, t, pc))
  {
    assert Line(At(s, t, pc)) == Line(s);
  }

  lemma NewThreadWins(s: State, t: nat, pc: Pc)
    requires t !in s.threads && OneWinner(s) && !Won(pc)
    ensures OneWinner(At(s, t, pc))
  {
    if SomeWinner(s) {
      var w :| w in s.threads && Won(s.threads[w]);
      assert w in At(s, t, pc).threads && Won(At(s, t, pc).threads[w]);
    }
  }

  lemma {:induction false} EveryStateIsGood(actions: seq<Action>)
    ensures Inv(Run(actions))
  {
    if actions != [] {
      EveryStateIsGood(actions[..|actions| - 1]);
      StepKeepsInv(Run(actions[..|actions| - 1]), actions[|actions| - 1]);
    }
  }

  // ---- what callers are promised -------------------------------------------

  predicate Finished(pc: Pc) {
    pc in {Registered, LostRace, Cancelled}
  }

  ghost predicate Quiet(s: State) {
    forall t :: t in s.threads ==> Finished(s.threads[t])
  }

  /** Some thread has called `cancel`. */
  ghost predicate CancelCalled(s: State) {
    exists t :: t in s.threads && IsCancelCall(s.threads[t])
  }

  predicate IsCancelCall(pc: Pc) {
    pc.Swap? || pc.LostRace? || Won(pc)
  }

  /** At every moment of every run no listener has run twice, and none at all unless the flag is up. */
  lemma NeverTwiceNeverEarly(actions: seq<Action>)
    ensures Distinct(Run(actions).ran)
    ensures Run(actions).ran != [] ==> Run(actions).flag
  {
    EveryStateIsGood(actions);
    var s := Run(actions);
    forall i, j | 0 <= i < j < |s.ran| ensures s.ran[i] != s.ran[j] {
      assert Line(s)[i] == s.ran[i] && Line(s)[j] == s.ran[j];
    }
  }

  /**
   When every call has returned: if `cancel` was among them every registered listener has run,
   exactly once, and otherwise none has.
   */
  lemma EveryListenerRunsOnce(actions: seq<Action>)
    requires Quiet(Run(actions))
    ensures var s := Run(actions);
            && Distinct(s.ran)
            && (CancelCalled(s) ==> forall t :: t in s.ran <==> t in s.threads && s.threads[t] == Registered)
            && (!CancelCalled(s) ==> s.ran == [])
  {
    var s := Run(actions);
    EveryStateIsGood(actions);
    NeverTwiceNeverEarly(actions);
    LoserMeansFlag(actions);
    if CancelCalled(s) {
      assert s.flag;
      var w :| w in s.threads && Won(s.threads[w]);
      assert s.threads[w] == Cancelled && s.batch == [] && s.listeners == [];
      assert Line(s) == s.ran;
    } else {
      assert !s.flag;
    }
  }

  /** A thread that lost the race, or won it, has seen the flag go up. */
  ghost predicate LosersSawFlag(s: State) {
    forall t :: t in s.threads && (s.threads[t].LostRace? || Won(s.threads[t])) ==> s.flag
  }

  lemma LosersKept(s: State, a: Action)
    requires LosersSawFlag(s)
    ensures LosersSawFlag(Act(s, a))
  {
    if a.Move? && a.t in s.threads && Next(s, a.t).Some? {
      var pc := ThreadMoves(s, a.t);
      LoserSawFlag(s, a.t, pc);
    }
  }

  lemma LoserSawFlag(s: State, t: nat, pc: Pc)
    requires t in s.threads && Next(s, t).Some? && ((s.threads[t].LostRace? || Won(s.threads[t])) ==> s.flag)
    requires t in Next(s, t).value.threads && Next(s, t).value.threads[t] == pc
    ensures (pc.LostRace? || Won(pc) || s.flag) ==> Next(s, t).value.flag
  {
  }

  lemma {:induction false} LoserMeansFlag(actions: seq<Action>)
    ensures LosersSawFlag(Run(actions))
  {
    if actions != [] {
      LoserMeansFlag(actions[..|actions| - 1]);
      LosersKept(Run(actions[..|actions| - 1]), actions[|actions| - 1]);
    }
  }

  /** No deadlock: while a call has not returned, some thread can take a step. */
  lemma SomeThreadCanMove(actions: seq<Action>) returns (t: nat)
    requires !Quiet(Run(actions))
    ensures t in Run(actions).threads && Next(Run(actions), t).Some?
  {
    var s := Run(actions);
    EveryStateIsGood(actions);
    t :| t in s.threads && !Finished(s.threads[t]);
    if Next(s, t).None? {
      t := s.holder.value;
    }
  }
}
