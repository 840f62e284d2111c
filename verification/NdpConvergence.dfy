/**
 What the registry guarantees over whole runs: it converges whatever the order and repetition of
 announces, its sequences only grow, and cluster selection names the one member on top.
 */
module NdpConvergence {
  import opened Wrappers
  import opened Json
  import opened NdpRegistryModel

  function Run(env: Env, s: State, announces: seq<Announce>): State
    decreases |announces|
  {
    if announces == [] then s
    else Apply(env, Run(env, s, announces[..|announces| - 1]), announces[|announces| - 1]).0
  }

  // ---- single steps --------------------------------------------------------

  lemma RejectionChangesNothing(env: Env, s: State, a: Announce)
    requires Apply(env, s, a).1.Rejected?
    ensures Apply(env, s, a).0 == s
  {
  }

  ghost predicate Untouched(s: State, t: State, nid: string) {
    && (nid in s.entries <==> nid in t.entries)
    && (nid in s.entries ==> s.entries[nid] == t.entries[nid])
    && (nid in s.sequences <==> nid in t.sequences)
    && (nid in s.sequences ==> s.sequences[nid] == t.sequences[nid])
  }

  lemma OthersUntouched(env: Env, s: State, a: Announce, nid: string)
    requires WellFormed(env, a.frame) ==> Nid(env, a.frame) != nid
    ensures Untouched(s, Apply(env, s, a).0, nid)
  {
  }

  /** One announce never lowers a sequence, and brings a removed node back only by raising it. */
  lemma StepOnlyRaises(env: Env, s: State, a: Announce, nid: string)
    requires nid in s.sequences
    ensures var t := Apply(env, s, a).0;
            && nid in t.sequences && s.sequences[nid] <= t.sequences[nid]
            && (nid !in s.entries && nid in t.entries ==> s.sequences[nid] < t.sequences[nid])
  {
  }

  // ---- monotonicity over runs ----------------------------------------------

  /** Sequences never decrease, and a node that was removed is back only under a higher sequence. */
  lemma {:induction false} SequencesOnlyGrow(env: Env, s: State, announces: seq<Announce>, nid: string)
    requires nid in s.sequences
    ensures var t := Run(env, s, announces);
            && nid in t.sequences && s.sequences[nid] <= t.sequences[nid]
            && (nid !in s.entries && nid in t.entries ==> s.sequences[nid] < t.sequences[nid])
    decreases |announces|
  {
    if announces != [] {
      var before := announces[..|announces| - 1];
      SequencesOnlyGrow(env, s, before, nid);
      StepOnlyRaises(env, Run(env, s, before), announces[|announces| - 1], nid);
    }
  }

  // ---- convergence ---------------------------------------------------------

  /** Passes the static checks and, unless it removes the node, is not expired on arrival. */
  predicate Admissible(env: Env, a: Announce) {
    StaticCheck(env, a).None? && (CheckedIsWellFormed(env, a); Ttl(env, a.frame) == 0 || !Expired(env, a))
  }

  predicate Concerns(env: Env, a: Announce, nid: string) {
    Admissible(env, a) && (CheckedIsWellFormed(env, a); Nid(env, a.frame) == nid)
  }

  /** The frames for one node that arrived admissible, however often and in whatever order. */
  ghost function Admitted(env: Env, announces: seq<Announce>, nid: string): set<Json> {
    set i | 0 <= i < |announces| && Concerns(env, announces[i], nid) :: announces[i].frame
  }

  /** What a frame leaves behind: nothing when it removes the node, else its signed body. */
  function View(env: Env, f: Json): Option<string>
    requires WellFormed(env, f)
  {
    if Ttl(env, f) == 0 then None else Some(Digest(env, f))
  }

  ghost predicate IsTop(env: Env, frames: set<Json>, f: Json) {
    && f in frames && WellFormed(env, f)
    && forall g :: g in frames && WellFormed(env, g) ==> Seq(env, g) <= Seq(env, f)
  }

  /** The registry's view of a node is that of this frame: its sequence, and its body unless it removes. */
  ghost predicate Shows(env: Env, s: State, nid: string, f: Json)
    requires WellFormed(env, f)
  {
    && nid in s.sequences && s.sequences[nid] == Seq(env, f)
    && if Ttl(env, f) == 0 then nid !in s.entries
       else nid in s.entries && s.entries[nid].digest == Digest(env, f)
  }

  /** An announce that is not admissible for a node leaves the node alone. */
  lemma InadmissibleIsIgnored(env: Env, s: State, a: Announce, nid: string)
    requires !Concerns(env, a, nid)
    ensures Untouched(s, Apply(env, s, a).0, nid)
  {
    if StaticCheck(env, a).None? {
      CheckedIsWellFormed(env, a);
      if Nid(env, a.frame) != nid {
        OthersUntouched(env, s, a, nid);
      }
    }
  }

  lemma HigherIsShown(env: Env, s: State, a: Announce, nid: string)
    requires Concerns(env, a, nid)
    requires WellFormed(env, a.frame) && (nid in s.sequences ==> s.sequences[nid] < Seq(env, a.frame))
    ensures Shows(env, Apply(env, s, a).0, nid, a.frame)
  {
  }

  /** A frame of the same or a lower sequence never changes what is shown. */
  lemma NoHigherIsIgnored(env: Env, s: State, a: Announce, nid: string, f: Json)
    requires Concerns(env, a, nid) && WellFormed(env, f) && Shows(env, s, nid, f)
    requires WellFormed(env, a.frame) && Seq(env, a.frame) <= Seq(env, f)
    ensures Shows(env, Apply(env, s, a).0, nid, f)
  {
  }

  ghost predicate ShowsTop(env: Env, s: State, nid: string, frames: set<Json>, f: Json) {
    IsTop(env, frames, f) && Shows(env, s, nid, f)
  }

  /** The registry shows the admitted frame of the highest sequence, or nothing when there is none. */
  ghost predicate Reflects(env: Env, s: State, nid: string, frames: set<Json>) {
    if frames == {} then nid !in s.sequences && nid !in s.entries
    else exists f :: ShowsTop(env, s, nid, frames, f)
  }

  /** Over any announces at all, conflicting bodies included, the registry shows a frame of the highest sequence. */
  lemma {:induction false} RunShowsTheTop(env: Env, announces: seq<Announce>, nid: string)
    ensures Reflects(env, Run(env, EMPTY, announces), nid, Admitted(env, announces, nid))
    decreases |announces|
  {
    if announces != [] {
      var n := |announces| - 1;
      var a := announces[n];
      var s := Run(env, EMPTY, announces[..n]);
      var before := Admitted(env, announces[..n], nid);
      AdmittedGrows(env, announces, nid);
      RunShowsTheTop(env, announces[..n], nid);
      StepReflects(env, s, a, nid, before);
    }
  }

  lemma StepReflects(env: Env, s: State, a: Announce, nid: string, before: set<Json>)
    requires Reflects(env, s, nid, before)
    ensures Reflects(env, Apply(env, s, a).0, nid, before + if Concerns(env, a, nid) then {a.frame} else {})
  {
    if Concerns(env, a, nid) {
      CheckedIsWellFormed(env, a);
      StepShowsTheTop(env, s, a, nid, before);
    } else {
      InadmissibleIsIgnored(env, s, a, nid);
      UntouchedReflects(env, s, Apply(env, s, a).0, nid, before);
      assert before + {} == before;
    }
  }

  lemma UntouchedReflects(env: Env, s: State, t: State, nid: string, frames: set<Json>)
    requires Reflects(env, s, nid, frames) && Untouched(s, t, nid)
    ensures Reflects(env, t, nid, frames)
  {
    if frames != {} {
      var f :| ShowsTop(env, s, nid, frames, f);
      assert ShowsTop(env, t, nid, frames, f);
    }
  }

  lemma AdmittedGrows(env: Env, announces: seq<Announce>, nid: string)
    requires announces != []
    ensures var n := |announces| - 1;
            Admitted(env, announces, nid) == Admitted(env, announces[..n], nid)
              + if Concerns(env, announces[n], nid) then {announces[n].frame} else {}
  {
    var n := |announces| - 1;
    forall f
      ensures f in Admitted(env, announces, nid) <==>
              f in Admitted(env, announces[..n], nid) || (Concerns(env, announces[n], nid) && f == announces[n].frame)
    {
      if f in Admitted(env, announces[..n], nid) {
        var i :| 0 <= i < n && Concerns(env, announces[..n][i], nid) && announces[..n][i].frame == f;
        assert Concerns(env, announces[i], nid) && announces[i].frame == f;
      }
      if f in Admitted(env, announces, nid) {
        var i :| 0 <= i < |announces| && Concerns(env, announces[i], nid) && announces[i].frame == f;
        if i < n {
          assert Concerns(env, announces[..n][i], nid) && announces[..n][i].frame == f;
        }
      }
    }
  }

  lemma StepShowsTheTop(env: Env, s: State, a: Announce, nid: string, before: set<Json>)
    requires Concerns(env, a, nid) && WellFormed(env, a.frame)
    requires Reflects(env, s, nid, before)
    ensures Reflects(env, Apply(env, s, a).0, nid, before + {a.frame})
  {
    var t, frames := Apply(env, s, a).0, before + {a.frame};
    if before == {} {
      HigherIsShown(env, s, a, nid);
      assert ShowsTop(env, t, nid, frames, a.frame);
    } else {
      var top :| ShowsTop(env, s, nid, before, top);
      if Seq(env, a.frame) > Seq(env, top) {
        HigherIsShown(env, s, a, nid);
        assert ShowsTop(env, t, nid, frames, a.frame);
      } else {
        NoHigherIsIgnored(env, s, a, nid, top);
        assert ShowsTop(env, t, nid, frames, top);
      }
    }
  }

  ghost function Highest(s: State, nid: string): Option<nat> {
    if nid in s.sequences then Some(s.sequences[nid]) else None
  }

  ghost function LiveDigest(s: State, nid: string): Option<string> {
    if nid in s.entries then Some(s.entries[nid].digest) else None
  }

  /** Two registries agree on a node: its highest sequence and its live signed body. */
  ghost predicate Agree(s: State, t: State, nid: string) {
    Highest(s, nid) == Highest(t, nid) && LiveDigest(s, nid) == LiveDigest(t, nid)
  }

  /** The frames of the highest sequence leave the same behind: all remove the node, or all carry one body. */
  ghost predicate TopAgrees(env: Env, frames: set<Json>) {
    forall f, g :: IsTop(env, frames, f) && IsTop(env, frames, g) ==> View(env, f) == View(env, g)
  }

  /** The same announces in some order, each any number of times. */
  ghost predicate Rearranges(one: seq<Announce>, other: seq<Announce>) {
    forall a :: a in one <==> a in other
  }

  lemma ShownIsView(env: Env, s: State, nid: string, f: Json)
    requires WellFormed(env, f) && Shows(env, s, nid, f)
    ensures Highest(s, nid) == Some(Seq(env, f)) && LiveDigest(s, nid) == View(env, f)
  {
  }

  /**
   Convergence: two registries that were given the same admissible frames for a node, in any
   order and with any repetition, agree on it, provided that the frames of the highest sequence do.
   */
  lemma RegistriesConverge(env: Env, one: seq<Announce>, other: seq<Announce>, nid: string)
    requires Admitted(env, one, nid) == Admitted(env, other, nid)
    requires TopAgrees(env, Admitted(env, one, nid))
    ensures Agree(Run(env, EMPTY, one), Run(env, EMPTY, other), nid)
  {
    var frames := Admitted(env, one, nid);
    RunShowsTheTop(env, one, nid);
    RunShowsTheTop(env, other, nid);
    if frames != {} {
      var f :| ShowsTop(env, Run(env, EMPTY, one), nid, frames, f);
      var g :| ShowsTop(env, Run(env, EMPTY, other), nid, frames, g);
      ShownIsView(env, Run(env, EMPTY, one), nid, f);
      ShownIsView(env, Run(env, EMPTY, other), nid, g);
    }
  }

  lemma AdmittedIsSome(env: Env, announces: seq<Announce>, nid: string, f: Json)
    ensures f in Admitted(env, announces, nid) <==>
            exists a :: a in announces && Concerns(env, a, nid) && a.frame == f
  {
    if f in Admitted(env, announces, nid) {
      var i :| 0 <= i < |announces| && Concerns(env, announces[i], nid) && announces[i].frame == f;
      assert announces[i] in announces;
    }
    if a :| a in announces && Concerns(env, a, nid) && a.frame == f {
      var i :| 0 <= i < |announces| && announces[i] == a;
    }
  }

  lemma RearrangedIsAdmitted(env: Env, one: seq<Announce>, other: seq<Announce>, nid: string)
    requires Rearranges(one, other)
    ensures Admitted(env, one, nid) == Admitted(env, other, nid)
  {
    forall f
      ensures f in Admitted(env, one, nid) <==> f in Admitted(env, other, nid)
    {
      AdmittedIsSome(env, one, nid, f);
      AdmittedIsSome(env, other, nid, f);
    }
  }

  /** Every admissible frame for the node has at most this sequence. */
  ghost predicate NoneAbove(env: Env, announces: seq<Announce>, nid: string, top: int) {
    forall i | 0 <= i < |announces| ::
      Concerns(env, announces[i], nid) && WellFormed(env, announces[i].frame) ==> Seq(env, announces[i].frame) <= top
  }

  lemma BelowAreLower(env: Env, announces: seq<Announce>, nid: string, top: int)
    requires NoneAbove(env, announces, nid, top)
    ensures var s := Run(env, EMPTY, announces); nid in s.sequences ==> s.sequences[nid] <= top
  {
    RunShowsTheTop(env, announces, nid);
    var frames := Admitted(env, announces, nid);
    if frames != {} {
      var f :| ShowsTop(env, Run(env, EMPTY, announces), nid, frames, f);
      var i :| 0 <= i < |announces| && Concerns(env, announces[i], nid) && announces[i].frame == f;
    }
  }

  /** Of the frames of the highest sequence, whatever their bodies, the first to arrive is the one shown. */
  lemma {:induction false} FirstOfTheTopStays(
    env: Env, before: seq<Announce>, a: Announce, after: seq<Announce>, nid: string)
    requires Concerns(env, a, nid) && WellFormed(env, a.frame)
    requires NoneAbove(env, before, nid, Seq(env, a.frame) - 1)
    requires NoneAbove(env, after, nid, Seq(env, a.frame))
    ensures Shows(env, Run(env, EMPTY, before + [a] + after), nid, a.frame)
    decreases |after|
  {
    var all := before + [a] + after;
    if after == [] {
      assert all[..|all| - 1] == before && all[|all| - 1] == a;
      BelowAreLower(env, before, nid, Seq(env, a.frame) - 1);
      HigherIsShown(env, Run(env, EMPTY, before), a, nid);
    } else {
      var n := |after| - 1;
      assert all[..|all| - 1] == before + [a] + after[..n] && all[|all| - 1] == after[n];
      FirstOfTheTopStays(env, before, a, after[..n], nid);
      var s := Run(env, EMPTY, before + [a] + after[..n]);
      if Concerns(env, after[n], nid) {
        CheckedIsWellFormed(env, after[n]);
        NoHigherIsIgnored(env, s, after[n], nid, a.frame);
      } else {
        InadmissibleIsIgnored(env, s, after[n], nid);
      }
    }
  }

  /** Moving one announce of the highest sequence to the front makes its frame the one shown. */
  lemma FrontIsShown(env: Env, one: seq<Announce>, i: nat, nid: string)
    requires i < |one| && Concerns(env, one[i], nid) && IsTop(env, Admitted(env, one, nid), one[i].frame)
    ensures Rearranges(one, [one[i]] + one)
    ensures LiveDigest(Run(env, EMPTY, [one[i]] + one), nid) == View(env, one[i].frame)
  {
    var a := one[i];
    assert forall j | 0 <= j < |one| :: Concerns(env, one[j], nid) ==> one[j].frame in Admitted(env, one, nid);
    assert [] + [a] + one == [a] + one;
    FirstOfTheTopStays(env, [], a, one, nid);
    ShownIsView(env, Run(env, EMPTY, [a] + one), nid, a.frame);
  }

  /** The registry ends the same under every order and repetition of the announces. */
  ghost predicate OrderIrrelevant(env: Env, one: seq<Announce>, nid: string) {
    forall other :: Rearranges(one, other) ==> Agree(Run(env, EMPTY, one), Run(env, EMPTY, other), nid)
  }

  lemma IrrelevantMeansAgreed(env: Env, one: seq<Announce>, nid: string, f: Json, g: Json)
    requires OrderIrrelevant(env, one, nid)
    requires IsTop(env, Admitted(env, one, nid), f) && IsTop(env, Admitted(env, one, nid), g)
    ensures View(env, f) == View(env, g)
  {
    var i :| 0 <= i < |one| && Concerns(env, one[i], nid) && one[i].frame == f;
    var j :| 0 <= j < |one| && Concerns(env, one[j], nid) && one[j].frame == g;
    FrontIsShown(env, one, i, nid);
    FrontIsShown(env, one, j, nid);
    assert Agree(Run(env, EMPTY, one), Run(env, EMPTY, [one[i]] + one), nid);
    assert Agree(Run(env, EMPTY, one), Run(env, EMPTY, [one[j]] + one), nid);
  }

  /** Exactly when order and repetition do not matter: when the frames of the highest sequence agree. */
  lemma OrderIsIrrelevantWhen(env: Env, one: seq<Announce>, nid: string)
    ensures OrderIrrelevant(env, one, nid) <==> TopAgrees(env, Admitted(env, one, nid))
  {
    var frames := Admitted(env, one, nid);
    if TopAgrees(env, frames) {
      forall other | Rearranges(one, other)
        ensures Agree(Run(env, EMPTY, one), Run(env, EMPTY, other), nid)
      {
        RearrangedIsAdmitted(env, one, other, nid);
        RegistriesConverge(env, one, other, nid);
      }
    }
    if OrderIrrelevant(env, one, nid) {
      forall f, g | IsTop(env, frames, f) && IsTop(env, frames, g)
        ensures View(env, f) == View(env, g)
      {
        IrrelevantMeansAgreed(env, one, nid, f, g);
      }
    }
  }

  // ---- cluster selection ---------------------------------------------------

  /** A live anchor of the cluster, with its epoch: one, if the frame names none. */
  predicate Serves(s: State, anchor: string, now: int, nid: string, epoch: nat) {
    && nid in s.entries && now < s.entries[nid].expiresAt && s.entries[nid].frame.Object?
    && var fields := s.entries[nid].frame.fields;
    && "cluster_anchor" in fields && fields["cluster_anchor"] == Str(anchor)
    && "node_roles" in fields && fields["node_roles"].Array? && Str("anchor") in fields["node_roles"].items
    && if "cluster_epoch" in fields && AsU64(fields["cluster_epoch"]).Some?
       then AsU64(fields["cluster_epoch"]) == Some(epoch)
       else epoch == 1
  }

  ghost predicate AboveAll(s: State, anchor: string, now: int, nid: string, epoch: nat) {
    forall other, e: nat :: Serves(s, anchor, now, other, e) && other != nid ==> e < epoch
  }

  lemma ServesIsMembers(s: State, anchor: string, now: int, nid: string, epoch: nat)
    ensures Serves(s, anchor, now, nid, epoch)
            <==> nid in Members(s, anchor, now) && Members(s, anchor, now)[nid] == epoch
  {
  }

  /** A leader is named exactly when one live anchor is strictly above all the others. */
  lemma LeaderIsAboveAll(s: State, anchor: string, now: int, nid: string, epoch: nat)
    ensures ResolveCluster(s, anchor, now) == Leader(nid, epoch) <==>
            Serves(s, anchor, now, nid, epoch) && AboveAll(s, anchor, now, nid, epoch)
  {
    var members := Members(s, anchor, now);
    ServesIsMembers(s, anchor, now, nid, epoch);
    if nid in members && members[nid] == epoch {
      assert members[nid] in members.Values;
      var top := MaxOf(members.Values);
      var leaders := set n | n in members && members[n] == top;
      var best :| best in members && members[best] == top;
      ServesIsMembers(s, anchor, now, best, top);
      if AboveAll(s, anchor, now, nid, epoch) {
        assert best == nid;
        forall n | n in leaders ensures n == nid {
          ServesIsMembers(s, anchor, now, n, top);
        }
        assert leaders == {nid};
      }
      if leaders == {nid} {
        forall other, e: nat | Serves(s, anchor, now, other, e) && other != nid ensures e < epoch {
          ServesIsMembers(s, anchor, now, other, e);
          assert members[other] in members.Values && other !in leaders;
        }
      }
    }
  }

  lemma NobodyServes(s: State, anchor: string, now: int)
    ensures ResolveCluster(s, anchor, now) == Nobody <==>
            forall nid, epoch :: !Serves(s, anchor, now, nid, epoch)
  {
    var members := Members(s, anchor, now);
    if members != map[] {
      var nid :| nid in members;
      assert Serves(s, anchor, now, nid, members[nid]);
    } else {
      forall nid, epoch ensures !Serves(s, anchor, now, nid, epoch) {
        assert nid !in members;
      }
    }
  }
}
