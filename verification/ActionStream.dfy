/**
 The stream writer of the action server and the replay of a finished stream. A producer is whatever
 it turns out to do: the frames it emits, in order, each with the state of the cancellation flag at
 that moment, and its final result. It may go on after an emit was refused.
 */
module ActionStream {
  import opened Wrappers
  import opened Bytes
  import J = Json

  datatype Frame = Frame(
    streamId: string,
    seqNo: nat,
    isLast: bool,
    anchorRef: Option<string>,
    data: seq<J.Json>,
    windowSize: Option<nat>,
    errorCode: Option<string>)

  datatype Emission = Emission(frame: Frame, cancelled: bool)

  /** The error codes of the writer's own refusals. */
  const INTERNAL := "NWP-NODE-UNAVAILABLE"

  /** What a producer returns: `None`, or the code of its error. */
  type Outcome = Option<string>

  /** What the writer has put out so far. */
  datatype Output = Output(emitted: seq<Frame>, terminal: bool)

  const NOTHING := Output([], false)

  predicate Refuses(out: Output, f: Frame, cancelled: bool) {
    || cancelled
    || out.terminal
    || f.seqNo != |out.emitted|
    || (f.errorCode.Some? && !f.isLast)
  }

  function AfterEmit(streamId: string, out: Output, e: Emission): Output {
    if Refuses(out, e.frame, e.cancelled) then out
    else Output(out.emitted + [e.frame.(streamId := streamId)], e.frame.isLast)
  }

  function EmitAll(streamId: string, script: seq<Emission>): Output {
    if script == [] then NOTHING
    else AfterEmit(streamId, EmitAll(streamId, script[..|script| - 1]), script[|script| - 1])
  }

  /** The producer's own failure, or that it never came to a terminal frame. */
  function FailureOf(out: Output, outcome: Outcome): Option<string> {
    if outcome.Some? then outcome
    else if !out.terminal then Some(INTERNAL)
    else None
  }

  function ErrorFrame(streamId: string, seqNo: nat, code: string): Frame {
    Frame(streamId, seqNo, true, None, [], None, Some(code))
  }

  /** The frames that go out, and the stream to keep for replay if it is complete. */
  function WriteStream(streamId: string, script: seq<Emission>, outcome: Outcome, cancelledAtEnd: bool)
    : (seq<Frame>, Option<seq<Frame>>)
  {
    var out := EmitAll(streamId, script);
    var failure := FailureOf(out, outcome);
    if failure.Some? && !out.terminal && !cancelledAtEnd then
      (out.emitted + [ErrorFrame(streamId, |out.emitted|, failure.value)], None)
    else if failure.None? && out.emitted != [] && out.emitted[|out.emitted| - 1].errorCode.None? then
      (out.emitted, Some(out.emitted))
    else (out.emitted, None)
  }

  function Lines(encode: Frame -> seq<Byte>, frames: seq<Frame>): seq<Byte> {
    if frames == [] then []
    else Lines(encode, frames[..|frames| - 1]) + encode(frames[|frames| - 1]) + [10]
  }

  // ---- the writer ----------------------------------------------------------

  /** The variables that the emit closure captures. */
  class StreamWriter {
    const streamId: string
    const encode: Frame -> seq<Byte>
    var emitted: seq<Frame>
    var body: seq<Byte>
    var nextSeq: nat
    var terminal: bool

    ghost predicate Valid()
      reads this
    {
      nextSeq == |emitted| && body == Lines(encode, emitted)
    }

    ghost function Contents(): Output
      reads this
    {
      Output(emitted, terminal)
    }

    constructor (streamId: string, encode: Frame -> seq<Byte>)
      ensures this.streamId == streamId && this.encode == encode
      ensures Valid() && Contents() == NOTHING
    {
      this.streamId, this.encode := streamId, encode;
      emitted, body, nextSeq, terminal := [], [], 0, false;
    }

    method Append(frame: Frame)
      requires Valid()
      modifies `emitted, `body
      ensures emitted == old(emitted) + [frame] && body == Lines(encode, emitted)
    {
      body := body + encode(frame);
      body := body + [10];
      emitted := emitted + [frame];
      assert emitted[..|emitted| - 1] == old(emitted);
    }

    method Emit(supplied: Frame, cancelled: bool) returns (ok: bool)
      requires Valid()
      modifies this
      ensures Valid()
      ensures Contents() == AfterEmit(streamId, old(Contents()), Emission(supplied, cancelled))
      ensures ok <==> !Refuses(old(Contents()), supplied, cancelled)
    {
      if cancelled {
        return false;
      }
      if terminal {
        return false;
      }
      if supplied.seqNo != nextSeq {
        return false;
      }
      if supplied.errorCode.Some? && !supplied.isLast {
        return false;
      }
      Append(supplied.(streamId := streamId));
      nextSeq := nextSeq + 1;
      terminal := supplied.isLast;
      return true;
    }

    /** What follows once the producer has returned. */
    method Finish(outcome: Outcome, cancelledAtEnd: bool) returns (completed: Option<seq<Frame>>)
      requires Valid()
      modifies this
      ensures body == Lines(encode, emitted)
      ensures var failure := FailureOf(old(Contents()), outcome);
              emitted == if failure.Some? && !old(terminal) && !cancelledAtEnd
                         then old(emitted) + [ErrorFrame(streamId, |old(emitted)|, failure.value)]
                         else old(emitted)
      ensures completed == if FailureOf(old(Contents()), outcome).None? && emitted != []
                              && emitted[|emitted| - 1].errorCode.None? then Some(emitted) else None
    {
      var failure := outcome;
      if failure.None? && !terminal {
        failure := Some(INTERNAL);
      }
      if failure.Some? && !terminal && !cancelledAtEnd {
        Append(ErrorFrame(streamId, nextSeq, failure.value));
      }
      completed := if failure.None? && emitted != [] && emitted[|emitted| - 1].errorCode.None?
      then Some(emitted) else None;
    }
  }

  method WriteStreamTo(
    streamId: string, encode: Frame -> seq<Byte>, script: seq<Emission>, outcome: Outcome, cancelledAtEnd: bool)
    returns (body: seq<Byte>, completed: Option<seq<Frame>>)
    ensures var (frames, kept) := WriteStream(streamId, script, outcome, cancelledAtEnd);
            body == Lines(encode, frames) && completed == kept
  {
    var writer := new StreamWriter(streamId, encode);
    var i := 0;
    while i < |script|
      invariant 0 <= i <= |script|
      invariant writer.Valid() && writer.streamId == streamId && writer.encode == encode
      invariant writer.Contents() == EmitAll(streamId, script[..i])
    {
      assert script[..i + 1][..i] == script[..i];
      var _ := writer.Emit(script[i].frame, script[i].cancelled);
      i := i + 1;
    }
    assert script[..i] == script;
    completed := writer.Finish(outcome, cancelledAtEnd);
    body := writer.body;
  }

  // ---- what every stream promises ------------------------------------------

  /** Numbered from zero under one id, an error only on the last frame, nothing after a last frame. */
  ghost predicate WellFormed(streamId: string, frames: seq<Frame>) {
    && (forall i :: 0 <= i < |frames| ==> frames[i].streamId == streamId && frames[i].seqNo == i)
    && (forall i :: 0 <= i < |frames| && frames[i].isLast ==> i == |frames| - 1)
    && (forall i :: 0 <= i < |frames| && frames[i].errorCode.Some? ==> frames[i].isLast)
  }

  ghost predicate Ends(frames: seq<Frame>) {
    frames != [] && frames[|frames| - 1].isLast
  }

  lemma {:induction false} EmittedIsWellFormed(streamId: string, script: seq<Emission>)
    ensures var out := EmitAll(streamId, script);
            WellFormed(streamId, out.emitted) && (out.terminal <==> Ends(out.emitted))
  {
    if script != [] {
      EmittedIsWellFormed(streamId, script[..|script| - 1]);
    }
  }

  /**
   Whatever the producer does, the frames that go out are well formed; they have their terminal
   frame unless the stream was cancelled, and a stream is kept as complete exactly when the
   producer succeeded and closed it with a terminal frame that is no error.
   */
  lemma EveryStreamIsWellFormed(streamId: string, script: seq<Emission>, outcome: Outcome, cancelledAtEnd: bool)
    ensures var (frames, kept) := WriteStream(streamId, script, outcome, cancelledAtEnd);
            && WellFormed(streamId, frames)
            && (!cancelledAtEnd ==> Ends(frames))
            && (kept.Some? <==> outcome.None? && Ends(frames) && frames[|frames| - 1].errorCode.None?)
            && (kept.Some? ==> kept.value == frames && forall i :: 0 <= i < |frames| ==> frames[i].errorCode.None?)
  {
    EmittedIsWellFormed(streamId, script);
  }

  // ---- replay --------------------------------------------------------------

  /** The replaying producer: it stops at the first refusal, which it passes on. */
  function ReplayScript(streamId: string, frames: seq<Frame>, k: nat, out: Output): (seq<Emission>, Outcome)
    requires k <= |frames|
    decreases |frames| - k
  {
    if k == |frames| then ([], None)
    else
      var e := Emission(frames[k], false);
      if Refuses(out, frames[k], false) then ([e], Some(INTERNAL))
      else
        var (rest, outcome) := ReplayScript(streamId, frames, k + 1, AfterEmit(streamId, out, e));
        ([e] + rest, outcome)
  }

  function Renamed(streamId: string, frames: seq<Frame>): (r: seq<Frame>)
    ensures |r| == |frames|
  {
    seq(|frames|, i requires 0 <= i < |frames| => frames[i].(streamId := streamId))
  }

  ghost function Script(frames: seq<Frame>): seq<Emission> {
    seq(|frames|, i requires 0 <= i < |frames| => Emission(frames[i], false))
  }

  /** Nothing of a well-formed stream is refused on replay. */
  lemma {:induction false} ReplayEmits(oldId: string, streamId: string, frames: seq<Frame>)
    requires WellFormed(oldId, frames)
    ensures EmitAll(streamId, Script(frames)) == Output(Renamed(streamId, frames), Ends(frames))
    decreases |frames|
  {
    if frames != [] {
      var n := |frames| - 1;
      ReplayEmits(oldId, streamId, frames[..n]);
      assert Script(frames)[..n] == Script(frames[..n]);
      assert Renamed(streamId, frames) == Renamed(streamId, frames[..n]) + [frames[n].(streamId := streamId)];
      assert !Ends(frames[..n]);
    }
  }

  lemma {:induction false} ReplayRunsThrough(oldId: string, streamId: string, frames: seq<Frame>, k: nat)
    requires WellFormed(oldId, frames) && k <= |frames|
    ensures ReplayScript(streamId, frames, k, EmitAll(streamId, Script(frames[..k]))) == (Script(frames)[k..], None)
    decreases |frames| - k
  {
    if k < |frames| {
      ReplayEmits(oldId, streamId, frames[..k]);
      assert !Ends(frames[..k]);
      assert Script(frames[..k + 1])[..k] == Script(frames[..k]);
      ReplayRunsThrough(oldId, streamId, frames, k + 1);
      assert Script(frames)[k..] == [Emission(frames[k], false)] + Script(frames)[k + 1..];
    }
  }

  /** Replaying a stream that was kept as complete gives the same stream under a new id, again complete. */
  lemma ReplayReproduces(
    oldId: string, script: seq<Emission>, outcome: Outcome, cancelledAtEnd: bool, streamId: string)
    requires WriteStream(oldId, script, outcome, cancelledAtEnd).1.Some?
    ensures var kept := WriteStream(oldId, script, outcome, cancelledAtEnd).1.value;
            var (replay, result) := ReplayScript(streamId, kept, 0, NOTHING);
            WriteStream(streamId, replay, result, false) == (Renamed(streamId, kept), Some(Renamed(streamId, kept)))
  {
    EveryStreamIsWellFormed(oldId, script, outcome, cancelledAtEnd);
    var kept := WriteStream(oldId, script, outcome, cancelledAtEnd).1.value;
    assert kept[..0] == [] && Script([]) == [];
    ReplayRunsThrough(oldId, streamId, kept, 0);
    assert Script(kept)[0..] == Script(kept);
    ReplayEmits(oldId, streamId, kept);
  }
}
