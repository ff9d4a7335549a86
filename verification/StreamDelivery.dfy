/** One in-process request: the goroutine that runs the handler, the caller in RoundTrip and then
    reading the body, and the request's context, interleaved step by step. */
module StreamDelivery {
  import opened Prelude
  import opened ResponseWriter
  import opened DoneTracker

  /** The handler before it answers, while it relays an event stream, while it produces another kind
      of response, blocked in a pipe write of either, and after it ended. */
  datatype Handler =
    | Starting
    | Relaying
    | Answering
    | WritingStream(last: bool)
    | WritingPlain
    | Gone

  datatype Caller = Waiting | Reading | Refused(cause: Option<Cause>)

  /** `pending` is what a blocked pipe write still offers, `relayed` all that was ever offered and
      `received` all that the caller read. `verdict` is what its read reported at the end. */
  datatype System = System(
    w: WriterState,
    handler: Handler,
    caller: Caller,
    pending: Bytes,
    relayed: Bytes,
    received: Bytes,
    verdict: Option<Close>,
    readerClosed: bool,
    cancelled: bool)

  const START := System(FRESH, Starting, Waiting, [], [], [], None, false, false)

  datatype Action =
    | Cancel
    | Answer(status: nat)
    | AnswerStream(status: nat)
    | PlainWrite(data: Bytes)
    | PlainReturn
    | UpstreamRead(data: Bytes, last: bool)
    | WriteFails
    | Panic
    | WakeUp
    | GiveUp
    | ReadBody(room: nat)
    | CloseBody

  predicate PipeDone(s: System) {
    s.readerClosed || s.w.pipe != Open
  }

  function End(s: System, err: Option<Cause>): System {
    s.(w := OnFinish(s.w, err), handler := Gone)
  }

  /** The upstream stream is over: the relay's verdict. */
  ghost function Conclude(s: System): System {
    End(s, if HasDoneLine(s.relayed) then None else Some(Aborted))
  }

  ghost function Wrote(s: System): System {
    match s.handler
    case WritingStream(last) => if last then Conclude(s) else s.(handler := Relaying)
    case WritingPlain => s.(handler := Answering)
    case _ => s
  }

  /** A pipe write begins; if either side is closed already it fails at once. */
  ghost function Offer(s: System, data: Bytes, blocked: Handler, failed: System): System {
    if PipeDone(s) then failed
    else s.(w := OnWriteHeader(s.w, 200), handler := blocked, pending := data, relayed := s.relayed + data)
  }

  /** One step; an action that cannot happen changes nothing. */
  ghost function Step(s: System, a: Action): System {
    match a
    case Cancel => s.(cancelled := true)
    case Answer(status) =>
      if s.handler != Starting then s
      else s.(w := OnWriteHeader(s.w.(header := Plain), status), handler := Answering)
    case AnswerStream(status) =>
      if s.handler != Starting then s
      else s.(w := OnWriteHeader(s.w.(header := EventStream), status), handler := Relaying)
    case PlainWrite(data) =>
      if s.handler != Answering || data == [] then s
      else Offer(s, data, WritingPlain, s)
    case PlainReturn => if s.handler in {Starting, Answering} then End(s, None) else s
    case UpstreamRead(data, last) =>
      if s.handler != Relaying then s
      else if data != [] then Offer(s, data, WritingStream(last), End(s, None))
      else if last then Conclude(s)
      else s
    case WriteFails =>
      if !PipeDone(s) then s
      else (match s.handler
            case WritingStream(_) => End(s, None).(pending := [])
            case WritingPlain => s.(handler := Answering, pending := [])
            case _ => s)
    case Panic =>
      if s.handler in {Starting, Relaying, Answering} then End(s, Some(Panicked)) else s
    case WakeUp =>
      if s.caller != Waiting || !s.w.ready then s
      else if s.cancelled then s.(readerClosed := true, caller := Refused(Some(Cancelled)))
      else if s.w.terminalErr.Some? then s.(readerClosed := true, caller := Refused(s.w.terminalErr))
      else if s.w.status == 0 then s.(readerClosed := true, caller := Refused(None))
      else s.(caller := Reading)
    case GiveUp =>
      if s.caller != Waiting || !s.cancelled then s
      else s.(w := OnFinish(s.w, Some(Cancelled)), readerClosed := true, caller := Refused(Some(Cancelled)))
    case ReadBody(room) =>
      if s.caller != Reading || s.readerClosed || room == 0 then s
      else if s.w.pipe != Open then s.(verdict := Some(s.w.pipe))
      else if s.pending == [] then s
      else
        var n := Min(room, |s.pending|);
        var t := s.(received := s.received + s.pending[..n], pending := s.pending[n..]);
        if t.pending == [] then Wrote(t) else t
    case CloseBody =>
      if s.caller != Reading then s else s.(readerClosed := true)
  }

  ghost function Run(s: System, actions: seq<Action>): System {
    if actions == [] then s else Step(Run(s, actions[..|actions| - 1]), actions[|actions| - 1])
  }

  ghost predicate Streams(s: System) {
    s.w.responseHeader == Some(EventStream)
  }

  ghost predicate Inv(s: System) {
    && Sound(s.w)
    && (s.handler == Gone ==> s.w.finished)
    && (s.handler == Starting ==> s.w.responseHeader.None? && s.w.header == Plain)
    && (s.handler != Starting ==> s.w.ready)
    && (s.w.finished && s.caller in {Waiting, Reading} ==> s.handler == Gone)
    && (s.handler in {Relaying, WritingStream(true), WritingStream(false)} && s.caller in {Waiting, Reading} ==>
          Streams(s))
    && (s.handler in {Answering, WritingPlain} ==> !Streams(s))
    && (s.caller == Waiting ==> !s.readerClosed && s.verdict.None?)
    && (s.caller != Reading ==> s.received == [])
    && (s.caller.Refused? ==> s.readerClosed && s.verdict.None?)
    && (s.caller == Reading ==> s.w.responseHeader.Some?)
    && (s.pending != [] ==> s.handler in {WritingStream(true), WritingStream(false), WritingPlain})
    && (!s.readerClosed ==> s.received + s.pending == s.relayed)
    && (!s.readerClosed && s.w.pipe == Clean && Streams(s) ==> HasDoneLine(s.relayed))
    && (s.w.pipe == Failed(Aborted) ==> !HasDoneLine(s.relayed))
    && (s.w.pipe == Failed(Aborted) && s.caller in {Waiting, Reading} ==> Streams(s))
    && (s.w.pipe == Failed(Cancelled) ==> s.caller.Refused?)
    && (s.verdict.Some? ==> s.w.finished && s.handler == Gone && s.verdict.value == s.w.pipe && s.pending == []
                            && s.received == s.relayed && (s.w.pipe == Clean && Streams(s) ==> HasDoneLine(s.relayed)))
  }

  predicate ByHandler(a: Action) {
    a.Answer? || a.AnswerStream? || a.PlainWrite? || a.PlainReturn? || a.UpstreamRead? || a.WriteFails? || a.Panic?
  }

  lemma UpstreamKeepsInv(s: System, a: Action)
    requires Inv(s) && a.UpstreamRead?
    ensures Inv(Step(s, a))
  {
  }

  lemma HandlerKeepsInv(s: System, a: Action)
    requires Inv(s) && ByHandler(a)
    ensures Inv(Step(s, a))
  {
    if a.UpstreamRead? {
      UpstreamKeepsInv(s, a);
    }
  }

  lemma ReadingKeepsInv(s: System, a: Action)
    requires Inv(s) && a.ReadBody?
    ensures Inv(Step(s, a))
  {
  }

  lemma CallerKeepsInv(s: System, a: Action)
    requires Inv(s) && !ByHandler(a) && !a.ReadBody?
    ensures Inv(Step(s, a))
  {
  }

  lemma StepKeepsInv(s: System, a: Action)
    requires Inv(s)
    ensures Inv(Step(s, a))
  {
    if ByHandler(a) {
      HandlerKeepsInv(s, a);
    } else if a.ReadBody? {
      ReadingKeepsInv(s, a);
    } else {
      CallerKeepsInv(s, a);
    }
  }

  lemma FinishedStays(s: System, a: Action)
    requires Inv(s) && s.w.finished
    ensures Step(s, a).w.finished && Step(s, a).w.pipe == s.w.pipe
  {
  }

  lemma {:induction false} RunKeepsInv(s: System, actions: seq<Action>)
    requires Inv(s)
    ensures Inv(Run(s, actions))
    ensures s.w.finished ==> Run(s, actions).w.finished && Run(s, actions).w.pipe == s.w.pipe
  {
    if actions != [] {
      var before, a := actions[..|actions| - 1], actions[|actions| - 1];
      RunKeepsInv(s, before);
      StepKeepsInv(Run(s, before), a);
      if s.w.finished {
        FinishedStays(Run(s, before), a);
      }
    }
  }

  /** End to end, over every interleaving: a caller that was given an event stream and read its body
      to an end has received all that was relayed. A clean end means that a whole line of it is the
      terminator; an aborted one means that none is; and no other end but a panic's is ever seen. */
  lemma StreamVerdict(actions: seq<Action>)
    ensures var s := Run(START, actions);
            Streams(s) && s.verdict.Some? ==>
              && s.received == s.relayed
              && s.verdict.value != Open && s.verdict.value != Failed(Cancelled)
              && (s.verdict.value == Clean ==> HasDoneLine(s.received))
              && (s.verdict.value == Failed(Aborted) ==> !HasDoneLine(s.received))
  {
    RunKeepsInv(START, actions);
  }

  /** A response of another kind: read to an end, it has been received whole, and it ends cleanly unless
      the handler panicked. */
  lemma PlainVerdict(actions: seq<Action>)
    ensures var s := Run(START, actions);
            !Streams(s) && s.verdict.Some? ==>
              s.received == s.relayed && (s.verdict.value == Clean || s.verdict.value == Failed(Panicked))
  {
    RunKeepsInv(START, actions);
    if !Streams(Run(START, actions)) && Run(START, actions).verdict.Some? {
      PlainEnds(Run(START, actions));
    }
  }

  lemma PlainEnds(s: System)
    requires Inv(s) && !Streams(s) && s.verdict.Some?
    ensures s.verdict.value == Clean || s.verdict.value == Failed(Panicked)
  {
    assert s.caller == Reading && s.verdict.value == s.w.pipe;
    match s.w.pipe
    case Open =>
    case Clean =>
    case Failed(cause) => assert cause != Aborted && cause != Cancelled;
  }

  /** A handler that returns from such a response, or without any, ends the body cleanly at the caller's
      next read; a caller still waiting is answered first. */
  lemma ReturnEnds(before: seq<Action>)
    ensures ReturnsClean(Run(START, before))
  {
    RunKeepsInv(START, before);
    ReturnShows(Run(START, before));
  }

  ghost predicate ReturnsClean(s: System) {
    && (s.handler == Answering && s.caller == Reading && !s.readerClosed ==>
          Step(Step(s, PlainReturn), ReadBody(1)).verdict == Some(Clean))
    && (s.handler == Starting && s.caller == Waiting && !s.cancelled ==>
          Step(Step(Step(s, PlainReturn), WakeUp), ReadBody(1)).verdict == Some(Clean))
  }

  lemma ReturnShows(s: System)
    requires Inv(s)
    ensures ReturnsClean(s)
  {
  }

  /** An upstream stream that is over with a terminator among its lines ends the body cleanly at the
      caller's next read, however the stream stopped. */
  lemma TerminatorEnds(before: seq<Action>)
    requires Run(START, before).handler == Relaying && HasDoneLine(Run(START, before).relayed)
    requires Run(START, before).caller == Reading && !Run(START, before).readerClosed
    ensures Step(Step(Run(START, before), UpstreamRead([], true)), ReadBody(1)).verdict == Some(Clean)
  {
    RunKeepsInv(START, before);
  }

  predicate Opens(a: Action) {
    a.Answer? || a.AnswerStream? || a.PlainReturn? || a.Panic?
  }

  /** The first thing that the handler does to its response: answer, return, or panic. */
  function Opening(actions: seq<Action>): Option<Action> {
    if actions == [] then None
    else
      var before, a := Opening(actions[..|actions| - 1]), actions[|actions| - 1];
      if before.Some? then before else if Opens(a) then Some(a) else None
  }

  /** The status and kind that an opening gives a response. */
  predicate Gives(a: Action, status: nat, kind: Kind) {
    match a
    case Answer(s) => status == s && kind == Plain
    case AnswerStream(s) => status == s && kind == EventStream
    case PlainReturn => status == 200 && kind == Plain
    case _ => false
  }

  ghost predicate OpenedBy(s: System, opening: Option<Action>) {
    && (s.handler == Starting <==> opening.None?)
    && (s.w.responseHeader.Some? ==> opening.Some? && Gives(opening.value, s.w.status, s.w.responseHeader.value))
  }

  lemma StepKeepsOpening(s: System, a: Action, opening: Option<Action>)
    requires Inv(s) && OpenedBy(s, opening)
    ensures OpenedBy(Step(s, a), if opening.None? && Opens(a) then Some(a) else opening)
  {
  }

  lemma {:induction false} RunKeepsOpening(actions: seq<Action>)
    ensures OpenedBy(Run(START, actions), Opening(actions))
  {
    if actions != [] {
      var before := actions[..|actions| - 1];
      RunKeepsOpening(before);
      RunKeepsInv(START, before);
      StepKeepsOpening(Run(START, before), actions[|actions| - 1], Opening(before));
    }
  }

  /** A caller that was given a response has the status and the kind that the handler answered with first,
      or 200 if it returned without an answer. */
  lemma StatusIsTheFirst(actions: seq<Action>)
    ensures var s := Run(START, actions);
            s.caller == Reading ==>
              && Opening(actions).Some? && s.w.responseHeader.Some?
              && Gives(Opening(actions).value, s.w.status, s.w.responseHeader.value)
  {
    RunKeepsOpening(actions);
    RunKeepsInv(START, actions);
  }

  /** An answer wakes the caller, who may then read, unless the request was cancelled or the status is none. */
  lemma AnswerIsRead(before: seq<Action>, status: nat)
    requires var s := Run(START, before); s.handler == Starting && s.caller == Waiting && !s.cancelled
    ensures forall answer :: answer in {Answer(status), AnswerStream(status)} ==>
              Step(Step(Run(START, before), answer), WakeUp).caller == if status == 0 then Refused(None) else Reading
  {
    RunKeepsInv(START, before);
  }

  /** What the handler writes, or relays, is what the caller reads next, and the handler goes on. */
  lemma WritesArrive(before: seq<Action>, data: Bytes)
    requires var s := Run(START, before); s.caller == Reading && !s.readerClosed && data != []
    ensures var s := Run(START, before);
            && (s.handler == Answering ==> Arrives(s, PlainWrite(data), data))
            && (s.handler == Relaying ==> Arrives(s, UpstreamRead(data, false), data))
  {
    RunKeepsInv(START, before);
    WriteArrives(Run(START, before), data);
  }

  ghost predicate Arrives(s: System, write: Action, data: Bytes) {
    var s' := Step(Step(s, write), ReadBody(|data|));
    s'.received == s.received + data && s'.handler == s.handler && s'.caller == Reading
  }

  lemma WriteArrives(s: System, data: Bytes)
    requires Inv(s) && s.caller == Reading && !s.readerClosed && data != []
    ensures s.handler == Answering ==> Arrives(s, PlainWrite(data), data)
    ensures s.handler == Relaying ==> Arrives(s, UpstreamRead(data, false), data)
  {
    assert data[..|data|] == data;
  }

  /** Once the caller closes the body, the relay ends with the next data that it gets, none of which is
      relayed; a blocked write fails and ends it likewise. */
  lemma ClosedBodyEndsRelay(s: System, data: Bytes, last: bool)
    requires s.caller == Reading && data != []
    ensures s.handler == Relaying ==>
              var s' := Step(Step(s, CloseBody), UpstreamRead(data, last));
              s'.handler == Gone && s'.relayed == s.relayed
    ensures s.handler == WritingStream(last) ==> Step(Step(s, CloseBody), WriteFails).handler == Gone
  {
  }

  /** A caller that waits when its request is cancelled can give up at once, with the cancellation. */
  lemma CancelReleasesTheCaller(before: seq<Action>)
    requires Run(START, before).caller == Waiting
    ensures var s := Step(Step(Run(START, before), Cancel), GiveUp);
            s.caller == Refused(Some(Cancelled)) && s.readerClosed && s.w.pipe != Open
  {
    RunKeepsInv(START, before);
  }

  /** Once the pipe is closed with a failure, that failure is the only end its reader can see. */
  lemma FailureSticks(s: System, after: seq<Action>, cause: Cause)
    requires Inv(s) && s.w.pipe == Failed(cause)
    ensures Run(s, after).verdict in {None, Some(Failed(cause))}
  {
    RunKeepsInv(s, after);
    VerdictIsThePipes(Run(s, after));
  }

  /** A panic of the handler, whenever it happens, leaves the body no other end than that panic, and it is
      what the caller's next read reports. */
  lemma PanicSurfaces(before: seq<Action>, after: seq<Action>)
    requires Run(START, before).handler in {Starting, Relaying, Answering}
    ensures Run(Step(Run(START, before), Panic), after).verdict in {None, Some(Failed(Panicked))}
    ensures forall room :: room > 0 && Run(START, before).caller == Reading && !Run(START, before).readerClosed ==>
              Step(Step(Run(START, before), Panic), ReadBody(room)).verdict == Some(Failed(Panicked))
  {
    var s := Run(START, before);
    RunKeepsInv(START, before);
    PanicShows(s);
    StepKeepsInv(s, Panic);
    if s.caller.Refused? {
      RefusedStays(Step(s, Panic), after);
    } else {
      FailureSticks(Step(s, Panic), after, Panicked);
    }
  }

  lemma PanicShows(s: System)
    requires Inv(s) && s.handler in {Starting, Relaying, Answering}
    ensures forall room :: room > 0 && s.caller == Reading && !s.readerClosed ==>
              Step(Step(s, Panic), ReadBody(room)).verdict == Some(Failed(Panicked))
  {
  }

  /** A caller still waiting when the handler panics without having answered gets the panic as its error,
      unless its request was cancelled. */
  lemma PanicRefuses(before: seq<Action>, after: seq<Action>)
    requires Run(START, before).handler == Starting && Run(START, before).caller == Waiting
    ensures Run(Step(Run(START, before), Panic), after).caller
            in {Waiting, Refused(Some(Panicked)), Refused(Some(Cancelled))}
  {
    RunKeepsInv(START, before);
    RunKeepsPanic(Step(Run(START, before), Panic), after);
  }

  ghost predicate PanicPending(s: System) {
    && s.w.finished && s.w.ready && s.w.terminalErr == Some(Panicked)
    && s.caller in {Waiting, Refused(Some(Panicked)), Refused(Some(Cancelled))}
    && s.handler == Gone
  }

  lemma {:induction false} RunKeepsPanic(s: System, after: seq<Action>)
    requires PanicPending(s)
    ensures PanicPending(Run(s, after))
  {
    if after != [] {
      RunKeepsPanic(s, after[..|after| - 1]);
    }
  }

  /** The upstream stream is over without a terminator, but the last of it may still be on its way. */
  ghost predicate Doomed(s: System) {
    || (s.handler == WritingStream(true) && !HasDoneLine(s.relayed) && s.verdict.None?)
    || (s.w.finished && s.w.pipe == Failed(Aborted))
    || (s.readerClosed && s.verdict.None?)
  }

  lemma StepKeepsDoomed(s: System, a: Action)
    requires Inv(s) && Doomed(s)
    ensures Doomed(Step(s, a))
  {
  }

  lemma {:induction false} RunKeepsDoomed(s: System, after: seq<Action>)
    requires Inv(s) && Doomed(s)
    ensures Doomed(Run(s, after)) && Inv(Run(s, after))
  {
    if after != [] {
      RunKeepsDoomed(s, after[..|after| - 1]);
      StepKeepsDoomed(Run(s, after[..|after| - 1]), after[|after| - 1]);
      StepKeepsInv(Run(s, after[..|after| - 1]), after[|after| - 1]);
    }
  }

  lemma EndWithoutTerminator(s: System, data: Bytes)
    requires Inv(s) && s.handler == Relaying && !HasDoneLine(s.relayed + data)
    ensures Doomed(Step(s, UpstreamRead(data, true)))
    ensures data == [] && s.caller == Reading && !s.readerClosed ==>
              Step(Step(s, UpstreamRead(data, true)), ReadBody(1)).verdict == Some(Failed(Aborted))
  {
    if data == [] {
      assert s.relayed + data == s.relayed;
    }
  }

  /** An upstream stream that is over, cleanly or cut, before any of its lines was the terminator leaves
      the body no other end than the abort, whether or not its last read still brought data; if it brought
      none, the abort is what the caller's next read reports. */
  lemma AbortSurfaces(before: seq<Action>, data: Bytes, after: seq<Action>)
    requires Run(START, before).handler == Relaying && !HasDoneLine(Run(START, before).relayed + data)
    ensures Run(Step(Run(START, before), UpstreamRead(data, true)), after).verdict in {None, Some(Failed(Aborted))}
    ensures data == [] && Run(START, before).caller == Reading && !Run(START, before).readerClosed ==>
              Step(Step(Run(START, before), UpstreamRead(data, true)), ReadBody(1)).verdict == Some(Failed(Aborted))
  {
    var s := Run(START, before);
    var t := Step(s, UpstreamRead(data, true));
    RunKeepsInv(START, before);
    StepKeepsInv(s, UpstreamRead(data, true));
    EndWithoutTerminator(s, data);
    DoomedEnds(t, after);
  }

  lemma DoomedEnds(s: System, after: seq<Action>)
    requires Inv(s) && Doomed(s)
    ensures Run(s, after).verdict in {None, Some(Failed(Aborted))}
  {
    RunKeepsDoomed(s, after);
    VerdictIsThePipes(Run(s, after));
  }

  /** A caller whose request is cancelled while it waits gets the cancellation, and nothing else, ever. */
  lemma CancellationSurfaces(before: seq<Action>, after: seq<Action>)
    requires Run(START, before).caller == Waiting && Run(START, before).cancelled
    ensures var s := Run(Step(Run(START, before), GiveUp), after);
            s.caller == Refused(Some(Cancelled)) && s.received == [] && s.verdict.None?
  {
    RunKeepsInv(START, before);
    StepKeepsInv(Run(START, before), GiveUp);
    RefusedStays(Step(Run(START, before), GiveUp), after);
  }

  lemma VerdictIsThePipes(s: System)
    requires Inv(s)
    ensures s.verdict in {None, Some(s.w.pipe)}
    ensures s.verdict.Some? ==> s.w.pipe == Clean || s.w.pipe.Failed?
    ensures s.w.pipe.Failed? ==> s.w.finished
  {
  }

  /** Every way out of RoundTrip but a response is an error and shows nothing, then or later. */
  lemma RefusedCallersSeeNothing(before: seq<Action>, after: seq<Action>)
    requires Run(START, before).caller.Refused?
    ensures var s := Run(Run(START, before), after);
            s.caller == Run(START, before).caller && s.received == [] && s.verdict.None?
  {
    RunKeepsInv(START, before);
    RefusedStays(Run(START, before), after);
  }

  lemma {:induction false} RefusedStays(s: System, actions: seq<Action>)
    requires Inv(s) && s.caller.Refused? && s.received == []
    ensures var t := Run(s, actions); t.caller == s.caller && t.received == [] && t.verdict.None?
  {
    if actions != [] {
      RefusedStays(s, actions[..|actions| - 1]);
    }
  }

  /** A request cancelled before RoundTrip answered gets no response any more, even if the handler has
      one ready: all that can still come of it is the cancellation as an error. */
  lemma {:induction false} CancelledIsNotAnswered(s: System, after: seq<Action>)
    requires s.cancelled && s.caller in {Waiting, Refused(Some(Cancelled))}
    ensures Run(s, after).cancelled && Run(s, after).caller in {Waiting, Refused(Some(Cancelled))}
  {
    if after != [] {
      CancelledIsNotAnswered(s, after[..|after| - 1]);
    }
  }
}
