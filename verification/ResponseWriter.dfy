/** The response writer of the in-process transport: a status that is set once, a pipe that is closed
    once, and a channel that tells the waiting caller that one of the two happened. */
module ResponseWriter {
  import opened Prelude

  datatype Kind = Plain | EventStream

  /** Why a response fails: the handler aborted it, panicked otherwise, or the request was cancelled. */
  datatype Cause = Aborted | Panicked | Cancelled

  /** How the write side of the pipe was closed. */
  datatype Close = Open | Clean | Failed(cause: Cause)

  datatype WriterState = WriterState(
    header: Kind,
    responseHeader: Option<Kind>,
    status: nat,
    terminalErr: Option<Cause>,
    ready: bool,
    finished: bool,
    pipe: Close)

  const FRESH := WriterState(Plain, None, 0, None, false, false, Open)

  function OnWriteHeader(w: WriterState, status: nat): WriterState {
    if w.ready then w else w.(status := status, responseHeader := Some(w.header), ready := true)
  }

  /** The pipe keeps the first close. */
  function OnClose(w: WriterState, how: Close): WriterState {
    if w.pipe == Open then w.(pipe := how) else w
  }

  function OnFinish(w: WriterState, err: Option<Cause>): WriterState {
    if w.finished then w
    else
      var f := w.(finished := true);
      match err
      case Some(cause) => OnClose(if f.ready then f else f.(terminalErr := err, ready := true), Failed(cause))
      case None => OnClose(OnWriteHeader(f, 200), Clean)
  }

  class InProcessResponseWriter {
    var header: Kind
    var responseHeader: Option<Kind>
    var status: nat
    var terminalErr: Option<Cause>
    var readyDone: bool
    var finishDone: bool
    var pipe: Close

    constructor ()
      ensures State() == FRESH
    {
      header, responseHeader, status, terminalErr := Plain, None, 0, None;
      readyDone, finishDone, pipe := false, false, Open;
    }

    function State(): WriterState
      reads this
    {
      WriterState(header, responseHeader, status, terminalErr, readyDone, finishDone, pipe)
    }

    method SetHeader(kind: Kind)
      modifies this
      ensures State() == old(State()).(header := kind)
    {
      header := kind;
    }

    method WriteHeader(newStatus: nat)
      modifies this
      ensures State() == OnWriteHeader(old(State()), newStatus)
      ensures readyDone && if old(readyDone) then status == old(status) && responseHeader == old(responseHeader)
                           else status == newStatus && responseHeader == Some(old(header))
    {
      if !readyDone {
        readyDone := true;
        status := newStatus;
        responseHeader := Some(header);
      }
    }

    method Flush()
      modifies this
      ensures State() == OnWriteHeader(old(State()), 200)
    {
      WriteHeader(200);
    }

    method Finish(err: Option<Cause>)
      modifies this
      ensures State() == OnFinish(old(State()), err)
      ensures !old(finishDone) && old(pipe) == Open ==> pipe == if err.Some? then Failed(err.value) else Clean
      ensures !old(finishDone) && !old(readyDone) ==>
                if err.Some? then terminalErr == err && responseHeader == old(responseHeader)
                else status == 200 && responseHeader == Some(old(header)) && terminalErr == old(terminalErr)
      ensures old(finishDone) ==> State() == old(State())
    {
      if finishDone {
        return;
      }
      finishDone := true;
      if err.Some? {
        if !readyDone {
          readyDone := true;
          terminalErr := err;
        }
        ClosePipe(Failed(err.value));
        return;
      }
      WriteHeader(200);
      ClosePipe(Clean);
    }

    method ClosePipe(how: Close)
      modifies this`pipe
      ensures State() == OnClose(old(State()), how)
      ensures pipe == if old(pipe) == Open then how else old(pipe)
    {
      if pipe == Open {
        pipe := how;
      }
    }
  }

  /** Whatever the handler and the transport call, and in whatever order and number, the caller is
      woken once, with a status or with an error but never both, and the pipe closes as the first
      finish said. */
  datatype Call = SetHeader(kind: Kind) | WriteHeader(status: nat) | Finish(err: Option<Cause>)

  function OnCall(w: WriterState, c: Call): WriterState {
    match c
    case SetHeader(kind) => w.(header := kind)
    case WriteHeader(status) => OnWriteHeader(w, status)
    case Finish(err) => OnFinish(w, err)
  }

  function OnCalls(w: WriterState, calls: seq<Call>): WriterState {
    if calls == [] then w else OnCall(OnCalls(w, calls[..|calls| - 1]), calls[|calls| - 1])
  }

  ghost predicate Sound(w: WriterState) {
    && (w.ready <==> w.responseHeader.Some? || w.terminalErr.Some?)
    && !(w.responseHeader.Some? && w.terminalErr.Some?)
    && (w.finished <==> w.pipe != Open)
    && (w.finished ==> w.ready)
    && (w.terminalErr.Some? ==> w.pipe == Failed(w.terminalErr.value))
    && (w.responseHeader.None? ==> w.status == 0)
  }

  lemma {:induction false} CallsKeepSound(w: WriterState, calls: seq<Call>)
    requires Sound(w)
    ensures Sound(OnCalls(w, calls))
    ensures var after := OnCalls(w, calls);
            w.ready ==>
              && after.status == w.status && after.responseHeader == w.responseHeader
              && after.terminalErr == w.terminalErr
    ensures w.finished ==> OnCalls(w, calls).pipe == w.pipe
  {
    if calls != [] {
      CallsKeepSound(w, calls[..|calls| - 1]);
    }
  }
}
