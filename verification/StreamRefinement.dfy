/** The forwarding loop, writing into the pipe of the in-process transport, takes the steps of the
    delivery system, so what is proved of all interleavings holds of a stream it relays. */
module StreamRefinement {
  import opened Prelude
  import opened ByteSource
  import LedgerModel
  import opened DoneTracker
  import opened Relay
  import opened ResponseWriter
  import opened StreamDelivery

  /** A turn as steps: a read from upstream whose bytes the reader then takes; or takes in part, and
      closes its side, which fails the blocked write. */
  function TurnSteps(t: Turn): seq<Action> {
    if t.ok then [UpstreamRead(t.chunk, t.last), ReadBody(|t.chunk|)]
    else [UpstreamRead(t.chunk, t.last), ReadBody(t.taken), CloseBody, WriteFails]
  }

  function Steps(turns: seq<Turn>): seq<Action> {
    if turns == [] then [] else Steps(turns[..|turns| - 1]) + TurnSteps(turns[|turns| - 1])
  }

  /** The caller has its response, and the relay is between two turns after `passed`. */
  ghost predicate Between(s: System, passed: Bytes) {
    && Inv(s) && s.handler == Relaying && s.caller == Reading && !s.readerClosed && s.w.pipe == Open && Streams(s)
    && s.pending == [] && s.received == passed == s.relayed && s.verdict.None?
  }

  lemma {:induction false} RunJoins(s: System, first: seq<Action>, rest: seq<Action>)
    ensures Run(s, first + rest) == Run(Run(s, first), rest)
  {
    if rest == [] {
      assert first + rest == first;
    } else {
      var most, a := rest[..|rest| - 1], rest[|rest| - 1];
      RunJoins(s, first, most);
      assert (first + rest)[..|first + rest| - 1] == first + most && (first + rest)[|first + rest| - 1] == a;
    }
  }

  lemma RunOfTwo(s: System, a: Action, b: Action)
    ensures Run(s, [a, b]) == Step(Step(s, a), b)
  {
    assert [a, b][..1] == [a] && [a][..0] == [];
    assert Run(s, [a]) == Step(Run(s, []), a);
  }

  /** A pipe write that failed was not taken whole. */
  ghost predicate ThroughPipe(end: Turn) {
    end.ok || end.taken < |end.chunk|
  }

  lemma TurnGoesOn(s: System, passed: Bytes, t: Turn)
    requires Between(s, passed) && t.ok && !t.last
    ensures Between(Run(s, TurnSteps(t)), passed + t.chunk)
  {
    RunOfTwo(s, UpstreamRead(t.chunk, t.last), ReadBody(|t.chunk|));
    StepKeepsInv(s, UpstreamRead(t.chunk, t.last));
    StepKeepsInv(Step(s, UpstreamRead(t.chunk, t.last)), ReadBody(|t.chunk|));
    assert t.chunk[..|t.chunk|] == t.chunk;
  }

  /** How the delivery system stands when the relay is over. */
  ghost predicate Over(s: System, passed: Bytes, sent: Bytes, ok: bool) {
    && s.handler == Gone && s.caller == Reading && s.received == sent
    && if ok then !s.readerClosed && s.w.pipe == (if HasDoneLine(passed) then Clean else Close.Failed(Cause.Aborted))
       else s.readerClosed && s.verdict.None?
  }

  lemma LastTurn(s: System, passed: Bytes, t: Turn)
    requires Between(s, passed) && t.ok && t.last
    ensures Over(Run(s, TurnSteps(t)), passed + t.chunk, passed + t.chunk, true)
  {
    RunOfTwo(s, UpstreamRead(t.chunk, t.last), ReadBody(|t.chunk|));
    assert t.chunk[..|t.chunk|] == t.chunk;
    assert passed + [] == passed;
  }

  lemma CutTurn(s: System, passed: Bytes, t: Turn)
    requires Between(s, passed) && !t.ok && t.taken < |t.chunk|
    ensures Over(Run(s, TurnSteps(t)), passed + t.chunk, passed + t.chunk[..t.taken], false)
  {
    RunOfTwo(s, UpstreamRead(t.chunk, t.last), ReadBody(t.taken));
    var partly := Step(Step(s, UpstreamRead(t.chunk, t.last)), ReadBody(t.taken));
    RunOfTwo(partly, CloseBody, WriteFails);
    RunJoins(s, [UpstreamRead(t.chunk, t.last), ReadBody(t.taken)], [CloseBody, WriteFails]);
    assert TurnSteps(t) == [UpstreamRead(t.chunk, t.last), ReadBody(t.taken)] + [CloseBody, WriteFails];
    assert passed + [] == passed && t.chunk[..0] == [];
  }

  lemma {:induction false} TurnsGoOn(s: System, turns: seq<Turn>)
    requires Between(s, []) && GoingOn(turns)
    ensures Between(Run(s, Steps(turns)), Chunks(turns))
  {
    if turns != [] {
      var before, t := turns[..|turns| - 1], turns[|turns| - 1];
      TurnsGoOn(s, before);
      TurnGoesOn(Run(s, Steps(before)), Chunks(before), t);
      RunJoins(s, Steps(before), TurnSteps(t));
    }
  }

  /** The whole relay, from the response that starts it. */
  function RelaySteps(turns: seq<Turn>, end: Turn): seq<Action> {
    [AnswerStream(200), WakeUp] + (Steps(turns) + TurnSteps(end))
  }

  lemma RelayIsARun(turns: seq<Turn>, end: Turn, passed: Bytes, sent: Bytes)
    requires Turned(turns, end, passed, sent) && ThroughPipe(end)
    ensures Over(Run(START, RelaySteps(turns, end)), passed, sent, end.ok)
  {
    RunOfTwo(START, AnswerStream(200), WakeUp);
    var started := Step(Step(START, AnswerStream(200)), WakeUp);
    RunJoins(START, [AnswerStream(200), WakeUp], Steps(turns) + TurnSteps(end));
    RunJoins(started, Steps(turns), TurnSteps(end));
    TurnsGoOn(started, turns);
    if end.ok {
      LastTurn(Run(started, Steps(turns)), Chunks(turns), end);
    } else {
      CutTurn(Run(started, Steps(turns)), Chunks(turns), end);
    }
  }

  lemma OverIsSeen(s: System, passed: Bytes, sent: Bytes, ok: bool)
    requires Over(s, passed, sent, ok)
    ensures var verdict := Step(s, ReadBody(1)).verdict;
            && (verdict == Some(Clean) <==> ok && HasDoneLine(passed))
            && (verdict == Some(Close.Failed(Cause.Aborted)) <==> ok && !HasDoneLine(passed))
  {
  }

  lemma CutShows(turns: seq<Turn>, end: Turn, passed: Bytes, sent: Bytes)
    requires Turned(turns, end, passed, sent)
    ensures ThroughPipe(end) <==> end.ok || |sent| < |passed|
  {
  }

  /** End to end: what the forwarding loop does with a stream is a run of the delivery system, in which
      the caller has received what was written. It can then read a clean end exactly if the exchange
      counts as encrypted, and the abort exactly if it is aborted; a caller that closed early sees no
      end. From there on every further interleaving is covered by the theorems about all runs. */
  method RelayToCaller(body: Source, w: LocalWriter, contextDone: bool, record: LedgerModel.Request)
    returns (result: LedgerModel.Request, ending: Ending, ghost actions: seq<Action>, ghost piped: bool)
    requires record.outcome == LedgerModel.Failed && !w.broken && w.written == []
    modifies body, w
    ensures piped ==>
              var s := Run(START, actions);
              && s.handler == Gone && s.received == w.written
              && (result.outcome == LedgerModel.Encrypted <==> Step(s, ReadBody(1)).verdict == Some(Clean))
              && (ending == Ending.Aborted <==> Step(s, ReadBody(1)).verdict == Some(Close.Failed(Cause.Aborted)))
              && (w.broken <==> s.readerClosed)
    ensures piped <==> !w.broken || |w.written| < |old(body.wire)| - |body.wire|
  {
    ghost var turns, end;
    ghost var wire := body.wire;
    result, ending, turns, end := ForwardEventStream(body, w, contextDone, record);
    actions := RelaySteps(turns, end);
    ghost var passed := wire[..|wire| - |body.wire|];
    assert w.written[0..] == w.written;
    piped := ThroughPipe(end);
    CutShows(turns, end, passed, w.written);
    if piped {
      RelayIsARun(turns, end, passed, w.written);
      OverIsSeen(Run(START, actions), passed, w.written, end.ok);
      assert end.ok ==> passed == wire;
    }
  }
}
