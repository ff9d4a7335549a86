/** The resumable reader that checks EHBP framing while it passes the bytes on. */
module FrameGuard {
  import opened Prelude
  import opened ByteSource
  import opened FrameFormat

  /** What the guard reports for a parser verdict. A stream that breaks off on a frame boundary is
      reported as the stream's own failure or as a cut prefix, depending on how it was delivered;
      every other case has exactly one report. */
  function Reports(verdict: Verdict, terminal: Terminal): (faults: set<Fault>)
    ensures faults != {}
    ensures EndOfFile in faults <==> verdict == AtBoundary && terminal.Ends?
    ensures terminal.Ends? ==> forall f, g :: f in faults && g in faults ==> f == g
  {
    match verdict
    case ZeroLength => {ZeroLengthFrame}
    case TooLong => {OversizedFrame}
    case PrefixCut => {TruncatedPrefix}
    case PayloadCut => if terminal.Ends? then {TruncatedCiphertext} else {StopOf(terminal)}
    case AtBoundary => if terminal.Ends? then {EndOfFile} else {StopOf(terminal), TruncatedPrefix}
  }

  /** The bytes a guard still has to release, and the reports it may then end with. */
  datatype Debt = Debt(output: Bytes, reports: set<Fault>)

  /** A Read that hands over `data` and answers `fault` serves the debt `before`, leaving `after`:
      no byte is lost, added or moved, and the answer is one the parser allows. */
  ghost predicate Serves(before: Debt, data: Bytes, fault: Option<Fault>, after: Debt) {
    match fault
    case None => before.output == data + after.output && after.reports <= before.reports
    case Some(f) => before.output == data && f in before.reports
  }

  lemma ServesTwice(d0: Debt, a: Bytes, d1: Debt, b: Bytes, fault: Option<Fault>, d2: Debt)
    requires Serves(d0, a, None, d1) && Serves(d1, b, fault, d2)
    ensures Serves(d0, a + b, fault, d2)
  {
    assert a + (b + d2.output) == a + b + d2.output;
  }

  /** The debt of a guard with `left` of a header to release, `remaining` ciphertext bytes to pass
      and `wire` still on the stream. */
  ghost function DebtOf(left: Bytes, remaining: nat, wire: Bytes, terminal: Terminal): Debt {
    var p := ParsePayload(remaining, wire);
    Debt(left + p.output, Reports(p.verdict, terminal))
  }

  lemma HeaderPays(left: Bytes, k: nat, remaining: nat, wire: Bytes, terminal: Terminal)
    requires k <= |left|
    ensures Serves(DebtOf(left, remaining, wire, terminal), left[..k], None,
                   DebtOf(left[k..], remaining, wire, terminal))
  {
    var p := ParsePayload(remaining, wire);
    assert left[..k] + (left[k..] + p.output) == left + p.output by {
      assert left[..k] + left[k..] == left;
    }
  }

  lemma PayloadPays(remaining: nat, wire: Bytes, got: nat, stop: Option<Fault>, terminal: Terminal)
    requires 0 < remaining && got <= remaining && got <= |wire|
    requires stop.Some? ==> got == |wire| && stop.value == StopOf(terminal)
    ensures var cut := stop == Some(EndOfFile) && got < remaining;
            Serves(DebtOf([], remaining, wire, terminal), wire[..got], if cut then Some(TruncatedCiphertext) else stop,
                   DebtOf([], remaining - got, wire[got..], terminal))
  {
    PayloadSplits(remaining, wire, got);
  }

  lemma Extends(before: Bytes, after: Bytes, written: nat, got: nat)
    requires |before| == |after| && written + got <= |after|
    requires forall i :: 0 <= i < written ==> before[i] == after[i]
    ensures after[..written + got] == before[..written] + after[written..written + got]
  {
  }

  class FrameGuardReader {
    const source: Source
    const header: array<byte>
    var headerOffset: nat
    var frameRemaining: nat
    var pendingError: Option<Fault>
    var eof: bool

    /** The parser's verdict on the whole stream. */
    ghost const fate: Verdict

    ghost predicate Valid()
      reads this, header
    {
      && header.Length == HEADER
      && headerOffset <= HEADER
      && frameRemaining <= MAX_FRAME
      && (frameRemaining == 0 ==> headerOffset in {0, HEADER})
    }

    constructor (source: Source)
      ensures Valid() && this.source == source && fresh(header) && frameRemaining == 0 && pendingError.None? && !eof
      ensures Owed() == Debt(Parse(source.wire).output, Reports(Parse(source.wire).verdict, source.terminal))
      ensures fate == Parse(source.wire).verdict && (!source.together ==> OnTrack())
    {
      this.source := source;
      fate := Parse(source.wire).verdict;
      header := new byte[HEADER](_ => 0);
      headerOffset, frameRemaining, pendingError, eof := 0, 0, None, false;
      new;
      PayloadOfNothing(source.wire);
    }

    /** The part of an accepted header that has not been released yet. */
    ghost function HeaderLeft(): Bytes
      requires Valid()
      reads this, header
    {
      if frameRemaining == 0 then [] else header[headerOffset..]
    }

    /** What is owed while no report is pending. */
    ghost function Due(): Debt
      requires Valid()
      reads this, header, source
    {
      DebtOf(HeaderLeft(), frameRemaining, source.wire, source.terminal)
    }

    ghost function Owed(): Debt
      requires Valid()
      reads this, header, source
    {
      if pendingError.Some? then Debt([], {pendingError.value})
      else if eof then Debt([], {EndOfFile})
      else Due()
    }

    /** Nothing was reported so far; and if the end of the stream was told along with bytes, those were the
        last of a prefix, whose ciphertext is now missing. */
    ghost predicate OnTrack()
      reads this, source
    {
      && ParsePayload(frameRemaining, source.wire).verdict == fate
      && (source.together ==> source.wire == [] && frameRemaining > 0)
    }

    /** At a boundary of a stream that breaks, the report is the one that the way the stream was
        delivered calls for. */
    ghost predicate Fits(fault: Fault)
      reads source
    {
      fate == AtBoundary && source.terminal.Breaks? ==>
        fault == if source.together then StopOf(source.terminal) else TruncatedPrefix
    }

    ghost predicate Told()
      reads this, source
    {
      if pendingError.Some? then Fits(pendingError.value) else if eof then Fits(EndOfFile) else OnTrack()
    }

    /** One Read. Whatever the destination and however the stream delivers, the bytes handed over
        now and the bytes still owed make up what was owed before, and the guard's final report is
        one of those owed. */
    method Read(destination: array<byte>) returns (count: nat, fault: Option<Fault>)
      requires Valid() && destination != header
      modifies this, header, source, destination
      ensures Valid()
      ensures count <= destination.Length
      ensures forall i :: count <= i < destination.Length ==> destination[i] == old(destination[i])
      ensures Serves(old(Owed()), destination[..count], fault, Owed())
      ensures fault.None? && destination.Length > 0 ==> count > 0
      ensures old(Told()) ==> if fault.None? then Told() else Fits(fault.value)
    {
      if destination.Length == 0 {
        return 0, None;
      }
      if pendingError.Some? {
        fault, pendingError := pendingError, None;
        return 0, fault;
      }
      if eof {
        return 0, Some(EndOfFile);
      }

      var stop;
      count, stop := Fill(destination);
      if stop.Some? && (count == 0 || stop.value in {ZeroLengthFrame, OversizedFrame}) {
        return count, stop;
      }
      pendingError := if eof then None else stop;
      return count, None;
    }

    /** Read's loop: runs until the destination is full or the framing or the stream stops it. */
    method Fill(destination: array<byte>) returns (written: nat, stop: Option<Fault>)
      requires Valid() && pendingError.None? && !eof && destination != header
      modifies this`headerOffset, this`frameRemaining, this`eof, header, source, destination
      ensures Valid()
      ensures written <= destination.Length
      ensures forall i :: written <= i < destination.Length ==> destination[i] == old(destination[i])
      ensures Serves(old(Due()), destination[..written], stop, Due())
      ensures stop.None? ==> written == destination.Length
      ensures eof ==> stop == Some(EndOfFile)
      ensures old(OnTrack()) ==> if stop.None? then OnTrack() else Fits(stop.value)
    {
      ghost var debt, sent := Due(), [];
      written, stop := 0, None;
      while written < destination.Length && stop.None?
        invariant Valid() && (stop.None? ==> !eof) && (eof ==> stop == Some(EndOfFile))
        invariant written <= destination.Length && destination[..written] == sent
        invariant forall i :: written <= i < destination.Length ==> destination[i] == old(destination[i])
        invariant Serves(debt, sent, stop, Due())
        invariant old(OnTrack()) ==> if stop.None? then OnTrack() else Fits(stop.value)
        decreases stop.None?, source.Left(), destination.Length - written
      {
        ghost var due, before := Due(), destination[..];
        var got;
        got, stop := Advance(destination, written);
        Extends(before, destination[..], written, got);
        ServesTwice(debt, sent, due, destination[written..written + got], stop, Due());
        sent := sent + destination[written..written + got];
        written := written + got;
      }
    }

    /** One turn of Read's loop. */
    method Advance(destination: array<byte>, written: nat) returns (got: nat, stop: Option<Fault>)
      requires Valid() && pendingError.None? && !eof && destination != header && written < destination.Length
      modifies this`headerOffset, this`frameRemaining, this`eof, header, source, destination
      ensures Valid()
      ensures got <= destination.Length - written
      ensures forall i :: 0 <= i < destination.Length && !(written <= i < written + got) ==>
                destination[i] == old(destination[i])
      ensures Serves(old(Due()), destination[written..written + got], stop, Due())
      ensures stop.None? ==> source.Left() < old(source.Left()) || (source.Left() == old(source.Left()) && got > 0)
      ensures eof ==> stop == Some(EndOfFile)
      ensures old(OnTrack()) ==> if stop.None? then OnTrack() else Fits(stop.value)
    {
      if headerOffset < header.Length && (headerOffset > 0 || frameRemaining > 0) {
        got := CopyHeader(destination, written);
        stop := None;
      } else if frameRemaining > 0 {
        got, stop := PassPayload(destination, written);
      } else {
        stop := NextFrame();
        got := 0;
      }
    }

    /** Read, first branch: releases as much of the header as fits. */
    method CopyHeader(destination: array<byte>, written: nat) returns (copied: nat)
      requires Valid() && destination != header
      requires frameRemaining > 0 && headerOffset < HEADER && written < destination.Length
      modifies this`headerOffset, destination
      ensures Valid()
      ensures 0 < copied <= destination.Length - written
      ensures forall i :: 0 <= i < destination.Length && !(written <= i < written + copied) ==>
                destination[i] == old(destination[i])
      ensures copied == Min(destination.Length - written, HEADER - old(headerOffset))
      ensures headerOffset == old(headerOffset) + copied
      ensures Serves(old(Due()), destination[written..written + copied], None, Due())
    {
      copied := Min(destination.Length - written, header.Length - headerOffset);
      HeaderPays(HeaderLeft(), copied, frameRemaining, source.wire, source.terminal);
      forall i | 0 <= i < copied {
        destination[written + i] := header[headerOffset + i];
      }
      headerOffset := headerOffset + copied;
      assert destination[written..written + copied] == old(HeaderLeft())[..copied];
      assert HeaderLeft() == old(HeaderLeft())[copied..];
    }

    /** Read, second branch: passes ciphertext through from the stream. When the last ciphertext of the
        stream comes with its end, that end is reported now, otherwise nothing is. */
    method PassPayload(destination: array<byte>, written: nat) returns (got: nat, stop: Option<Fault>)
      requires Valid() && destination != header
      requires frameRemaining > 0 && headerOffset == HEADER && written < destination.Length
      modifies this`headerOffset, this`frameRemaining, header, source, destination
      ensures Valid()
      ensures got <= destination.Length - written
      ensures forall i :: 0 <= i < destination.Length && !(written <= i < written + got) ==>
                destination[i] == old(destination[i])
      ensures Serves(old(Due()), destination[written..written + got], stop, Due())
      ensures stop.None? ==> source.Left() < old(source.Left())
      ensures frameRemaining == old(frameRemaining) - got && |source.wire| == |old(source.wire)| - got
      ensures old(TakesRest(destination.Length - written)) ==> source.wire == [] && stop == old(source.StopNow())
      ensures old(OnTrack()) ==> if stop.None? then OnTrack() else Fits(stop.value)
    {
      ghost var wire, debt := source.wire, Due();
      assert debt == DebtOf([], frameRemaining, wire, source.terminal);
      got, stop := ReadPayload(destination, written);
      PayloadPays(frameRemaining + got, wire, got, stop, source.terminal);
      PayloadSplits(frameRemaining + got, wire, got);
      if stop == Some(EndOfFile) && frameRemaining > 0 {
        stop := Some(TruncatedCiphertext);
      }
      assert Serves(debt, wire[..got], stop, DebtOf([], frameRemaining, source.wire, source.terminal));
      assert HeaderLeft() == [];
      if stop.None? && got > 0 && frameRemaining == 0 {
        ClearHeader();
      }
    }

    /** The next read has room for the rest of the stream, which is the rest of the frame, and gets it. */
    ghost predicate TakesRest(room: nat)
      reads this, source
    {
      source.wire != [] && |source.wire| == frameRemaining <= room && source.FillsAtOnce(frameRemaining)
    }

    method ReadPayload(destination: array<byte>, written: nat) returns (got: nat, stop: Option<Fault>)
      requires frameRemaining > 0 && written < destination.Length
      modifies this`frameRemaining, source, destination
      ensures got <= old(frameRemaining) && frameRemaining == old(frameRemaining) - got
      ensures got <= destination.Length - written && got <= |old(source.wire)|
      ensures source.wire == old(source.wire)[got..] && destination[written..written + got] == old(source.wire)[..got]
      ensures forall i :: 0 <= i < destination.Length && !(written <= i < written + got) ==>
                destination[i] == old(destination[i])
      ensures stop.Some? ==> got == |old(source.wire)| && stop.value == StopOf(source.terminal)
      ensures stop.None? ==> source.Left() < old(source.Left())
      ensures old(TakesRest(destination.Length - written)) ==> source.wire == [] && stop == old(source.StopNow())
      ensures source.together <==> old(source.together) || (stop.Some? && got > 0)
    {
      var want := Min(destination.Length - written, frameRemaining);
      got, stop := source.Read(destination, written, written + want);
      frameRemaining := frameRemaining - got;
    }

    method ClearHeader()
      requires header.Length == HEADER
      modifies this`headerOffset, header
      ensures headerOffset == 0
    {
      headerOffset := 0;
      header[0], header[1], header[2], header[3] := 0, 0, 0, 0;
    }

    /** Read, third branch: collects the next header and starts its frame. */
    method NextFrame() returns (stop: Option<Fault>)
      requires Valid() && frameRemaining == 0 && !eof
      modifies this`headerOffset, this`frameRemaining, this`eof, header, source
      ensures Valid()
      ensures Serves(old(Due()), [], stop, Due())
      ensures stop.None? ==> source.Left() < old(source.Left())
      ensures eof <==> stop == Some(EndOfFile)
      ensures old(source.wire) == [] ==> stop == Some(if source.terminal.Ends? then EndOfFile else TruncatedPrefix)
      ensures stop.None? <==> HEADER <= |old(source.wire)| && 1 <= BigEndian(old(source.wire)[..HEADER]) <= MAX_FRAME
      ensures stop.None? ==>
                && source.wire == old(source.wire)[HEADER..]
                && headerOffset == 0 && frameRemaining == BigEndian(old(source.wire)[..HEADER])
                && (old(source.FillsAtOnce(HEADER)) && old(source.schedule) != [] ==>
                      source.schedule == old(source.schedule)[1..])
      ensures old(OnTrack()) ==> if stop.None? then OnTrack() else Fits(stop.value)
    {
      PayloadOfNothing(source.wire);
      ghost var wire := source.wire;
      var got;
      got, stop := source.ReadFull(header);
      if stop.Some? {
        if stop.value == EndOfFile && got == 0 {
          eof := true;
          return;
        }
        return Some(TruncatedPrefix);
      }
      assert header[..] == wire[..HEADER];
      var frameLength := BigEndian(header[..]);
      if frameLength == 0 {
        return Some(ZeroLengthFrame);
      }
      if frameLength > MAX_FRAME {
        return Some(OversizedFrame);
      }
      frameRemaining := frameLength;
      headerOffset := 0;
      assert HeaderLeft() == wire[..HEADER];
    }
  }

  /** A caller that reads a guarded stream to its first report, offering `room(i)` bytes in call i.
      Neither the stream's way of delivering nor the caller's choice of room shows in the result, with
      one exception: the bytes and the verdict are those of the reference parser on the wire, and only
      when a stream breaks at a frame boundary does the report depend on the delivery. It is then the
      stream's own failure exactly if that came along with the last bytes. */
  method ReadSource(source: Source, room: nat -> nat) returns (output: Bytes, report: Fault)
    requires !source.together && forall i :: room(i) > 0
    modifies source
    ensures output == Parse(old(source.wire)).output
    ensures report in Reports(Parse(old(source.wire)).verdict, source.terminal)
    ensures Parse(old(source.wire)).verdict == AtBoundary && source.terminal.Breaks? ==>
              report == if source.together then StopOf(source.terminal) else TruncatedPrefix
  {
    var guard := new FrameGuardReader(source);
    ghost var debt := guard.Owed();
    output := [];
    var calls: nat, fault := 0, None;
    while fault.None?
      invariant guard.Valid() && guard.source == source && fresh(guard) && fresh(guard.header)
      invariant Serves(debt, output, fault, guard.Owed())
      invariant if fault.None? then guard.Told() else guard.Fits(fault.value)
      decreases fault.None?, |guard.Owed().output|
    {
      ghost var due := guard.Owed();
      var destination := new byte[room(calls)](_ => 0);
      var count;
      count, fault := guard.Read(destination);
      ServesTwice(debt, output, due, destination[..count], fault, guard.Owed());
      output := output + destination[..count];
      calls := calls + 1;
    }
    report := fault.value;
  }

  /** The same over every wire, schedule and ending of the stream. */
  method ReadToReport(wire: Bytes, schedule: seq<Delivery>, terminal: Terminal, room: nat -> nat)
    returns (output: Bytes, report: Fault, ghost together: bool)
    requires forall i :: room(i) > 0
    ensures output == Parse(wire).output
    ensures report in Reports(Parse(wire).verdict, terminal)
    ensures Parse(wire).verdict == ZeroLength ==> report == ZeroLengthFrame
    ensures Parse(wire).verdict == TooLong ==> report == OversizedFrame
    ensures Parse(wire).verdict == PrefixCut ==> report == TruncatedPrefix
    ensures Parse(wire).verdict == PayloadCut ==>
              report == match terminal case Ends => TruncatedCiphertext case Breaks(code) => SourceFailure(code)
    ensures report == EndOfFile <==> terminal.Ends? && exists frames :: ValidFrames(frames) && wire == Encode(frames)
    ensures report == EndOfFile ==> output == wire
    ensures Parse(wire).verdict == AtBoundary && terminal.Breaks? ==>
              report == if together then StopOf(terminal) else TruncatedPrefix
  {
    AcceptedExactly(wire);
    var source := new Source(wire, schedule, terminal);
    output, report := ReadSource(source, room);
    together := source.together;
  }

  /** Where a stream that breaks ends at a boundary, its own failure is reported if it comes along with
      the last ciphertext, and a cut prefix if it comes later. */
  method LastTurns(guard: FrameGuardReader, destination: array<byte>, written: nat) returns (stop: Option<Fault>)
    requires guard.Valid() && destination != guard.header && written < destination.Length && !guard.eof
    requires guard.frameRemaining > 0 && guard.headerOffset == HEADER && guard.source.terminal.Breaks?
    requires guard.TakesRest(destination.Length - written)
    modifies guard, guard.header, guard.source, destination
    ensures stop == if old(guard.source.StopNow()).Some? then old(guard.source.StopNow()) else Some(TruncatedPrefix)
  {
    var got;
    got, stop := guard.PassPayload(destination, written);
    if stop.None? {
      stop := guard.NextFrame();
    }
  }

  /** Both reports occur. */
  method BoundaryStops(eager: bool) returns (stop: Option<Fault>)
    ensures stop == Some(if eager then SourceFailure(0) else TruncatedPrefix)
  {
    var wire, schedule := [0, 0, 0, 1, 7], [Delivery(4, false), Delivery(1, eager)];
    assert BigEndian(wire[..HEADER]) == 1 && |wire[HEADER..]| == 1 && schedule[1..] == [Delivery(1, eager)];
    var source := new Source(wire, schedule, Breaks(0));
    var guard := new FrameGuardReader(source);
    var destination := new byte[5](_ => 0);
    stop := guard.NextFrame();
    assert source.schedule == [Delivery(1, eager)];
    var copied := guard.CopyHeader(destination, 0);
    stop := LastTurns(guard, destination, copied);
  }

  lemma PayloadOfNothing(wire: Bytes)
    ensures ParsePayload(0, wire) == Parse(wire)
  {
    assert wire[0..] == wire;
  }
}
