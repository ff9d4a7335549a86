/** Forwarding a decrypted event stream to the local client. */
module Relay {
  import opened Prelude
  import opened ByteSource
  import opened LedgerModel
  import opened DoneTracker

  const BUFFER: nat := 32 * 1024

  /** How the local client's side takes one write: whole, or only its first `n` bytes and an error. */
  datatype Acceptance = Whole | Cut(n: nat)

  class LocalWriter {
    var written: Bytes
    var script: seq<Acceptance>
    var broken: bool

    constructor (script: seq<Acceptance>)
      ensures written == [] && !broken && this.script == script
    {
      written, this.script, broken := [], script, false;
    }

    method Write(data: Bytes) returns (ok: bool)
      modifies this
      ensures ok ==> written == old(written) + data && broken == old(broken)
      ensures !ok ==> broken && old(written) <= written <= old(written) + data
    {
      var take := Whole;
      if |script| > 0 {
        take, script := script[0], script[1..];
      }
      match take
      case Whole =>
        written := written + data;
        return true;
      case Cut(n) =>
        written := written + data[..Min(n, |data|)];
        broken := true;
        return false;
    }
  }

  datatype Ending = Returned | Aborted

  /** One turn of the forwarding loop: the bytes read, whether the stream was then over, and how many of
      them the local client's side took, which is all of them if the write succeeded. */
  datatype Turn = Turn(chunk: Bytes, last: bool, ok: bool, taken: nat)

  ghost function Chunks(turns: seq<Turn>): Bytes {
    if turns == [] then [] else Chunks(turns[..|turns| - 1]) + turns[|turns| - 1].chunk
  }

  /** Turns after which the loop goes on. */
  ghost predicate GoingOn(turns: seq<Turn>) {
    forall i :: 0 <= i < |turns| ==> turns[i].ok && !turns[i].last
  }

  lemma ChunksMore(turns: seq<Turn>, t: Turn)
    ensures Chunks(turns + [t]) == Chunks(turns) + t.chunk
  {
    assert (turns + [t])[..|turns|] == turns;
  }

  /** What a relay that read `passed` and had its local writes accepted as `sent` consists of: turns that
      went on, and one that ended it. */
  ghost predicate Turned(turns: seq<Turn>, end: Turn, passed: Bytes, sent: Bytes) {
    && GoingOn(turns) && Chunks(turns) + end.chunk == passed
    && if end.ok then end.last && sent == passed
       else end.chunk != [] && end.taken <= |end.chunk| && sent == Chunks(turns) + end.chunk[..end.taken]
  }

  /** Forwards the stream to its end. The verdict rests on the terminator alone, not on how the
      stream stopped: if every local write succeeded, all bytes read were relayed in order, and the
      exchange counts as encrypted when one of their lines is the terminator and is aborted when
      none is. A failed local write ends it without either. */
  method ForwardEventStream(body: Source, w: LocalWriter, contextDone: bool, record: Request)
    returns (result: Request, ending: Ending, ghost turns: seq<Turn>, ghost end: Turn)
    requires record.outcome == Failed && !w.broken
    modifies body, w
    ensures result.outcome == Encrypted <==> !w.broken && HasDoneLine(old(body.wire))
    ensures ending == Aborted <==> !w.broken && !HasDoneLine(old(body.wire))
    ensures !w.broken ==> w.written == old(w.written) + old(body.wire) && body.wire == []
    ensures old(w.written) <= w.written <= old(w.written) + old(body.wire)
    ensures |body.wire| <= |old(body.wire)|
    ensures result.responseBytes == record.responseBytes + |old(body.wire)| - |body.wire|
    ensures result == record.(outcome := result.outcome, failure := result.failure,
                              responseBytes := result.responseBytes)
    ensures w.broken ==> result.failure == ClientDisconnected
    ensures result.outcome == Encrypted ==> result.failure == record.failure
    ensures ending == Aborted ==>
              result.failure == if body.terminal.Ends? then EndedWithoutDone
                                else if contextDone then ClientDisconnected else FailedMidResponse
    ensures (end.ok <==> !w.broken)
         && Turned(turns, end, old(body.wire)[..|old(body.wire)| - |body.wire|], w.written[|old(w.written)|..])
  {
    result := record;
    var tracker := new SSEDoneTracker();
    var buffer := new byte[BUFFER](_ => 0);
    var count, stop;
    ghost var wire, before := body.wire, w.written;
    count, stop, turns, end := RelayTurns(body, w, tracker, buffer);
    result := result.(responseBytes := record.responseBytes + count);
    if stop.None? {
      result := result.(failure := ClientDisconnected);
      return result, Returned, turns, end;
    }
    assert wire[..|wire|] == wire;
    tracker.Finish();
    if tracker.done {
      result := result.(outcome := Encrypted);
      return result, Returned, turns, end;
    }
    result := result.(failure := if stop.value == EndOfFile then EndedWithoutDone
                                 else if contextDone then ClientDisconnected else FailedMidResponse);
    return result, Aborted, turns, end;
  }

  /** The forwarding loop: it ends with the stream's stop, or with none when a local write fails. */
  method RelayTurns(body: Source, w: LocalWriter, tracker: SSEDoneTracker, buffer: array<byte>)
    returns (count: nat, stop: Option<Fault>, ghost turns: seq<Turn>, ghost end: Turn)
    requires tracker.Valid() && tracker.seen == [] && buffer.Length > 0 && !w.broken
    modifies body, w, tracker, buffer
    ensures tracker.Valid() && count == |tracker.seen| && old(body.wire) == tracker.seen + body.wire
    ensures stop.Some? <==> !w.broken
    ensures stop.Some? ==> body.wire == [] && stop.value == StopOf(body.terminal)
    ensures old(w.written) <= w.written && end.ok == !w.broken
    ensures Turned(turns, end, tracker.seen, w.written[|old(w.written)|..])
  {
    ghost var wire, before, passed := body.wire, w.written, [];
    count, stop, turns, end := 0, None, [], Turn([], false, true, 0);
    while stop.None?
      invariant tracker.Valid() && tracker.seen == passed && !w.broken
      invariant wire == passed + body.wire && w.written == before + passed && count == |passed|
      invariant stop.Some? ==> body.wire == [] && stop.value == StopOf(body.terminal)
      invariant if stop.None? then GoingOn(turns) && Chunks(turns) == passed
                else end.ok && Turned(turns, end, passed, passed)
      decreases stop.None?, body.Left()
    {
      var chunk, ok;
      chunk, stop, ok := RelayOnce(body, w, tracker, buffer);
      end := Turn(chunk, stop.Some?, ok, |w.written| - |before + passed|);
      TurnTaken(wire, before, passed, chunk, body.wire, w.written);
      count := count + |chunk|;
      if !ok {
        return count, None, turns, end;
      }
      ChunksMore(turns, end);
      turns := if stop.None? then turns + [end] else turns;
      passed := passed + chunk;
    }
  }

  lemma TurnTaken(wire: Bytes, before: Bytes, passed: Bytes, chunk: Bytes, rest: Bytes, written: Bytes)
    requires wire == passed + (chunk + rest) && before + passed <= written <= before + passed + chunk
    ensures wire == passed + chunk + rest && before <= written
    ensures var taken := |written| - |before + passed|;
            0 <= taken <= |chunk| && written[|before|..] == passed + chunk[..taken]
    ensures written == before + passed + chunk ==> written == before + (passed + chunk)
  {
    assert written == (before + passed + chunk)[..|written|];
  }

  /** One turn of the forwarding loop: what is read is tracked, then written. */
  method RelayOnce(body: Source, w: LocalWriter, tracker: SSEDoneTracker, buffer: array<byte>)
    returns (chunk: Bytes, stop: Option<Fault>, ok: bool)
    requires tracker.Valid() && buffer.Length > 0 && !w.broken
    modifies body, w, tracker, buffer
    ensures tracker.Valid() && tracker.seen == old(tracker.seen) + chunk
    ensures old(body.wire) == chunk + body.wire
    ensures ok <==> !w.broken
    ensures ok ==> w.written == old(w.written) + chunk
    ensures !ok ==> chunk != [] && old(w.written) <= w.written <= old(w.written) + chunk
    ensures stop.Some? ==> body.wire == [] && stop.value == StopOf(body.terminal)
    ensures stop.None? ==> body.Left() < old(body.Left())
  {
    var count;
    count, stop := body.Read(buffer, 0, buffer.Length);
    chunk := buffer[..count];
    ok := true;
    if count > 0 {
      tracker.Write(chunk);
      ok := w.Write(chunk);
    }
  }
}
