/** The reader that caps an unencrypted problem body at 64 KiB. */
module BoundedReader {
  import opened Prelude
  import opened ByteSource

  const LIMIT: nat := 0x1_0000

  /** How much of `room` bytes a stream with this schedule is willing to fill now. */
  function Fill(room: nat, schedule: seq<Delivery>): nat {
    if schedule == [] then room else Min(room, schedule[0].cap)
  }

  /** Whether a caller offering `room(i)`, `room(i + 1)`, ... bytes takes the last `n` bytes of a
      stream without being told that it stopped, and then meets an empty answer. */
  function StallsAtProbe(n: nat, schedule: seq<Delivery>, room: nat -> nat, i: nat): bool
    requires forall j :: room(j) > 0
    decreases n + |schedule|
  {
    if n == 0 then schedule != [] && schedule[0].cap == 0
    else
      var got := Min(n, Fill(room(i), schedule));
      if schedule == [] then StallsAtProbe(n - got, [], room, i + 1)
      else if got == n && schedule[0].eager then false
      else StallsAtProbe(n - got, schedule[1..], room, i + 1)
  }

  class BoundedReadCloser {
    const source: Source
    var remaining: nat
    var checked: bool

    constructor (source: Source)
      ensures this.source == source && remaining == LIMIT && !checked
    {
      this.source := source;
      remaining, checked := LIMIT, false;
    }

    method Read(destination: array<byte>) returns (count: nat, fault: Option<Fault>)
      modifies this, source, destination
      ensures count <= destination.Length
      ensures old(remaining) > 0 ==>
                && count <= old(remaining) && count <= |old(source.wire)| && remaining == old(remaining) - count
                && destination[..count] == old(source.wire)[..count] && source.wire == old(source.wire)[count..]
                && checked == old(checked)
                && source.schedule == (if destination.Length == 0 || old(source.schedule) == []
                                       then old(source.schedule) else old(source.schedule)[1..])
                && count == Min(Min(|old(source.wire)|, old(remaining)), Fill(destination.Length, old(source.schedule)))
                && (fault.Some? ==> source.wire == [] && fault.value == StopOf(source.terminal))
                && (count > 0 ==>
                      (fault.Some? <==>
                         source.wire == [] && |old(source.schedule)| > 0 && old(source.schedule)[0].eager))
                && (destination.Length > 0 ==> source.Left() < old(source.Left()) || fault.Some?)
      ensures old(remaining) == 0 ==> count == 0 && remaining == 0 && checked
      ensures old(remaining) == 0 && old(checked) ==> fault == Some(BodyTooLong)
      ensures old(remaining) == 0 && !old(checked) ==>
                fault == if old(source.Stalls()) then None
                         else if old(source.wire) == [] then Some(StopOf(source.terminal))
                         else Some(BodyTooLong)
    {
      if remaining > 0 {
        count, fault := source.Read(destination, 0, Min(destination.Length, remaining));
        remaining := remaining - count;
        return;
      }
      if checked {
        return 0, Some(BodyTooLong);
      }
      checked := true;
      var probe := new byte[1](_ => 0);
      count, fault := source.Read(probe, 0, 1);
      if count > 0 {
        return 0, Some(BodyTooLong);
      }
      return 0, fault;
    }
  }

  /** Where a caller stands between two calls. */
  datatype Reading = Reading(
    output: Bytes,
    remaining: nat,
    checked: bool,
    rest: Bytes,
    schedule: seq<Delivery>,
    calls: nat)

  ghost predicate Underway(r: Reading, wire: Bytes, refused: bool, room: nat -> nat)
    requires forall i :: room(i) > 0
  {
    && r.output <= wire && r.remaining + |r.output| == LIMIT
    && if r.checked then |r.output| == LIMIT && (|wire| == LIMIT ==> refused)
       else r.rest == wire[|r.output|..]
            && (|wire| == LIMIT ==> refused == StallsAtProbe(|r.rest|, r.schedule, room, r.calls))
  }

  ghost predicate Over(output: Bytes, report: Fault, wire: Bytes, refused: bool, terminal: Terminal) {
    && output == wire[..Min(|wire|, LIMIT)]
    && report == if |wire| > LIMIT || refused then BodyTooLong else StopOf(terminal)
  }

  /** A call that reads of the body. */
  lemma BodyTurn(r: Reading, wire: Bytes, refused: bool, room: nat -> nat, terminal: Terminal,
                 count: nat, stop: Option<Fault>, next: Reading)
    requires (forall i :: room(i) > 0) && Underway(r, wire, refused, room) && r.remaining > 0 && !r.checked
    requires refused ==> |wire| == LIMIT
    requires count == Min(Min(|r.rest|, r.remaining), Fill(room(r.calls), r.schedule))
    requires stop.Some? ==> count == |r.rest| && stop.value == StopOf(terminal)
    requires count > 0 ==> (stop.Some? <==> count == |r.rest| && r.schedule != [] && r.schedule[0].eager)
    requires next == Reading(r.output + r.rest[..count], r.remaining - count, false, r.rest[count..],
                             if r.schedule == [] then [] else r.schedule[1..], r.calls + 1)
    ensures if stop.None? then Underway(next, wire, refused, room)
            else Over(next.output, stop.value, wire, refused, terminal)
  {
    var at := |r.output|;
    assert wire[..at] + wire[at..][..count] == wire[..at + count] && wire[at..][count..] == wire[at + count..];
  }

  /** A call after the last byte that is let through: the probe, or what follows one that met nothing. */
  lemma ProbeTurn(r: Reading, wire: Bytes, refused: bool, room: nat -> nat, terminal: Terminal,
                  stop: Option<Fault>, next: Reading)
    requires (forall i :: room(i) > 0) && Underway(r, wire, refused, room) && r.remaining == 0
    requires refused ==> |wire| == LIMIT
    requires r.checked ==> stop == Some(BodyTooLong)
    requires !r.checked ==>
               stop == if r.schedule != [] && r.schedule[0].cap == 0 then None
                       else if r.rest == [] then Some(StopOf(terminal)) else Some(BodyTooLong)
    requires next.output == r.output && next.remaining == 0 && next.checked
    ensures if stop.None? then Underway(next, wire, refused, room)
            else Over(next.output, stop.value, wire, refused, terminal)
  {
  }

  /** A caller that reads a bounded body to its first report. At most 64 KiB come through, a shorter
      body comes through whole, and a longer one always ends in an error. A body of exactly 64 KiB
      is refused, although it fits, if and only if the stream answers the probe for more with an
      empty read. */
  method ReadToReport(wire: Bytes, schedule: seq<Delivery>, terminal: Terminal, room: nat -> nat)
    returns (output: Bytes, report: Fault)
    requires forall i :: room(i) > 0
    ensures output == wire[..Min(|wire|, LIMIT)]
    ensures |wire| < LIMIT ==> report == StopOf(terminal)
    ensures |wire| > LIMIT ==> report == BodyTooLong
    ensures |wire| == LIMIT ==>
              report == if StallsAtProbe(LIMIT, schedule, room, 0) then BodyTooLong else StopOf(terminal)
  {
    var source := new Source(wire, schedule, terminal);
    var body := new BoundedReadCloser(source);
    ghost var refused := |wire| == LIMIT && StallsAtProbe(LIMIT, schedule, room, 0);
    output := [];
    var calls: nat, fault := 0, None;
    while fault.None?
      invariant body.source == source && fresh(body) && fresh(source) && source.terminal == terminal
      invariant fault.None? ==>
                  Underway(Reading(output, body.remaining, body.checked, source.wire, source.schedule, calls),
                           wire, refused, room)
      invariant fault.Some? ==> Over(output, fault.value, wire, refused, terminal)
      decreases fault.None?, !body.checked, source.Left()
    {
      ghost var r := Reading(output, body.remaining, body.checked, source.wire, source.schedule, calls);
      var destination := new byte[room(calls)](_ => 0);
      var count;
      count, fault := body.Read(destination);
      output := output + destination[..count];
      calls := calls + 1;
      ghost var next := Reading(output, body.remaining, body.checked, source.wire, source.schedule, calls);
      if r.remaining > 0 {
        BodyTurn(r, wire, refused, room, terminal, count, fault, next);
      } else {
        ProbeTurn(r, wire, refused, room, terminal, fault, next);
      }
    }
    report := fault.value;
  }

  /** The refusal does happen: 64 KiB in one piece, then one empty answer. */
  lemma ExactBodyCanBeRefused()
    ensures StallsAtProbe(LIMIT, [Delivery(LIMIT, false), Delivery(0, false)], _ => LIMIT, 0)
  {
    assert [Delivery(LIMIT, false), Delivery(0, false)][1..] == [Delivery(0, false)];
  }
}
