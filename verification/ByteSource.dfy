/** A byte stream as Go's io.Reader presents one: the caller chooses how much room it offers,
    the stream chooses how much of it to fill, and the end may come with or after the last bytes. */
module ByteSource {
  import opened Prelude

  /** How a stream stops once its bytes are gone. The stop is sticky. */
  datatype Terminal = Ends | Breaks(code: int)

  /** The stream's choice for one call: fill at most `cap` bytes (0 answers "nothing yet"),
      and, if `eager`, report the stop in the same call that hands over the last byte. */
  datatype Delivery = Delivery(cap: nat, eager: bool)

  datatype Fault =
    | EndOfFile
    | UnexpectedEnd
    | SourceFailure(code: int)
    | TruncatedPrefix
    | TruncatedCiphertext
    | ZeroLengthFrame
    | OversizedFrame
    | BodyTooLong

  function StopOf(terminal: Terminal): Fault {
    match terminal
    case Ends => EndOfFile
    case Breaks(code) => SourceFailure(code)
  }

  class Source {
    var wire: Bytes
    var schedule: seq<Delivery>
    const terminal: Terminal

    /** Some call handed over bytes and reported the stop along with them. */
    ghost var together: bool

    constructor (wire: Bytes, schedule: seq<Delivery>, terminal: Terminal)
      ensures this.wire == wire && this.schedule == schedule && this.terminal == terminal && !together
    {
      together := false;
      this.wire := wire;
      this.schedule := schedule;
      this.terminal := terminal;
    }

    /** The next call will answer (0, nil). */
    predicate Stalls()
      reads this
    {
      |schedule| > 0 && schedule[0].cap == 0
    }

    /** The next call will fill a buffer of `n` bytes. */
    predicate FillsAtOnce(n: nat)
      reads this
    {
      (schedule == [] || schedule[0].cap >= n) && |wire| >= n
    }

    /** What a call that takes all that is left would report along with it. */
    function StopNow(): Option<Fault>
      reads this
    {
      if schedule != [] && schedule[0].eager then Some(StopOf(terminal)) else None
    }

    /** What is left of the script; every call with room for a byte that reports no stop uses some of it. */
    function Left(): nat
      reads this
    {
      |wire| + |schedule|
    }

    method Read(dst: array<byte>, lo: nat, hi: nat) returns (count: nat, fault: Option<Fault>)
      requires lo <= hi <= dst.Length
      modifies this, dst
      ensures count <= hi - lo && count <= |old(wire)|
      ensures wire == old(wire)[count..]
      ensures dst[lo..lo + count] == old(wire)[..count]
      ensures forall i :: 0 <= i < dst.Length && !(lo <= i < lo + count) ==> dst[i] == old(dst[i])
      ensures fault.Some? ==> wire == [] && fault.value == StopOf(terminal)
      ensures schedule == if lo == hi || old(schedule) == [] then old(schedule) else old(schedule)[1..]
      ensures count == Min(|old(wire)|, if old(schedule) == [] then hi - lo else Min(hi - lo, old(schedule)[0].cap))
      ensures count == 0 && fault.None? <==> lo == hi || old(Stalls())
      ensures fault.Some? && count > 0 <==> count > 0 && wire == [] && |old(schedule)| > 0 && old(schedule)[0].eager
      ensures together <==> old(together) || (fault.Some? && count > 0)
      ensures fault.None? && lo < hi ==> Left() < old(Left())
    {
      if lo == hi {
        return 0, None;
      }
      var cap, eager := hi - lo, false;
      if |schedule| > 0 {
        cap, eager := Min(cap, schedule[0].cap), schedule[0].eager;
        schedule := schedule[1..];
        if cap == 0 {
          return 0, None;
        }
      }
      if wire == [] {
        return 0, Some(StopOf(terminal));
      }
      count := Min(cap, |wire|);
      forall i | 0 <= i < count {
        dst[lo + i] := wire[i];
      }
      assert forall i :: lo <= i < lo + count ==> dst[i] == wire[i - lo];
      assert dst[lo..lo + count] == wire[..count];
      wire := wire[count..];
      fault := if wire == [] && eager then Some(StopOf(terminal)) else None;
      together := together || fault.Some?;
    }

    /** io.ReadFull: fills `buffer` whole, or says why it could not. A stop that arrives
        together with the last needed byte is dropped. */
    method ReadFull(buffer: array<byte>) returns (count: nat, fault: Option<Fault>)
      requires buffer.Length > 0
      modifies this, buffer
      ensures count == Min(buffer.Length, |old(wire)|)
      ensures wire == old(wire)[count..]
      ensures buffer[..count] == old(wire)[..count]
      ensures fault.None? <==> count == buffer.Length
      ensures fault.Some? ==> fault.value == if terminal.Ends? && count > 0 then UnexpectedEnd else StopOf(terminal)
      ensures |schedule| <= |old(schedule)|
      ensures old(FillsAtOnce(buffer.Length)) ==> schedule == if old(schedule) == [] then [] else old(schedule)[1..]
      ensures together ==> old(together) || (wire == [] && old(wire) != [])
    {
      count, fault := 0, None;
      while count < buffer.Length && fault.None?
        invariant count <= buffer.Length && count <= |old(wire)|
        invariant wire == old(wire)[count..]
        invariant buffer[..count] == old(wire)[..count]
        invariant fault.Some? ==> wire == [] && fault.value == StopOf(terminal)
        invariant |schedule| <= |old(schedule)|
        invariant old(FillsAtOnce(buffer.Length)) ==>
                    if count == 0 then schedule == old(schedule) && fault.None?
                    else schedule == (if old(schedule) == [] then [] else old(schedule)[1..]) && count == buffer.Length
        invariant together ==> old(together) || (wire == [] && count > 0)
        decreases Left(), fault.None?
      {
        var got;
        got, fault := Read(buffer, count, buffer.Length);
        assert buffer[..count + got] == buffer[..count] + buffer[count..count + got];
        assert old(wire)[..count + got] == old(wire)[..count] + old(wire)[count..][..got];
        count := count + got;
      }
      if count == buffer.Length {
        fault := None;
      } else if count > 0 && fault == Some(EndOfFile) {
        fault := Some(UnexpectedEnd);
      }
    }
  }
}
