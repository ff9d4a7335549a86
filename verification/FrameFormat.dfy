/** The EHBP response framing as a pure language of byte strings: a four-byte big-endian length
    followed by that many ciphertext bytes, the length being 1 to 64 MiB. */
module FrameFormat {
  import opened Prelude

  const MAX_FRAME: nat := 64 * 1024 * 1024
  const HEADER: nat := 4

  type Frame = Bytes

  ghost predicate ValidFrame(frame: Frame) {
    1 <= |frame| <= MAX_FRAME
  }

  ghost predicate ValidFrames(frames: seq<Frame>) {
    forall i :: 0 <= i < |frames| ==> ValidFrame(frames[i])
  }

  function BigEndian(h: Bytes): nat
    requires |h| == HEADER
  {
    0x100_0000 * (h[0] as int) + 0x1_0000 * (h[1] as int) + 0x100 * (h[2] as int) + h[3]
  }

  function EncodeLength(n: nat): (h: Bytes)
    requires n < 0x1_0000_0000
    ensures |h| == HEADER && BigEndian(h) == n
  {
    var b, c, d := n / 0x100, n / 0x1_0000, n / 0x100_0000;
    [d, c - 0x100 * d, b - 0x100 * c, n - 0x100 * b]
  }

  lemma LengthRoundTrip(h: Bytes)
    requires |h| == HEADER
    ensures BigEndian(h) < 0x1_0000_0000 && EncodeLength(BigEndian(h)) == h
  {
    var e := EncodeLength(BigEndian(h));
    assert e[0] == h[0] && e[1] == h[1] && e[2] == h[2] && e[3] == h[3];
  }

  /** The first byte in which two prefixes differ decides which length is the smaller one. */
  lemma HeaderOrder(h: Bytes, g: Bytes)
    requires |h| == |g| == HEADER
    ensures BigEndian(h) < BigEndian(g) <==> exists k: nat :: k < HEADER && h[..k] == g[..k] && h[k] < g[k]
  {
    if BigEndian(h) < BigEndian(g) {
      var k: nat := if h[0] != g[0] then 0 else if h[1] != g[1] then 1 else if h[2] != g[2] then 2 else 3;
      assert h[..k] == g[..k] && h[k] < g[k];
    }
    forall k: nat | k < HEADER && h[..k] == g[..k] && h[k] < g[k]
      ensures BigEndian(h) < BigEndian(g)
    {
      assert forall i :: 0 <= i < k ==> h[i] == h[..k][i] && g[i] == g[..k][i];
      assert k in {0, 1, 2, 3};
    }
  }

  function Encode(frames: seq<Frame>): Bytes
    requires ValidFrames(frames)
  {
    if frames == [] then [] else EncodeLength(|frames[0]|) + frames[0] + Encode(frames[1..])
  }

  /** Why a wire stops being a sequence of frames. */
  datatype Verdict = AtBoundary | PrefixCut | PayloadCut | ZeroLength | TooLong

  /** What may be released of a wire, and why nothing more may. */
  datatype Parsed = Parsed(output: Bytes, verdict: Verdict)

  function Prepend(head: Bytes, p: Parsed): Parsed {
    Parsed(head + p.output, p.verdict)
  }

  /** Reference parser, from a frame boundary. */
  function Parse(wire: Bytes): Parsed
    decreases |wire|, 0
  {
    if wire == [] then Parsed([], AtBoundary)
    else if |wire| < HEADER then Parsed([], PrefixCut)
    else
      var n := BigEndian(wire[..HEADER]);
      if n == 0 then Parsed([], ZeroLength)
      else if n > MAX_FRAME then Parsed([], TooLong)
      else Prepend(wire[..HEADER], ParsePayload(n, wire[HEADER..]))
  }

  /** Reference parser, with `n` ciphertext bytes of the current frame still to come. */
  function ParsePayload(n: nat, wire: Bytes): Parsed
    decreases |wire|, 1
  {
    if |wire| < n then Parsed(wire, PayloadCut)
    else Prepend(wire[..n], Parse(wire[n..]))
  }

  /** Ciphertext may be handed over in any pieces. */
  lemma PayloadSplits(n: nat, wire: Bytes, k: nat)
    requires k <= n && k <= |wire|
    ensures ParsePayload(n, wire) == Prepend(wire[..k], ParsePayload(n - k, wire[k..]))
  {
    if |wire| < n {
      assert wire == wire[..k] + wire[k..];
    } else {
      assert wire[..n] == wire[..k] + wire[k..][..n - k];
      assert wire[n..] == wire[k..][n - k..];
    }
  }

  /** One whole frame in front of a wire is released as it stands. */
  lemma ParseFrame(frame: Frame, rest: Bytes)
    requires ValidFrame(frame)
    ensures Parse(EncodeLength(|frame|) + frame + rest)
         == Prepend(EncodeLength(|frame|) + frame, Parse(rest))
  {
    var h := EncodeLength(|frame|);
    Regroup(h, frame, rest);
    Regroup(h, frame, Parse(rest).output);
    ParseHeader(h, frame + rest);
    ParseCiphertext(frame, rest);
  }

  lemma ParseHeader(h: Bytes, wire: Bytes)
    requires |h| == HEADER && 1 <= BigEndian(h) <= MAX_FRAME
    ensures Parse(h + wire) == Prepend(h, ParsePayload(BigEndian(h), wire))
  {
    assert (h + wire)[..HEADER] == h && (h + wire)[HEADER..] == wire;
  }

  lemma ParseCiphertext(frame: Frame, rest: Bytes)
    ensures ParsePayload(|frame|, frame + rest) == Prepend(frame, Parse(rest))
  {
    assert (frame + rest)[..|frame|] == frame && (frame + rest)[|frame|..] == rest;
  }

  /** Every list of frames survives the trip through the wire unchanged. */
  lemma {:induction false} EncodedFramesPass(frames: seq<Frame>)
    requires ValidFrames(frames)
    ensures Parse(Encode(frames)) == Parsed(Encode(frames), AtBoundary)
  {
    if frames != [] {
      EncodedFramesPass(frames[1..]);
      ParseFrame(frames[0], Encode(frames[1..]));
    }
  }

  /** The frames of a wire, up to where it stops being well formed. */
  function Frames(wire: Bytes): (frames: seq<Frame>)
    ensures ValidFrames(frames)
  {
    if |wire| < HEADER then []
    else
      var n := BigEndian(wire[..HEADER]);
      if n == 0 || n > MAX_FRAME || |wire| < HEADER + n then []
      else [wire[HEADER..HEADER + n]] + Frames(wire[HEADER + n..])
  }

  /** The unfinished frame at the end of a wire that breaks off inside its ciphertext. */
  function CutFrame(wire: Bytes): (tail: Bytes)
    ensures tail != [] ==>
              && HEADER <= |tail|
              && 1 <= BigEndian(tail[..HEADER]) <= MAX_FRAME
              && |tail| < HEADER + BigEndian(tail[..HEADER])
  {
    if |wire| < HEADER then []
    else
      var n := BigEndian(wire[..HEADER]);
      if n == 0 || n > MAX_FRAME then []
      else if |wire| < HEADER + n then wire
      else CutFrame(wire[HEADER + n..])
  }

  /** A wire whose first frame is complete is that frame, encoded, and the rest. */
  lemma FirstFrame(wire: Bytes, n: nat)
    requires HEADER <= |wire| && n == BigEndian(wire[..HEADER])
    requires HEADER + n <= |wire| && ValidFrame(wire[HEADER..HEADER + n])
    ensures var frame, rest := wire[HEADER..HEADER + n], wire[HEADER + n..];
            && wire == EncodeLength(n) + frame + rest
            && Parse(wire) == Prepend(EncodeLength(n) + frame, Parse(rest))
            && Encode(Frames(wire)) == EncodeLength(n) + frame + Encode(Frames(rest))
  {
    var frame, rest := wire[HEADER..HEADER + n], wire[HEADER + n..];
    LengthRoundTrip(wire[..HEADER]);
    assert wire == EncodeLength(n) + frame + rest;
    ParseFrame(frame, rest);
    assert Frames(wire)[1..] == Frames(rest);
  }

  /** What is released is always whole valid frames, followed, only when the wire breaks off inside
      a frame, by that frame's header and the part of its ciphertext that arrived. No part of a cut
      prefix, and no zero or oversized prefix, is ever released. */
  lemma {:induction false} ReleasedShape(wire: Bytes)
    ensures Parse(wire).output == Encode(Frames(wire)) + CutFrame(wire)
    ensures Parse(wire).verdict == PayloadCut <==> CutFrame(wire) != []
    ensures Parse(wire).verdict in {AtBoundary, PayloadCut} ==> Parse(wire).output == wire
  {
    if |wire| >= HEADER && 1 <= BigEndian(wire[..HEADER]) <= MAX_FRAME {
      var n := BigEndian(wire[..HEADER]);
      if |wire| < HEADER + n {
        assert wire[..HEADER] + wire[HEADER..] == wire;
      } else {
        var rest := wire[HEADER + n..];
        FirstFrame(wire, n);
        ReleasedShape(rest);
        Regroup(EncodeLength(n) + wire[HEADER..HEADER + n], Encode(Frames(rest)), CutFrame(rest));
      }
    }
  }

  /** What the parser says is decided by what comes behind the whole frames of a wire. */
  lemma {:induction false} RestDecides(wire: Bytes) returns (rest: Bytes)
    ensures wire == Encode(Frames(wire)) + rest
    ensures Parse(wire).verdict ==
              if rest == [] then AtBoundary
              else if |rest| < 4 then PrefixCut
              else if rest[..4] == [0, 0, 0, 0] then ZeroLength
              else if BigEndian(rest[..4]) > 67_108_864 then TooLong
              else PayloadCut
    ensures Parse(wire).verdict == PayloadCut ==> rest == CutFrame(wire) && |rest| < 4 + BigEndian(rest[..4])
  {
    rest := wire;
    if |wire| >= HEADER {
      var n := BigEndian(wire[..HEADER]);
      assert n == 0 <==> wire[..HEADER] == [0, 0, 0, 0];
      if 1 <= n <= MAX_FRAME && HEADER + n <= |wire| {
        FirstFrame(wire, n);
        rest := RestDecides(wire[HEADER + n..]);
        Regroup(EncodeLength(n) + wire[HEADER..HEADER + n], Encode(Frames(wire[HEADER + n..])), rest);
      }
    }
  }

  /** Acceptance is exact: a wire is accepted to the end if and only if it is an encoding of valid
      frames, and then everything on it is released. */
  lemma AcceptedExactly(wire: Bytes)
    ensures Parse(wire).verdict == AtBoundary <==> exists frames :: ValidFrames(frames) && wire == Encode(frames)
    ensures Parse(wire).verdict == AtBoundary ==> Parse(wire).output == wire && Encode(Frames(wire)) == wire
  {
    if Parse(wire).verdict == AtBoundary {
      ReleasedShape(wire);
    }
    forall frames | ValidFrames(frames) && wire == Encode(frames)
      ensures Parse(wire).verdict == AtBoundary
    {
      EncodedFramesPass(frames);
    }
  }

  /** Reading the frames back out of an encoding gives the same frames. */
  lemma {:induction false} FramesRoundTrip(frames: seq<Frame>)
    requires ValidFrames(frames)
    ensures Frames(Encode(frames)) == frames
  {
    if frames != [] {
      var h, rest := EncodeLength(|frames[0]|), Encode(frames[1..]);
      var wire := h + frames[0] + rest;
      assert wire[..HEADER] == h;
      assert wire[HEADER..HEADER + |frames[0]|] == frames[0];
      assert wire[HEADER + |frames[0]|..] == rest;
      FramesRoundTrip(frames[1..]);
    }
  }
}
