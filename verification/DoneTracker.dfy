/** The incremental detector of an event stream's terminating line. */
module DoneTracker {
  import opened Prelude
  import opened Lines
  import opened TextTrim

  const MAX_LINE: nat := 0x10_0000

  /** The text "data: [DONE]". */
  const MARKER: Bytes := [100, 97, 116, 97, 58, 32, 91, 68, 79, 78, 69, 93]

  /** A line that the stream's end is recognised by. */
  predicate DoneText(line: Bytes) {
    |line| <= MAX_LINE && TrimSpace(line) == MARKER
  }

  ghost predicate MarkerBetween(pre: Bytes, line: Bytes, post: Bytes) {
    Blank(pre) && Blank(post) && line == pre + MARKER + post
  }

  /** Exactly the marker between white space is recognised. */
  lemma DoneTextMeaning(line: Bytes)
    ensures DoneText(line) <==> |line| <= MAX_LINE && exists pre, post :: MarkerBetween(pre, line, post)
  {
    if DoneText(line) {
      var pre, post := TrimShape(line);
      assert MarkerBetween(pre, line, post);
    }
    forall pre, post | MarkerBetween(pre, line, post)
      ensures TrimSpace(line) == MARKER
    {
      assert (MARKER + post)[0] == 100;
      assert TrailingSpace(MARKER) == 0;
      TrimEatsBlanks(pre, MARKER, post);
    }
  }

  lemma EmptyLineIsNotDone()
    ensures !DoneText([])
  {
  }

  /** The marker is the text that ends an event stream. */
  lemma MarkerText()
    ensures |MARKER| == |"data: [DONE]"| && forall i :: 0 <= i < |MARKER| ==> MARKER[i] == "data: [DONE]"[i] as int
  {
  }

  /** Some line of `s`, the last one included whether or not an LF ends it, is the terminator. */
  ghost predicate HasDoneLine(s: Bytes) {
    HasLine(s, DoneText)
  }

  /** A line that a CR and an LF end is a line all the same. */
  lemma CrLfEndsTheMarker(before: Bytes)
    requires before == [] || before[|before| - 1] == 10
    ensures HasDoneLine(before + MARKER + [13, 10])
  {
    var s := before + MARKER + [13, 10];
    var i, j := |before|, |before| + |MARKER| + 1;
    assert s[i..j] == [] + MARKER + [13];
    assert MarkerBetween([], s[i..j], [13]);
    DoneTextMeaning(s[i..j]);
    assert Line(s, i, j);
  }

  lemma OneMoreByte(before: Bytes, data: Bytes, i: nat)
    requires i < |data|
    ensures before + data[..i] + [data[i]] == before + data[..i + 1]
  {
  }

  class SSEDoneTracker {
    var line: Bytes
    var tooLong: bool
    var done: bool

    /** Everything written so far, and where its last line begins. */
    ghost var seen: Bytes
    ghost var start: nat

    ghost predicate Valid()
      reads this
    {
      && Line(seen, start, |seen|)
      && (tooLong <==> |seen| - start > MAX_LINE)
      && line == (if tooLong then [] else seen[start..])
      && (done <==> HasClosedLine(seen, DoneText))
    }

    constructor ()
      ensures Valid() && seen == []
    {
      line, tooLong, done := [], false, false;
      seen, start := [], 0;
    }

    /** Feeds one piece of the stream. Nothing but the bytes written so far, however they were
        split, determines the tracker's state; the line kept in memory stays within its bound. */
    method Write(data: Bytes)
      requires Valid()
      modifies this
      ensures Valid() && seen == old(seen) + data
      ensures |line| <= MAX_LINE
    {
      ghost var before := seen;
      for i := 0 to |data|
        invariant Valid() && seen == before + data[..i]
      {
        WriteByte(data[i]);
        OneMoreByte(before, data, i);
      }
      assert data[..|data|] == data;
    }

    method WriteByte(current: byte)
      requires Valid()
      modifies this
      ensures Valid() && seen == old(seen) + [current]
    {
      if current == LF {
        FinishLine();
        return;
      }
      ClosedLineByte(seen, current, start, DoneText);
      seen := seen + [current];
      if tooLong {
        return;
      }
      if |line| == MAX_LINE {
        line := [];
        tooLong := true;
        return;
      }
      line := line + [current];
    }

    /** The stream is over: `done` now says whether any of its lines was the terminator. */
    method Finish()
      requires Valid()
      modifies this
      ensures done <==> HasDoneLine(old(seen))
    {
      HasLineSplit(seen, start, DoneText);
      EmptyLineIsNotDone();
      ClosedLineByte(seen, LF, start, DoneText);
      if |line| > 0 || tooLong {
        FinishLine();
      }
    }

    method FinishLine()
      requires Valid()
      modifies this
      ensures Valid() && seen == old(seen) + [LF]
    {
      ClosedLineByte(seen, LF, start, DoneText);
      if !tooLong && TrimSpace(line) == MARKER {
        done := true;
      }
      line := [];
      tooLong := false;
      seen := seen + [LF];
      start := |seen|;
    }
  }
}
