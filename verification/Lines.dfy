/** The lines of a byte string: what an LF, or an end of the string, sets apart. */
module Lines {
  import opened Prelude

  const LF: byte := 10

  /** Bytes i to j of `s` are one whole line of it, the last line not needing its LF. */
  ghost predicate Line(s: Bytes, i: nat, j: nat) {
    && i <= j <= |s|
    && (i == 0 || s[i - 1] == LF)
    && (j == |s| || s[j] == LF)
    && LF !in s[i..j]
  }

  ghost predicate HasLine(s: Bytes, good: Bytes -> bool) {
    exists i: nat, j: nat :: Line(s, i, j) && good(s[i..j])
  }

  /** The same, among the lines that an LF has closed. */
  ghost predicate HasClosedLine(s: Bytes, good: Bytes -> bool) {
    exists i: nat, j: nat :: Line(s, i, j) && j < |s| && good(s[i..j])
  }

  lemma NoLaterLF(s: Bytes, i: nat)
    requires Line(s, i, |s|)
    ensures forall k :: i <= k < |s| ==> s[k] != LF
  {
    forall k | i <= k < |s|
      ensures s[k] != LF
    {
      assert s[i..|s|][k - i] == s[k];
    }
  }

  lemma OneLastLine(s: Bytes, i: nat, j: nat)
    requires Line(s, i, |s|) && Line(s, j, |s|)
    ensures i == j
  {
    NoLaterLF(s, i);
    NoLaterLF(s, j);
  }

  lemma ClosedLineByte(s: Bytes, c: byte, start: nat, good: Bytes -> bool)
    requires Line(s, start, |s|)
    ensures HasClosedLine(s + [c], good) <==> HasClosedLine(s, good) || (c == LF && good(s[start..]))
  {
    var t := s + [c];
    forall i: nat, j: nat | Line(s, i, j) && j < |s| && good(s[i..j])
      ensures HasClosedLine(t, good)
    {
      assert t[i..j] == s[i..j];
      assert Line(t, i, j);
    }
    if c == LF && good(s[start..]) {
      assert t[start..|s|] == s[start..];
      assert Line(t, start, |s|);
    }
    forall i: nat, j: nat | Line(t, i, j) && j < |t| && good(t[i..j])
      ensures HasClosedLine(s, good) || (c == LF && good(s[start..]))
    {
      assert t[i..j] == s[i..j];
      if j < |s| {
        assert Line(s, i, j);
      } else {
        OneLastLine(s, i, start);
      }
    }
  }

  lemma HasLineSplit(s: Bytes, start: nat, good: Bytes -> bool)
    requires Line(s, start, |s|)
    ensures HasLine(s, good) <==> HasClosedLine(s, good) || good(s[start..])
  {
    forall i: nat | Line(s, i, |s|)
      ensures i == start
    {
      OneLastLine(s, i, start);
    }
    assert s[start..|s|] == s[start..];
  }
}
