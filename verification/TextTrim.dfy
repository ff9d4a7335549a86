/** White-space trimming of byte strings. */
module TextTrim {
  import opened Prelude

  predicate AsciiSpace(a: byte) {
    a in {9, 10, 11, 12, 13, 32}
  }

  predicate TwoByteSpace(a: byte, b: byte) {
    a == 0xC2 && (b == 0x85 || b == 0xA0)
  }

  predicate ThreeByteSpace(a: byte, b: byte, c: byte) {
    || (a == 0xE1 && b == 0x9A && c == 0x80)
    || (a == 0xE2 && b == 0x80 && (0x80 <= c <= 0x8A || c == 0xA8 || c == 0xA9 || c == 0xAF))
    || (a == 0xE2 && b == 0x81 && c == 0x9F)
    || (a == 0xE3 && b == 0x80 && c == 0x80)
  }

  /** Length of the white-space character, in UTF-8, that `s` begins with; 0 if it does not. */
  function LeadingSpace(s: Bytes): (k: nat)
    ensures k <= |s|
  {
    if |s| >= 1 && AsciiSpace(s[0]) then 1
    else if |s| >= 2 && TwoByteSpace(s[0], s[1]) then 2
    else if |s| >= 3 && ThreeByteSpace(s[0], s[1], s[2]) then 3
    else 0
  }

  /** Length of the white-space character that `s` ends with; 0 if it does not. */
  function TrailingSpace(s: Bytes): (k: nat)
    ensures k <= |s|
  {
    var n := |s|;
    if n >= 1 && AsciiSpace(s[n - 1]) then 1
    else if n >= 2 && TwoByteSpace(s[n - 2], s[n - 1]) then 2
    else if n >= 3 && ThreeByteSpace(s[n - 3], s[n - 2], s[n - 1]) then 3
    else 0
  }

  predicate IsSpace(r: Bytes) {
    r != [] && LeadingSpace(r) == |r|
  }

  /** The UTF-8 encoding of a code point of at most 16 bits (section 3 of RFC 3629). */
  function Utf8(c: nat): Bytes
    requires c < 0x1_0000
  {
    if c < 0x80 then [c]
    else if c < 0x800 then [0xC0 + c / 0x40, 0x80 + c % 0x40]
    else [0xE0 + c / 0x1000, 0x80 + c / 0x40 % 0x40, 0x80 + c % 0x40]
  }

  /** The code points that Unicode calls white space. */
  predicate WhiteSpace(c: nat) {
    || 9 <= c <= 13 || c == 32 || c == 0x85 || c == 0xA0 || c == 0x1680
    || 0x2000 <= c <= 0x200A || c == 0x2028 || c == 0x2029 || c == 0x202F || c == 0x205F || c == 0x3000
  }

  /** What is trimmed is exactly Unicode's white space. */
  lemma SpacesExactly(c: nat)
    requires c < 0x1_0000
    ensures IsSpace(Utf8(c)) <==> WhiteSpace(c)
  {
    if c >= 0x800 {
      var a, b, d := c / 0x1000, c / 0x40 % 0x40, c % 0x40;
      assert c == 0x1000 * a + 0x40 * b + d && b < 0x40 && d < 0x40;
    }
  }

  function TrimLeft(s: Bytes): Bytes {
    if LeadingSpace(s) == 0 then s else TrimLeft(s[LeadingSpace(s)..])
  }

  function TrimRight(s: Bytes): Bytes {
    if TrailingSpace(s) == 0 then s else TrimRight(s[..|s| - TrailingSpace(s)])
  }

  function TrimSpace(s: Bytes): Bytes {
    TrimRight(TrimLeft(s))
  }

  /** White space and nothing else. */
  predicate Blank(s: Bytes) {
    s == [] || (LeadingSpace(s) > 0 && Blank(s[LeadingSpace(s)..]))
  }

  lemma SpaceLeads(r: Bytes, rest: Bytes)
    requires IsSpace(r)
    ensures LeadingSpace(r + rest) == |r| && (r + rest)[|r|..] == rest
  {
    assert forall i :: 0 <= i < |r| ==> (r + rest)[i] == r[i];
  }

  lemma SpaceTrails(rest: Bytes, r: Bytes)
    requires IsSpace(r)
    ensures TrailingSpace(rest + r) == |r| && (rest + r)[..|rest|] == rest
  {
    assert forall i :: 0 <= i < |r| ==> (rest + r)[|rest| + i] == r[i];
  }

  lemma LeadingIsSpace(s: Bytes)
    requires LeadingSpace(s) > 0
    ensures IsSpace(s[..LeadingSpace(s)]) && s == s[..LeadingSpace(s)] + s[LeadingSpace(s)..]
  {
  }

  lemma TrailingIsSpace(s: Bytes)
    requires TrailingSpace(s) > 0
    ensures var n := |s| - TrailingSpace(s); IsSpace(s[n..]) && s == s[..n] + s[n..]
  {
  }

  lemma BlankFront(r: Bytes, s: Bytes)
    requires IsSpace(r) && Blank(s)
    ensures Blank(r + s)
  {
    SpaceLeads(r, s);
  }

  lemma {:induction false} BlankBack(s: Bytes, r: Bytes)
    requires Blank(s) && IsSpace(r)
    ensures Blank(s + r)
  {
    if s == [] {
      assert s + r == r + [];
      BlankFront(r, []);
    } else {
      var first, rest := s[..LeadingSpace(s)], s[LeadingSpace(s)..];
      LeadingIsSpace(s);
      BlankBack(rest, r);
      BlankFront(first, rest + r);
      Regroup(first, rest, r);
    }
  }

  lemma {:induction false} LeftShape(s: Bytes) returns (pad: Bytes)
    ensures Blank(pad) && s == pad + TrimLeft(s)
  {
    if LeadingSpace(s) == 0 {
      pad := [];
    } else {
      var first, rest := s[..LeadingSpace(s)], s[LeadingSpace(s)..];
      LeadingIsSpace(s);
      var inner := LeftShape(rest);
      BlankFront(first, inner);
      Regroup(first, inner, TrimLeft(rest));
      pad := first + inner;
    }
  }

  lemma {:induction false} RightShape(s: Bytes) returns (pad: Bytes)
    ensures Blank(pad) && s == TrimRight(s) + pad
  {
    if TrailingSpace(s) == 0 {
      pad := [];
    } else {
      var rest, last := s[..|s| - TrailingSpace(s)], s[|s| - TrailingSpace(s)..];
      TrailingIsSpace(s);
      var inner := RightShape(rest);
      BlankBack(inner, last);
      Regroup(TrimRight(rest), inner, last);
      pad := inner + last;
    }
  }

  lemma {:induction false} TrimLeftEatsBlank(pad: Bytes, s: Bytes)
    requires Blank(pad)
    ensures TrimLeft(pad + s) == TrimLeft(s)
  {
    if pad == [] {
      assert pad + s == s;
    } else {
      var first, rest := pad[..LeadingSpace(pad)], pad[LeadingSpace(pad)..];
      LeadingIsSpace(pad);
      SpaceLeads(first, rest + s);
      assert pad + s == first + (rest + s);
      TrimLeftEatsBlank(rest, s);
    }
  }

  lemma {:induction false} TrimRightEatsBlank(s: Bytes, pad: Bytes)
    requires Blank(pad)
    ensures TrimRight(s + pad) == TrimRight(s)
    decreases |pad|
  {
    if pad == [] {
      assert s + pad == s;
    } else {
      var first, rest := pad[..LeadingSpace(pad)], pad[LeadingSpace(pad)..];
      LeadingIsSpace(pad);
      TrimRightEatsBlank(s + first, rest);
      Regroup(s, first, rest);
      SpaceTrails(s, first);
    }
  }

  /** Trimming takes white space off both ends and nothing else. */
  lemma TrimShape(s: Bytes) returns (pre: Bytes, post: Bytes)
    ensures Blank(pre) && Blank(post) && s == pre + TrimSpace(s) + post
  {
    pre := LeftShape(s);
    post := RightShape(TrimLeft(s));
    Regroup(pre, TrimSpace(s), post);
  }

  /** Trimming takes all of it off. */
  lemma TrimEatsBlanks(pre: Bytes, text: Bytes, post: Bytes)
    requires Blank(pre) && Blank(post) && LeadingSpace(text + post) == TrailingSpace(text) == 0
    ensures TrimSpace(pre + text + post) == text
  {
    Regroup(pre, text, post);
    TrimLeftEatsBlank(pre, text + post);
    TrimRightEatsBlank(text, post);
  }
}
