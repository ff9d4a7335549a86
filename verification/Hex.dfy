/** Hexadecimal text (base16, section 8 of RFC 4648) as Go's decoder reads it and encoder writes it:
    both letter cases are read, lower case is written. */
module Hex {
  import opened Prelude

  function NibbleOf(c: char): (v: Option<nat>)
    ensures v.Some? ==> v.value < 16
  {
    if '0' <= c <= '9' then Some((c - '0') as nat)
    else if 'a' <= c <= 'f' then Some((c - 'a') as nat + 10)
    else if 'A' <= c <= 'F' then Some((c - 'A') as nat + 10)
    else None
  }

  function DigitOf(v: nat): char
    requires v < 16
  {
    if v < 10 then '0' + v as char else 'a' + (v - 10) as char
  }

  function Decode(s: string): Option<Bytes> {
    if s == [] then Some([])
    else if |s| == 1 then None
    else
      match (NibbleOf(s[0]), NibbleOf(s[1]), Decode(s[2..]))
      case (Some(high), Some(low), Some(rest)) => Some([16 * high + low] + rest)
      case _ => None
  }

  function Encode(b: Bytes): string {
    if b == [] then "" else [DigitOf(b[0] / 16), DigitOf(b[0] % 16)] + Encode(b[1..])
  }

  predicate LowerDigit(c: char) {
    '0' <= c <= '9' || 'a' <= c <= 'f'
  }

  predicate LowerHex(s: string) {
    forall i :: 0 <= i < |s| ==> LowerDigit(s[i])
  }

  lemma LowerHexFront(s: string)
    requires |s| >= 2
    ensures LowerHex(s) <==> LowerDigit(s[0]) && LowerDigit(s[1]) && LowerHex(s[2..])
  {
    assert forall i :: 2 <= i < |s| ==> s[i] == s[2..][i - 2];
  }

  lemma EncodeFront(b: byte, rest: Bytes, c: char, d: char, tail: string)
    ensures Encode([b] + rest) == [c, d] + tail <==>
              DigitOf(b / 16) == c && DigitOf(b % 16) == d && Encode(rest) == tail
  {
    var all := Encode([b] + rest);
    assert ([b] + rest)[1..] == rest;
    assert all[0] == DigitOf(b / 16) && all[1] == DigitOf(b % 16) && all[2..] == Encode(rest);
    assert ([c, d] + tail)[2..] == tail;
  }

  /** The text decodes, and what it decodes to encodes back to it. */
  predicate Canonical(s: string) {
    Decode(s).Some? && Encode(Decode(s).value) == s
  }

  lemma CanonicalFront(s: string)
    requires |s| >= 2
    ensures Canonical(s) <==> LowerDigit(s[0]) && LowerDigit(s[1]) && Canonical(s[2..])
  {
    var high, low, rest := NibbleOf(s[0]), NibbleOf(s[1]), Decode(s[2..]);
    if high.Some? && low.Some? && rest.Some? {
      CanonicalPair(s[0], s[1], s[2..], rest.value);
      assert s == [s[0], s[1]] + s[2..];
    }
  }

  lemma CanonicalPair(c: char, d: char, tail: string, rest: Bytes)
    requires NibbleOf(c).Some? && NibbleOf(d).Some?
    ensures Encode([16 * NibbleOf(c).value + NibbleOf(d).value] + rest) == [c, d] + tail <==>
              LowerDigit(c) && LowerDigit(d) && Encode(rest) == tail
  {
    DigitPair(c, d);
    EncodeFront(16 * NibbleOf(c).value + NibbleOf(d).value, rest, c, d, tail);
  }

  /** A text passes "decodes, and encodes back to itself" if and only if it is made of lower-case
      digits, two for each byte. */
  lemma {:induction false} CanonicalIsLowerHex(s: string)
    ensures Canonical(s) <==> |s| % 2 == 0 && LowerHex(s)
  {
    if |s| >= 2 {
      CanonicalIsLowerHex(s[2..]);
      CanonicalFront(s);
      LowerHexFront(s);
    }
  }

  lemma {:induction false} DecodedLength(s: string)
    requires Decode(s).Some?
    ensures |s| == 2 * |Decode(s).value|
  {
    if s != [] {
      DecodedLength(s[2..]);
    }
  }

  /** Byte `k` of the value is written as these two digits, the first one counting sixteens. */
  ghost predicate Spells(s: string, b: Bytes, k: nat) {
    k < |b| && 2 * k + 1 < |s| && s[2 * k] == DigitOf(b[k] / 16) && s[2 * k + 1] == DigitOf(b[k] % 16)
  }

  /** Canonical text spells the bytes it stands for, and no others. */
  lemma {:induction false} CanonicalMeaning(s: string)
    requires Canonical(s)
    ensures |s| == 2 * |Decode(s).value|
    ensures forall k :: 0 <= k < |Decode(s).value| ==> Spells(s, Decode(s).value, k)
  {
    DecodedLength(s);
    EncodeMeaning(Decode(s).value);
  }

  lemma {:induction false} EncodeMeaning(b: Bytes)
    ensures forall k :: 0 <= k < |b| ==> Spells(Encode(b), b, k)
  {
    if b != [] {
      EncodeMeaning(b[1..]);
      assert Encode(b)[2..] == Encode(b[1..]);
      forall k | 0 <= k < |b|
        ensures Spells(Encode(b), b, k)
      {
        if k > 0 {
          SpellsOn(Encode(b), b, k);
        }
      }
    }
  }

  lemma SpellsOn(s: string, b: Bytes, k: nat)
    requires 0 < k < |b| && |s| >= 2 && Spells(s[2..], b[1..], k - 1)
    ensures Spells(s, b, k)
  {
    assert s[2..][2 * (k - 1)] == s[2 * k] && s[2..][2 * (k - 1) + 1] == s[2 * k + 1];
  }

  lemma SixteenDigits(c: char)
    ensures LowerDigit(c) <==> c in "0123456789abcdef"
  {
    assert forall i :: 0 <= i < 16 ==> LowerDigit("0123456789abcdef"[i]);
    if LowerDigit(c) {
      DigitsInOrder(NibbleOf(c).value);
    }
  }

  /** The sixteen digits in order, in both letter cases. */
  lemma DigitsInOrder(v: nat)
    requires v < 16
    ensures DigitOf(v) == "0123456789abcdef"[v]
    ensures NibbleOf("0123456789abcdef"[v]) == NibbleOf("0123456789ABCDEF"[v]) == Some(v)
  {
  }

  lemma DigitPair(c: char, d: char)
    requires NibbleOf(c).Some? && NibbleOf(d).Some?
    ensures var b := 16 * NibbleOf(c).value + NibbleOf(d).value;
            && (DigitOf(b / 16) == c <==> LowerDigit(c))
            && (DigitOf(b % 16) == d <==> LowerDigit(d))
  {
    var b := 16 * NibbleOf(c).value + NibbleOf(d).value;
    assert b / 16 == NibbleOf(c).value && b % 16 == NibbleOf(d).value;
  }

  predicate ZeroText(s: string) {
    forall i :: 0 <= i < |s| ==> s[i] == '0'
  }

  predicate ZeroBytes(b: Bytes) {
    forall i :: 0 <= i < |b| ==> b[i] == 0
  }

  lemma ZeroBytesFront(b: byte, rest: Bytes)
    ensures ZeroBytes([b] + rest) <==> b == 0 && ZeroBytes(rest)
  {
    var all := [b] + rest;
    assert all[0] == b;
    assert forall i :: 0 <= i < |rest| ==> rest[i] == all[i + 1];
    assert forall i :: 1 <= i < |all| ==> all[i] == rest[i - 1];
  }

  lemma ZeroTextFront(s: string)
    requires |s| >= 2
    ensures ZeroText(s) <==> s[0] == '0' && s[1] == '0' && ZeroText(s[2..])
  {
    assert forall i :: 2 <= i < |s| ==> s[i] == s[2..][i - 2];
  }

  /** Text of zeros is what zero bytes look like. */
  lemma {:induction false} ZeroTextIsZeroBytes(s: string)
    requires Decode(s).Some?
    ensures ZeroText(s) <==> ZeroBytes(Decode(s).value)
  {
    if s != [] {
      var high, low := NibbleOf(s[0]).value, NibbleOf(s[1]).value;
      ZeroTextIsZeroBytes(s[2..]);
      ZeroTextFront(s);
      ZeroBytesFront(16 * high + low, Decode(s[2..]).value);
      assert high == 0 <==> s[0] == '0';
      assert low == 0 <==> s[1] == '0';
    }
  }

  /** Or-ing the bytes together finds out whether they are all zero. */
  method AllZero(value: Bytes) returns (zero: bool)
    ensures zero <==> ZeroBytes(value)
  {
    var combined: bv8 := 0;
    for i := 0 to |value|
      invariant combined == 0 <==> ZeroBytes(value[..i])
    {
      assert value[..i + 1] == value[..i] + [value[i]];
      combined := combined | value[i] as bv8;
    }
    assert value[..|value|] == value;
    return combined == 0;
  }
}
