/** JavaScript strings as the list functions see them: sequences of UTF-16
    code units (section 6.1.4 of ECMA-262). A Dafny `char` is a Unicode
    scalar value; one outside the Basic Multilingual Plane is a surrogate
    pair of two code units, so `slice`, `at`, `reverse` and the `indexOf`
    family, which count and move code units, must be applied to the
    encoding of a string rather than to its characters.
 */
module Utf16 {
  import opened Types
  import Lists

  /** A 16-bit code unit. */
  type CodeUnit = n: int | 0 <= n < 0x1_0000

  predicate IsHighSurrogate(u: CodeUnit) {
    0xD800 <= u < 0xDC00
  }

  predicate IsLowSurrogate(u: CodeUnit) {
    0xDC00 <= u < 0xE000
  }

  /** The scalar value a surrogate pair stands for. */
  function Combine(high: CodeUnit, low: CodeUnit): int {
    0x1_0000 + (high as int - 0xD800) * 0x400 + (low as int - 0xDC00)
  }

  /** The code units of one character: the character itself when it fits
      in 16 bits, otherwise a high surrogate and then a low surrogate. */
  function EncodeChar(c: char): (r: seq<CodeUnit>)
    ensures |r| == 1 <==> (c as int) < 0x1_0000
    ensures |r| == 1 ==> r[0] == c as int && !IsHighSurrogate(r[0]) && !IsLowSurrogate(r[0])
    ensures |r| == 2 ==> IsHighSurrogate(r[0]) && IsLowSurrogate(r[1])
    ensures |r| == 2 ==> c as int == Combine(r[0], r[1])
  {
    var v := c as int;
    if v < 0x1_0000 then [v]
    else [0xD800 + (v - 0x1_0000) / 0x400, 0xDC00 + (v - 0x1_0000) % 0x400]
  }

  /** The code units of a string, character by character. */
  function Encode(s: string): (r: seq<CodeUnit>)
    ensures |r| >= |s|
    ensures (forall i :: 0 <= i < |s| ==> (s[i] as int) < 0x1_0000) ==> |r| == |s|
  {
    if |s| == 0 then [] else EncodeChar(s[0]) + Encode(s[1..])
  }

  /** Reading code units back as characters; Nothing when a surrogate is not
      part of a high-then-low pair. */
  function Decode(us: seq<CodeUnit>): (r: Maybe<string>)
    ensures r.Just? ==> |r.value| <= |us|
    decreases |us|
  {
    if |us| == 0 then Just("")
    else if IsLowSurrogate(us[0]) then Nothing
    else if !IsHighSurrogate(us[0]) then
      match Decode(us[1..])
      case Nothing => Nothing
      case Just(rest) => Just([us[0] as char] + rest)
    else if |us| < 2 || !IsLowSurrogate(us[1]) then Nothing
    else
      var v := Combine(us[0], us[1]);
      match Decode(us[2..])
      case Nothing => Nothing
      case Just(rest) => Just([v as char] + rest)
  }

  /** Encoding one character and then more code units: decoding takes the
      character back first. */
  lemma DecodeEncodeChar(c: char, rest: seq<CodeUnit>)
    ensures Decode(EncodeChar(c) + rest) ==
      match Decode(rest)
      case Nothing => Nothing
      case Just(t) => Just([c] + t)
  {
    var us := EncodeChar(c) + rest;
    if |EncodeChar(c)| == 1 {
      assert us[0] == c as int && us[1..] == rest;
    } else {
      assert us[0] == EncodeChar(c)[0] && us[1] == EncodeChar(c)[1] && us[2..] == rest;
    }
  }

  /** Decoding undoes encoding: every string has a well-formed encoding, and
      no two strings share one. */
  lemma {:induction false} DecodeEncode(s: string)
    ensures Decode(Encode(s)) == Just(s)
    decreases |s|
  {
    if |s| > 0 {
      DecodeEncode(s[1..]);
      DecodeEncodeChar(s[0], Encode(s[1..]));
      assert [s[0]] + s[1..] == s;
    }
  }

  /** Encoding distributes over concatenation. */
  lemma {:induction false} EncodeAppend(s: string, t: string)
    ensures Encode(s + t) == Encode(s) + Encode(t)
    decreases |s|
  {
    if |s| > 0 {
      assert (s + t)[1..] == s[1..] + t;
      EncodeAppend(s[1..], t);
    } else {
      assert s + t == t;
    }
  }

  /** A character outside the Basic Multilingual Plane is two code units:
      in JavaScript `'\u{1F600}a'.indexOf('a')` is 2, not 1. */
  lemma IndexOfAfterAstral(s: string, needle: string)
    requires s == "\U{1F600}a" && needle == "a"
    ensures Encode(s) == [0xD83D, 0xDE00, 0x61]
    ensures Lists.IndexOfSubstring(Encode(needle), Encode(s)) == Just(2)
  {
    assert EncodeChar('\U{1F600}') == [0xD83D, 0xDE00];
    assert Encode(needle) == [0x61];
    assert Encode(s) == EncodeChar(s[0]) + Encode(s[1..]);
    var us, n := Encode(s), Encode(needle);
    assert Lists.OccursAt(n, us, 2) by {
      assert us[2..3] == [0x61];
    }
    assert !Lists.OccursAt(n, us, 0) by {
      assert us[0..1][0] != 0x61;
    }
    assert !Lists.OccursAt(n, us, 1) by {
      assert us[1..2][0] != 0x61;
    }
  }

  /** `reverse` on a string reverses code units, so it swaps the halves of a
      surrogate pair and leaves a sequence that is not a well-formed
      string. */
  lemma ReverseSplitsSurrogatePair(s: string)
    requires s == "\U{1F600}"
    ensures Lists.Reverse(Encode(s)) == [0xDE00, 0xD83D]
    ensures Decode(Lists.Reverse(Encode(s))) == Nothing
  {
    assert Encode(s) == EncodeChar(s[0]) + Encode(s[1..]);
    assert EncodeChar(s[0]) == [0xD83D, 0xDE00];
  }
}
