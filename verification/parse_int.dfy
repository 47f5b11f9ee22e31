/** `parseInt` (index.js 3462-3480): a strict reading of an integer in a
    radix from 2 to 36.

    The source first checks the string's shape (an optional sign, then for
    radix 16 an optional `0x`/`0X`, then one or more digits of the radix in
    either case) and only then hands it to the built-in `parseInt`, keeping
    the result when it is a safe integer. The built-in reads the longest
    digit prefix after skipping whitespace, a sign and (for radix 16) the
    `0x` prefix; it is modelled here as `BuiltinParseInt`, with NaN as
    Nothing.
 */
module Parsing {
  import opened Types
  import Chars
  import Strings

  /** `Number.MAX_SAFE_INTEGER`, 2^53 - 1: the bound of `$.Integer`. */
  const MaxSafeInteger: int := 0x1F_FFFF_FFFF_FFFF

  /** The exception the source throws for a radix outside [2 .. 36]. */
  datatype RangeError = RangeError(message: string)

  const RadixMessage: string := "Radix not in [2 .. 36]"

  predicate ValidRadix(radix: int) {
    2 <= radix <= 36
  }

  /** The value of an ASCII letter or decimal digit as a base-36 digit, in
      either case; 36 for any other character, which no radix accepts. */
  function DigitValue(c: char): (d: nat)
    ensures d <= 36
  {
    if '0' <= c <= '9' then c as int - '0' as int
    else if 'A' <= c <= 'Z' then c as int - 'A' as int + 10
    else if 'a' <= c <= 'z' then c as int - 'a' as int + 10
    else 36
  }

  /** Membership in the radix's character set: the first `radix` of
      `0-9A-Z`, matched case-insensitively. */
  predicate IsDigit(radix: int, c: char) {
    DigitValue(c) < radix
  }

  predicate AllDigits(radix: int, s: string) {
    forall i :: 0 <= i < |s| ==> IsDigit(radix, s[i])
  }

  /** The number a string of digits denotes, most significant first. */
  function DigitsValue(radix: int, s: string): (v: nat)
    requires ValidRadix(radix) && AllDigits(radix, s)
    decreases |s|
  {
    if |s| == 0 then 0
    else DigitsValue(radix, s[..|s| - 1]) * radix + DigitValue(s[|s| - 1])
  }

  /** `s.replace(/^[+-]/, '')`. */
  function StripSign(s: string): (t: string)
    ensures |t| <= |s| && s == s[..|s| - |t|] + t
    ensures |s| - |t| == 0 || (|s| - |t| == 1 && (s[0] == '+' || s[0] == '-'))
  {
    if |s| > 0 && (s[0] == '+' || s[0] == '-') then s[1..] else s
  }

  predicate HasHexPrefix(s: string) {
    |s| >= 2 && s[0] == '0' && (s[1] == 'x' || s[1] == 'X')
  }

  /** `t.replace(/^0x/i, '')`. */
  function StripHexPrefix(t: string): (u: string)
    ensures |u| <= |t| && t == t[..|t| - |u|] + u
    ensures |t| - |u| == 0 || (|t| - |u| == 2 && HasHexPrefix(t))
  {
    if HasHexPrefix(t) then t[2..] else t
  }

  /** The part of the string the source's pattern must match in full. */
  function Body(radix: int, s: string): string {
    var t := StripSign(s);
    if radix == 16 then StripHexPrefix(t) else t
  }

  /** The string without its leading whitespace. */
  function TrimStartSpace(s: string): (r: string)
    ensures |r| <= |s| && r == s[|s| - |r|..]
    ensures forall i :: 0 <= i < |s| - |r| ==> Chars.IsSpace(s[i])
    ensures |r| > 0 ==> !Chars.IsSpace(r[0])
  {
    s[Chars.SkipSpace(s, 0)..]
  }

  /** The length of the longest prefix of digits of the radix. */
  function DigitRun(radix: int, s: string): (k: nat)
    ensures k <= |s|
    ensures forall i :: 0 <= i < k ==> IsDigit(radix, s[i])
    ensures k < |s| ==> !IsDigit(radix, s[k])
  {
    if |s| == 0 || !IsDigit(radix, s[0]) then 0 else 1 + DigitRun(radix, s[1..])
  }

  /** The value a sign gives to a magnitude. */
  function Signed(sign: string, v: nat): int {
    if sign == "-" then -(v as int) else v
  }

  /** The built-in `parseInt(s, radix)` for a valid radix: skip leading
      whitespace, take one sign, drop `0x`/`0X` when the radix is 16 (the
      same stripping `Body` does), then read the longest run of digits; no
      digits at all is NaN. */
  function BuiltinParseInt(radix: int, s: string): (r: Maybe<int>)
    requires ValidRadix(radix)
    ensures r.Just? <==> |Body(radix, TrimStartSpace(s))| > 0
                         && IsDigit(radix, Body(radix, TrimStartSpace(s))[0])
    ensures r.Just? && SignOf(TrimStartSpace(s)) == "-" ==> r.value <= 0
    ensures r.Just? && SignOf(TrimStartSpace(s)) != "-" ==> r.value >= 0
  {
    ReadDigitPrefix(radix, TrimStartSpace(s))
  }

  /** The built-in after whitespace: the signed value of the longest run of
      digits after the sign and prefix, or NaN when there is none. */
  function ReadDigitPrefix(radix: int, s: string): (r: Maybe<int>)
    requires ValidRadix(radix)
  {
    var u := Body(radix, s);
    var k := DigitRun(radix, u);
    if k == 0 then Nothing else Just(Signed(SignOf(s), DigitsValue(radix, u[..k])))
  }

  /** The shape the source accepts, with its parts named: `s` is an optional
      sign, then a `0x`/`0X` only when the radix is 16, then one or more
      digits of the radix. */
  ghost predicate Spells(radix: int, s: string, sign: string, prefix: string, digits: string) {
    ValidRadix(radix)
    && s == sign + prefix + digits
    && (sign == "" || sign == "+" || sign == "-")
    && (prefix == "" || (radix == 16 && (prefix == "0x" || prefix == "0X")))
    && |digits| > 0 && AllDigits(radix, digits)
  }

  /** `parseInt`: a RangeError for a radix outside [2 .. 36]; otherwise Just
      the value of a string of the accepted shape when it is a safe integer,
      and Nothing for anything else. `ParseIntReadsSpelling` and
      `ParseIntJustIsSpelled` state the two directions. */
  function ParseInt(radix: int, s: string): (r: Outcome<Maybe<int>, RangeError>)
    ensures r.Threw? <==> !ValidRadix(radix)
    ensures r.Threw? ==> r.error == RangeError(RadixMessage)
    ensures r.Ok? && r.result.Just? ==> -MaxSafeInteger <= r.result.value <= MaxSafeInteger
  {
    if radix < 2 || radix > 36 then Threw(RangeError(RadixMessage))
    else
      var u := Body(radix, s);
      if |u| > 0 && AllDigits(radix, u) then
        match BuiltinParseInt(radix, s)
        case Just(n) =>
          if -MaxSafeInteger <= n <= MaxSafeInteger then Ok(Just(n)) else Ok(Nothing)
        case Nothing => Ok(Nothing)
      else Ok(Nothing)
  }

  /** Whether an integer is a safe integer, the range of `$.Integer`. */
  predicate IsSafe(n: int) {
    -MaxSafeInteger <= n <= MaxSafeInteger
  }

  /** When the body is all digits, `parseInt` keeps what the built-in reads
      from it if that is safe. */
  lemma ParseIntOfDigits(radix: int, s: string)
    requires ValidRadix(radix)
    requires |Body(radix, s)| > 0 && AllDigits(radix, Body(radix, s))
    ensures ParseInt(radix, s) ==
              var v := Signed(SignOf(s), DigitsValue(radix, Body(radix, s)));
              if IsSafe(v) then Ok(Just(v)) else Ok(Nothing)
  {
    BuiltinReadsBody(radix, s);
  }

  /** A string of the accepted shape reads as its value when that is a safe
      integer, and as Nothing otherwise. */
  lemma ParseIntReadsSpelling(radix: int, s: string, sign: string, prefix: string, digits: string)
    requires Spells(radix, s, sign, prefix, digits)
    ensures IsSafe(Signed(sign, DigitsValue(radix, digits))) ==>
              ParseInt(radix, s) == Ok(Just(Signed(sign, DigitsValue(radix, digits))))
    ensures !IsSafe(Signed(sign, DigitsValue(radix, digits))) ==> ParseInt(radix, s) == Ok(Nothing)
  {
    SpellingFixesParts(radix, s, sign, prefix, digits);
    ParseIntOfDigits(radix, s);
  }

  /** Only a string of the accepted shape reads as a number, and the number
      is the value it spells. */
  lemma ParseIntJustIsSpelled(radix: int, s: string, n: int)
    requires ParseInt(radix, s) == Ok(Just(n))
    ensures IsSafe(n)
    ensures Spells(radix, s, SignOf(s), PrefixOf(radix, s), Body(radix, s))
    ensures n == Signed(SignOf(s), DigitsValue(radix, Body(radix, s)))
  {
    BodySpells(radix, s);
    ParseIntOfDigits(radix, s);
  }

  /** Every string that is not of the accepted shape reads as Nothing. */
  lemma ParseIntRefusesOtherShapes(radix: int, s: string)
    requires ValidRadix(radix)
    requires forall sign, prefix, digits :: !Spells(radix, s, sign, prefix, digits)
    ensures ParseInt(radix, s) == Ok(Nothing)
  {
    if |Body(radix, s)| > 0 && AllDigits(radix, Body(radix, s)) {
      BodySpells(radix, s);
      assert false;
    }
  }

  /** Signs and digits are not whitespace. */
  lemma SignsAndDigitsAreNotSpace(c: char)
    ensures (c == '+' || c == '-' || DigitValue(c) < 36) ==> !Chars.IsSpace(c)
  {
  }

  /** A string the pattern accepts starts with a sign or a digit, never with
      whitespace. */
  lemma AcceptedStartsWithoutSpace(radix: int, s: string)
    requires ValidRadix(radix)
    requires |Body(radix, s)| > 0 && AllDigits(radix, Body(radix, s))
    ensures |s| > 0 && !Chars.IsSpace(s[0])
  {
    var t := StripSign(s);
    var u := Body(radix, s);
    SignsAndDigitsAreNotSpace(s[0]);
    if |s| == |t| {
      assert s == t;
      if |t| == |u| {
        assert t == u;
        assert IsDigit(radix, u[0]);
      } else {
        assert HasHexPrefix(t);
      }
    }
  }

  /** The sign the source strips: empty or one `+`/`-`. */
  function SignOf(s: string): string {
    s[..|s| - |StripSign(s)|]
  }

  /** The prefix the source strips after the sign: empty, or `0x`/`0X` when
      the radix is 16. */
  function PrefixOf(radix: int, s: string): string {
    StripSign(s)[..|StripSign(s)| - |Body(radix, s)|]
  }

  lemma SignOfShape(s: string)
    ensures s == SignOf(s) + StripSign(s)
    ensures SignOf(s) == "" || SignOf(s) == "+" || SignOf(s) == "-"
    ensures SignOf(s) == "-" <==> |s| > 0 && s[0] == '-'
  {
    var sign := SignOf(s);
    if |sign| == 1 {
      assert sign == [s[0]];
    }
  }

  lemma PrefixOfShape(radix: int, s: string)
    ensures StripSign(s) == PrefixOf(radix, s) + Body(radix, s)
    ensures PrefixOf(radix, s) == "" || (radix == 16 && (PrefixOf(radix, s) == "0x" || PrefixOf(radix, s) == "0X"))
  {
    var t := StripSign(s);
    var prefix := PrefixOf(radix, s);
    if |prefix| == 2 {
      assert prefix == [t[0], t[1]];
    }
  }

  lemma SignPrefixBody(radix: int, s: string)
    ensures s == SignOf(s) + PrefixOf(radix, s) + Body(radix, s)
    ensures SignOf(s) == "" || SignOf(s) == "+" || SignOf(s) == "-"
    ensures PrefixOf(radix, s) == "" || (radix == 16 && (PrefixOf(radix, s) == "0x" || PrefixOf(radix, s) == "0X"))
    ensures SignOf(s) == "-" <==> |s| > 0 && s[0] == '-'
  {
    SignOfShape(s);
    PrefixOfShape(radix, s);
    Strings.AppendAssociative(SignOf(s), PrefixOf(radix, s), Body(radix, s));
  }

  /** When the pattern accepts the body, the string has the accepted shape. */
  lemma BodySpells(radix: int, s: string)
    requires ValidRadix(radix)
    requires |Body(radix, s)| > 0 && AllDigits(radix, Body(radix, s))
    ensures Spells(radix, s, SignOf(s), PrefixOf(radix, s), Body(radix, s))
  {
    SignPrefixBody(radix, s);
  }

  /** When the pattern accepts the body, the built-in reads exactly the
      signed value of the body. */
  lemma BuiltinReadsBody(radix: int, s: string)
    requires ValidRadix(radix)
    requires |Body(radix, s)| > 0 && AllDigits(radix, Body(radix, s))
    ensures BuiltinParseInt(radix, s) == Just(Signed(SignOf(s), DigitsValue(radix, Body(radix, s))))
  {
    AcceptedStartsWithoutSpace(radix, s);
    TrimStartSpaceStops(s);
    BuiltinReadsAllDigits(radix, s);
    assert BuiltinParseInt(radix, s) == ReadDigitPrefix(radix, s);
  }

  lemma BuiltinReadsAllDigits(radix: int, s: string)
    requires ValidRadix(radix)
    requires |Body(radix, s)| > 0 && AllDigits(radix, Body(radix, s))
    ensures ReadDigitPrefix(radix, s) == Just(Signed(SignOf(s), DigitsValue(radix, Body(radix, s))))
  {
    var u := Body(radix, s);
    DigitRunOfDigits(radix, u);
    assert u[..|u|] == u;
  }

  lemma TrimStartSpaceStops(s: string)
    requires |s| > 0 && !Chars.IsSpace(s[0])
    ensures TrimStartSpace(s) == s
  {
  }

  lemma DigitRunOfDigits(radix: int, u: string)
    requires AllDigits(radix, u)
    ensures DigitRun(radix, u) == |u|
  {
  }

  /** A spelling of `s` fixes what the source computes from it: the body is
      the spelling's digits and the sign is the spelling's sign. */
  lemma SpellingDeterminesBody(radix: int, s: string)
    ensures forall sign, prefix, digits :: Spells(radix, s, sign, prefix, digits) ==>
              Body(radix, s) == digits && SignOf(s) == sign && PrefixOf(radix, s) == prefix
  {
    forall sign, prefix, digits | Spells(radix, s, sign, prefix, digits)
      ensures Body(radix, s) == digits && SignOf(s) == sign && PrefixOf(radix, s) == prefix
    {
      SpellingFixesParts(radix, s, sign, prefix, digits);
    }
  }

  /** The source strips exactly the spelled sign. */
  lemma StripSpelledSign(sign: string, rest: string)
    requires sign == "" || sign == "+" || sign == "-"
    requires |rest| > 0 && DigitValue(rest[0]) < 36
    ensures StripSign(sign + rest) == rest && SignOf(sign + rest) == sign
  {
    if sign == "" {
      StripNoSign(rest);
    } else {
      StripOneSign(sign, rest);
    }
  }

  lemma StripNoSign(rest: string)
    requires |rest| > 0 && DigitValue(rest[0]) < 36
    ensures StripSign("" + rest) == rest && SignOf("" + rest) == ""
  {
    assert "" + rest == rest;
  }

  lemma StripOneSign(sign: string, rest: string)
    requires sign == "+" || sign == "-"
    ensures StripSign(sign + rest) == rest && SignOf(sign + rest) == sign
  {
    var s := sign + rest;
    assert s[1..] == rest;
    assert s[..1] == sign;
  }

  /** The source strips exactly the spelled prefix: `x` and `X` are not
      digits of radix 16, so digits never start with a prefix. */
  lemma StripSpelledPrefix(radix: int, prefix: string, digits: string)
    requires prefix == "" || (radix == 16 && (prefix == "0x" || prefix == "0X"))
    requires ValidRadix(radix) && |digits| > 0 && AllDigits(radix, digits)
    ensures (if radix == 16 then StripHexPrefix(prefix + digits) else prefix + digits) == digits
  {
    var rest := prefix + digits;
    if radix == 16 {
      if prefix == "" {
        assert rest == digits;
        if |digits| >= 2 {
          assert IsDigit(radix, digits[1]);
        }
        assert !HasHexPrefix(rest);
      } else {
        assert HasHexPrefix(rest) && rest[2..] == digits;
      }
    } else {
      assert rest == digits;
    }
  }

  lemma SpellingFixesParts(radix: int, s: string, sign: string, prefix: string, digits: string)
    requires Spells(radix, s, sign, prefix, digits)
    ensures Body(radix, s) == digits && SignOf(s) == sign && PrefixOf(radix, s) == prefix
  {
    var rest := prefix + digits;
    Strings.AppendAssociative(sign, prefix, digits);
    assert IsDigit(radix, digits[0]);
    assert DigitValue(rest[0]) < 36;
    StripSpelledSign(sign, rest);
    StripSpelledPrefix(radix, prefix, digits);
    assert rest[..|rest| - |digits|] == prefix;
  }

  /** A string has at most one spelling: reading is unambiguous. */
  lemma SpellingUnique(radix: int, s: string, sign: string, prefix: string, digits: string,
                       sign': string, prefix': string, digits': string)
    requires Spells(radix, s, sign, prefix, digits)
    requires Spells(radix, s, sign', prefix', digits')
    ensures sign == sign' && prefix == prefix' && digits == digits'
  {
    SpellingDeterminesBody(radix, s);
  }

  // ---------------------------------------------------------------------------
  // The inverse: writing an integer in a radix
  // ---------------------------------------------------------------------------

  /** The upper-case character of a digit value, from `0-9A-Z`. */
  function DigitChar(d: nat): (c: char)
    requires d < 36
    ensures DigitValue(c) == d
  {
    if d < 10 then ('0' as int + d) as char else ('A' as int + d - 10) as char
  }

  /** The digits of a natural number in the radix, most significant first,
      without leading zeros. */
  function ToDigits(radix: int, k: nat): (r: string)
    requires ValidRadix(radix)
    ensures |r| > 0 && AllDigits(radix, r)
    decreases k
  {
    if k < radix then [DigitChar(k)]
    else
      DivModBounds(k, radix);
      var p := ToDigits(radix, k / radix);
      var c := DigitChar(k % radix);
      DigitsValueSnoc(radix, p, c);
      p + [c]
  }

  /** An integer written in the radix, with a leading `-` when negative. */
  function Show(radix: int, n: int): string
    requires ValidRadix(radix)
  {
    if n < 0 then "-" + ToDigits(radix, -n) else ToDigits(radix, n)
  }

  /** Appending a digit multiplies the value by the radix and adds it. */
  lemma DigitsValueSnoc(radix: int, p: string, c: char)
    requires ValidRadix(radix) && AllDigits(radix, p) && IsDigit(radix, c)
    ensures AllDigits(radix, p + [c])
    ensures DigitsValue(radix, p + [c]) == DigitsValue(radix, p) * radix + DigitValue(c)
  {
    assert (p + [c])[..|p|] == p;
  }

  lemma DivMod(k: nat, radix: int)
    requires radix > 0
    ensures k == (k / radix) * radix + k % radix
  {
  }

  lemma DivModBounds(k: nat, radix: int)
    requires 2 <= radix <= k
    ensures 0 < k / radix < k && 0 <= k % radix < radix
  {
  }

  lemma ToDigitsStep(radix: int, k: nat)
    requires ValidRadix(radix) && k >= radix
    ensures ToDigits(radix, k) == ToDigits(radix, k / radix) + [DigitChar(k % radix)]
  {
  }

  lemma {:induction false} DigitsValueOfToDigits(radix: int, k: nat)
    requires ValidRadix(radix)
    ensures DigitsValue(radix, ToDigits(radix, k)) == k
    decreases k
  {
    if k < radix {
      assert ToDigits(radix, k)[..0] == "";
      assert DigitsValue(radix, "") * radix == 0;
    } else {
      var q := k / radix;
      var d := k % radix;
      DivMod(k, radix);
      DivModBounds(k, radix);
      var p := ToDigits(radix, q);
      DigitsValueOfToDigits(radix, q);
      ToDigitsStep(radix, k);
      DigitsValueSnoc(radix, p, DigitChar(d));
      assert DigitsValue(radix, p + [DigitChar(d)]) == q * radix + d;
    }
  }

  /** `Show` writes an integer in the shape the source accepts, spelling
      its value. */
  lemma ShowSpells(radix: int, n: int) returns (sign: string, digits: string)
    requires ValidRadix(radix)
    ensures Spells(radix, Show(radix, n), sign, "", digits)
    ensures Signed(sign, DigitsValue(radix, digits)) == n
  {
    if n < 0 {
      sign, digits := "-", ToDigits(radix, -n);
      DigitsValueOfToDigits(radix, -n);
      assert Show(radix, n) == sign + "" + digits;
    } else {
      sign, digits := "", ToDigits(radix, n);
      DigitsValueOfToDigits(radix, n);
      assert Show(radix, n) == sign + "" + digits;
    }
  }

  /** Every safe integer written in a radix reads back as itself, and an
      integer beyond the safe range reads as Nothing. */
  lemma ParseShowRoundTrip(radix: int, n: int)
    requires ValidRadix(radix)
    ensures IsSafe(n) ==> ParseInt(radix, Show(radix, n)) == Ok(Just(n))
    ensures !IsSafe(n) ==> ParseInt(radix, Show(radix, n)) == Ok(Nothing)
  {
    var sign, digits := ShowSpells(radix, n);
    ParseIntReadsSpelling(radix, Show(radix, n), sign, "", digits);
  }

  /** The boundary of `$.Integer`: 2^53 - 1 is read, 2^53 is not. */
  lemma SafeIntegerBoundary()
    ensures ParseInt(10, Show(10, MaxSafeInteger)) == Ok(Just(MaxSafeInteger))
    ensures ParseInt(10, Show(10, MaxSafeInteger + 1)) == Ok(Nothing)
    ensures ParseInt(10, Show(10, -MaxSafeInteger - 1)) == Ok(Nothing)
  {
    ParseShowRoundTrip(10, MaxSafeInteger);
    ParseShowRoundTrip(10, MaxSafeInteger + 1);
    ParseShowRoundTrip(10, -MaxSafeInteger - 1);
  }

  /** The worked examples that accompany `parseInt`. */
  lemma ParseIntNegativeDecimal(s: string)
    requires s == "-42"
    ensures ParseInt(10, s) == Ok(Just(-42))
  {
    var digits := s[1..];
    assert s == "-" + "" + digits;
    assert digits[0] == '4' && digits[1] == '2';
    assert DigitsValue(10, digits[..1][..0]) == 0;
    assert DigitsValue(10, digits[..1]) == 4;
    assert DigitsValue(10, digits) == 42;
    ParseIntReadsSpelling(10, s, "-", "", digits);
  }

  lemma ParseIntHexadecimal(s: string)
    requires s == "0xFF"
    ensures ParseInt(16, s) == Ok(Just(255))
  {
    var digits := s[2..];
    assert s == "" + s[..2] + digits;
    assert digits[0] == 'F' && digits[1] == 'F';
    assert DigitsValue(16, digits[..1][..0]) == 0;
    assert DigitsValue(16, digits[..1]) == 15;
    assert DigitsValue(16, digits) == 255;
    ParseIntReadsSpelling(16, s, "", s[..2], digits);
  }

  /** A string whose body holds a character that is not a digit of the
      radix reads as Nothing. */
  lemma RefusesNonDigit(radix: int, s: string, i: nat)
    requires ValidRadix(radix)
    requires i < |Body(radix, s)| && !IsDigit(radix, Body(radix, s)[i])
    ensures ParseInt(radix, s) == Ok(Nothing)
  {
  }

  /** The body of a string with neither sign nor hexadecimal prefix is the
      whole string. */
  lemma BodyWithoutSignOrPrefix(radix: int, s: string)
    requires |s| > 0 && s[0] != '+' && s[0] != '-'
    requires radix != 16 || !HasHexPrefix(s)
    ensures Body(radix, s) == s
  {
  }

  /** The body of a radix-16 string with a `0x` prefix and no sign. */
  lemma BodyAfterHexPrefix(s: string)
    requires HasHexPrefix(s)
    ensures Body(16, s) == s[2..]
  {
  }

  lemma ParseIntRefusesNonDigits(s: string)
    requires s == "0xGG"
    ensures ParseInt(16, s) == Ok(Nothing)
  {
    assert !IsDigit(16, Body(16, s)[0]) by {
      BodyAfterHexPrefix(s);
      assert DigitValue(s[2]) == 16;
    }
    RefusesNonDigit(16, s, 0);
  }

  /** The `0x` prefix belongs to radix 16 alone; in radix 17 the `x` is not
      a digit. */
  lemma ParseIntPrefixOnlyInHex(s: string)
    requires s == "0xFF"
    ensures ParseInt(17, s) == Ok(Nothing)
  {
    BodyWithoutSignOrPrefix(17, s);
    assert DigitValue(s[1]) == 33;
    RefusesNonDigit(17, s, 1);
  }

  lemma ParseIntRefusesEmpty()
    ensures ParseInt(10, "") == Ok(Nothing)
  {
  }

  lemma ParseIntRefusesFractions(s: string)
    requires s == "12.34"
    ensures ParseInt(10, s) == Ok(Nothing)
  {
    BodyWithoutSignOrPrefix(10, s);
    assert DigitValue(s[2]) == 36;
    RefusesNonDigit(10, s, 2);
  }

  lemma ParseIntRadixOutOfRange()
    ensures ParseInt(1, "1") == Threw(RangeError(RadixMessage))
    ensures ParseInt(37, "1") == Threw(RangeError(RadixMessage))
  {
  }
}
