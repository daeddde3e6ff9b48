/**
 * `convertToUnicode`: the escaper every piece of generated text passes through
 * before it is written. A code unit below 128 is copied; any other becomes the
 * Unicode escape of section 3.3 of The Java Language Specification, a
 * backslash, a `u` and the four lower-case hexadecimal digits of the code
 * unit (`String.format("\\u%04x", (int) ch)`).
 *
 * `Unescape` is the reading direction of that escape, as a Java compiler
 * applies it; it serves as the inverse against which the escaper is proved.
 */
module UnicodeEscape {
  import opened JavaText

  // ---------------------------------------------------------------------------
  // Hexadecimal digits
  // ---------------------------------------------------------------------------

  /** The digits `%x` prints: `0`-`9` and `a`-`f`. */
  predicate IsLowerHexDigit(c: jchar)
  {
    Code('0') <= c <= Code('9') || Code('a') <= c <= Code('f')
  }

  /** The digits a Unicode escape may contain: `0`-`9`, `a`-`f` and `A`-`F`. */
  predicate IsHexDigit(c: jchar)
  {
    IsLowerHexDigit(c) || Code('A') <= c <= Code('F')
  }

  /** The lower-case digit for `d`. */
  function HexDigit(d: int): (c: jchar)
    requires 0 <= d < 16
    ensures IsLowerHexDigit(c)
  {
    if d < 10 then Code('0') + d as jchar else Code('a') + (d - 10) as jchar
  }

  /** The value of a hexadecimal digit of either case. */
  function DigitValue(c: jchar): (d: int)
    requires IsHexDigit(c)
    ensures 0 <= d < 16
  {
    if c <= Code('9') then (c - Code('0')) as int
    else if c <= Code('F') then (c - Code('A')) as int + 10
    else (c - Code('a')) as int + 10
  }

  lemma DigitValueOfHexDigit(d: int)
    requires 0 <= d < 16
    ensures DigitValue(HexDigit(d)) == d
  {
  }

  predicate IsHex4(h: JString)
  {
    |h| == 4 && forall i | 0 <= i < 4 :: IsHexDigit(h[i])
  }

  /** The number four hexadecimal digits denote. */
  function HexValue4(h: JString): (v: int)
    requires IsHex4(h)
    ensures 0 <= v < 0x1_0000
  {
    DigitValue(h[0]) * 0x1000 + DigitValue(h[1]) * 0x100 + DigitValue(h[2]) * 0x10 + DigitValue(h[3])
  }

  /** A number below 0x10000 is the sum of its four hexadecimal digits at their weights. */
  lemma HexDecomposition(v: int)
    requires 0 <= v < 0x1_0000
    ensures v / 0x1000 < 0x10
    ensures v == v / 0x1000 * 0x1000 + v / 0x100 % 0x10 * 0x100 + v / 0x10 % 0x10 * 0x10 + v % 0x10
  {
    var q1, d0 := v / 0x10, v % 0x10;
    var q2, d1 := q1 / 0x10, q1 % 0x10;
    var q3, d2 := q2 / 0x10, q2 % 0x10;
    assert v == q1 * 0x10 + d0;
    assert q1 == q2 * 0x10 + d1;
    assert q2 == q3 * 0x10 + d2;
    assert q2 == v / 0x100 && q3 == v / 0x1000;
  }

  /** `String.format("%04x", (int) c)`: a Java `char` always fits in four digits. */
  function Hex4(c: jchar): (h: JString)
    ensures |h| == 4
    ensures forall i | 0 <= i < 4 :: IsLowerHexDigit(h[i])
    ensures IsHex4(h) && HexValue4(h) == c as int
  {
    var v := c as int;
    HexDecomposition(v);
    var h := [HexDigit(v / 0x1000), HexDigit(v / 0x100 % 0x10), HexDigit(v / 0x10 % 0x10), HexDigit(v % 0x10)];
    DigitValueOfHexDigit(v / 0x1000);
    DigitValueOfHexDigit(v / 0x100 % 0x10);
    DigitValueOfHexDigit(v / 0x10 % 0x10);
    DigitValueOfHexDigit(v % 0x10);
    h
  }

  // ---------------------------------------------------------------------------
  // The escaper
  // ---------------------------------------------------------------------------

  /**
   * What one code unit contributes to the output: itself below 128, its
   * six-character escape otherwise.
   */
  function EscapeChar(c: jchar): (r: JString)
    ensures forall i | 0 <= i < |r| :: r[i] < 128
    ensures c < 128 ==> r == [c]
    ensures c >= 128 ==> |r| == 6 && r[0] == Backslash && r[1] == LowerU
    ensures c >= 128 ==> (forall i | 2 <= i < 6 :: IsLowerHexDigit(r[i])) && HexValue4(r[2..]) == c as int
  {
    if c < 128 then [c] else [Backslash, LowerU] + Hex4(c)
  }

  /** The specification of `convertToUnicode`: the escapes of the code units, in order. */
  function Encode(s: JString): JString
  {
    ConcatMap(EscapeChar, s)
  }

  /** The escaped text is 7-bit clean. */
  lemma {:induction false} EncodeIsAscii(s: JString)
    ensures forall i | 0 <= i < |Encode(s)| :: Encode(s)[i] < 128
  {
    if s != [] {
      EncodeIsAscii(s[..|s| - 1]);
      assert Encode(s) == Encode(s[..|s| - 1]) + EscapeChar(s[|s| - 1]);
    }
  }

  /**
   * `convertToUnicode`: one pass over the code units, appending each one's
   * escape to a builder.
   */
  method ConvertToUnicode(s: JString) returns (r: JString)
    ensures r == Encode(s)
  {
    r := [];
    for i := 0 to |s|
      invariant r == Encode(s[..i])
    {
      assert s[..i + 1][..i] == s[..i];
      r := r + EscapeChar(s[i]);
    }
    assert s[..|s|] == s;
  }

  /** The escaper works code unit by code unit, so it distributes over concatenation. */
  lemma EncodeAppend(a: JString, b: JString)
    ensures Encode(a + b) == Encode(a) + Encode(b)
  {
    ConcatMapAppend(EscapeChar, a, b);
  }

  /** Number of code units of `s` at or above 128. */
  function NonAsciiCount(s: JString): (n: nat)
    ensures n <= |s|
    ensures n == 0 <==> forall i | 0 <= i < |s| :: s[i] < 128
  {
    if s == [] then 0 else NonAsciiCount(s[..|s| - 1]) + (if s[|s| - 1] < 128 then 0 else 1)
  }

  /** Every escaped code unit grows by five characters, every other keeps its length. */
  lemma {:induction false} EncodeLength(s: JString)
    ensures |Encode(s)| == |s| + 5 * NonAsciiCount(s)
  {
    if s != [] {
      EncodeLength(s[..|s| - 1]);
    }
  }

  /** ASCII text is the only text the escaper leaves untouched. */
  lemma {:induction false} EncodeIdentity(s: JString)
    ensures Encode(s) == s <==> forall i | 0 <= i < |s| :: s[i] < 128
  {
    EncodeLength(s);
    if forall i | 0 <= i < |s| :: s[i] < 128 {
      EncodeAscii(s);
    }
  }

  lemma {:induction false} EncodeAscii(s: JString)
    requires forall i | 0 <= i < |s| :: s[i] < 128
    ensures Encode(s) == s
  {
    if s != [] {
      EncodeAscii(s[..|s| - 1]);
    }
  }

  // ---------------------------------------------------------------------------
  // The reading direction
  // ---------------------------------------------------------------------------

  /**
   * Unicode escape translation as a Java compiler reads source text: a
   * backslash, a `u` and four hexadecimal digits stand for the code unit they
   * denote; every other code unit stands for itself.
   */
  function Unescape(t: JString): JString
    decreases |t|
  {
    if |t| >= 6 && t[0] == Backslash && t[1] == LowerU && IsHex4(t[2..6]) then
      [HexValue4(t[2..6]) as jchar] + Unescape(t[6..])
    else if t == [] then []
    else [t[0]] + Unescape(t[1..])
  }

  lemma UnescapeEscapeChar(c: jchar, rest: JString)
    requires c != Backslash
    ensures Unescape(EscapeChar(c) + rest) == [c] + Unescape(rest)
  {
    var t := EscapeChar(c) + rest;
    if c < 128 {
      assert t[0] == c && t[1..] == rest;
    } else {
      assert t[2..6] == EscapeChar(c)[2..];
      assert t[6..] == rest;
    }
  }

  /**
   * Reading the escaped text back restores the original, provided the
   * original has no backslash of its own (see `UnescapeNeedsNoBackslash`).
   */
  lemma {:induction false} UnescapeEncode(s: JString)
    requires Backslash !in s
    ensures Unescape(Encode(s)) == s
  {
    if s != [] {
      EncodeAppend([s[0]], s[1..]);
      assert [s[0]] + s[1..] == s;
      assert Encode([s[0]]) == EscapeChar(s[0]) by {
        assert [s[0]][..0] == [];
        assert ConcatMap(EscapeChar, [s[0]]) == ConcatMap(EscapeChar, []) + EscapeChar(s[0]);
      }
      UnescapeEscapeChar(s[0], Encode(s[1..]));
      UnescapeEncode(s[1..]);
    }
  }

  /**
   * Without that proviso the round trip fails: the six ASCII characters of
   * `\u0041` (a backslash, a `u` and the digits `0041`) pass through the
   * escaper unchanged and read back as the single character `A`.
   */
  lemma UnescapeNeedsNoBackslash()
    ensures var s := Lit("\\u0041"); Encode(s) == s && Unescape(Encode(s)) == Lit("A")
  {
    var s := Lit("\\u0041");
    EncodeAscii(s);
    assert IsHex4(s[2..6]);
    assert s[6..] == [];
  }
}
