/**
 The hexadecimal colour codec of app.js: `hexToRgb`, which reads `#rgb`,
 `#rrggbb` and any other text that `parseInt` reads as an exact integer into
 three bytes through 32-bit shifts and masks, and `rgbToHex`, which writes three
 integers as `#rrggbb` with `toString(16)` and `slice(-2)`.
 */
module Color {
  import opened Text
  import opened JsNumber

  datatype Rgb = Rgb(r: int, g: int, b: int)

  // ---------------------------------------------------------------------------
  // 32-bit integer operators
  // ---------------------------------------------------------------------------

  const TwoTo32: int := 0x1_0000_0000

  /** ECMAScript ToInt32: the operand of `>>` and `&` reduced modulo 2^32 into
      the signed range. */
  function ToInt32(v: int): (x: int)
    ensures -0x8000_0000 <= x < 0x8000_0000
    ensures (v - x) % TwoTo32 == 0
  {
    var m := v % TwoTo32;
    if m >= 0x8000_0000 then m - TwoTo32 else m
  }

  /** `x >> k` on a 32-bit signed value: an arithmetic shift, i.e. division
      rounding towards minus infinity (Dafny's `/` by a positive divisor). */
  function ShiftRight(x: int, k: nat): int
    requires k <= 31
  {
    x / Pow2(k)
  }

  function Pow2(k: nat): (p: nat)
    ensures p >= 1
  {
    if k == 0 then 1 else 2 * Pow2(k - 1)
  }

  /** `x & 255` on a 32-bit two's complement value: its lowest byte. */
  function LowByte(x: int): (b: int)
    ensures 0 <= b < 256
  {
    x % 256
  }

  // ---------------------------------------------------------------------------
  // hexToRgb
  // ---------------------------------------------------------------------------

  /** The short form `rgb` is spelled out as `rrggbb`; any other length is
      left alone. */
  function Expand(s: string): (e: string)
    ensures |s| == 3 ==> e == [s[0], s[0], s[1], s[1], s[2], s[2]]
    ensures |s| != 3 ==> e == s
  {
    if |s| == 3 then [s[0], s[0], s[1], s[1], s[2], s[2]] else s
  }

  /** What `hexToRgb` parses: the first `#` removed, the short form
      expanded, the rest read by `parseInt(…, 16) || 0`. */
  function ParsedValue(hex: string): int {
    OrZero(ParseInt(Expand(RemoveFirst(hex, '#')), Hex))
  }

  /** `hexToRgb(hex)`: the three bytes of the parsed value taken out with
      `(v >> 16) & 255`, `(v >> 8) & 255` and `v & 255`. */
  function HexToRgb(hex: string): (c: Rgb)
    ensures 0 <= c.r < 256 && 0 <= c.g < 256 && 0 <= c.b < 256
  {
    var x := ToInt32(ParsedValue(hex));
    Rgb(LowByte(ShiftRight(x, 16)), LowByte(ShiftRight(x, 8)), LowByte(x))
  }

  /** Shifting and masking after the 32-bit reduction reads bytes 2, 1 and 0
      of the parsed integer itself, whatever its size or sign. */
  lemma ShiftsReadBytes(v: int)
    ensures var x := ToInt32(v);
      && LowByte(ShiftRight(x, 16)) == (v / 65536) % 256
      && LowByte(ShiftRight(x, 8)) == (v / 256) % 256
      && LowByte(x) == v % 256
  {
    var x := ToInt32(v);
    var q := (v - x) / TwoTo32;
    assert v == x + q * TwoTo32;
    assert Pow2(8) == 256 && Pow2(16) == 65536;
    DivAddMultiple(x, q * 65536, 65536);
    ModAddMultiple(x / 65536, q * 256, 256);
    DivAddMultiple(x, q * 16777216, 256);
    ModAddMultiple(x / 256, q * 65536, 256);
    ModAddMultiple(x, q * 16777216, 256);
  }

  /** Euclidean division is determined by quotient and remainder. */
  lemma DivUnique(q: int, r: int, d: int)
    requires d > 0 && 0 <= r < d
    ensures (q * d + r) / d == q && (q * d + r) % d == r
  {
    var n := q * d + r;
    var t := n / d - q;
    assert t * d == r - n % d;
  }

  lemma DivAddMultiple(x: int, k: int, d: int)
    requires d > 0
    ensures (x + k * d) / d == x / d + k
  {
    var q, r := x / d, x % d;
    assert x + k * d == (q + k) * d + r;
    DivUnique(q + k, r, d);
  }

  lemma ModAddMultiple(x: int, k: int, d: int)
    requires d > 0
    ensures (x + k * d) % d == x % d
  {
    var q, r := x / d, x % d;
    assert x + k * d == (q + k) * d + r;
    DivUnique(q + k, r, d);
  }

  /** `hexToRgb` reads bytes 2, 1 and 0 of the value it parses. */
  lemma HexToRgbBytes(hex: string)
    ensures var v := ParsedValue(hex);
      HexToRgb(hex) == Rgb((v / 65536) % 256, (v / 256) % 256, v % 256)
  {
    ShiftsReadBytes(ParsedValue(hex));
  }

  /** `HexToRgbBytes` for a parsed value already known. */
  lemma ByteOfValue(hex: string, v: int)
    requires ParsedValue(hex) == v
    ensures HexToRgb(hex) == Rgb((v / 65536) % 256, (v / 256) % 256, v % 256)
  {
    HexToRgbBytes(hex);
  }

  // ---------------------------------------------------------------------------
  // rgbToHex
  // ---------------------------------------------------------------------------

  /** `('0' + n.toString(16)).slice(-2)` for an integer `n`. */
  function ByteHex(n: int): (h: string)
    ensures |h| == 2
  {
    var t := "0" + ToHexString(n);
    t[|t| - 2..]
  }

  /** `rgbToHex(r, g, b)`: `#` followed by two characters per component. */
  function RgbToHex(r: int, g: int, b: int): (h: string)
    ensures |h| == 7 && h[0] == '#'
  {
    "#" + ByteHex(r) + ByteHex(g) + ByteHex(b)
  }

  // ---------------------------------------------------------------------------
  // Digit pairs: the reference reading of one byte
  // ---------------------------------------------------------------------------

  /** Two hexadecimal digits. */
  predicate IsHexPair(p: string) {
    |p| == 2 && IsDigit(p[0], Hex) && IsDigit(p[1], Hex)
  }

  /** Two lower-case hexadecimal digits, the way `toString(16)` writes them. */
  predicate IsLowerHexPair(p: string) {
    IsHexPair(p) && !('A' <= p[0] <= 'F') && !('A' <= p[1] <= 'F')
  }

  /** The byte a pair of hexadecimal digits stands for. */
  function PairValue(p: string): (n: nat)
    requires IsHexPair(p)
    ensures n < 256
  {
    DigitValue(p[0], Hex) * 16 + DigitValue(p[1], Hex)
  }

  /** Quotient and remainder of `hi * 16 + lo` by 16. */
  lemma DivMod16(hi: int, lo: int)
    requires 0 <= lo < 16
    ensures (hi * 16 + lo) / 16 == hi && (hi * 16 + lo) % 16 == lo
  {
    DivUnique(hi, lo, 16);
  }

  /** The last digit of `toString(16)` is the value modulo 16, and the one
      before it (when there is one) the next digit up. */
  lemma HexDigitsTail(n: nat)
    ensures var ds := HexDigits(n);
      && ds[|ds| - 1] == HexChar(n % 16)
      && (n >= 16 ==> ds[|ds| - 2] == HexChar((n / 16) % 16))
  {
    if n >= 16 {
      var hi := HexDigits(n / 16);
      assert HexDigits(n) == hi + [HexChar(n % 16)];
      HexDigitsTail(n / 16);
    }
  }

  /** For a non-negative component the two characters are its two lowest
      hexadecimal digits, with a leading zero below 16. */
  lemma ByteHexDigits(n: int)
    requires n >= 0
    ensures ByteHex(n) == [HexChar((n / 16) % 16), HexChar(n % 16)]
  {
    var ds := HexDigits(n);
    var t := "0" + ds;
    HexDigitsTail(n);
    assert t[|t| - 1] == ds[|ds| - 1];
    if n >= 16 {
      assert t[|t| - 2] == ds[|ds| - 2];
    } else {
      assert |ds| == 1 && t[|t| - 2] == '0';
      assert (n / 16) % 16 == 0;
    }
  }

  /** The two lowest hexadecimal digits of `n` make up its low byte. */
  lemma LowDigitsAreLowByte(n: int)
    requires n >= 0
    ensures ((n / 16) % 16) * 16 + n % 16 == n % 256
  {
    var q, lo := n / 256, n % 256;
    assert n == q * 256 + lo;
    DivMod16(lo / 16, lo % 16);
    assert n == (q * 16 + lo / 16) * 16 + lo % 16;
    DivMod16(q * 16 + lo / 16, lo % 16);
    DivMod16(q, lo / 16);
  }

  /** For a non-negative component `rgbToHex` writes its low byte as a
      lower-case pair. */
  lemma ByteHexPair(n: int)
    requires n >= 0
    ensures IsLowerHexPair(ByteHex(n)) && PairValue(ByteHex(n)) == n % 256
  {
    ByteHexDigits(n);
    LowDigitsAreLowByte(n);
  }

  /** A lower-case hexadecimal digit is written back as itself. */
  lemma HexCharOfDigit(ch: char)
    requires IsDigit(ch, Hex) && !('A' <= ch <= 'F')
    ensures HexChar(DigitValue(ch, Hex)) == ch
  {
  }

  /** A lower-case pair survives being read as a byte and written back. */
  lemma PairWrittenBack(p: string)
    requires IsLowerHexPair(p)
    ensures ByteHex(PairValue(p)) == p
  {
    var hi, lo := DigitValue(p[0], Hex), DigitValue(p[1], Hex);
    var n := PairValue(p);
    assert n == hi * 16 + lo;
    DivMod16(hi, lo);
    DivMod16(0, hi);
    var h1, h0 := (n / 16) % 16, n % 16;
    assert h1 == hi && h0 == lo;
    ByteHexDigits(n);
    HexCharOfDigit(p[0]);
    HexCharOfDigit(p[1]);
    assert ByteHex(n) == [HexChar(h1), HexChar(h0)];
  }

  // ---------------------------------------------------------------------------
  // Six digits
  // ---------------------------------------------------------------------------

  /** Two more digits multiply the value read so far by 256. */
  lemma DigitsValueAppendPair(a: string, b: string)
    requires AllDigits(a, Hex) && IsHexPair(b)
    ensures AllDigits(a + b, Hex)
    ensures DigitsValue(a + b, Hex) == DigitsValue(a, Hex) * 256 + PairValue(b)
  {
    var ab := a + b;
    var a1 := a + [b[0]];
    assert ab[..|ab| - 1] == a1;
    assert a1[..|a1| - 1] == a;
  }

  /** Six digits are three bytes. */
  lemma SixDigitsValue(x: string, y: string, z: string)
    requires IsHexPair(x) && IsHexPair(y) && IsHexPair(z)
    ensures AllDigits(x + y + z, Hex)
    ensures DigitsValue(x + y + z, Hex) == PairValue(x) * 65536 + PairValue(y) * 256 + PairValue(z)
  {
    assert [] + x == x;
    DigitsValueAppendPair([], x);
    DigitsValueAppendPair(x, y);
    DigitsValueAppendPair(x + y, z);
  }

  /** With or without its `#`, a six-digit string is parsed as its value. */
  lemma ParsedSixDigits(hex: string, s: string)
    requires |s| == 6 && AllDigits(s, Hex)
    requires hex == s || hex == "#" + s
    ensures ParsedValue(hex) == DigitsValue(s, Hex)
  {
    assert '#' !in s by {
      assert forall i :: 0 <= i < |s| ==> IsDigit(s[i], Hex);
    }
    assert RemoveFirst(hex, '#') == s;
    ParseIntOfDigits(s, [], Hex);
    assert s + [] == s;
  }

  /** The bytes of `A * 65536 + B * 256 + C` for three bytes A, B, C. */
  lemma BytesOfValue(v: int, a: int, b: int, c: int)
    requires 0 <= a < 256 && 0 <= b < 256 && 0 <= c < 256
    requires v == a * 65536 + b * 256 + c
    ensures (v / 65536) % 256 == a && (v / 256) % 256 == b && v % 256 == c
  {
    DivUnique(a, b * 256 + c, 65536);
    DivUnique(0, a, 256);
    assert v == (a * 256 + b) * 256 + c;
    DivUnique(a * 256 + b, c, 256);
    DivUnique(a, b, 256);
  }

  /** `hexToRgb` on six hexadecimal digits, with or without `#`, reads each
      pair of digits as one component. */
  lemma SixDigitReference(hex: string, x: string, y: string, z: string)
    requires IsHexPair(x) && IsHexPair(y) && IsHexPair(z)
    requires hex == x + y + z || hex == "#" + (x + y + z)
    ensures HexToRgb(hex) == Rgb(PairValue(x), PairValue(y), PairValue(z))
  {
    var a, b, c := PairValue(x), PairValue(y), PairValue(z);
    var v := ParsedValue(hex);
    SixDigitsValue(x, y, z);
    ParsedSixDigits(hex, x + y + z);
    BytesOfValue(v, a, b, c);
    HexToRgbBytes(hex);
  }

  /** `rgbToHex` then `hexToRgb` gives back each non-negative component
      modulo 256. */
  lemma HexOfRgbRoundTrip(r: int, g: int, b: int)
    requires r >= 0 && g >= 0 && b >= 0
    ensures HexToRgb(RgbToHex(r, g, b)) == Rgb(r % 256, g % 256, b % 256)
  {
    var x, y, z := ByteHex(r), ByteHex(g), ByteHex(b);
    ByteHexPair(r);
    ByteHexPair(g);
    ByteHexPair(b);
    RgbToHexPieces(r, g, b);
    SixDigitReference(RgbToHex(r, g, b), x, y, z);
  }

  /** `rgbToHex` of the three pairs' bytes spells the pairs again. */
  lemma PairsWrittenBack(x: string, y: string, z: string)
    requires IsLowerHexPair(x) && IsLowerHexPair(y) && IsLowerHexPair(z)
    ensures RgbToHex(PairValue(x), PairValue(y), PairValue(z)) == "#" + (x + y + z)
  {
    PairWrittenBack(x);
    PairWrittenBack(y);
    PairWrittenBack(z);
    RgbToHexPieces(PairValue(x), PairValue(y), PairValue(z));
  }

  lemma RgbToHexPieces(r: int, g: int, b: int)
    ensures RgbToHex(r, g, b) == "#" + (ByteHex(r) + ByteHex(g) + ByteHex(b))
  {
    Associative("#", ByteHex(r), ByteHex(g), ByteHex(b));
  }

  /** A lower-case `#rrggbb` is a fixed point of `rgbToHex ∘ hexToRgb`. */
  lemma CanonicalSpelling(x: string, y: string, z: string)
    requires IsLowerHexPair(x) && IsLowerHexPair(y) && IsLowerHexPair(z)
    ensures var c := HexToRgb("#" + (x + y + z)); RgbToHex(c.r, c.g, c.b) == "#" + (x + y + z)
  {
    SixDigitReference("#" + (x + y + z), x, y, z);
    PairsWrittenBack(x, y, z);
  }

  // ---------------------------------------------------------------------------
  // Short form and other input
  // ---------------------------------------------------------------------------

  /** `#rgb`, and `rgb` when it has no `#` of its own to lose, read exactly
      like `#rrggbb`, whatever the three characters. */
  lemma ShortFormExpands(hex: string, t: string)
    requires |t| == 3
    requires hex == "#" + t || (hex == t && '#' !in t)
    ensures HexToRgb(hex) == HexToRgb("#" + Expand(t))
  {
    assert RemoveFirst(hex, '#') == t;
    assert RemoveFirst("#" + Expand(t), '#') == Expand(t);
  }

  lemma ExpandShort(a: char, b: char, c: char)
    ensures Expand([a, b, c]) == [a, a] + [b, b] + [c, c]
  {
  }

  /** Each digit of a short form stands for the byte `17 * d`. */
  lemma ShortFormValues(hex: string, a: char, b: char, c: char)
    requires IsDigit(a, Hex) && IsDigit(b, Hex) && IsDigit(c, Hex)
    requires hex == [a, b, c] || hex == "#" + [a, b, c]
    ensures HexToRgb(hex) ==
      Rgb(17 * DigitValue(a, Hex), 17 * DigitValue(b, Hex), 17 * DigitValue(c, Hex))
  {
    var e := Expand([a, b, c]);
    ShortFormExpands(hex, [a, b, c]);
    ExpandShort(a, b, c);
    SixDigitReference("#" + e, [a, a], [b, b], [c, c]);
  }

  lemma ParsedUnreadable()
    ensures ParsedValue("#zzz") == 0
  {
    assert RemoveFirst("#zzz", '#') == "zzz";
    assert Expand("zzz") == "zzzzzz";
  }

  lemma ParsedMinusOne()
    ensures ParsedValue("-1") == -1
  {
    assert RemoveFirst("-1", '#') == "-1";
    ParseHexOfToHexString(-1);
    assert ToHexString(-1) == "-1";
  }

  /** Input `parseInt` cannot read is black. */
  lemma UnreadableIsBlack(hex: string)
    requires ParseInt(Expand(RemoveFirst(hex, '#')), Hex).None?
    ensures HexToRgb(hex) == Rgb(0, 0, 0)
  {
    ByteOfValue(hex, 0);
  }

  /** `#zzz`, for one, is black. */
  lemma ZzzIsBlack()
    ensures HexToRgb("#zzz") == Rgb(0, 0, 0)
  {
    ParsedUnreadable();
    ByteOfValue("#zzz", 0);
  }

  /** A leading minus sign is read as a negative number, whose bytes are those
      of its 32-bit two's complement: "-1" is white. */
  lemma MinusOneIsWhite()
    ensures HexToRgb("-1") == Rgb(255, 255, 255)
  {
    ParsedMinusOne();
    ByteOfValue("-1", -1);
    assert -1 / 65536 == -1 && -1 / 256 == -1 && -1 % 256 == 255;
  }
}
