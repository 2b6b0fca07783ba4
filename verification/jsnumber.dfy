/**
 The two number/string conversions of the JavaScript runtime that the script
 uses on integers: `parseInt(s, 10)` / `parseInt(s, 16)` (section 19.2.5 of
 ECMA-262) and `n.toString(16)` on an integer `n`. NaN is `None`. Numbers
 are exact, unbounded integers: the rounding of a double past 2^53, and
 Infinity, are not modelled.
 */
module JsNumber {
  import opened Wrappers
  import opened Text

  /** The two radices the script passes to `parseInt`. */
  datatype Radix = Decimal | Hex {
    function Base(): nat {
      if Decimal? then 10 else 16
    }
  }

  predicate IsDigit(ch: char, radix: Radix) {
    || ('0' <= ch <= '9')
    || (radix == Hex && (('a' <= ch <= 'f') || ('A' <= ch <= 'F')))
  }

  predicate AllDigits(ds: string, radix: Radix) {
    forall i :: 0 <= i < |ds| ==> IsDigit(ds[i], radix)
  }

  function DigitValue(ch: char, radix: Radix): (d: nat)
    requires IsDigit(ch, radix)
    ensures d < radix.Base()
  {
    if '0' <= ch <= '9' then ch as nat - '0' as nat
    else if 'a' <= ch <= 'f' then ch as nat - 'a' as nat + 10
    else ch as nat - 'A' as nat + 10
  }

  /** The value of a digit string, most significant digit first. */
  function DigitsValue(ds: string, radix: Radix): nat
    requires AllDigits(ds, radix)
  {
    if ds == [] then 0
    else DigitsValue(ds[..|ds| - 1], radix) * radix.Base() + DigitValue(ds[|ds| - 1], radix)
  }

  /** The longest prefix of `s` that consists of digits of `radix`. */
  function LeadingDigits(s: string, radix: Radix): (ds: string)
    ensures |ds| <= |s| && ds == s[..|ds|]
    ensures AllDigits(ds, radix)
    ensures |ds| < |s| ==> !IsDigit(s[|ds|], radix)
  {
    if s != [] && IsDigit(s[0], radix) then [s[0]] + LeadingDigits(s[1..], radix) else []
  }

  /** `parseInt(s, radix)`: leading whitespace skipped, an optional sign, for
      radix 16 an optional `0x`/`0X`, then the longest run of digits; NaN
      (`None`) when that run is empty. The value of the run is its exact
      integer value, never a rounded double. */
  function ParseInt(s: string, radix: Radix): (r: Option<int>)
    ensures (forall i :: 0 <= i < |s| ==> !IsDigit(s[i], radix)) ==> r.None?
  {
    var t := TrimStart(s);
    TrimStartSpec(s);
    assert forall i :: 0 <= i < |t| ==> t[i] == s[|s| - |t| + i];
    if t != [] && t[0] == '-' then
      match ParseMagnitude(t[1..], radix)
      case None => None
      case Some(v) =>
        assert forall i :: 0 <= i < |t[1..]| ==> t[1..][i] == s[|s| - |t| + 1 + i];
        Some(0 - v)
    else if t != [] && t[0] == '+' then
      assert forall i :: 0 <= i < |t[1..]| ==> t[1..][i] == s[|s| - |t| + 1 + i];
      ParseMagnitude(t[1..], radix)
    else ParseMagnitude(t, radix)
  }

  /** What `parseInt` reads after the sign: the optional hexadecimal prefix and
      the digit run. */
  function ParseMagnitude(u: string, radix: Radix): (r: Option<nat>)
    ensures (forall i :: 0 <= i < |u| ==> !IsDigit(u[i], radix)) ==> r.None?
  {
    var w := if radix == Hex && |u| >= 2 && u[0] == '0' && (u[1] == 'x' || u[1] == 'X') then u[2..] else u;
    var ds := LeadingDigits(w, radix);
    if ds == [] then None
    else
      assert ds[0] in u;
      Some(DigitsValue(ds, radix))
  }

  /** `x || 0` on the result of `parseInt`: NaN (and zero) become 0. */
  function OrZero(o: Option<int>): int {
    match o
    case None => 0
    case Some(v) => v
  }

  /** A digit run that is not followed by another digit parses to its value
      (in radix 16 a lone `0` must not be followed by `x`, which would make it
      a prefix). */
  lemma ParseIntOfDigits(ds: string, rest: string, radix: Radix)
    requires ds != [] && AllDigits(ds, radix)
    requires rest != [] ==> !IsDigit(rest[0], radix)
    requires radix == Hex && |ds| == 1 && rest != [] ==> rest[0] != 'x' && rest[0] != 'X'
    ensures ParseInt(ds + rest, radix) == Some(DigitsValue(ds, radix))
  {
    var s := ds + rest;
    assert s[0] == ds[0];
    assert TrimStart(s) == s;
    MagnitudeOfDigits(ds, rest, radix);
  }

  lemma MagnitudeOfDigits(ds: string, rest: string, radix: Radix)
    requires ds != [] && AllDigits(ds, radix)
    requires rest != [] ==> !IsDigit(rest[0], radix)
    requires radix == Hex && |ds| == 1 && rest != [] ==> rest[0] != 'x' && rest[0] != 'X'
    ensures ParseMagnitude(ds + rest, radix) == Some(DigitsValue(ds, radix))
  {
    var s := ds + rest;
    LeadingDigitsOfRun(ds, rest, radix);
    if radix == Hex && |s| >= 2 {
      assert s[1] != 'x' && s[1] != 'X' by {
        if |ds| >= 2 {
          assert s[1] == ds[1];
        } else {
          assert s[1] == rest[0];
        }
      }
    }
  }

  lemma {:induction false} LeadingDigitsOfRun(ds: string, rest: string, radix: Radix)
    requires AllDigits(ds, radix)
    requires rest != [] ==> !IsDigit(rest[0], radix)
    ensures LeadingDigits(ds + rest, radix) == ds
  {
    if ds == [] {
      assert ds + rest == rest;
    } else {
      assert (ds + rest)[1..] == ds[1..] + rest;
      LeadingDigitsOfRun(ds[1..], rest, radix);
      assert [ds[0]] + ds[1..] == ds;
    }
  }

  // ---------------------------------------------------------------------------
  // Number.prototype.toString(16)
  // ---------------------------------------------------------------------------

  /** The lower-case hexadecimal digit for `d`. */
  function HexChar(d: nat): (ch: char)
    requires d < 16
    ensures IsDigit(ch, Hex) && DigitValue(ch, Hex) == d
    ensures !('A' <= ch <= 'F')
  {
    if d < 10 then ('0' as int + d) as char else ('a' as int + d - 10) as char
  }

  /** The hexadecimal digits of `n`, most significant first, no leading zero. */
  function HexDigits(n: nat): (ds: string)
    ensures ds != [] && AllDigits(ds, Hex)
    ensures DigitsValue(ds, Hex) == n
    ensures |ds| > 1 <==> n >= 16
    decreases n
  {
    if n < 16 then [HexChar(n)]
    else
      var hi := HexDigits(n / 16);
      var ds := hi + [HexChar(n % 16)];
      assert ds[..|ds| - 1] == hi;
      ds
  }

  /** `n.toString(16)` for an integer `n`. */
  function ToHexString(n: int): (s: string)
    ensures n >= 0 ==> s == HexDigits(n)
    ensures n < 0 ==> |s| >= 2 && s[0] == '-' && s[1..] == HexDigits(-n)
  {
    if n < 0 then ['-'] + HexDigits(-n) else HexDigits(n)
  }

  /** `parseInt(n.toString(16), 16) == n` for every integer `n`. */
  lemma ParseHexOfToHexString(n: int)
    ensures ParseInt(ToHexString(n), Hex) == Some(n)
  {
    if n >= 0 {
      ParseHexOfDigits(n);
    } else {
      ParseHexOfMinusDigits(n);
    }
  }

  lemma ParseHexOfDigits(m: nat)
    ensures ParseInt(HexDigits(m), Hex) == Some(m)
  {
    var ds := HexDigits(m);
    ParseIntOfDigits(ds, [], Hex);
    assert ds + [] == ds;
  }

  lemma ParseHexOfMinusDigits(n: int)
    requires n < 0
    ensures ParseInt(['-'] + HexDigits(-n), Hex) == Some(n)
  {
    var ds := HexDigits(-n);
    var s := ['-'] + ds;
    assert TrimStart(s) == s;
    assert s[1..] == ds;
    MagnitudeOfDigits(ds, [], Hex);
    assert ds + [] == ds;
  }
}
