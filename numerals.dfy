/**
 * Python's integer renderings used by the two commands: `str(n)`, `hex(n)`,
 * `'%06d' % n` and `c.encode('hex')`, each with the parser that undoes it.
 */
module Numerals {
  import opened Wrappers
  import opened Bytes

  predicate IsBase(base: nat) { base == 10 || base == 16 }

  function Pow(base: nat, k: nat): (r: nat)
    requires base > 0
    ensures r >= 1
  {
    if k == 0 then 1 else base * Pow(base, k - 1)
  }

  /** The lower-case digit for `d`. */
  function DigitChar(d: nat): (c: char)
    requires d < 16
    ensures DigitValue(c) == Some(d)
  {
    if d < 10 then ('0' as int + d) as char else ('a' as int + d - 10) as char
  }

  /** The value of a lower-case digit character, None for any other character. */
  function DigitValue(c: char): (r: Option<nat>)
    ensures r.Some? ==> r.value < 16
  {
    if '0' <= c <= '9' then Some(c as int - '0' as int)
    else if 'a' <= c <= 'f' then Some(c as int - 'a' as int + 10)
    else None
  }

  predicate IsDigitIn(c: char, base: nat)
  {
    DigitValue(c).Some? && DigitValue(c).value < base
  }

  /** The digits of `n` in `base`, most significant first, without leading zeros. */
  function Numeral(n: nat, base: nat): (s: string)
    requires IsBase(base)
    ensures |s| > 0
    ensures forall i :: 0 <= i < |s| ==> IsDigitIn(s[i], base)
    ensures (s[0] == '0') == (n == 0)
    ensures n < base <==> |s| == 1
  {
    if n < base then [DigitChar(n)] else Numeral(n / base, base) + [DigitChar(n % base)]
  }

  /** The value of a non-empty digit string; None if empty or if a character is not a digit of `base`. */
  function NumeralValue(s: string, base: nat): Option<nat>
    requires IsBase(base)
  {
    if s == [] || !IsDigitIn(s[|s| - 1], base) then None
    else if |s| == 1 then DigitValue(s[0])
    else match NumeralValue(s[..|s| - 1], base)
      case None => None
      case Some(v) => Some(v * base + DigitValue(s[|s| - 1]).value)
  }

  /** Parsing a rendered numeral gives back the number. */
  lemma {:induction false} NumeralRoundTrip(n: nat, base: nat)
    requires IsBase(base)
    ensures NumeralValue(Numeral(n, base), base) == Some(n)
  {
    if n >= base {
      var s := Numeral(n, base);
      assert s[..|s| - 1] == Numeral(n / base, base);
      NumeralRoundTrip(n / base, base);
    }
  }

  /** A numeral has at most k digits exactly when the number is below base^k. */
  lemma {:induction false} NumeralLength(n: nat, base: nat, k: nat)
    requires IsBase(base) && k > 0
    ensures |Numeral(n, base)| <= k <==> n < Pow(base, k)
  {
    if n >= base && k > 1 {
      NumeralLength(n / base, base, k - 1);
      QuotientBelow(n, base, Pow(base, k - 1));
    } else if n >= base {
      assert Pow(base, k) == base;
    } else {
      assert Pow(base, k) >= base by { PowAtLeastBase(base, k); }
    }
  }

  lemma QuotientBelow(n: nat, b: nat, p: nat)
    requires b > 0
    ensures n / b < p <==> n < b * p
  {
    var q, r := n / b, n % b;
    assert n == b * q + r && r < b;
    if q < p {
      assert b * (q + 1) <= b * p;
    } else {
      assert b * q >= b * p;
    }
  }

  lemma {:induction false} PowAtLeastBase(base: nat, k: nat)
    requires IsBase(base) && k > 0
    ensures Pow(base, k) >= base
  {
    if k > 1 {
      PowAtLeastBase(base, k - 1);
    }
  }

  /** A leading zero does not change the value of a numeral. */
  lemma {:induction false} LeadingZero(s: string, base: nat)
    requires IsBase(base) && s != []
    ensures NumeralValue(['0'] + s, base) == NumeralValue(s, base)
  {
    var t := ['0'] + s;
    assert t[|t| - 1] == s[|s| - 1];
    if |s| > 1 {
      assert t[..|t| - 1] == ['0'] + s[..|s| - 1];
      LeadingZero(s[..|s| - 1], base);
    } else {
      assert t[..|t| - 1] == ['0'];
    }
  }

  function Repeat(c: char, n: nat): (s: string)
    ensures |s| == n && forall i :: 0 <= i < n ==> s[i] == c
  {
    if n == 0 then [] else [c] + Repeat(c, n - 1)
  }

  /** Left-pads `s` with '0' to at least `width` characters, as the '0' flag of a %d conversion does. */
  function ZeroPad(s: string, width: nat): (r: string)
    ensures |r| == if |s| < width then width else |s|
    ensures r[|r| - |s|..] == s
    ensures forall i :: 0 <= i < |r| - |s| ==> r[i] == '0'
  {
    if |s| < width then Repeat('0', width - |s|) + s else s
  }

  /** Zero padding does not change the value of a numeral. */
  lemma {:induction false} ZeroPadValue(s: string, width: nat, base: nat)
    requires IsBase(base) && s != []
    ensures NumeralValue(ZeroPad(s, width), base) == NumeralValue(s, base)
    decreases width
  {
    if |s| < width {
      assert ZeroPad(s, width) == ['0'] + ZeroPad(s, width - 1);
      LeadingZero(ZeroPad(s, width - 1), base);
      ZeroPadValue(s, width - 1, base);
    }
  }

  /** `'%06d' % n` for a non-negative n. */
  function FormatZeroPadded6(n: nat): (s: string)
    ensures NumeralValue(s, 10) == Some(n)
    ensures n < 1000000 ==> |s| == 6
  {
    var digits := Numeral(n, 10);
    NumeralRoundTrip(n, 10);
    ZeroPadValue(digits, 6, 10);
    NumeralLength(n, 10, 6);
    ZeroPad(digits, 6)
  }

  /** `hex(n)` for a non-negative n (the 'L' suffix Python 2 adds to longs is not modelled). */
  function Hex(n: nat): string
  {
    "0x" + Numeral(n, 16)
  }

  /** Parses what Hex produces. */
  function ParseHex(s: string): Option<nat>
  {
    if |s| >= 2 && s[..2] == "0x" then NumeralValue(s[2..], 16) else None
  }

  lemma HexRoundTrip(n: nat)
    ensures ParseHex(Hex(n)) == Some(n)
  {
    assert Hex(n)[..2] == "0x";
    assert Hex(n)[2..] == Numeral(n, 16);
    NumeralRoundTrip(n, 16);
  }

  /** `c.encode('hex')` for one byte: exactly two lower-case hex digits, high nibble first. */
  function HexByte(b: Byte): (s: string)
    ensures |s| == 2
    ensures NumeralValue(s, 16) == Some(b)
  {
    var s := [DigitChar(b / 16), DigitChar(b % 16)];
    assert s[..1] == [DigitChar(b / 16)];
    s
  }
}
