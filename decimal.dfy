/**
 * Decimal rendering of integers as JavaScript does it for whole numbers below 2^53
 * in magnitude (beyond that a double rounds, and `toString()` prints rounded digits):
 * `Number.prototype.toString()` (no leading zeros, a leading '-' for negatives)
 * and `String.prototype.padStart(width, "0")`, together with a digit-string
 * reader that serves as the independent reference for both.
 */
module Decimal {

  predicate IsDigit(c: char) {
    '0' <= c <= '9'
  }

  predicate AllDigits(s: string) {
    forall i :: 0 <= i < |s| ==> IsDigit(s[i])
  }

  /** The character of a single decimal digit. */
  function DigitChar(d: int): (c: char)
    requires 0 <= d <= 9
    ensures IsDigit(c) && c as int - '0' as int == d
  {
    ('0' as int + d) as char
  }

  function Pow10(k: nat): (p: nat)
    ensures p >= 1
  {
    if k == 0 then 1 else 10 * Pow10(k - 1)
  }

  /** `n.toString()` for a non-negative whole number below 2^53. */
  function NatToString(n: nat): (s: string)
    ensures 1 <= |s|
  {
    if n < 10 then [DigitChar(n)] else NatToString(n / 10) + [DigitChar(n % 10)]
  }

  /** The rendering is all digits, and it starts with '0' only for 0 itself. */
  lemma {:induction false} NatToStringDigits(n: nat)
    ensures AllDigits(NatToString(n))
    ensures n > 0 ==> NatToString(n)[0] != '0'
  {
    if n >= 10 {
      NatToStringDigits(n / 10);
      assert NatToString(n)[0] == NatToString(n / 10)[0];
    }
  }

  /** `n.toString()` for a whole number of either sign below 2^53 in magnitude: the
    * digits read back as the magnitude, behind a '-' exactly when the number is negative. */
  function IntToString(n: int): (s: string)
    ensures 1 <= |s|
    ensures n >= 0 ==> AllDigits(s) && ParseDigits(s) == n
    ensures n < 0 ==> 2 <= |s| && s[0] == '-' && AllDigits(s[1..]) && ParseDigits(s[1..]) == -n
  {
    if n < 0 then
      ParseNatToString(-n);
      assert ("-" + NatToString(-n))[1..] == NatToString(-n);
      "-" + NatToString(-n)
    else
      ParseNatToString(n);
      NatToString(n)
  }

  /** Different numbers have different renderings. */
  lemma IntToStringInjective(a: int, b: int)
    requires IntToString(a) == IntToString(b)
    ensures a == b
  {
    SignShows(a);
    SignShows(b);
    if a >= 0 && b >= 0 {
      NatToStringInjective(a, b);
    } else if a < 0 && b < 0 {
      assert IntToString(a)[1..] == NatToString(-a);
      assert IntToString(b)[1..] == NatToString(-b);
      NatToStringInjective(-a, -b);
    }
  }

  /** The rendering starts with '-' exactly for negative numbers. */
  lemma SignShows(n: int)
    ensures IntToString(n)[0] == '-' <==> n < 0
  {
    NatToStringDigits(if n < 0 then -n else n);
  }

  lemma NatToStringInjective(a: nat, b: nat)
    requires NatToString(a) == NatToString(b)
    ensures a == b
  {
    ParseNatToString(a);
    ParseNatToString(b);
  }

  /** A run of `k` zero characters. */
  function Zeros(k: nat): (z: string)
    ensures |z| == k
  {
    if k == 0 then [] else Zeros(k - 1) + "0"
  }

  lemma {:induction false} ZerosAreZeros(k: nat)
    ensures forall i :: 0 <= i < k ==> Zeros(k)[i] == '0'
  {
    if k > 0 {
      ZerosAreZeros(k - 1);
      assert forall i :: 0 <= i < k - 1 ==> Zeros(k)[i] == Zeros(k - 1)[i];
    }
  }

  /** `s.padStart(width, "0")`: zeros are added in front until `s` is `width` long. */
  function PadStart(s: string, width: nat): (r: string)
    ensures |r| == if |s| < width then width else |s|
  {
    if |s| < width then Zeros(width - |s|) + s else s
  }

  /** Padding keeps `s` as the tail and adds only zeros in front. */
  lemma PadStartShape(s: string, width: nat)
    ensures PadStart(s, width)[|PadStart(s, width)| - |s|..] == s
    ensures forall i :: 0 <= i < |PadStart(s, width)| - |s| ==> PadStart(s, width)[i] == '0'
  {
    if |s| < width {
      ZerosAreZeros(width - |s|);
    }
  }

  /** The value of a string of decimal digits, most significant first ("" reads as 0). */
  function ParseDigits(s: string): (n: nat)
    requires AllDigits(s)
  {
    if s == [] then 0 else 10 * ParseDigits(s[..|s| - 1]) + (s[|s| - 1] as int - '0' as int)
  }

  /** Reading back the decimal rendering of `n` gives `n`. */
  lemma {:induction false} ParseNatToString(n: nat)
    ensures AllDigits(NatToString(n)) && ParseDigits(NatToString(n)) == n
  {
    NatToStringDigits(n);
    if n >= 10 {
      var s := NatToString(n);
      assert s[..|s| - 1] == NatToString(n / 10);
      ParseNatToString(n / 10);
    }
  }

  /** Leading zeros do not change the value of a digit string. */
  lemma {:induction false} ParseLeadingZeros(k: nat, s: string)
    requires AllDigits(s)
    ensures AllDigits(Zeros(k) + s) && ParseDigits(Zeros(k) + s) == ParseDigits(s)
    decreases |s|, k
  {
    var t := Zeros(k) + s;
    ZerosAreZeros(k);
    if s == [] {
      assert t == Zeros(k);
      if k > 0 {
        assert t[..|t| - 1] == Zeros(k - 1) + [];
        ParseLeadingZeros(k - 1, []);
      }
    } else {
      assert t[..|t| - 1] == Zeros(k) + s[..|s| - 1];
      ParseLeadingZeros(k, s[..|s| - 1]);
    }
  }

  /** Padding the rendering of `n` with zeros still reads back as `n`. */
  lemma ParsePadded(n: nat, width: nat)
    ensures AllDigits(PadStart(NatToString(n), width))
    ensures ParseDigits(PadStart(NatToString(n), width)) == n
  {
    var s := NatToString(n);
    ParseNatToString(n);
    if |s| < width {
      ParseLeadingZeros(width - |s|, s);
    }
  }

  /** A digit string that reads as 0 is all zeros. */
  lemma {:induction false} ParseZeroIsZeros(s: string)
    requires AllDigits(s) && ParseDigits(s) == 0
    ensures s == Zeros(|s|)
  {
    if s != [] {
      var t := s[..|s| - 1];
      ParseZeroIsZeros(t);
      assert s == t + [s[|s| - 1]];
    }
  }

  /** A digit string that reads back as `n`, and is at least as long as the
    * rendering of `n`, is that rendering padded with zeros. */
  lemma {:induction false} ParseCanonical(s: string, n: nat)
    requires AllDigits(s) && ParseDigits(s) == n && |NatToString(n)| <= |s|
    ensures s == PadStart(NatToString(n), |s|)
    decreases |s|
  {
    var t, c := s[..|s| - 1], s[|s| - 1];
    assert s == t + [c];
    var d := c as int - '0' as int;
    assert IsDigit(c) && 0 <= d <= 9;
    assert AllDigits(t) by {
      assert forall i :: 0 <= i < |t| ==> t[i] == s[i];
    }
    assert n == 10 * ParseDigits(t) + d;
    DivMod10(n, ParseDigits(t), d);
    assert c == DigitChar(d);
    if n < 10 {
      ParseZeroIsZeros(t);
      assert NatToString(n) == [] + [c];
      PadStartSnoc([], c, |s|);
    } else {
      ParseCanonical(t, n / 10);
      PadStartSnoc(NatToString(n / 10), c, |s|);
    }
  }

  lemma DivMod10(n: int, q: int, r: int)
    requires n == 10 * q + r && 0 <= r < 10
    ensures n / 10 == q && n % 10 == r
  {
  }

  /** Padding a string with one more character at its end to one more place. */
  lemma PadStartSnoc(p: string, c: char, width: nat)
    requires |p| < width
    ensures PadStart(p + [c], width) == PadStart(p, width - 1) + [c]
  {
    if |p| + 1 < width {
      assert Zeros(width - |p| - 1) + (p + [c]) == (Zeros(width - |p| - 1) + p) + [c];
    }
  }

  /** A number below 10^k has at most k digits. */
  lemma {:induction false} NatToStringLength(n: nat, k: nat)
    requires 1 <= k && n < Pow10(k)
    ensures |NatToString(n)| <= k
  {
    if n >= 10 {
      assert Pow10(1) == 10;
      assert n / 10 < Pow10(k - 1);
      NatToStringLength(n / 10, k - 1);
    }
  }
}
