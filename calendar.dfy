/**
 * Proleptic Gregorian calendar dates: validity, the next-day step that
 * JavaScript's `Date.prototype.setDate(getDate() + 1)` performs, a day count
 * used as the independent reference for "one day later", and the date part of
 * `Date.prototype.toISOString()`.
 */
module Calendar {
  import opened Decimal

  datatype Date = Date(year: int, month: int, day: int)

  predicate IsLeapYear(y: int) {
    (y % 4 == 0 && y % 100 != 0) || y % 400 == 0
  }

  function DaysInMonth(y: int, m: int): (n: int)
    requires 1 <= m <= 12
    ensures 28 <= n <= 31
  {
    if m == 2 then (if IsLeapYear(y) then 29 else 28)
    else if m == 4 || m == 6 || m == 9 || m == 11 then 30
    else 31
  }

  predicate ValidDate(d: Date) {
    1 <= d.month <= 12 && 1 <= d.day <= DaysInMonth(d.year, d.month)
  }

  /** Days in the months of year `y` that come before month `m`. */
  function DaysBeforeMonth(y: int, m: int): nat
    requires 1 <= m <= 13
  {
    if m == 1 then 0 else DaysBeforeMonth(y, m - 1) + DaysInMonth(y, m - 1)
  }

  /** Days from 0001-01-01 to the first of January of year `y` (negative before year 1). */
  function DaysBeforeYear(y: int): int {
    365 * (y - 1) + (y - 1) / 4 - (y - 1) / 100 + (y - 1) / 400
  }

  /** The number of the day `d`, counted from 0001-01-01 as day 0. */
  function DayNumber(d: Date): int
    requires ValidDate(d)
  {
    DaysBeforeYear(d.year) + DaysBeforeMonth(d.year, d.month) + d.day - 1
  }

  /** The calendar day after `d`, carrying into the next month and the next year. */
  function NextDay(d: Date): (r: Date)
    requires ValidDate(d)
    ensures ValidDate(r)
    ensures DayNumber(r) == DayNumber(d) + 1
    ensures r.day == 1 <==> d.day == DaysInMonth(d.year, d.month)
    ensures r.month == 1 && r.day == 1 <==> d.month == 12 && d.day == 31
  {
    if d.day < DaysInMonth(d.year, d.month) then
      d.(day := d.day + 1)
    else if d.month < 12 then
      Date(d.year, d.month + 1, 1)
    else
      YearLength(d.year);
      Date(d.year + 1, 1, 1)
  }

  /** The months before December hold 334 days, one more in a leap year. */
  lemma DaysBeforeDecember(y: int)
    ensures DaysBeforeMonth(y, 12) == if IsLeapYear(y) then 335 else 334
  {
    var leap := if IsLeapYear(y) then 1 else 0;
    assert DaysBeforeMonth(y, 2) == 31;
    assert DaysBeforeMonth(y, 3) == 59 + leap;
    assert DaysBeforeMonth(y, 4) == 90 + leap;
    assert DaysBeforeMonth(y, 5) == 120 + leap;
    assert DaysBeforeMonth(y, 6) == 151 + leap;
    assert DaysBeforeMonth(y, 7) == 181 + leap;
    assert DaysBeforeMonth(y, 8) == 212 + leap;
    assert DaysBeforeMonth(y, 9) == 243 + leap;
    assert DaysBeforeMonth(y, 10) == 273 + leap;
    assert DaysBeforeMonth(y, 11) == 304 + leap;
  }

  /** A year has 366 days when it is a leap year and 365 otherwise. */
  lemma YearLength(y: int)
    ensures DaysBeforeYear(y + 1) - DaysBeforeYear(y)
            == if IsLeapYear(y) then 366 else 365
    ensures DaysBeforeMonth(y, 12) + 31 == DaysBeforeYear(y + 1) - DaysBeforeYear(y)
  {
    Step4(y);
    Step100(y);
    Step400(y);
    DaysBeforeDecember(y);
  }

  // How many multiples of 4, 100 and 400 the step from `y - 1` to `y` passes:
  // write y - 1 as k * q + r and look at whether r is the last remainder.
  lemma Step4(y: int)
    ensures y / 4 - (y - 1) / 4 == if y % 4 == 0 then 1 else 0
  {
    var q, r := (y - 1) / 4, (y - 1) % 4;
    if r == 3 {
      DivMod4(y, q + 1, 0);
    } else {
      DivMod4(y, q, r + 1);
    }
  }

  lemma Step100(y: int)
    ensures y / 100 - (y - 1) / 100 == if y % 100 == 0 then 1 else 0
    ensures y % 100 == 0 ==> y % 4 == 0
  {
    var q, r := (y - 1) / 100, (y - 1) % 100;
    if r == 99 {
      DivMod100(y, q + 1, 0);
      DivMod4(y, 25 * (q + 1), 0);
    } else {
      DivMod100(y, q, r + 1);
    }
  }

  lemma Step400(y: int)
    ensures y / 400 - (y - 1) / 400 == if y % 400 == 0 then 1 else 0
    ensures y % 400 == 0 ==> y % 100 == 0
  {
    var q, r := (y - 1) / 400, (y - 1) % 400;
    if r == 399 {
      DivMod400(y, q + 1, 0);
      DivMod100(y, 4 * (q + 1), 0);
    } else {
      DivMod400(y, q, r + 1);
    }
  }

  // Quotient and remainder are the unique pair with n == k * q + r and 0 <= r < k.
  lemma DivMod4(n: int, q: int, r: int)
    requires n == 4 * q + r && 0 <= r < 4
    ensures n / 4 == q && n % 4 == r
  {
  }

  lemma DivMod100(n: int, q: int, r: int)
    requires n == 100 * q + r && 0 <= r < 100
    ensures n / 100 == q && n % 100 == r
  {
  }

  lemma DivMod400(n: int, q: int, r: int)
    requires n == 400 * q + r && 0 <= r < 400
    ensures n / 400 == q && n % 400 == r
  {
  }

  /** The year part of `toISOString()`: four digits for years 0..9999, otherwise a sign and six digits. */
  function IsoYear(y: int): (s: string)
    ensures 0 <= y <= 9999 ==> |s| == 4 && AllDigits(s) && ParseDigits(s) == y
    ensures y < 0 ==> 7 <= |s| && s[0] == '-' && AllDigits(s[1..]) && ParseDigits(s[1..]) == -y
    ensures y > 9999 ==> 7 <= |s| && s[0] == '+' && AllDigits(s[1..]) && ParseDigits(s[1..]) == y
  {
    if 0 <= y <= 9999 then
      assert Pow10(4) == 10000;
      NatToStringLength(y, 4);
      ParsePadded(y, 4);
      PadStart(NatToString(y), 4)
    else if y < 0 then
      ParsePadded(-y, 6);
      assert ("-" + PadStart(NatToString(-y), 6))[1..] == PadStart(NatToString(-y), 6);
      "-" + PadStart(NatToString(-y), 6)
    else
      ParsePadded(y, 6);
      assert ("+" + PadStart(NatToString(y), 6))[1..] == PadStart(NatToString(y), 6);
      "+" + PadStart(NatToString(y), 6)
  }

  /** The `YYYY-MM-DD` part of `toISOString()`: the year part, then a dash, two digits that
    * read back as the month, a dash and two digits that read back as the day. */
  function IsoDate(d: Date): (r: string)
    requires ValidDate(d)
    ensures |r| == |IsoYear(d.year)| + 6 && r[..|r| - 6] == IsoYear(d.year)
    ensures r[|r| - 6] == '-' && r[|r| - 3] == '-'
    ensures AllDigits(r[|r| - 5..|r| - 3]) && ParseDigits(r[|r| - 5..|r| - 3]) == d.month
    ensures AllDigits(r[|r| - 2..]) && ParseDigits(r[|r| - 2..]) == d.day
  {
    var y, m, dd := IsoYear(d.year), PadStart(NatToString(d.month), 2), PadStart(NatToString(d.day), 2);
    TwoDigitWidth(d.month);
    TwoDigitWidth(d.day);
    ParsePadded(d.month, 2);
    ParsePadded(d.day, 2);
    DashedTail(y, m, dd);
    y + "-" + m + "-" + dd
  }

  /** Where the parts of a `Y-MM-DD` string sit, counted from its end. */
  lemma DashedTail(y: string, m: string, d: string)
    requires |m| == 2 && |d| == 2
    ensures |y + "-" + m + "-" + d| == |y| + 6
    ensures (y + "-" + m + "-" + d)[..|y|] == y
    ensures (y + "-" + m + "-" + d)[|y|] == '-' && (y + "-" + m + "-" + d)[|y| + 3] == '-'
    ensures (y + "-" + m + "-" + d)[|y| + 1..|y| + 3] == m && (y + "-" + m + "-" + d)[|y| + 4..] == d
  {
    var s := y + "-" + m + "-" + d;
    assert s[..|y|] == y;
    assert s[|y| + 1..|y| + 3] == m;
    assert s[|y| + 4..] == d;
  }

  /** Zero-padded renderings of the same width are equal only for equal numbers. */
  lemma PaddedInjective(a: nat, b: nat, width: nat)
    requires PadStart(NatToString(a), width) == PadStart(NatToString(b), width)
    ensures a == b
  {
    ParsePadded(a, width);
    ParsePadded(b, width);
  }

  lemma IsoYearInjective(a: int, b: int)
    requires IsoYear(a) == IsoYear(b)
    ensures a == b
  {
    var s := IsoYear(a);
    var pa, pb := PadStart(NatToString(if a < 0 then -a else a), if 0 <= a <= 9999 then 4 else 6),
                  PadStart(NatToString(if b < 0 then -b else b), if 0 <= b <= 9999 then 4 else 6);
    ParsePadded(if a < 0 then -a else a, if 0 <= a <= 9999 then 4 else 6);
    ParsePadded(if b < 0 then -b else b, if 0 <= b <= 9999 then 4 else 6);
    assert IsDigit(pa[0]) && IsDigit(pb[0]);
    if 0 <= a <= 9999 {
      assert s == pa;
      assert 0 <= b <= 9999;
      PaddedInjective(a, b, 4);
    } else if a < 0 {
      assert s == "-" + pa && s[0] == '-';
      assert b < 0;
      assert s[1..] == pa == pb;
      PaddedInjective(-a, -b, 6);
    } else {
      assert s == "+" + pa && s[0] == '+';
      assert b > 9999;
      assert s[1..] == pa == pb;
      PaddedInjective(a, b, 6);
    }
  }

  /** A `Y-MM-DD` string determines its three parts when the month and day parts are two long. */
  lemma SplitIsoParts(y: string, m: string, d: string, y': string, m': string, d': string)
    requires |m| == 2 && |d| == 2 && |m'| == 2 && |d'| == 2
    requires y + "-" + m + "-" + d == y' + "-" + m' + "-" + d'
    ensures y == y' && m == m' && d == d'
  {
    var s := y + "-" + m + "-" + d;
    assert |y| == |y'|;
    assert d == s[|s| - 2..] == d';
    assert m == s[|s| - 5..|s| - 3] == m';
    assert y == s[..|s| - 6] == y';
  }

  lemma TwoDigitWidth(n: nat)
    requires 1 <= n <= 31
    ensures |PadStart(NatToString(n), 2)| == 2
  {
    assert Pow10(2) == 100;
    NatToStringLength(n, 2);
  }

  /** Distinct valid dates have distinct ISO renderings. */
  lemma IsoDateInjective(a: Date, b: Date)
    requires ValidDate(a) && ValidDate(b)
    requires IsoDate(a) == IsoDate(b)
    ensures a == b
  {
    TwoDigitWidth(a.month);
    TwoDigitWidth(a.day);
    TwoDigitWidth(b.month);
    TwoDigitWidth(b.day);
    SplitIsoParts(IsoYear(a.year), PadStart(NatToString(a.month), 2), PadStart(NatToString(a.day), 2),
                  IsoYear(b.year), PadStart(NatToString(b.month), 2), PadStart(NatToString(b.day), 2));
    PaddedInjective(a.month, b.month, 2);
    PaddedInjective(a.day, b.day, 2);
    IsoYearInjective(a.year, b.year);
  }

  /** `s` is a `YYYY-MM-DD` string whose digit groups read back as `d`. */
  predicate ReadsAsDate(s: string, d: Date) {
    |s| == 10 && s[4] == '-' && s[7] == '-' &&
    AllDigits(s[..4]) && ParseDigits(s[..4]) == d.year &&
    AllDigits(s[5..7]) && ParseDigits(s[5..7]) == d.month &&
    AllDigits(s[8..]) && ParseDigits(s[8..]) == d.day
  }

  /** For years 0..9999 the rendering is `YYYY-MM-DD`: ten characters whose digit groups read back as the date. */
  lemma IsoDateFormat(d: Date)
    requires ValidDate(d) && 0 <= d.year <= 9999
    ensures ReadsAsDate(IsoDate(d), d)
  {
    var y, m, dd := PadStart(NatToString(d.year), 4), PadStart(NatToString(d.month), 2), PadStart(NatToString(d.day), 2);
    assert |y| == 4 by {
      assert Pow10(4) == 10000;
      NatToStringLength(d.year, 4);
    }
    TwoDigitWidth(d.month);
    TwoDigitWidth(d.day);
    assert IsoDate(d) == y + "-" + m + "-" + dd;
    DashedParts(y, m, dd);
    ParsePadded(d.year, 4);
    ParsePadded(d.month, 2);
    ParsePadded(d.day, 2);
  }

  /** Conversely, for years 0..9999 the rendering is the only `YYYY-MM-DD` string that reads back as the date. */
  lemma ReadsAsDateIsIso(s: string, d: Date)
    requires ValidDate(d) && 0 <= d.year <= 9999
    requires ReadsAsDate(s, d)
    ensures s == IsoDate(d)
  {
    assert Pow10(4) == 10000 && Pow10(2) == 100;
    NatToStringLength(d.year, 4);
    NatToStringLength(d.month, 2);
    NatToStringLength(d.day, 2);
    ParseCanonical(s[..4], d.year);
    ParseCanonical(s[5..7], d.month);
    ParseCanonical(s[8..], d.day);
    assert s == s[..4] + "-" + s[5..7] + "-" + s[8..];
  }

  /** Where the parts of a `YYYY-MM-DD` string sit. */
  lemma DashedParts(y: string, m: string, d: string)
    requires |y| == 4 && |m| == 2 && |d| == 2
    ensures |y + "-" + m + "-" + d| == 10
    ensures (y + "-" + m + "-" + d)[4] == '-' && (y + "-" + m + "-" + d)[7] == '-'
    ensures (y + "-" + m + "-" + d)[..4] == y && (y + "-" + m + "-" + d)[5..7] == m
    ensures (y + "-" + m + "-" + d)[8..] == d
  {
    var s := y + "-" + m + "-" + d;
    assert s[..4] == y;
    assert s[5..7] == m;
    assert s[8..] == d;
  }
}
