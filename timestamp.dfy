/** `generate_time_stamp`: `Time.at(time).utc.strftime('%Y-%m-%dT%H:%M:%S%z')` for a
    whole number of seconds since 1970-01-01T00:00:00 UTC. The calendar is the
    proleptic Gregorian one; the text is the calendar date and time of day of
    ISO 8601:2004 section 4.3.2 followed by the basic-format offset `+0000`. */
module Timestamp {
  import opened Common

  const SecondsPerDay: nat := 86400
  const EpochYear: nat := 1970

  /** A broken-down UTC time. */
  datatype DateTime = DateTime(year: nat, month: nat, day: nat, hour: nat, minute: nat, second: nat)

  // ---------------------------------------------------------------------------
  // The calendar
  // ---------------------------------------------------------------------------

  predicate IsLeapYear(y: nat) {
    y % 4 == 0 && (y % 100 != 0 || y % 400 == 0)
  }

  function DaysInYear(y: nat): nat {
    if IsLeapYear(y) then 366 else 365
  }

  function DaysInMonth(y: nat, m: nat): nat
    requires 1 <= m <= 12
  {
    if m == 2 then (if IsLeapYear(y) then 29 else 28)
    else if m == 4 || m == 6 || m == 9 || m == 11 then 30
    else 31
  }

  /** Days in the months of year `y` before month `m`. */
  function DaysBeforeMonth(y: nat, m: nat): nat
    requires 1 <= m <= 13
  {
    if m == 1 then 0 else DaysBeforeMonth(y, m - 1) + DaysInMonth(y, m - 1)
  }

  /** The twelve months fill the year. */
  lemma MonthsFillYear(y: nat)
    ensures DaysBeforeMonth(y, 13) == DaysInYear(y)
  {
    assert DaysBeforeMonth(y, 2) == 31;
    assert DaysBeforeMonth(y, 3) == 31 + DaysInMonth(y, 2);
    assert DaysBeforeMonth(y, 4) == DaysBeforeMonth(y, 3) + 31;
    assert DaysBeforeMonth(y, 5) == DaysBeforeMonth(y, 3) + 61;
    assert DaysBeforeMonth(y, 6) == DaysBeforeMonth(y, 3) + 92;
    assert DaysBeforeMonth(y, 7) == DaysBeforeMonth(y, 3) + 122;
    assert DaysBeforeMonth(y, 8) == DaysBeforeMonth(y, 3) + 153;
    assert DaysBeforeMonth(y, 9) == DaysBeforeMonth(y, 3) + 184;
    assert DaysBeforeMonth(y, 10) == DaysBeforeMonth(y, 3) + 214;
    assert DaysBeforeMonth(y, 11) == DaysBeforeMonth(y, 3) + 245;
    assert DaysBeforeMonth(y, 12) == DaysBeforeMonth(y, 3) + 275;
    assert DaysBeforeMonth(y, 13) == DaysBeforeMonth(y, 3) + 306;
  }

  /** Days from 1970-01-01 to January 1st of year `y`. */
  function DaysBeforeYear(y: nat): nat
    requires y >= EpochYear
    decreases y
  {
    if y == EpochYear then 0 else DaysBeforeYear(y - 1) + DaysInYear(y - 1)
  }

  /** A real calendar date and time of day, not before the epoch. */
  predicate ValidDateTime(t: DateTime) {
    t.year >= EpochYear && 1 <= t.month <= 12 && 1 <= t.day <= DaysInMonth(t.year, t.month) &&
    t.hour < 24 && t.minute < 60 && t.second < 60
  }

  /** Seconds since the epoch of a broken-down time: the reference definition. */
  function EpochSeconds(t: DateTime): nat
    requires ValidDateTime(t)
  {
    (DaysBeforeYear(t.year) + DaysBeforeMonth(t.year, t.month) + t.day - 1) * SecondsPerDay +
    t.hour * 3600 + t.minute * 60 + t.second
  }

  /** The year holding day `days` counted from January 1st of year `y`, and the day's
      index within that year. */
  function YearOf(days: nat, y: nat): (r: (nat, nat))
    requires y >= EpochYear
    ensures r.0 >= y && r.1 < DaysInYear(r.0)
    ensures DaysBeforeYear(r.0) + r.1 == DaysBeforeYear(y) + days
    decreases days
  {
    if days < DaysInYear(y) then (y, days) else YearOf(days - DaysInYear(y), y + 1)
  }

  /** The month holding day `doy` of year `y` counted from the first of month `m`, and
      the day of that month (from 1). */
  function MonthOf(y: nat, doy: nat, m: nat): (r: (nat, nat))
    requires 1 <= m <= 12 && DaysBeforeMonth(y, m) + doy < DaysInYear(y)
    ensures m <= r.0 <= 12 && 1 <= r.1 <= DaysInMonth(y, r.0)
    ensures DaysBeforeMonth(y, r.0) + r.1 - 1 == DaysBeforeMonth(y, m) + doy
    decreases 12 - m
  {
    MonthsFillYear(y);
    if doy < DaysInMonth(y, m) then (m, doy + 1)
    else MonthOf(y, doy - DaysInMonth(y, m), m + 1)
  }

  /** `Time.at(t).utc`: the broken-down time `t` seconds after the epoch. */
  function ToDateTime(t: nat): (r: DateTime)
    ensures ValidDateTime(r)
    ensures EpochSeconds(r) == t
  {
    var days := t / SecondsPerDay;
    var secs := t % SecondsPerDay;
    var (y, doy) := YearOf(days, EpochYear);
    var (m, d) := MonthOf(y, doy, 1);
    DateTime(y, m, d, secs / 3600, secs % 3600 / 60, secs % 60)
  }

  /** Counting forward from an earlier year reaches the same year and day. */
  lemma {:induction false} YearOfDays(y0: nat, days: nat, y: nat, doy: nat)
    requires EpochYear <= y0 <= y && doy < DaysInYear(y)
    requires DaysBeforeYear(y0) + days == DaysBeforeYear(y) + doy
    ensures YearOf(days, y0) == (y, doy)
    decreases y - y0
  {
    if y0 < y {
      DaysBeforeYearGrows(y0 + 1, y);
      YearOfDays(y0 + 1, days - DaysInYear(y0), y, doy);
    }
  }

  /** Days before a year grow with the year. */
  lemma {:induction false} DaysBeforeYearGrows(y0: nat, y: nat)
    requires EpochYear <= y0 <= y
    ensures DaysBeforeYear(y0) <= DaysBeforeYear(y)
    decreases y - y0
  {
    if y0 < y {
      DaysBeforeYearGrows(y0, y - 1);
    }
  }

  /** Counting forward from an earlier month reaches the same month and day. */
  lemma {:induction false} MonthOfDays(y: nat, m0: nat, doy: nat, m: nat, d: nat)
    requires 1 <= m0 <= m <= 12 && 1 <= d <= DaysInMonth(y, m)
    requires DaysBeforeMonth(y, m0) + doy == DaysBeforeMonth(y, m) + d - 1
    ensures DaysBeforeMonth(y, m0) + doy < DaysInYear(y)
    ensures MonthOf(y, doy, m0) == (m, d)
    decreases m - m0
  {
    MonthsFillYear(y);
    MonthsBefore(y, m + 1, 13);
    if m0 < m {
      MonthsBefore(y, m0 + 1, m);
      MonthOfDays(y, m0 + 1, doy - DaysInMonth(y, m0), m, d);
    }
  }

  /** Days before a month grow with the month. */
  lemma {:induction false} MonthsBefore(y: nat, m0: nat, m: nat)
    requires 1 <= m0 <= m <= 13
    ensures DaysBeforeMonth(y, m0) <= DaysBeforeMonth(y, m)
    decreases m - m0
  {
    if m0 < m {
      MonthsBefore(y, m0, m - 1);
    }
  }

  /** The inverse direction: every valid broken-down time is recovered from its epoch
      seconds, so the conversion is a bijection between seconds and valid times. */
  lemma ToDateTimeOfEpoch(t: DateTime)
    requires ValidDateTime(t)
    ensures ToDateTime(EpochSeconds(t)) == t
  {
    var e := EpochSeconds(t);
    var tod := t.hour * 3600 + t.minute * 60 + t.second;
    var doy := DaysBeforeMonth(t.year, t.month) + t.day - 1;
    var days := DaysBeforeYear(t.year) + doy;
    assert e == days * SecondsPerDay + tod;
    TimeOfDaySplits(t.hour, t.minute, t.second);
    DaySplits(days, tod);
    MonthOfDays(t.year, 1, doy, t.month, t.day);
    YearOfDays(EpochYear, days, t.year, doy);
  }

  /** Whole days and the time of day are recovered by division. */
  lemma DaySplits(days: nat, tod: nat)
    requires tod < SecondsPerDay
    ensures (days * SecondsPerDay + tod) / SecondsPerDay == days
    ensures (days * SecondsPerDay + tod) % SecondsPerDay == tod
  {
  }

  /** Hours, minutes and seconds are recovered from the seconds of the day. */
  lemma TimeOfDaySplits(h: nat, m: nat, sec: nat)
    requires h < 24 && m < 60 && sec < 60
    ensures h * 3600 + m * 60 + sec < SecondsPerDay
    ensures (h * 3600 + m * 60 + sec) / 3600 == h
    ensures (h * 3600 + m * 60 + sec) % 3600 / 60 == m
    ensures (h * 3600 + m * 60 + sec) % 60 == sec
  {
  }

  // ---------------------------------------------------------------------------
  // The text
  // ---------------------------------------------------------------------------

  predicate IsDigit(c: char) {
    '0' <= c <= '9'
  }

  predicate AllDigits(s: string) {
    forall i | 0 <= i < |s| :: IsDigit(s[i])
  }

  function Digit(d: nat): (c: char)
    requires d < 10
    ensures IsDigit(c)
  {
    ('0' as int + d) as char
  }

  function DigitValue(c: char): (d: nat)
    requires IsDigit(c)
    ensures d < 10
  {
    c as int - '0' as int
  }

  /** The decimal digits of `n`, without leading zeros: only zero itself starts with
      `0`, and it is the single digit `0`. */
  function Decimal(n: nat): (s: string)
    ensures |s| >= 1 && AllDigits(s)
    ensures s[0] == '0' <==> n == 0
    ensures n == 0 ==> s == "0"
    decreases n
  {
    (if n < 10 then "" else Decimal(n / 10)) + [Digit(n % 10)]
  }

  /** `n` formatted with `%0<width>d`: its digits padded on the left with zeros to
      `width` characters, or the digits alone when there are that many already. */
  function Field(n: nat, width: nat): (s: string)
    ensures AllDigits(s)
    ensures |s| == if |Decimal(n)| < width then width else |Decimal(n)|
    ensures s[|s| - |Decimal(n)|..] == Decimal(n)
    ensures forall i | 0 <= i < |s| - |Decimal(n)| :: s[i] == '0'
  {
    var d := Decimal(n);
    if |d| < width then seq(width - |d|, _ => '0') + d else d
  }

  /** The value of a string of decimal digits. */
  function DigitsValue(s: string): nat
    requires AllDigits(s)
    decreases |s|
  {
    if s == [] then 0 else DigitsValue(s[..|s| - 1]) * 10 + DigitValue(s[|s| - 1])
  }

  /** The digits read back as the number. */
  lemma {:induction false} DecimalValue(n: nat)
    ensures DigitsValue(Decimal(n)) == n
    decreases n
  {
    var q, r := n / 10, n % 10;
    var s := Decimal(n);
    var front := if n < 10 then "" else Decimal(q);
    assert s == front + [Digit(r)];
    assert s[..|s| - 1] == front && s[|s| - 1] == Digit(r);
    assert DigitValue(Digit(r)) == r;
    if n >= 10 {
      DecimalValue(q);
    }
    assert DigitsValue(front) == q;
    assert DigitsValue(s) == q * 10 + r;
  }

  /** Leading zeros do not change the value. */
  lemma {:induction false} LeadingZerosValue(z: nat, s: string)
    requires AllDigits(s)
    ensures AllDigits(seq(z, _ => '0') + s)
    ensures DigitsValue(seq(z, _ => '0') + s) == DigitsValue(s)
    decreases |s|
  {
    var t := seq(z, _ => '0') + s;
    if s == [] {
      assert t == seq(z, _ => '0');
      ZerosValue(z);
    } else {
      var s' := s[..|s| - 1];
      assert t[..|t| - 1] == seq(z, _ => '0') + s';
      LeadingZerosValue(z, s');
    }
  }

  lemma {:induction false} ZerosValue(z: nat)
    ensures AllDigits(seq(z, _ => '0'))
    ensures DigitsValue(seq(z, _ => '0')) == 0
    decreases z
  {
    if z > 0 {
      assert seq(z, _ => '0')[..z - 1] == seq(z - 1, _ => '0');
      ZerosValue(z - 1);
    }
  }

  /** A field reads back as the number it was formatted from. */
  lemma {:induction false} FieldValue(n: nat, width: nat)
    ensures DigitsValue(Field(n, width)) == n
  {
    DecimalValue(n);
    var d := Decimal(n);
    var f := Field(n, width);
    if |d| < width {
      var z := seq(width - |d|, _ => '0');
      assert f == z + d;
      LeadingZerosValue(width - |d|, d);
      assert DigitsValue(z + d) == DigitsValue(d);
    } else {
      assert f == d;
    }
  }

  /** Below 100, a two-wide field is the tens digit and the units digit. */
  lemma TwoDigitField(n: nat)
    requires n < 100
    ensures Field(n, 2) == [Digit(n / 10), Digit(n % 10)]
  {
    if n >= 10 {
      assert Decimal(n / 10) == [Digit(n / 10)];
    } else {
      assert Decimal(n) == [Digit(n)];
      assert seq(1, _ => '0') == [Digit(0)];
    }
  }

  /** Everything after the year, `-%m-%dT%H:%M:%S%z` with the UTC offset: every field is
      two digits wide (see TwoDigitField). */
  function Tail(t: DateTime): (s: string)
    requires ValidDateTime(t)
    ensures |s| == 20
  {
    ['-', Digit(t.month / 10), Digit(t.month % 10), '-', Digit(t.day / 10), Digit(t.day % 10),
     'T', Digit(t.hour / 10), Digit(t.hour % 10), ':', Digit(t.minute / 10), Digit(t.minute % 10),
     ':', Digit(t.second / 10), Digit(t.second % 10), '+', '0', '0', '0', '0']
  }

  function Pow10(k: nat): (p: nat)
    ensures p >= 1
  {
    if k == 0 then 1 else 10 * Pow10(k - 1)
  }

  /** A number has at most `k` digits exactly when it is below `10^k`. */
  lemma {:induction false} DecimalWidth(n: nat, k: nat)
    requires k >= 1
    ensures |Decimal(n)| <= k <==> n < Pow10(k)
    decreases k
  {
    if k == 1 {
      assert Pow10(1) == 10;
      if n >= 10 {
        assert |Decimal(n)| == |Decimal(n / 10)| + 1;
      }
    } else {
      DecimalWidth(n / 10, k - 1);
      assert n / 10 < Pow10(k - 1) <==> n < 10 * Pow10(k - 1);
      if n >= 10 {
        assert |Decimal(n)| == |Decimal(n / 10)| + 1;
      } else {
        DecimalWidth(n, k - 1);
      }
    }
  }

  /** `%Y-%m-%dT%H:%M:%S%z` of a broken-down UTC time: 24 characters for a four-digit
      year, and a longer year without leading zeros. */
  function Format(t: DateTime): (s: string)
    requires ValidDateTime(t)
    ensures |s| >= 24
    ensures t.year < 10000 <==> |s| == 24
    ensures t.year >= 10000 ==> s[..|s| - 20] == Decimal(t.year) && s[0] != '0'
  {
    DecimalWidth(t.year, 4);
    assert Pow10(4) == 10000;
    Field(t.year, 4) + Tail(t)
  }

  /** `generate_time_stamp(time)` */
  function Stamp(time: nat): (s: string)
    ensures |s| >= 24
  {
    Format(ToDateTime(time))
  }

  /** The two-digit number at `i`. */
  function PairValue(s: string, i: nat): nat
    requires i + 2 <= |s| && IsDigit(s[i]) && IsDigit(s[i + 1])
  {
    DigitValue(s[i]) * 10 + DigitValue(s[i + 1])
  }

  /** The separators and digits of a tail at their places. */
  predicate TailShape(s: string) {
    |s| == 20 && s[0] == '-' && s[3] == '-' && s[6] == 'T' && s[9] == ':' && s[12] == ':' &&
    s[15..] == "+0000" &&
    IsDigit(s[1]) && IsDigit(s[2]) && IsDigit(s[4]) && IsDigit(s[5]) && IsDigit(s[7]) &&
    IsDigit(s[8]) && IsDigit(s[10]) && IsDigit(s[11]) && IsDigit(s[13]) && IsDigit(s[14])
  }

  /** Reads a time stamp back into epoch seconds, or `None` when the text is not a
      stamp of a valid time: the inverse of `Stamp`. */
  function ParseStamp(s: string): (r: Option<nat>)
    ensures r.Some? ==> |s| >= 24
  {
    if |s| < 24 then None
    else
      var year := s[..|s| - 20];
      var tail := s[|s| - 20..];
      if !AllDigits(year) || !TailShape(tail) then None
      else
        var t := DateTime(DigitsValue(year), PairValue(tail, 1), PairValue(tail, 4),
                          PairValue(tail, 7), PairValue(tail, 10), PairValue(tail, 13));
        if ValidDateTime(t) then Some(EpochSeconds(t)) else None
  }

  /** The tail has its shape and reads back as the fields it was made from. */
  lemma TailReadsBack(t: DateTime)
    requires ValidDateTime(t)
    ensures TailShape(Tail(t))
    ensures PairValue(Tail(t), 1) == t.month && PairValue(Tail(t), 4) == t.day
    ensures PairValue(Tail(t), 7) == t.hour && PairValue(Tail(t), 10) == t.minute
    ensures PairValue(Tail(t), 13) == t.second
    ensures TailInRange(Tail(t))
  {
    var s := Tail(t);
    assert s[15..] == "+0000";
    PairOfDigits(t.month);
    PairOfDigits(t.day);
    PairOfDigits(t.hour);
    PairOfDigits(t.minute);
    PairOfDigits(t.second);
  }

  lemma PairOfDigits(n: nat)
    requires n < 100
    ensures DigitValue(Digit(n / 10)) * 10 + DigitValue(Digit(n % 10)) == n
  {
  }

  /** The round trip: a stamp reads back as the time it was made from. */
  lemma ParseStampRoundTrip(time: nat)
    ensures ParseStamp(Stamp(time)) == Some(time)
  {
    var t := ToDateTime(time);
    var y := Field(t.year, 4);
    var s := Stamp(time);
    assert s == y + Tail(t);
    assert s[..|s| - 20] == y && s[|s| - 20..] == Tail(t);
    FieldValue(t.year, 4);
    TailReadsBack(t);
  }

  /** The month, day, hour, minute and second of a tail lie in their ranges. */
  predicate TailInRange(tail: string)
    requires TailShape(tail)
  {
    1 <= PairValue(tail, 1) <= 12 && 1 <= PairValue(tail, 4) <= 31 &&
    PairValue(tail, 7) < 24 && PairValue(tail, 10) < 60 && PairValue(tail, 13) < 60
  }

  /** The layout of a stamp: a year of exactly four digits, or of more without a
      leading zero, then the month, day, hour, minute and second as two-digit fields in
      their ranges, separated by `-`, `-`, `T`, `:`, `:`, and the offset `+0000`. */
  predicate StampShape(s: string) {
    |s| >= 24 && AllDigits(s[..|s| - 20]) && (|s| == 24 || s[0] != '0') &&
    TailShape(s[|s| - 20..]) && TailInRange(s[|s| - 20..])
  }

  /** Every stamp has the layout. */
  lemma StampLayout(time: nat)
    ensures StampShape(Stamp(time))
    ensures ToDateTime(time).year < 10000 ==> |Stamp(time)| == 24
  {
    var t := ToDateTime(time);
    var s := Stamp(time);
    assert s == Format(t);
    assert s == Field(t.year, 4) + Tail(t);
    var year, tail := s[..|s| - 20], s[|s| - 20..];
    assert year == Field(t.year, 4) && tail == Tail(t);
    TailReadsBack(t);
  }

  /** Distinct times give distinct stamps. */
  lemma StampInjective(a: nat, b: nat)
    requires Stamp(a) == Stamp(b)
    ensures a == b
  {
    ParseStampRoundTrip(a);
    ParseStampRoundTrip(b);
  }

  /** Time 0 is midnight of 1970-01-01. */
  lemma EpochIsMidnight()
    ensures ToDateTime(0) == DateTime(1970, 1, 1, 0, 0, 0)
  {
    var t := DateTime(1970, 1, 1, 0, 0, 0);
    assert EpochSeconds(t) == 0;
    ToDateTimeOfEpoch(t);
  }

  /** The first leap day after the epoch: 1972-02-29 starts 789 days in. */
  lemma LeapDay1972()
    ensures ToDateTime(789 * SecondsPerDay) == DateTime(1972, 2, 29, 0, 0, 0)
  {
    var t := DateTime(1972, 2, 29, 0, 0, 0);
    assert DaysBeforeYear(1972) == 730;
    assert DaysBeforeMonth(1972, 2) == 31;
    assert EpochSeconds(t) == 789 * SecondsPerDay;
    ToDateTimeOfEpoch(t);
  }
}
