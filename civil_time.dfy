/** Wall-clock timestamps: whole seconds since 1970-01-01 00:00:00 of local time, the
    calendar fields of such a timestamp, and `strftime('%Y%m%d_%H%M%S')`. */
module CivilTime {
  import opened Strings

  const SecondsPerDay: nat := 86400

  /** `(later - earlier).seconds`: the seconds part of the `timedelta`, which drops
      whole days (and is never negative). */
  function DeltaSeconds(earlier: nat, later: nat): (s: nat)
    ensures s < SecondsPerDay
    ensures earlier <= later < earlier + SecondsPerDay ==> s == later - earlier
  {
    (later - earlier) % SecondsPerDay
  }

  predicate IsLeapYear(y: nat) {
    y % 4 == 0 && (y % 100 != 0 || y % 400 == 0)
  }

  function DaysInYear(y: nat): nat {
    if IsLeapYear(y) then 366 else 365
  }

  function DaysInMonth(m: nat, leap: bool): (n: nat)
    requires 1 <= m <= 12
    ensures 28 <= n <= 31
  {
    if m == 2 then (if leap then 29 else 28)
    else if m == 4 || m == 6 || m == 9 || m == 11 then 30
    else 31
  }

  /** The number of days in the years `first` up to, not including, `last`. */
  function YearsDays(first: nat, last: nat): nat
    requires first <= last
    decreases last - first
  {
    if first == last then 0 else DaysInYear(first) + YearsDays(first + 1, last)
  }

  /** The number of days in the months `first` up to, not including, `last` of one year. */
  function MonthsDays(first: nat, last: nat, leap: bool): nat
    requires 1 <= first <= last <= 13
    decreases last - first
  {
    if first == last then 0 else DaysInMonth(first, leap) + MonthsDays(first + 1, last, leap)
  }

  /** The year containing day `days` counted from January 1 of `year`, and the
      zero-based day within that year. */
  function YearAndDay(days: nat, year: nat): (r: (nat, nat))
    ensures r.0 >= year && r.1 < DaysInYear(r.0)
    ensures r.0 >= year && YearsDays(year, r.0) + r.1 == days
    decreases days
  {
    if days < DaysInYear(year) then (year, days)
    else YearAndDay(days - DaysInYear(year), year + 1)
  }

  /** The month (from `month` on) containing the zero-based day `day` of the year,
      and the one-based day of that month. */
  function MonthAndDay(day: nat, leap: bool, month: nat): (r: (nat, nat))
    requires 1 <= month <= 12
    requires day < DaysFrom(month, leap)
    ensures month <= r.0 <= 12 && 1 <= r.1 <= DaysInMonth(r.0, leap)
    ensures month <= r.0 <= 12 && MonthsDays(month, r.0, leap) + r.1 - 1 == day
    decreases 12 - month
  {
    if day < DaysInMonth(month, leap) then (month, day + 1)
    else MonthAndDay(day - DaysInMonth(month, leap), leap, month + 1)
  }

  /** The number of days from the first of `month` to the end of the year. */
  function DaysFrom(month: nat, leap: bool): nat
    requires 1 <= month <= 12
    decreases 12 - month
  {
    if month == 12 then 31 else DaysInMonth(month, leap) + DaysFrom(month + 1, leap)
  }

  lemma {:induction false} DaysFromJanuary(leap: bool)
    ensures DaysFrom(1, leap) == if leap then 366 else 365
  {
    assert DaysFrom(12, leap) == 31;
    assert DaysFrom(11, leap) == 61;
    assert DaysFrom(10, leap) == 92;
    assert DaysFrom(9, leap) == 122;
    assert DaysFrom(8, leap) == 153;
    assert DaysFrom(7, leap) == 184;
    assert DaysFrom(6, leap) == 214;
    assert DaysFrom(5, leap) == 245;
    assert DaysFrom(4, leap) == 275;
    assert DaysFrom(3, leap) == 306;
  }

  /** The calendar fields of a timestamp. */
  datatype DateTime = DateTime(year: nat, month: nat, day: nat, hour: nat, minute: nat, second: nat)

  /** The timestamp of a point in time given by its calendar fields: the days before
      it since 1970-01-01, in whole years, whole months and days, then the seconds. */
  function EpochSeconds(d: DateTime): int
    requires 1970 <= d.year && 1 <= d.month <= 12
  {
    (YearsDays(1970, d.year) + MonthsDays(1, d.month, IsLeapYear(d.year)) + d.day - 1) * SecondsPerDay
      + (d.hour * 60 + d.minute) * 60 + d.second
  }

  /** The calendar fields of a timestamp: valid fields that denote exactly `t`. */
  function ToDateTime(t: nat): (d: DateTime)
    ensures d.year >= 1970
    ensures 1 <= d.month <= 12 && 1 <= d.day <= DaysInMonth(d.month, IsLeapYear(d.year))
    ensures d.hour < 24 && d.minute < 60 && d.second < 60
    ensures (d.hour * 60 + d.minute) * 60 + d.second == t % SecondsPerDay
    ensures d.year >= 1970 && 1 <= d.month <= 12 && EpochSeconds(d) == t
  {
    var yd := YearAndDay(t / SecondsPerDay, 1970);
    DaysFromJanuary(IsLeapYear(yd.0));
    var md := MonthAndDay(yd.1, IsLeapYear(yd.0), 1);
    var s := t % SecondsPerDay;
    DateTime(yd.0, md.0, md.1, s / 3600, s % 3600 / 60, s % 60)
  }

  /** `strftime('%Y%m%d_%H%M%S')`. */
  function FormatCompact(t: nat): string {
    FormatFields(ToDateTime(t))
  }

  function FormatFields(d: DateTime): string {
    ZeroPad(d.year, 4) + ZeroPad(d.month, 2) + ZeroPad(d.day, 2) + "_"
      + ZeroPad(d.hour, 2) + ZeroPad(d.minute, 2) + ZeroPad(d.second, 2)
  }

  /** A timestamp before year 10000 formats as fifteen characters: eight digits, an
      underscore and six digits. */
  lemma FormatCompactShape(t: nat)
    requires ToDateTime(t).year < 10000
    ensures var s := FormatCompact(t);
            && |s| == 15
            && s[8] == '_'
            && forall i :: 0 <= i < 15 && i != 8 ==> '0' <= s[i] <= '9'
  {
    FormatFieldsShape(ToDateTime(t));
  }

  lemma FormatFieldsShape(d: DateTime)
    requires d.year < 10000 && d.month < 100 && d.day < 100
    requires d.hour < 100 && d.minute < 100 && d.second < 100
    ensures var s := FormatFields(d);
            && |s| == 15
            && s[8] == '_'
            && forall i :: 0 <= i < 15 && i != 8 ==> '0' <= s[i] <= '9'
  {
    assert Pow10(2) == 100 && Pow10(4) == 10000;
    ZeroPadExact(d.year, 4);
    ZeroPadExact(d.month, 2);
    ZeroPadExact(d.day, 2);
    ZeroPadExact(d.hour, 2);
    ZeroPadExact(d.minute, 2);
    ZeroPadExact(d.second, 2);
    PiecesShape(ZeroPad(d.year, 4), ZeroPad(d.month, 2), ZeroPad(d.day, 2),
                ZeroPad(d.hour, 2), ZeroPad(d.minute, 2), ZeroPad(d.second, 2));
  }

  /** Digit strings of widths 4, 2, 2 and 2, 2, 2 around an underscore. */
  lemma PiecesShape(y: string, mo: string, dd: string, h: string, mi: string, se: string)
    requires |y| == 4 && |mo| == 2 && |dd| == 2 && |h| == 2 && |mi| == 2 && |se| == 2
    requires AllDigits(y) && AllDigits(mo) && AllDigits(dd)
    requires AllDigits(h) && AllDigits(mi) && AllDigits(se)
    ensures var s := y + mo + dd + "_" + h + mi + se;
            && |s| == 15
            && s[8] == '_'
            && forall i :: 0 <= i < 15 && i != 8 ==> '0' <= s[i] <= '9'
  {
    DigitsConcat(y, mo);
    DigitsConcat(y + mo, dd);
    DigitsConcat(h, mi);
    DigitsConcat(h + mi, se);
    var date, time := y + mo + dd, h + mi + se;
    var s := y + mo + dd + "_" + h + mi + se;
    assert s == date + "_" + time;
    forall i | 0 <= i < 15 && i != 8 ensures '0' <= s[i] <= '9' {
      if i < 8 { assert s[i] == date[i]; } else { assert s[i] == time[i - 9]; }
    }
  }

  predicate AllDigits(s: string) {
    forall i :: 0 <= i < |s| ==> '0' <= s[i] <= '9'
  }

  lemma DigitsConcat(a: string, b: string)
    requires AllDigits(a) && AllDigits(b)
    ensures AllDigits(a + b)
  {
    forall i | 0 <= i < |a + b| ensures '0' <= (a + b)[i] <= '9' {
      if i >= |a| { assert (a + b)[i] == b[i - |a|]; }
    }
  }

  function Pow10(w: nat): (p: nat)
    ensures p >= 1
  {
    if w == 0 then 1 else 10 * Pow10(w - 1)
  }

  lemma {:induction false} NatToStringLength(n: nat, w: nat)
    requires w >= 1 && n < Pow10(w)
    ensures |NatToString(n)| <= w
  {
    if n >= 10 {
      assert n / 10 < Pow10(w - 1);
      NatToStringLength(n / 10, w - 1);
    }
  }

  /** A number below `10^w` is padded to exactly `w` digits. */
  lemma ZeroPadExact(n: nat, w: nat)
    requires w >= 1 && n < Pow10(w)
    ensures |ZeroPad(n, w)| == w
  {
    NatToStringLength(n, w);
  }
}
