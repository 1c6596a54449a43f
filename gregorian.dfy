/** Python's `datetime.date` in the proleptic Gregorian calendar: the
    validity check that `date(y, m, d)` performs, comparison, day counts
    (`toordinal` and `(a - b).days`), `isoformat()`, and the two parsers the
    backend uses on date strings: `datetime.strptime(s, "%Y-%m-%d")` and
    `date.fromisoformat(s)`. */
module Gregorian {
  import opened Common
  import opened Strings

  const MinYear := 1
  const MaxYear := 9999

  predicate IsLeapYear(y: int) {
    y % 4 == 0 && (y % 100 != 0 || y % 400 == 0)
  }

  function DaysInMonth(y: int, m: int): (n: int)
    requires 1 <= m <= 12
    ensures 28 <= n <= 31
  {
    if m == 2 then (if IsLeapYear(y) then 29 else 28)
    else if m == 4 || m == 6 || m == 9 || m == 11 then 30
    else 31
  }

  datatype Date = Date(year: int, month: int, day: int)
  {
    /** The dates `date(year, month, day)` accepts; every other triple makes
        it raise ValueError. */
    predicate Valid() {
      MinYear <= year <= MaxYear && 1 <= month <= 12 && 1 <= day <= DaysInMonth(year, month)
    }
  }

  /** `date(y, m, d)`: None where Python raises ValueError. */
  function MakeDate(y: int, m: int, d: int): (r: Option<Date>)
    ensures r.Some? <==> MinYear <= y <= MaxYear && 1 <= m <= 12 && 1 <= d <= DaysInMonth(y, m)
    ensures r.Some? ==> r.value.Valid() && r.value.year == y && r.value.month == m && r.value.day == d
  {
    if Date(y, m, d).Valid() then Some(Date(y, m, d)) else None
  }

  /** February 29 exists exactly in leap years. */
  lemma Feb29Exists(y: int)
    requires MinYear <= y <= MaxYear
    ensures MakeDate(y, 2, 29).Some? <==> IsLeapYear(y)
  {
  }

  /** `a < b` on dates: lexicographic on (year, month, day). */
  predicate Less(a: Date, b: Date) {
    a.year < b.year
    || (a.year == b.year && a.month < b.month)
    || (a.year == b.year && a.month == b.month && a.day < b.day)
  }

  predicate LessEq(a: Date, b: Date) {
    a == b || Less(a, b)
  }

  // ---------------------------------------------------------------------
  // Day numbers

  /** Days in the months before month `m` of year `y`. */
  function DaysBeforeMonth(y: int, m: int): nat
    requires 1 <= m <= 13
  {
    if m == 1 then 0 else DaysBeforeMonth(y, m - 1) + DaysInMonth(y, m - 1)
  }

  function YearLength(y: int): nat {
    DaysBeforeMonth(y, 13)
  }

  lemma YearLengthValue(y: int)
    ensures YearLength(y) == if IsLeapYear(y) then 366 else 365
  {
    var feb := DaysInMonth(y, 2);
    assert DaysBeforeMonth(y, 2) == 31;
    assert DaysBeforeMonth(y, 3) == 31 + feb;
    assert DaysBeforeMonth(y, 4) == 62 + feb;
    assert DaysBeforeMonth(y, 5) == 92 + feb;
    assert DaysBeforeMonth(y, 6) == 123 + feb;
    assert DaysBeforeMonth(y, 7) == 153 + feb;
    assert DaysBeforeMonth(y, 8) == 184 + feb;
    assert DaysBeforeMonth(y, 9) == 215 + feb;
    assert DaysBeforeMonth(y, 10) == 245 + feb;
    assert DaysBeforeMonth(y, 11) == 276 + feb;
    assert DaysBeforeMonth(y, 12) == 306 + feb;
    assert DaysBeforeMonth(y, 13) == 337 + feb;
  }

  lemma DivSteps(p: int)
    requires p >= 0
    ensures (p + 1) / 4 == p / 4 + (if (p + 1) % 4 == 0 then 1 else 0)
    ensures (p + 1) / 100 == p / 100 + (if (p + 1) % 100 == 0 then 1 else 0)
    ensures (p + 1) / 400 == p / 400 + (if (p + 1) % 400 == 0 then 1 else 0)
  {
  }

  /** Days in the years before year `y` (year 1 starts the count). */
  function DaysBeforeYear(y: int): nat
    requires y >= 1
  {
    if y == 1 then 0 else DaysBeforeYear(y - 1) + YearLength(y - 1)
  }

  /** Python's `_days_before_year(y)` with `n == y - 1`. */
  function ClosedDaysBeforeYear(n: int): int {
    n * 365 + n / 4 - n / 100 + n / 400
  }

  lemma ClosedStep(q: int)
    requires q >= 1
    ensures ClosedDaysBeforeYear(q) == ClosedDaysBeforeYear(q - 1) + YearLength(q)
  {
    DivSteps(q - 1);
    YearLengthValue(q);
    assert (q % 400 == 0) ==> (q % 100 == 0) && (q % 4 == 0);
    assert (q % 100 == 0) ==> (q % 4 == 0);
  }

  /** The count agrees with the closed formula Python's `datetime` uses. */
  lemma {:induction false} DaysBeforeYearFormula(y: int)
    requires y >= 1
    ensures DaysBeforeYear(y) == ClosedDaysBeforeYear(y - 1)
  {
    if y > 1 {
      DaysBeforeYearFormula(y - 1);
      ClosedStep(y - 1);
    } else {
      assert ClosedDaysBeforeYear(0) == 0;
    }
  }

  /** `d.toordinal()`: January 1 of year 1 is day 1. */
  function Ordinal(d: Date): (n: int)
    requires d.Valid()
    ensures n >= d.day >= 1
    ensures d.year == MinYear && d.month == 1 ==> n == d.day
  {
    DaysBeforeYear(d.year) + DaysBeforeMonth(d.year, d.month) + d.day
  }

  /** `(a - b).days`: zero for the same date, positive exactly when `b`
      comes first. */
  function DaysBetween(a: Date, b: Date): (n: int)
    requires a.Valid() && b.Valid()
    ensures n == 0 <==> a == b
    ensures n > 0 <==> Less(b, a)
  {
    OrdinalOrder(b, a);
    OrdinalOrder(a, b);
    Ordinal(a) - Ordinal(b)
  }

  lemma {:induction false} DaysBeforeMonthGrows(y: int, m1: int, m2: int)
    requires 1 <= m1 < m2 <= 13
    ensures DaysBeforeMonth(y, m1) + DaysInMonth(y, m1) <= DaysBeforeMonth(y, m2)
  {
    if m2 > m1 + 1 {
      DaysBeforeMonthGrows(y, m1, m2 - 1);
    }
  }

  lemma {:induction false} DaysBeforeYearGrows(y1: int, y2: int)
    requires 1 <= y1 < y2
    ensures DaysBeforeYear(y1) + YearLength(y1) <= DaysBeforeYear(y2)
  {
    if y2 > y1 + 1 {
      DaysBeforeYearGrows(y1, y2 - 1);
    }
  }

  lemma LessOrdinal(a: Date, b: Date)
    requires a.Valid() && b.Valid() && Less(a, b)
    ensures Ordinal(a) < Ordinal(b)
  {
    if a.year < b.year {
      if a.month < 12 {
        DaysBeforeMonthGrows(a.year, a.month, 13);
      }
      DaysBeforeYearGrows(a.year, b.year);
    } else if a.month < b.month {
      DaysBeforeMonthGrows(a.year, a.month, b.month);
    }
  }

  /** Day numbers order dates exactly as date comparison does. */
  lemma OrdinalOrder(a: Date, b: Date)
    requires a.Valid() && b.Valid()
    ensures Less(a, b) <==> Ordinal(a) < Ordinal(b)
    ensures a == b <==> Ordinal(a) == Ordinal(b)
  {
    if Less(a, b) {
      LessOrdinal(a, b);
    } else if a != b {
      LessOrdinal(b, a);
    }
  }

  /** Two days of one month are as many days apart as their day numbers. */
  lemma DaysBetweenSameMonth(a: Date, b: Date)
    requires a.Valid() && b.Valid() && a.year == b.year && a.month == b.month
    ensures DaysBetween(b, a) == b.day - a.day
  {
  }

  // ---------------------------------------------------------------------
  // ISO text

  /** `d.isoformat()`: `YYYY-MM-DD`, zero-padded. */
  function IsoFormat(d: Date): (s: string)
    requires d.Valid()
    ensures |s| == 10
  {
    PaddedDigits(d.year, 4) + "-" + PaddedDigits(d.month, 2) + "-" + PaddedDigits(d.day, 2)
  }

  /** Comparing ISO strings with `<` is comparing the dates. */
  lemma IsoFormatOrder(a: Date, b: Date)
    requires a.Valid() && b.Valid()
    ensures StrLess(IsoFormat(a), IsoFormat(b)) <==> Less(a, b)
  {
    assert Pow10(4) == 10000 && Pow10(2) == 100;
    var ya, ma, da := PaddedDigits(a.year, 4), PaddedDigits(a.month, 2), PaddedDigits(a.day, 2);
    var yb, mb, db := PaddedDigits(b.year, 4), PaddedDigits(b.month, 2), PaddedDigits(b.day, 2);
    assert IsoFormat(a) == ya + ("-" + (ma + ("-" + da)));
    assert IsoFormat(b) == yb + ("-" + (mb + ("-" + db)));
    StrLessConcat(ya, "-" + (ma + ("-" + da)), yb, "-" + (mb + ("-" + db)));
    StrLessConcat("-", ma + ("-" + da), "-", mb + ("-" + db));
    StrLessConcat(ma, "-" + da, mb, "-" + db);
    StrLessConcat("-", da, "-", db);
    StrLessIrreflexive("-");
    PaddedDigitsOrder(a.year, b.year, 4);
    PaddedDigitsOrder(a.month, b.month, 2);
    PaddedDigitsOrder(a.day, b.day, 2);
    PaddedDigitsValue(a.year, 4);
    PaddedDigitsValue(b.year, 4);
    PaddedDigitsValue(a.month, 2);
    PaddedDigitsValue(b.month, 2);
  }

  // ---------------------------------------------------------------------
  // Parsing

  predicate InRange(c: char, lo: char, hi: char) { lo <= c <= hi }

  /** The `%m` field of strptime: the regular expression `1[0-2]|0[1-9]|[1-9]`
      followed by the literal `-`. Yields the month and the number of
      characters it used. Once a two-character alternative matched, the
      one-character alternative cannot be followed by `-`, so the regular
      expression's backtracking never picks a different month. */
  function MonthField(t: string): Option<(int, nat)> {
    if |t| >= 3 && t[2] == '-' && t[0] == '1' && InRange(t[1], '0', '2') then Some((10 + DigitValue(t[1]), 2))
    else if |t| >= 3 && t[2] == '-' && t[0] == '0' && InRange(t[1], '1', '9') then Some((DigitValue(t[1]), 2))
    else if |t| >= 2 && t[1] == '-' && InRange(t[0], '1', '9') then Some((DigitValue(t[0]), 1))
    else None
  }

  /** The `%d` field of strptime, `3[01]|[12]\d|0[1-9]|[1-9]| [1-9]`, at the
      end of the text: the first alternative that matches is taken, and any
      text left after it is "unconverted data" (an error). */
  function DayField(t: string): Option<int> {
    var m :=
      if |t| >= 2 && t[0] == '3' && InRange(t[1], '0', '1') then Some((30 + DigitValue(t[1]), 2))
      else if |t| >= 2 && InRange(t[0], '1', '2') && IsDigit(t[1]) then Some((10 * DigitValue(t[0]) + DigitValue(t[1]), 2))
      else if |t| >= 2 && t[0] == '0' && InRange(t[1], '1', '9') then Some((DigitValue(t[1]), 2))
      else if |t| >= 1 && InRange(t[0], '1', '9') then Some((DigitValue(t[0]), 1))
      else if |t| >= 2 && t[0] == ' ' && InRange(t[1], '1', '9') then Some((DigitValue(t[1]), 2))
      else None;
    if m.Some? && m.value.1 == |t| then Some(m.value.0) else None
  }

  /** `datetime.strptime(s, "%Y-%m-%d").date()`; None where it raises
      ValueError (no match, unconverted data, or no such date). `%Y` is
      exactly four digits. */
  function StrptimeYmd(s: string): (r: Option<Date>)
    ensures r.Some? ==> r.value.Valid()
  {
    if |s| < 5 || !AllDigits(s[..4]) || s[4] != '-' then None
    else
      var rest := s[5..];
      match MonthField(rest)
      case None => None
      case Some((month, used)) =>
        match DayField(rest[used + 1..])
        case None => None
        case Some(day) => MakeDate(DigitsValue(s[..4]), month, day)
  }

  /** `date.fromisoformat(s)` for the extended form `YYYY-MM-DD`: a text
      it accepts is exactly what `isoformat()` prints for the date. */
  function FromIsoFormat(s: string): (r: Option<Date>)
    ensures r.Some? ==> r.value.Valid() && IsoFormat(r.value) == s
  {
    if |s| == 10 && AllDigits(s[..4]) && s[4] == '-' && AllDigits(s[5..7]) && s[7] == '-' && AllDigits(s[8..])
    then
      var r := MakeDate(DigitsValue(s[..4]), DigitsValue(s[5..7]), DigitsValue(s[8..]));
      IsoFormatOfFields(s, r);
      r
    else None
  }

  /** The fields of a `YYYY-MM-DD` text print back as that text. */
  lemma IsoFormatOfFields(s: string, r: Option<Date>)
    requires |s| == 10 && AllDigits(s[..4]) && s[4] == '-' && AllDigits(s[5..7]) && s[7] == '-' && AllDigits(s[8..])
    requires r == MakeDate(DigitsValue(s[..4]), DigitsValue(s[5..7]), DigitsValue(s[8..]))
    ensures r.Some? ==> IsoFormat(r.value) == s
  {
    if r.Some? {
      DigitsPadded(s[..4]);
      DigitsPadded(s[5..7]);
      DigitsPadded(s[8..]);
      assert s == s[..4] + "-" + s[5..7] + "-" + s[8..];
    }
  }

  lemma TwoDigits(n: nat)
    requires n < 100
    ensures PaddedDigits(n, 2) == [DigitChar(n / 10), DigitChar(n % 10)]
    ensures DigitValue(PaddedDigits(n, 2)[0]) == n / 10
    ensures DigitValue(PaddedDigits(n, 2)[1]) == n % 10
  {
    var h, l := n / 10, n % 10;
    assert h < 10 && h % 10 == h && h / 10 == 0;
    assert PaddedDigits(h, 1) == PaddedDigits(0, 0) + [DigitChar(h)];
    assert PaddedDigits(n, 2) == PaddedDigits(h, 1) + [DigitChar(l)];
  }

  lemma IsoLayout(y: string, m: string, dd: string)
    requires |y| == 4 && |m| == 2
    ensures (y + "-" + m + "-" + dd)[..4] == y
    ensures (y + "-" + m + "-" + dd)[4] == '-'
    ensures (y + "-" + m + "-" + dd)[5..] == m + "-" + dd
    ensures (m + "-" + dd)[3..] == dd
  {
    var s := y + "-" + m + "-" + dd;
    assert s == y + ("-" + m + "-" + dd);
    assert (y + "-" + m + "-" + dd)[5..] == m + "-" + dd;
  }

  lemma MonthFieldPadded(month: int, dd: string)
    requires 1 <= month <= 12
    ensures MonthField(PaddedDigits(month, 2) + "-" + dd) == Some((month, 2))
  {
    TwoDigits(month);
  }

  lemma DayFieldPadded(day: int)
    requires 1 <= day <= 31
    ensures DayField(PaddedDigits(day, 2)) == Some(day)
  {
    TwoDigits(day);
  }

  /** Every date printed by `isoformat()` parses back to itself. */
  lemma StrptimeIsoRoundTrip(d: Date)
    requires d.Valid()
    ensures StrptimeYmd(IsoFormat(d)) == Some(d)
  {
    var y, m, dd := PaddedDigits(d.year, 4), PaddedDigits(d.month, 2), PaddedDigits(d.day, 2);
    assert IsoFormat(d) == y + "-" + m + "-" + dd;
    IsoLayout(y, m, dd);
    assert Pow10(4) == 10000;
    PaddedDigitsValue(d.year, 4);
    MonthFieldPadded(d.month, dd);
    DayFieldPadded(d.day);
  }

  lemma FromIsoFormatRoundTrip(d: Date)
    requires d.Valid()
    ensures FromIsoFormat(IsoFormat(d)) == Some(d)
  {
    var s := IsoFormat(d);
    var y, m, dd := PaddedDigits(d.year, 4), PaddedDigits(d.month, 2), PaddedDigits(d.day, 2);
    assert s == y + "-" + m + "-" + dd;
    assert s[..4] == y && s[5..7] == m && s[8..] == dd;
    assert Pow10(4) == 10000 && Pow10(2) == 100;
    PaddedDigitsValue(d.year, 4);
    PaddedDigitsValue(d.month, 2);
    PaddedDigitsValue(d.day, 2);
  }

  lemma DigitsValue2024()
    ensures AllDigits("2024") && DigitsValue("2024") == 2024
  {
    assert "2024"[..3] == "202" && "202"[..2] == "20" && "20"[..1] == "2" && "2"[..0] == "";
  }

  /** strptime also takes one-digit months and days, and a space before a
      one-digit day. */
  lemma StrptimeLenient()
    ensures StrptimeYmd("2024-1-5") == Some(Date(2024, 1, 5))
    ensures StrptimeYmd("2024-02- 9") == Some(Date(2024, 2, 9))
  {
    DigitsValue2024();
    assert "2024-1-5"[..4] == "2024" && "2024-1-5"[5..] == "1-5" && "1-5"[2..] == "5";
    assert "2024-02- 9"[..4] == "2024" && "2024-02- 9"[5..] == "02- 9" && "02- 9"[3..] == " 9";
  }

  /** strptime refuses days that do not exist. */
  lemma StrptimeRejects()
    ensures StrptimeYmd("2023-02-29") == None
    ensures StrptimeYmd("2024-01-32") == None
  {
    assert "2023-02-29"[5..] == "02-29" && "02-29"[3..] == "29";
    assert "2024-01-32"[5..] == "01-32" && "01-32"[3..] == "32";
  }
}
