/**
 * Calendar dates as the standard library's `datetime.strptime`,
 * `date.fromisoformat` and `date.isoformat` treat them.  `strptime` compiles
 * its format into a regular expression whose fields are
 *   %Y  four digits,
 *   %m  `1[0-2]|0[1-9]|[1-9]`,
 *   %d  `3[01]|[12]\d|0[1-9]|[1-9]| [1-9]`,
 * requires the match to cover the whole text and then builds a `date`, which
 * rejects year 0 and days beyond the end of the month.  Because no field
 * can contain the separator, the text splits at the separators first.
 */
module Dates {
  import opened Py

  datatype Date = Date(year: int, month: int, day: int)

  predicate IsLeap(y: int)
  {
    y % 4 == 0 && (y % 100 != 0 || y % 400 == 0)
  }

  function DaysIn(y: int, m: int): (n: int)
    requires 1 <= m <= 12
    ensures 28 <= n <= 31
    ensures n == 31 <==> m in {1, 3, 5, 7, 8, 10, 12}
    ensures n == 28 <==> m == 2 && !IsLeap(y)
  {
    if m == 2 then (if IsLeap(y) then 29 else 28)
    else if m in {4, 6, 9, 11} then 30
    else 31
  }

  /** The dates `datetime.date` can represent (MINYEAR 1 to MAXYEAR 9999). */
  predicate ValidDate(d: Date)
  {
    1 <= d.year <= 9999 && 1 <= d.month <= 12 && 1 <= d.day <= DaysIn(d.year, d.month)
  }

  /** Python's ordering of `date` values. */
  predicate DateLe(a: Date, b: Date)
  {
    a.year < b.year || (a.year == b.year && (a.month < b.month || (a.month == b.month && a.day <= b.day)))
  }

  // -------------------------------------------------------------- ordinals

  /** Days in the years before `y` (the proleptic Gregorian calendar). */
  function DaysBeforeYear(y: int): int
    requires y >= 1
  {
    var z := y - 1;
    z * 365 + z / 4 - z / 100 + z / 400
  }

  /** Days in the months of year `y` before month `m`. */
  function DaysBeforeMonth(y: int, m: int): int
    requires 1 <= m <= 12
    decreases m
  {
    if m == 1 then 0 else DaysBeforeMonth(y, m - 1) + DaysIn(y, m - 1)
  }

  /** `d.toordinal()`: 0001-01-01 is day 1. */
  function Ordinal(d: Date): (n: int)
    requires ValidDate(d)
    ensures n >= 1
  {
    DaysBeforeYear(d.year) + DaysBeforeMonth(d.year, d.month) + d.day
  }

  lemma {:induction false} DaysBeforeMonthGrows(y: int, m: int, n: int)
    requires 1 <= m <= n <= 12
    ensures DaysBeforeMonth(y, m) + (if m < n then DaysIn(y, m) else 0) <= DaysBeforeMonth(y, n)
    decreases n - m
  {
    if m < n - 1 {
      DaysBeforeMonthGrows(y, m, n - 1);
    }
  }

  /** A year has 365 days, one more in a leap year. */
  lemma YearLength(y: int)
    requires y >= 1
    ensures DaysBeforeYear(y + 1) == DaysBeforeYear(y) + (if IsLeap(y) then 366 else 365)
    ensures DaysBeforeMonth(y, 12) + DaysIn(y, 12) == if IsLeap(y) then 366 else 365
  {
    var z := y - 1;
    assert (z + 1) / 4 == z / 4 + (if y % 4 == 0 then 1 else 0);
    assert (z + 1) / 100 == z / 100 + (if y % 100 == 0 then 1 else 0);
    assert (z + 1) / 400 == z / 400 + (if y % 400 == 0 then 1 else 0);
  }

  lemma {:induction false} DaysBeforeYearGrows(y: int, w: int)
    requires 1 <= y < w
    ensures DaysBeforeYear(y) + (if IsLeap(y) then 366 else 365) <= DaysBeforeYear(w)
    decreases w - y
  {
    YearLength(y);
    if y + 1 < w {
      DaysBeforeYearGrows(y + 1, w);
    }
  }

  /** Earlier dates have smaller ordinals, so comparing ordinals compares dates. */
  lemma OrdinalOrder(a: Date, b: Date)
    requires ValidDate(a) && ValidDate(b)
    ensures DateLe(a, b) <==> Ordinal(a) <= Ordinal(b)
    ensures a == b <==> Ordinal(a) == Ordinal(b)
  {
    if a != b {
      if DateLe(a, b) {
        OrdinalBelow(a, b);
      } else {
        OrdinalBelow(b, a);
      }
    }
  }

  lemma OrdinalBelow(a: Date, b: Date)
    requires ValidDate(a) && ValidDate(b) && DateLe(a, b) && a != b
    ensures Ordinal(a) < Ordinal(b)
  {
    if a.year < b.year {
      OrdinalBelowYear(a, b);
    } else if a.month < b.month {
      DaysBeforeMonthGrows(a.year, a.month, b.month);
    }
  }

  lemma OrdinalBelowYear(a: Date, b: Date)
    requires ValidDate(a) && ValidDate(b) && a.year < b.year
    ensures Ordinal(a) < Ordinal(b)
  {
    var y := a.year;
    var len := if IsLeap(y) then 366 else 365;
    DaysBeforeMonthGrows(y, a.month, 12);
    assert DaysBeforeMonth(y, a.month) + a.day <= DaysBeforeMonth(y, 12) + DaysIn(y, 12);
    YearLength(y);
    assert Ordinal(a) <= DaysBeforeYear(y) + len;
    DaysBeforeYearGrows(y, b.year);
  }

  // ------------------------------------------------------------ the fields

  /** `%Y`: exactly four ASCII digits. */
  function YearField(seg: string): (r: Option<int>)
    ensures r.Some? <==> |seg| == 4 && AllDigits(seg)
    ensures r.Some? ==> 0 <= r.value <= 9999
  {
    if |seg| == 4 && AllDigits(seg) then Some(Digits4(seg)) else None
  }

  function Digits4(seg: string): (n: int)
    requires |seg| == 4 && AllDigits(seg)
    ensures 0 <= n <= 9999
  {
    Digits2(seg[..2]) * 100 + Digits2(seg[2..])
  }

  function Digits2(seg: string): (n: int)
    requires |seg| == 2 && AllDigits(seg)
    ensures 0 <= n <= 99
  {
    DigitValue(seg[0]) * 10 + DigitValue(seg[1])
  }

  /** `%m`: `1[0-2]|0[1-9]|[1-9]`. */
  function MonthField(seg: string): (r: Option<int>)
    ensures r.Some? ==> 1 <= r.value <= 12
  {
    if |seg| == 1 && '1' <= seg[0] <= '9' then Some(DigitValue(seg[0]))
    else if |seg| == 2 && seg[0] == '0' && '1' <= seg[1] <= '9' then Some(DigitValue(seg[1]))
    else if |seg| == 2 && seg[0] == '1' && '0' <= seg[1] <= '2' then Some(10 + DigitValue(seg[1]))
    else None
  }

  /** `%d`: `3[01]|[12]\d|0[1-9]|[1-9]| [1-9]`; a leading space is allowed. */
  function DayField(seg: string): (r: Option<int>)
    ensures r.Some? ==> 1 <= r.value <= 31
  {
    if |seg| == 1 && '1' <= seg[0] <= '9' then Some(DigitValue(seg[0]))
    else if |seg| == 2 && (seg[0] == '0' || seg[0] == ' ') && '1' <= seg[1] <= '9' then Some(DigitValue(seg[1]))
    else if |seg| == 2 && (seg[0] == '1' || seg[0] == '2') && IsDigit(seg[1]) then
      Some(DigitValue(seg[0]) * 10 + DigitValue(seg[1]))
    else if |seg| == 2 && seg[0] == '3' && (seg[1] == '0' || seg[1] == '1') then Some(30 + DigitValue(seg[1]))
    else None
  }

  /** `date(y, m, d)` from three parsed fields; `None` stands for the ValueError. */
  function MakeDate(y: Option<int>, m: Option<int>, d: Option<int>): (r: Option<Date>)
    ensures r.Some? <==> y.Some? && m.Some? && d.Some? && ValidDate(Date(y.value, m.value, d.value))
    ensures r.Some? ==> r.value == Date(y.value, m.value, d.value)
  {
    if y.Some? && m.Some? && d.Some? && ValidDate(Date(y.value, m.value, d.value)) then
      Some(Date(y.value, m.value, d.value))
    else None
  }

  /** The three separator-free parts of `a<sep>b<sep>c`. */
  function Split3(text: string, sep: char): (r: Option<(string, string, string)>)
    ensures r.Some? ==> text == r.value.0 + [sep] + r.value.1 + [sep] + r.value.2
    ensures r.Some? ==> sep !in r.value.0 && sep !in r.value.1 && sep !in r.value.2
  {
    match SplitFirst(text, sep)
    case None => None
    case Some(p) =>
      match SplitFirst(p.1, sep)
      case None => None
      case Some(q) => if sep in q.1 then None else Some((p.0, q.0, q.1))
  }

  // ------------------------------------------------------------- parsers

  /** `datetime.strptime(text, "%Y<sep>%m<sep>%d").date()`. */
  function StrptimeYmd(text: string, sep: char): (r: Option<Date>)
    ensures r.Some? ==> ValidDate(r.value)
  {
    match Split3(text, sep)
    case None => None
    case Some(parts) => MakeDate(YearField(parts.0), MonthField(parts.1), DayField(parts.2))
  }

  /** `datetime.strptime(text, "%d<sep>%m<sep>%Y").date()`. */
  function StrptimeDmy(text: string, sep: char): (r: Option<Date>)
    ensures r.Some? ==> ValidDate(r.value)
  {
    match Split3(text, sep)
    case None => None
    case Some(parts) => MakeDate(YearField(parts.2), MonthField(parts.1), DayField(parts.0))
  }

  /** `date.fromisoformat(text)` on the ten-character `YYYY-MM-DD` form. */
  function FromIsoFormat(text: string): (r: Option<Date>)
    ensures r.Some? ==> ValidDate(r.value) && IsoFormat(r.value) == text
  {
    if |text| == 10 && text[4] == '-' && text[7] == '-' && AllDigits(text[..4])
       && IsDigit(text[5]) && IsDigit(text[6]) && IsDigit(text[8]) && IsDigit(text[9])
    then
      var d := Date(Digits4(text[..4]), DigitValue(text[5]) * 10 + DigitValue(text[6]),
                    DigitValue(text[8]) * 10 + DigitValue(text[9]));
      if ValidDate(d) then
        IsoFormatOfFields(text);
        Some(d)
      else None
    else None
  }

  // ------------------------------------------------------------ formatting

  function Pad2(n: int): (r: string)
    requires 0 <= n <= 99
    ensures |r| == 2 && AllDigits(r)
    ensures Digits2(r) == n
  {
    [DigitChar(n / 10), DigitChar(n % 10)]
  }

  function Pad4(n: int): (r: string)
    requires 0 <= n <= 9999
    ensures |r| == 4 && AllDigits(r) && Digits4(r) == n
  {
    var r := Pad2(n / 100) + Pad2(n % 100);
    assert r[..2] == Pad2(n / 100) && r[2..] == Pad2(n % 100);
    r
  }

  /** `d.isoformat()`: `%04d-%02d-%02d`. */
  function IsoFormat(d: Date): (r: string)
    requires ValidDate(d)
    ensures |r| == 10 && r[4] == '-' && r[7] == '-'
    ensures r[..4] == Pad4(d.year) && r[5..7] == Pad2(d.month) && r[8..] == Pad2(d.day)
  {
    Pad4(d.year) + "-" + Pad2(d.month) + "-" + Pad2(d.day)
  }

  lemma Pad2Of(s: string)
    requires |s| == 2 && AllDigits(s)
    ensures Pad2(Digits2(s)) == s
  {
  }

  lemma Pad4Of(s: string)
    requires |s| == 4 && AllDigits(s)
    ensures Pad4(Digits4(s)) == s
  {
    var h, l := Digits2(s[..2]), Digits2(s[2..]);
    assert (h * 100 + l) / 100 == h && (h * 100 + l) % 100 == l;
    Pad2Of(s[..2]);
    Pad2Of(s[2..]);
    assert s == s[..2] + s[2..];
  }

  /** A text `fromisoformat` accepts is already the canonical spelling. */
  lemma IsoFormatOfFields(text: string)
    requires |text| == 10 && text[4] == '-' && text[7] == '-' && AllDigits(text[..4])
    requires IsDigit(text[5]) && IsDigit(text[6]) && IsDigit(text[8]) && IsDigit(text[9])
    requires ValidDate(Date(Digits4(text[..4]), DigitValue(text[5]) * 10 + DigitValue(text[6]),
                            DigitValue(text[8]) * 10 + DigitValue(text[9])))
    ensures IsoFormat(Date(Digits4(text[..4]), DigitValue(text[5]) * 10 + DigitValue(text[6]),
                           DigitValue(text[8]) * 10 + DigitValue(text[9]))) == text
  {
    Pad4Of(text[..4]);
    Pad2Of(text[5..7]);
    Pad2Of(text[8..]);
    var r := IsoFormat(Date(Digits4(text[..4]), DigitValue(text[5]) * 10 + DigitValue(text[6]),
                            DigitValue(text[8]) * 10 + DigitValue(text[9])));
    assert r == text[..4] + "-" + text[5..7] + "-" + text[8..];
    assert text == text[..4] + "-" + text[5..7] + "-" + text[8..];
  }

  // -------------------------------------------------------------- round trips

  /** `date.fromisoformat(d.isoformat()) == d`. */
  lemma FromIsoFormatOfIsoFormat(d: Date)
    requires ValidDate(d)
    ensures FromIsoFormat(IsoFormat(d)) == Some(d)
  {
    var t := IsoFormat(d);
    assert t[..4] == Pad4(d.year);
    assert [t[5], t[6]] == Pad2(d.month) && [t[8], t[9]] == Pad2(d.day);
  }

  /** `strptime(d.isoformat(), "%Y-%m-%d").date() == d`. */
  lemma StrptimeYmdOfIsoFormat(d: Date)
    requires ValidDate(d)
    ensures StrptimeYmd(IsoFormat(d), '-') == Some(d)
  {
    var t := IsoFormat(d);
    var y, m, dd := Pad4(d.year), Pad2(d.month), Pad2(d.day);
    assert t == y + "-" + m + "-" + dd;
    assert SplitFirst(t, '-') == Some((y, m + "-" + dd)) by {
      SplitFirstAt(t, '-', y, m + "-" + dd);
    }
    SplitFirstAt(m + "-" + dd, '-', m, dd);
    assert Split3(t, '-') == Some((y, m, dd));
    MonthFieldOfPad2(d.month);
    DayFieldOfPad2(d.day);
  }

  /** Three separator-free parts joined by the separator split back into themselves. */
  lemma Split3Of(a: string, b: string, c: string, sep: char)
    requires sep !in a && sep !in b && sep !in c
    ensures Split3(a + [sep] + b + [sep] + c, sep) == Some((a, b, c))
  {
    var t := a + [sep] + b + [sep] + c;
    assert t == a + [sep] + (b + [sep] + c);
    SplitFirstAt(t, sep, a, b + [sep] + c);
    SplitFirstAt(b + [sep] + c, sep, b, c);
  }

  /** `%m` reads back a zero-padded month. */
  lemma MonthFieldOfPad2(n: int)
    requires 1 <= n <= 12
    ensures MonthField(Pad2(n)) == Some(n)
  {
  }

  /** `%d` reads back a zero-padded day. */
  lemma DayFieldOfPad2(n: int)
    requires 1 <= n <= 31
    ensures DayField(Pad2(n)) == Some(n)
  {
  }

  lemma {:induction false} SplitFirstAt(s: string, c: char, a: string, b: string)
    requires s == a + [c] + b && c !in a
    ensures SplitFirst(s, c) == Some((a, b))
  {
    if a == [] {
      assert s[0] == c && s[1..] == b;
    } else {
      assert s[0] == a[0] && s[1..] == a[1..] + [c] + b;
      SplitFirstAt(s[1..], c, a[1..], b);
      assert [a[0]] + a[1..] == a;
    }
  }
}
