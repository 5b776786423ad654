/** Calendar dates as Python's `datetime.date` sees them: the proleptic
    Gregorian calendar for years 1 to 9999, the `isoformat` text, the
    `strptime(text, "%Y-%m-%d")` reading, one month of
    `relativedelta(months=1)`, and the two-stage date parse of the
    decision-document extractor. */
module Dates {
  import opened Common
  import opened Text

  datatype Date = Date(year: int, month: int, day: int)

  const MinYear := 1
  const MaxYear := 9999

  predicate IsLeapYear(y: int) {
    y % 4 == 0 && (y % 100 != 0 || y % 400 == 0)
  }

  function DaysInMonth(y: int, m: int): (n: int)
    requires 1 <= m <= 12
    ensures 28 <= n <= 31
  {
    if m == 2 then (if IsLeapYear(y) then 29 else 28)
    else if m == 4 || m == 6 || m == 9 || m == 11 then 30
    else 31
  }

  /** The dates `datetime.date` can represent. */
  predicate ValidDate(d: Date) {
    MinYear <= d.year <= MaxYear && 1 <= d.month <= 12 && 1 <= d.day <= DaysInMonth(d.year, d.month)
  }

  /** Python's `<` on dates. */
  predicate Before(a: Date, b: Date) {
    a.year < b.year || (a.year == b.year && (a.month < b.month || (a.month == b.month && a.day < b.day)))
  }

  // ---------------------------------------------------------------- isoformat

  predicate IsDigit(c: char) {
    '0' <= c <= '9'
  }

  function DigitValue(c: char): (v: int)
    requires IsDigit(c)
    ensures 0 <= v <= 9
  {
    c as int - '0' as int
  }

  function DigitChar(n: int): (c: char)
    requires 0 <= n <= 9
    ensures IsDigit(c) && DigitValue(c) == n
  {
    ('0' as int + n) as char
  }

  /** `%02d` of a number below 100. */
  function Pad2(n: int): (s: string)
    requires 0 <= n <= 99
    ensures |s| == 2
  {
    [DigitChar(n / 10), DigitChar(n % 10)]
  }

  /** The two characters of Pad2(n) are digits that spell n. */
  lemma Pad2Digits(n: int)
    requires 0 <= n <= 99
    ensures IsDigit(Pad2(n)[0]) && IsDigit(Pad2(n)[1])
    ensures 10 * DigitValue(Pad2(n)[0]) + DigitValue(Pad2(n)[1]) == n
  {
  }

  /** `%04d` of a number below 10000. */
  function Pad4(n: int): (s: string)
    requires 0 <= n <= 9999
    ensures |s| == 4
  {
    [DigitChar(n / 1000), DigitChar(n / 100 % 10), DigitChar(n / 10 % 10), DigitChar(n % 10)]
  }

  /** The four characters of Pad4(n) are digits that spell n. */
  lemma Pad4Digits(n: int)
    requires 0 <= n <= 9999
    ensures IsDigit(Pad4(n)[0]) && IsDigit(Pad4(n)[1]) && IsDigit(Pad4(n)[2]) && IsDigit(Pad4(n)[3])
    ensures FourDigitValue(Pad4(n)) == n
  {
    assert n == 10 * (n / 10) + n % 10;
    assert n / 10 == 10 * (n / 100) + n / 10 % 10 by {
      assert n / 10 / 10 == n / 100;
    }
    assert n / 100 == 10 * (n / 1000) + n / 100 % 10 by {
      assert n / 100 / 10 == n / 1000;
    }
  }

  function FourDigitValue(s: string): int
    requires |s| >= 4 && IsDigit(s[0]) && IsDigit(s[1]) && IsDigit(s[2]) && IsDigit(s[3])
  {
    1000 * DigitValue(s[0]) + 100 * DigitValue(s[1]) + 10 * DigitValue(s[2]) + DigitValue(s[3])
  }

  /** `date.isoformat()`: "YYYY-MM-DD" with zero padding. */
  function IsoFormat(d: Date): (s: string)
    requires ValidDate(d)
    ensures |s| == 10 && s[4] == '-' && s[7] == '-'
  {
    Pad4(d.year) + "-" + Pad2(d.month) + "-" + Pad2(d.day)
  }

  // ---------------------------------------------------------------- strptime "%Y-%m-%d"

  /** The `%m` directive of `strptime`: `1[0-2]|0[1-9]|[1-9]`. */
  function MonthDirective(t: string): (r: Option<int>)
    ensures r.Some? ==> 1 <= r.value <= 12
  {
    if |t| == 2 && IsDigit(t[0]) && IsDigit(t[1])
       && ((t[0] == '1' && t[1] <= '2') || (t[0] == '0' && t[1] != '0')) then
      Some(10 * DigitValue(t[0]) + DigitValue(t[1]))
    else if |t| == 1 && '1' <= t[0] <= '9' then Some(DigitValue(t[0]))
    else None
  }

  /** The `%d` directive of `strptime`: `3[01]|[12]\d|0[1-9]|[1-9]| [1-9]`. */
  function DayDirective(t: string): (r: Option<int>)
    ensures r.Some? ==> 1 <= r.value <= 31
  {
    if |t| == 2 && t[0] == ' ' && '1' <= t[1] <= '9' then Some(DigitValue(t[1]))
    else if |t| == 2 && IsDigit(t[0]) && IsDigit(t[1])
       && ((t[0] == '3' && t[1] <= '1') || t[0] == '1' || t[0] == '2' || (t[0] == '0' && t[1] != '0')) then
      Some(10 * DigitValue(t[0]) + DigitValue(t[1]))
    else if |t| == 1 && '1' <= t[0] <= '9' then Some(DigitValue(t[0]))
    else None
  }

  /** `datetime.strptime(text, "%Y-%m-%d").date()`, None where it raises
      ValueError: four digits, '-', a month, '-', a day, nothing after,
      then a year of at least 1 and a day that exists in that month. */
  function StrptimeYmd(text: string): (r: Option<Date>)
    ensures r.Some? ==> ValidDate(r.value)
  {
    if |text| < 5 || !(IsDigit(text[0]) && IsDigit(text[1]) && IsDigit(text[2]) && IsDigit(text[3]))
       || text[4] != '-' then None
    else
      var rest := text[5..];
      if '-' !in rest then None
      else
        var j := IndexOf(rest, '-');
        match (MonthDirective(rest[..j]), DayDirective(rest[j + 1..]))
        case (Some(m), Some(d)) =>
          var y := FourDigitValue(text);
          if MinYear <= y && d <= DaysInMonth(y, m) then Some(Date(y, m, d)) else None
        case _ => None
  }

  /** Reading back what isoformat wrote gives the date back. */
  lemma StrptimeReadsIsoFormat(d: Date)
    requires ValidDate(d)
    ensures StrptimeYmd(IsoFormat(d)) == Some(d)
  {
    var s := IsoFormat(d);
    Pad4Digits(d.year);
    Pad2Digits(d.month);
    Pad2Digits(d.day);
    var rest := s[5..];
    assert rest == Pad2(d.month) + "-" + Pad2(d.day);
    assert IndexOf(rest, '-') == 2;
    assert rest[..2] == Pad2(d.month);
    assert rest[3..] == Pad2(d.day);
    assert s[..4] == Pad4(d.year);
  }

  /** The texts `%m` accepts for month m: its two-digit form, and for a
      month below 10 also the single digit. */
  function MonthTexts(m: int): set<string>
    requires 1 <= m <= 12
  {
    if m < 10 then {Pad2(m), [DigitChar(m)]} else {Pad2(m)}
  }

  /** The texts `%d` accepts for day d: its two-digit form, and for a day
      below 10 also the single digit and the digit after a space. */
  function DayTexts(d: int): set<string>
    requires 1 <= d <= 31
  {
    if d < 10 then {Pad2(d), [DigitChar(d)], [' ', DigitChar(d)]} else {Pad2(d)}
  }

  /** `%m` reads month m from exactly the texts that spell m. */
  lemma MonthSpells(t: string, m: int)
    requires 1 <= m <= 12
    ensures MonthDirective(t) == Some(m) <==> t in MonthTexts(m)
  {
    Pad2Digits(m);
    if |t| == 2 {
      assert t == [t[0], t[1]];
    } else if |t| == 1 {
      assert t == [t[0]];
    }
  }

  /** `%d` reads day d from exactly the texts that spell d. */
  lemma DaySpells(t: string, d: int)
    requires 1 <= d <= 31
    ensures DayDirective(t) == Some(d) <==> t in DayTexts(d)
  {
    Pad2Digits(d);
    if |t| == 2 {
      assert t == [t[0], t[1]];
    } else if |t| == 1 {
      assert t == [t[0]];
    }
  }

  /** Four digits with value y are the text `%04d` writes for y. */
  lemma YearSpells(t: string, y: int)
    requires |t| == 4 && IsDigit(t[0]) && IsDigit(t[1]) && IsDigit(t[2]) && IsDigit(t[3])
    requires FourDigitValue(t) == y
    ensures 0 <= y <= 9999 && t == Pad4(y)
  {
    Pad4Digits(y);
    var p := Pad4(y);
    DigitsUnique(DigitValue(t[0]), DigitValue(t[1]), DigitValue(t[2]), DigitValue(t[3]),
                 DigitValue(p[0]), DigitValue(p[1]), DigitValue(p[2]), DigitValue(p[3]));
    assert t == [t[0], t[1], t[2], t[3]];
  }

  /** Four decimal digits are determined by the number they spell. */
  lemma DigitsUnique(a: int, b: int, c: int, e: int, a': int, b': int, c': int, e': int)
    requires 0 <= a <= 9 && 0 <= b <= 9 && 0 <= c <= 9 && 0 <= e <= 9
    requires 0 <= a' <= 9 && 0 <= b' <= 9 && 0 <= c' <= 9 && 0 <= e' <= 9
    requires 1000 * a + 100 * b + 10 * c + e == 1000 * a' + 100 * b' + 10 * c' + e'
    ensures a == a' && b == b' && c == c' && e == e'
  {
  }

  /** A spelling of a valid date: the year as four digits, '-', the month
      as `%m` accepts it, '-', the day as `%d` accepts it, and nothing
      after. */
  predicate Spells(text: string, d: Date) {
    ValidDate(d) && exists mt, dt :: mt in MonthTexts(d.month) && dt in DayTexts(d.day)
                                     && text == Pad4(d.year) + "-" + mt + "-" + dt
  }

  /** What strptime accepts is a spelling of the date it gives. */
  lemma StrptimeAcceptsSpelling(text: string, d: Date)
    requires StrptimeYmd(text) == Some(d)
    ensures Spells(text, d)
  {
    var rest := text[5..];
    var j := IndexOf(rest, '-');
    var mt, dt := rest[..j], rest[j + 1..];
    MonthSpells(mt, d.month);
    DaySpells(dt, d.day);
    YearSpells(text[..4], d.year);
    assert text == text[..4] + "-" + mt + "-" + dt;
  }

  /** Every spelling of a valid date is read as that date. */
  lemma StrptimeReadsSpelling(text: string, d: Date, mt: string, dt: string)
    requires ValidDate(d) && mt in MonthTexts(d.month) && dt in DayTexts(d.day)
    requires text == Pad4(d.year) + "-" + mt + "-" + dt
    ensures StrptimeYmd(text) == Some(d)
  {
    MonthSpells(mt, d.month);
    DaySpells(dt, d.day);
    Pad4Digits(d.year);
    var rest := text[5..];
    assert rest == mt + "-" + dt;
    assert IndexOf(rest, '-') == |mt|;
    assert rest[..|mt|] == mt && rest[|mt| + 1..] == dt;
  }

  /** strptime accepts a text exactly when it spells a valid date, and then
      gives that date. A day past the end of its month, year 0000 or any
      other text is rejected. */
  lemma StrptimeSpellsDate(text: string, d: Date)
    ensures StrptimeYmd(text) == Some(d) <==> Spells(text, d)
  {
    if StrptimeYmd(text) == Some(d) {
      StrptimeAcceptsSpelling(text, d);
    }
    if Spells(text, d) {
      var mt, dt :| mt in MonthTexts(d.month) && dt in DayTexts(d.day)
                    && text == Pad4(d.year) + "-" + mt + "-" + dt;
      StrptimeReadsSpelling(text, d, mt, dt);
    }
  }

  // ---------------------------------------------------------------- the extractor's date fields

  /** A decision-document date field: None for absent or empty text;
      otherwise the first stage, `datetime.fromisoformat` (given here as
      the opaque partial function `fromIsoFormat`), applied to the text
      with every 'Z' replaced by "+00:00", and if that fails the second
      stage, `strptime` of the first ten characters; None if both fail. */
  function ParseDateField(text: Option<string>, fromIsoFormat: string -> Option<Date>): (r: Option<Date>)
    ensures text.None? || text == Some("") ==> r.None?
    ensures text.Some? && text.value != "" && fromIsoFormat(ReplaceChar(text.value, 'Z', "+00:00")).Some? ==>
              r == fromIsoFormat(ReplaceChar(text.value, 'Z', "+00:00"))
    ensures text.Some? && text.value != "" && fromIsoFormat(ReplaceChar(text.value, 'Z', "+00:00")).None? ==>
              r == StrptimeYmd(Take(text.value, 10))
  {
    if text.None? || text.value == "" then None
    else
      match fromIsoFormat(ReplaceChar(text.value, 'Z', "+00:00"))
      case Some(d) => Some(d)
      case None => StrptimeYmd(Take(text.value, 10))
  }

  /** A field whose text begins with a canonical "YYYY-MM-DD" yields that
      date whenever the first stage either fails or agrees with it: the
      fallback reads exactly the ten-character prefix. */
  lemma DateFieldOfIsoPrefix(d: Date, rest: string, fromIsoFormat: string -> Option<Date>)
    requires ValidDate(d)
    requires fromIsoFormat(ReplaceChar(IsoFormat(d) + rest, 'Z', "+00:00")) in {None, Some(d)}
    ensures ParseDateField(Some(IsoFormat(d) + rest), fromIsoFormat) == Some(d)
  {
    var s := IsoFormat(d) + rest;
    assert Take(s, 10) == IsoFormat(d);
    StrptimeReadsIsoFormat(d);
  }

  /** The timestamp "2025-03-14T00:00:00Z" is dated 14 March 2025,
      whenever `fromisoformat` of it (after the 'Z' replacement) fails or
      gives that same date; what it gives otherwise is not modelled. */
  lemma DecisionDateExample(text: string, fromIsoFormat: string -> Option<Date>)
    requires text == "2025-03-14T00:00:00Z"
    requires fromIsoFormat(ReplaceChar(text, 'Z', "+00:00")) in {None, Some(Date(2025, 3, 14))}
    ensures ParseDateField(Some(text), fromIsoFormat) == Some(Date(2025, 3, 14))
  {
    var d := Date(2025, 3, 14);
    IsoFormatExample();
    assert text == "2025-03-14" + "T00:00:00Z";
    DateFieldOfIsoPrefix(d, "T00:00:00Z", fromIsoFormat);
  }

  lemma IsoFormatExample()
    ensures IsoFormat(Date(2025, 3, 14)) == "2025-03-14"
  {
    assert Pad4(2025) == "2025";
    assert Pad2(3) == "03";
    assert Pad2(14) == "14";
  }

  // ---------------------------------------------------------------- relativedelta(months=1)

  /** The month after (year, month), rolling over into January. */
  function NextMonth(y: int, m: int): (int, int)
    requires 1 <= m <= 12
  {
    if m == 12 then (y + 1, 1) else (y, m + 1)
  }

  /** `d + relativedelta(months=1)`: the same day one month later, cut
      back to the last day of that month when it has fewer days. */
  function AddOneMonth(d: Date): (r: Date)
    requires 1 <= d.month <= 12 && d.day >= 1
    ensures 1 <= r.month <= 12 && 1 <= r.day <= DaysInMonth(r.year, r.month)
    ensures MonthNumber(r.year, r.month) == MonthNumber(d.year, d.month) + 1
    ensures r.day == if d.day <= DaysInMonth(r.year, r.month) then d.day else DaysInMonth(r.year, r.month)
  {
    var (y, m) := NextMonth(d.year, d.month);
    var last := DaysInMonth(y, m);
    Date(y, m, if d.day <= last then d.day else last)
  }

  /** Months counted from January of year 0, so that consecutive months
      have consecutive numbers. */
  function MonthNumber(y: int, m: int): int {
    12 * y + (m - 1)
  }

  /** The first day of the month with the given number. */
  function FirstOfMonth(n: int): (d: Date)
    ensures 1 <= d.month <= 12 && d.day == 1
    ensures MonthNumber(d.year, d.month) == n
  {
    Date(n / 12, n % 12 + 1, 1)
  }

  /** Date order on first days agrees with month numbers. */
  lemma MonthNumberOrder(a: Date, b: Date)
    requires 1 <= a.month <= 12 && 1 <= b.month <= 12
    ensures Before(a, b) <==> MonthNumber(a.year, a.month) < MonthNumber(b.year, b.month)
                              || (MonthNumber(a.year, a.month) == MonthNumber(b.year, b.month) && a.day < b.day)
  {
    if a.year < b.year {
      assert MonthNumber(a.year, a.month) < MonthNumber(b.year, b.month);
    } else if a.year > b.year {
      assert MonthNumber(a.year, a.month) > MonthNumber(b.year, b.month);
    }
  }

  lemma FirstOfMonthValid(n: int)
    requires MonthNumber(MinYear, 1) <= n <= MonthNumber(MaxYear, 12)
    ensures ValidDate(FirstOfMonth(n))
  {
  }
}
