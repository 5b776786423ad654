/** The pure parts of the scraper's orchestration: the blob path of an
    ECLI (`ecli_to_path`), the monthly sitemap windows
    (`generate_monthly_ranges`) and the rows the fetch phase assembles from
    fetched records (`phase2_fetch`). */
module Scraper {
  import opened Common
  import opened Text
  import opened Dates
  import opened Courts
  import opened Uitspraak
  import opened Rows

  // ---------------------------------------------------------------- ecli_to_path

  /** The object path of a stored document: split the ECLI at ':'; with at
      least five parts, folders for parts 1, 2 and 3 (country, court,
      year), otherwise the folder "other"; the file is the ECLI with every
      ':' turned into '_', plus ".xml". */
  function EcliToPath(ecli: string): (path: string)
    ensures StartsWith(path, "rechtspraak/") && EndsWith(path, ".xml")
    ensures ':' !in path
  {
    var parts := Split(ecli, ':');
    var safe := ReplaceChar(ecli, ':', "_");
    ReplaceCharRemoves(ecli, ':', "_");
    if |parts| >= 5 then
      var p := "rechtspraak/" + parts[1] + "/" + parts[2] + "/" + parts[3] + "/" + safe + ".xml";
      assert p[..12] == "rechtspraak/";
      p
    else
      var p := "rechtspraak/other/" + safe + ".xml";
      assert p[..12] == "rechtspraak/";
      p
  }

  /** An ECLI of five or more colon-separated parts goes to the folder of
      its country, court and year, under its parts joined by '_'. */
  lemma PathOfLongEcli(parts: seq<string>)
    requires |parts| >= 5
    requires forall k :: 0 <= k < |parts| ==> ':' !in parts[k]
    ensures EcliToPath(Join(parts, ':'))
            == "rechtspraak/" + parts[1] + "/" + parts[2] + "/" + parts[3] + "/" + Join(parts, '_') + ".xml"
  {
    SplitJoin(parts, ':');
    ReplaceJoin(parts, ':', '_');
  }

  /** An identifier of fewer than five parts goes to the folder "other". */
  lemma PathOfShortEcli(parts: seq<string>)
    requires 1 <= |parts| < 5
    requires forall k :: 0 <= k < |parts| ==> ':' !in parts[k]
    ensures EcliToPath(Join(parts, ':')) == "rechtspraak/other/" + Join(parts, '_') + ".xml"
  {
    SplitJoin(parts, ':');
    ReplaceJoin(parts, ':', '_');
  }

  /** Every identifier falls in exactly one of the two cases: it is the
      join of its own parts, which hold no ':'. */
  lemma PathCases(ecli: string)
    ensures var parts := Split(ecli, ':');
      ecli == Join(parts, ':') && ReplaceChar(ecli, ':', "_") == Join(parts, '_')
  {
    var parts := Split(ecli, ':');
    JoinSplit(ecli, ':');
    ReplaceJoin(parts, ':', '_');
  }

  /** The example of the `ecli_to_path` docstring, "ECLI:NL:HR:2025:123",
      given by its parts. */
  lemma DocstringPath(parts: seq<string>)
    requires parts == ["ECLI", "NL", "HR", "2025", "123"]
    ensures Join(parts, ':') == "ECLI:NL:HR:2025:123"
    ensures EcliToPath(Join(parts, ':')) == "rechtspraak/NL/HR/2025/ECLI_NL_HR_2025_123.xml"
  {
    DocstringJoin(parts, ':');
    DocstringText(Join(parts, ':'), ':', "ECLI:NL:HR:2025:123");
    DocstringPathOfParts(parts);
  }

  /** The parts of the docstring's ECLI, joined with `sep`. */
  lemma DocstringJoin(parts: seq<string>, sep: char)
    requires parts == ["ECLI", "NL", "HR", "2025", "123"]
    ensures Join(parts, sep) == "ECLI" + [sep] + "NL" + [sep] + "HR" + [sep] + "2025" + [sep] + "123"
  {
    JoinFive(parts, sep);
  }

  lemma DocstringPathOfParts(parts: seq<string>)
    requires parts == ["ECLI", "NL", "HR", "2025", "123"]
    ensures EcliToPath(Join(parts, ':')) == "rechtspraak/NL/HR/2025/ECLI_NL_HR_2025_123.xml"
  {
    DocstringJoin(parts, '_');
    DocstringText(Join(parts, '_'), '_', "ECLI_NL_HR_2025_123");
    PathOfLongEcli(parts);
    assert parts[1] == "NL" && parts[2] == "HR" && parts[3] == "2025";
    DocstringPathText("rechtspraak/" + parts[1] + "/" + parts[2] + "/" + parts[3] + "/" + Join(parts, '_') + ".xml");
  }

  /** The join of five parts, written out. */
  lemma JoinFive(parts: seq<string>, sep: char)
    requires |parts| == 5
    ensures Join(parts, sep) == parts[0] + [sep] + parts[1] + [sep] + parts[2] + [sep] + parts[3] + [sep] + parts[4]
  {
    var tail3 := parts[3] + [sep] + parts[4];
    var tail2 := parts[2] + [sep] + tail3;
    var tail1 := parts[1] + [sep] + tail2;
    assert parts[3..][1..] == parts[4..];
    assert Join(parts[3..], sep) == tail3;
    assert parts[2..][1..] == parts[3..];
    assert Join(parts[2..], sep) == tail2;
    assert parts[1..][1..] == parts[2..];
    assert Join(parts[1..], sep) == tail1;
    assert Join(parts, sep) == parts[0] + [sep] + tail1;
  }

  /** Literal texts are compared in lemmas of their own, where the
      solver sees nothing else. */
  lemma DocstringText(t: string, sep: char, expected: string)
    requires t == "ECLI" + [sep] + "NL" + [sep] + "HR" + [sep] + "2025" + [sep] + "123"
    requires expected == "ECLI" + [sep] + "NL" + [sep] + "HR" + [sep] + "2025" + [sep] + "123"
    ensures t == expected
  {
  }

  lemma DocstringPathText(p: string)
    requires p == "rechtspraak/" + "NL" + "/" + "HR" + "/" + "2025" + "/" + "ECLI_NL_HR_2025_123" + ".xml"
    ensures p == "rechtspraak/NL/HR/2025/ECLI_NL_HR_2025_123.xml"
  {
  }

  // ---------------------------------------------------------------- generate_monthly_ranges

  /** The number of the month with which the windows stop: `current`
      takes the first days of months and the loop runs while it is before
      `today + 1 month`, which is the first day of the month after next
      when today is not the first of its month. */
  function WindowEnd(today: Date): int {
    MonthNumber(today.year, today.month) + 1 + (if today.day > 1 then 1 else 0)
  }

  /** The inputs for which `generate_monthly_ranges` raises nothing: a
      representable start date, a representable today, and a last window
      end that is still representable. */
  predicate RangesDefined(startYear: int, today: Date) {
    MinYear <= startYear <= MaxYear && ValidDate(today) && WindowEnd(today) <= MonthNumber(MaxYear, 12)
  }

  /** The window beginning on the first day of month n, as the pair of
      isoformat texts of its first day and of the first day of the next
      month. */
  function Window(n: int): (string, string)
    requires MonthNumber(MinYear, 1) <= n < MonthNumber(MaxYear, 12)
  {
    FirstOfMonthValid(n);
    FirstOfMonthValid(n + 1);
    (IsoFormat(FirstOfMonth(n)), IsoFormat(FirstOfMonth(n + 1)))
  }

  /** The windows of the months s up to e (exclusive), oldest first. */
  function Windows(s: int, e: int): (r: seq<(string, string)>)
    requires MonthNumber(MinYear, 1) <= s && e <= MonthNumber(MaxYear, 12)
    ensures |r| == if s < e then e - s else 0
    decreases e - s
  {
    if e <= s then [] else Windows(s, e - 1) + [Window(e - 1)]
  }

  /** Window k of the list is that of month s + k. */
  lemma {:induction false} WindowsAt(s: int, e: int, k: nat)
    requires MonthNumber(MinYear, 1) <= s && e <= MonthNumber(MaxYear, 12)
    requires k < |Windows(s, e)|
    ensures Windows(s, e)[k] == Window(s + k)
    decreases e - s
  {
    if k < e - 1 - s {
      WindowsAt(s, e - 1, k);
    }
  }

  /** What `generate_monthly_ranges` returns: the windows from January of
      `startYear` up to the month numbered WindowEnd(today). */
  function MonthlyRanges(startYear: int, today: Date): seq<(string, string)>
    requires RangesDefined(startYear, today)
  {
    Windows(MonthNumber(startYear, 1), WindowEnd(today))
  }

  /** A first day of a month is determined by its month number. */
  lemma FirstOfMonthByNumber(d: Date)
    requires 1 <= d.month <= 12 && d.day == 1
    ensures d == FirstOfMonth(MonthNumber(d.year, d.month))
  {
    var n := MonthNumber(d.year, d.month);
    assert n == 12 * d.year + (d.month - 1);
    assert n / 12 == d.year && n % 12 == d.month - 1;
  }

  /** The loop test `current < end` on a first of a month compares month
      numbers with WindowEnd. */
  lemma GuardIsWindowEnd(current: Date, today: Date)
    requires 1 <= current.month <= 12 && current.day == 1 && ValidDate(today)
    ensures Before(current, AddOneMonth(today)) <==> MonthNumber(current.year, current.month) < WindowEnd(today)
  {
    MonthNumberOrder(current, AddOneMonth(today));
  }

  /** The state of the loop after the months s up to n: `current` is the
      first of month n and `ranges` holds the windows of those months. */
  predicate LoopState(s: int, today: Date, n: int, current: Date, ranges: seq<(string, string)>) {
    MonthNumber(MinYear, 1) <= s <= n <= MonthNumber(MaxYear, 12)
    && ValidDate(today) && WindowEnd(today) <= MonthNumber(MaxYear, 12)
    && (n > s ==> n <= WindowEnd(today))
    && current == FirstOfMonth(n) && ranges == Windows(s, n)
  }

  /** The loop of `generate_monthly_ranges`, with today a parameter. */
  method GenerateMonthlyRanges(startYear: int, today: Date) returns (ranges: seq<(string, string)>)
    requires RangesDefined(startYear, today)
    ensures ranges == MonthlyRanges(startYear, today)
  {
    var s := MonthNumber(startYear, 1);
    ranges := [];
    var current := Date(startYear, 1, 1);
    var end := AddOneMonth(today);
    RangesLoopStart(startYear, today);
    ghost var n := s;
    while Before(current, end)
      invariant LoopState(s, today, n, current, ranges)
      decreases WindowEnd(today) - n
    {
      current, ranges, n := NextRange(s, today, n, current, end, ranges);
    }
    RangesLoopDone(s, today, n, current, end, ranges);
  }

  /** The body of the loop: append the window that starts at `current`
      and step to the next first of the month. */
  method NextRange(ghost s: int, today: Date, ghost n: int, current: Date, end: Date, ranges: seq<(string, string)>)
    returns (next: Date, ranges': seq<(string, string)>, ghost n': int)
    requires LoopState(s, today, n, current, ranges) && end == AddOneMonth(today) && Before(current, end)
    ensures n' == n + 1 && n < WindowEnd(today) && LoopState(s, today, n', next, ranges')
    ensures next == AddOneMonth(current) && ranges' == ranges + [(IsoFormat(current), IsoFormat(next))]
  {
    RangesLoopNext(s, today, n, current, end, ranges);
    next := AddOneMonth(current);
    ranges' := ranges + [(IsoFormat(current), IsoFormat(next))];
    n' := n + 1;
  }

  /** The loop starts in the state of no months, on 1 January. */
  lemma RangesLoopStart(startYear: int, today: Date)
    requires RangesDefined(startYear, today)
    ensures LoopState(MonthNumber(startYear, 1), today, MonthNumber(startYear, 1), Date(startYear, 1, 1), [])
  {
    FirstOfMonthByNumber(Date(startYear, 1, 1));
  }

  /** A turn of the loop, taken when `current < end`, appends the window of
      month n and moves to the first of month n + 1. */
  lemma RangesLoopNext(s: int, today: Date, n: int, current: Date, end: Date, ranges: seq<(string, string)>)
    requires LoopState(s, today, n, current, ranges) && end == AddOneMonth(today) && Before(current, end)
    ensures n < WindowEnd(today) && ValidDate(current) && ValidDate(AddOneMonth(current))
    ensures LoopState(s, today, n + 1, AddOneMonth(current),
                      ranges + [(IsoFormat(current), IsoFormat(AddOneMonth(current)))])
  {
    RangesLoopTest(n, current, today, end);
    RangesLoopStep(s, n, current, today);
  }

  /** When `current < end` fails, the months up to the window end are done. */
  lemma RangesLoopDone(s: int, today: Date, n: int, current: Date, end: Date, ranges: seq<(string, string)>)
    requires LoopState(s, today, n, current, ranges) && end == AddOneMonth(today) && !Before(current, end)
    ensures ranges == Windows(s, WindowEnd(today))
  {
    RangesLoopTest(n, current, today, end);
    var w := WindowEnd(today);
    if n == s {
      assert Windows(s, w) == [] == ranges;
    } else {
      assert n == w;
    }
  }

  /** One turn of the loop: from the first of month n it moves to the first
      of month n + 1 and appends the window of month n. */
  lemma RangesLoopStep(s: int, n: int, current: Date, today: Date)
    requires MonthNumber(MinYear, 1) <= s <= n < WindowEnd(today) <= MonthNumber(MaxYear, 12)
    requires current == FirstOfMonth(n)
    ensures AddOneMonth(current) == FirstOfMonth(n + 1)
    ensures ValidDate(current) && ValidDate(AddOneMonth(current))
    ensures Windows(s, n + 1) == Windows(s, n) + [(IsoFormat(current), IsoFormat(AddOneMonth(current)))]
  {
    NextFirstOfMonth(n);
    FirstOfMonthValid(n);
    FirstOfMonthValid(n + 1);
  }

  /** The loop test `current < end`, on the first of month n, is the test
      n < WindowEnd(today). */
  lemma RangesLoopTest(n: int, current: Date, today: Date, end: Date)
    requires ValidDate(today) && end == AddOneMonth(today) && current == FirstOfMonth(n)
    ensures Before(current, end) <==> n < WindowEnd(today)
  {
    GuardIsWindowEnd(current, today);
  }

  // ---------------------------------------------------------------- properties of the windows

  /** No window at all exactly when January of the start year is not
      before `today + 1 month`. */
  lemma RangesEmptyIff(startYear: int, today: Date)
    requires RangesDefined(startYear, today)
    ensures MonthlyRanges(startYear, today) == [] <==> !Before(Date(startYear, 1, 1), AddOneMonth(today))
  {
    GuardIsWindowEnd(Date(startYear, 1, 1), today);
  }

  /** The first window starts on 1 January of the start year. */
  lemma FirstRangeStartsInJanuary(startYear: int, today: Date)
    requires RangesDefined(startYear, today) && MonthlyRanges(startYear, today) != []
    ensures MonthlyRanges(startYear, today)[0].0 == IsoFormat(Date(startYear, 1, 1))
  {
    var s := MonthNumber(startYear, 1);
    FirstWindowStarts(s, WindowEnd(today));
    FirstOfMonthByNumber(Date(startYear, 1, 1));
  }

  /** The first of the windows s up to w starts on the first of month s. */
  lemma FirstWindowStarts(s: int, w: int)
    requires MonthNumber(MinYear, 1) <= s < w <= MonthNumber(MaxYear, 12)
    ensures Windows(s, w)[0].0 == IsoFormat(FirstOfMonth(s))
  {
    WindowsAt(s, w, 0);
  }

  /** Consecutive windows meet: each ends where the next begins. */
  lemma RangesChain(startYear: int, today: Date, k: nat)
    requires RangesDefined(startYear, today) && k + 1 < |MonthlyRanges(startYear, today)|
    ensures MonthlyRanges(startYear, today)[k].1 == MonthlyRanges(startYear, today)[k + 1].0
  {
    WindowsChain(MonthNumber(startYear, 1), WindowEnd(today), k);
  }

  lemma WindowsChain(s: int, e: int, k: nat)
    requires MonthNumber(MinYear, 1) <= s && e <= MonthNumber(MaxYear, 12)
    requires k + 1 < |Windows(s, e)|
    ensures Windows(s, e)[k].1 == Windows(s, e)[k + 1].0
  {
    WindowsAt(s, e, k);
    WindowsAt(s, e, k + 1);
  }

  /** Each window is one calendar month: both ends read back as dates, the
      start is a first of a month and the end is one month later. */
  lemma RangeIsOneMonth(startYear: int, today: Date, k: nat)
    requires RangesDefined(startYear, today) && k < |MonthlyRanges(startYear, today)|
    ensures var w := MonthlyRanges(startYear, today)[k];
      StrptimeYmd(w.0).Some? && StrptimeYmd(w.0).value.day == 1
      && StrptimeYmd(w.1) == Some(AddOneMonth(StrptimeYmd(w.0).value))
  {
    var n, r := MonthNumber(startYear, 1) + k, MonthlyRanges(startYear, today);
    WindowsAt(MonthNumber(startYear, 1), WindowEnd(today), k);
    assert r[k] == Window(n);
    WindowIsOneMonth(n);
    WindowReadsBack(r[k], FirstOfMonth(n));
  }

  /** A window whose ends read back as a first of a month and the date one
      month later starts on a first and ends one month after its start. */
  lemma WindowReadsBack(w: (string, string), first: Date)
    requires first.day == 1 && 1 <= first.month <= 12
    requires StrptimeYmd(w.0) == Some(first) && StrptimeYmd(w.1) == Some(AddOneMonth(first))
    ensures StrptimeYmd(w.0).Some? && StrptimeYmd(w.0).value.day == 1
    ensures StrptimeYmd(w.1) == Some(AddOneMonth(StrptimeYmd(w.0).value))
  {
  }

  /** The texts of window n read back as the first of month n and the
      date one month later. */
  lemma WindowIsOneMonth(n: int)
    requires MonthNumber(MinYear, 1) <= n < MonthNumber(MaxYear, 12)
    ensures StrptimeYmd(Window(n).0) == Some(FirstOfMonth(n))
    ensures StrptimeYmd(Window(n).1) == Some(AddOneMonth(FirstOfMonth(n)))
  {
    FirstOfMonthValid(n);
    FirstOfMonthValid(n + 1);
    ReadsBack(FirstOfMonth(n), Window(n).0);
    ReadsBack(FirstOfMonth(n + 1), Window(n).1);
    NextFirstOfMonth(n);
  }

  lemma ReadsBack(d: Date, text: string)
    requires ValidDate(d) && text == IsoFormat(d)
    ensures StrptimeYmd(text) == Some(d)
  {
    StrptimeReadsIsoFormat(d);
  }

  /** One month after the first of month n is the first of month n + 1. */
  lemma NextFirstOfMonth(n: int)
    ensures AddOneMonth(FirstOfMonth(n)) == FirstOfMonth(n + 1)
  {
    FirstOfMonthByNumber(AddOneMonth(FirstOfMonth(n)));
  }

  /** Every window starts before `today + 1 month`. */
  lemma RangesStartBeforeEnd(startYear: int, today: Date)
    requires RangesDefined(startYear, today)
    ensures var r := MonthlyRanges(startYear, today);
      forall k :: 0 <= k < |r| ==> StrptimeYmd(r[k].0).Some? && Before(StrptimeYmd(r[k].0).value, AddOneMonth(today))
  {
    var r, s := MonthlyRanges(startYear, today), MonthNumber(startYear, 1);
    forall k | 0 <= k < |r|
      ensures StrptimeYmd(r[k].0).Some? && Before(StrptimeYmd(r[k].0).value, AddOneMonth(today))
    {
      WindowStartReads(s, today, k);
      WindowStartBeforeEnd(s, today, k);
    }
  }

  /** The last window ends on or after `today + 1 month`. */
  lemma LastRangeReachesEnd(startYear: int, today: Date)
    requires RangesDefined(startYear, today) && MonthlyRanges(startYear, today) != []
    ensures var r := MonthlyRanges(startYear, today);
      StrptimeYmd(r[|r| - 1].1).Some? && !Before(StrptimeYmd(r[|r| - 1].1).value, AddOneMonth(today))
  {
    var s, w := MonthNumber(startYear, 1), WindowEnd(today);
    LastWindowReads(s, w);
    FirstOfMonthByNumber(FirstOfMonth(w));
    GuardIsWindowEnd(FirstOfMonth(w), today);
  }

  /** The last of the windows s up to w ends on the first of month w. */
  lemma LastWindowReads(s: int, w: int)
    requires MonthNumber(MinYear, 1) <= s < w <= MonthNumber(MaxYear, 12)
    ensures StrptimeYmd(Windows(s, w)[w - s - 1].1) == Some(FirstOfMonth(w))
  {
    LastWindowIs(s, w);
    WindowEndReads(w - 1);
  }

  /** The last of the windows s up to w is that of month w - 1. */
  lemma LastWindowIs(s: int, w: int)
    requires MonthNumber(MinYear, 1) <= s < w <= MonthNumber(MaxYear, 12)
    ensures Windows(s, w)[w - s - 1] == Window(w - 1)
  {
    var prev := Windows(s, w - 1);
    assert Windows(s, w) == prev + [Window(w - 1)];
    assert |prev| == w - s - 1;
  }

  /** The window of month n ends on the first of month n + 1. */
  lemma WindowEndReads(n: int)
    requires MonthNumber(MinYear, 1) <= n < MonthNumber(MaxYear, 12)
    ensures StrptimeYmd(Window(n).1) == Some(FirstOfMonth(n + 1))
  {
    WindowIsOneMonth(n);
    NextFirstOfMonth(n);
  }

  lemma WindowStartReads(s: int, today: Date, k: nat)
    requires MonthNumber(MinYear, 1) <= s && ValidDate(today) && WindowEnd(today) <= MonthNumber(MaxYear, 12)
    requires k < |Windows(s, WindowEnd(today))|
    ensures StrptimeYmd(Windows(s, WindowEnd(today))[k].0) == Some(FirstOfMonth(s + k))
  {
    WindowsAt(s, WindowEnd(today), k);
    WindowIsOneMonth(s + k);
  }

  lemma WindowStartBeforeEnd(s: int, today: Date, k: nat)
    requires MonthNumber(MinYear, 1) <= s && ValidDate(today) && WindowEnd(today) <= MonthNumber(MaxYear, 12)
    requires k < |Windows(s, WindowEnd(today))|
    ensures Before(FirstOfMonth(s + k), AddOneMonth(today))
  {
    GuardIsWindowEnd(FirstOfMonth(s + k), today);
  }

  /** When today is not the first of its month, the last window is the
      whole month after the current one: it starts after today. */
  lemma LastRangeAfterToday(startYear: int, today: Date)
    requires RangesDefined(startYear, today) && today.day > 1
    requires MonthNumber(startYear, 1) <= MonthNumber(today.year, today.month)
    ensures var r := MonthlyRanges(startYear, today);
      r != [] && StrptimeYmd(r[|r| - 1].0).Some? && Before(today, StrptimeYmd(r[|r| - 1].0).value)
  {
    var s := MonthNumber(startYear, 1);
    var r := MonthlyRanges(startYear, today);
    var last := MonthNumber(today.year, today.month) + 1;
    assert |r| - 1 == last - s;
    WindowStartReads(s, today, |r| - 1);
    MonthNumberOrder(today, FirstOfMonth(last));
  }

  // ---------------------------------------------------------------- phase-2 rows

  const ContentUrl := "https://data.rechtspraak.nl/uitspraken/content"

  /** The column list of the fetch phase's insert. */
  const InsertColumns: seq<string> := [
    "ecli", "case_number", "decision_date", "publication_date",
    "court", "court_type", "procedure_type", "subject_area",
    "summary", "content_url", "xml_path", "related_eclis", "scraped_at"
  ]

  /** What `fetch_uitspraak` and the clock gave for one pending ECLI: the
      parsed record (None on an HTTP error or a malformed document), the
      stored XML path (None when nothing was stored) and the time. */
  datatype Fetched = Fetched(ecli: string, data: Option<DecisionRecord>, xmlPath: Option<string>, scrapedAt: int)

  /** The row tuple built for a fetched record, in InsertColumns order,
      with the `or` defaults of the fetch loop. */
  function UitspraakRow(queried: string, data: DecisionRecord, xmlPath: Option<string>, now: int): seq<Value> {
    [ Str(OrElse(data.ecli, Some(queried)).value),
      OptStr(data.caseNumber),
      OptDay(data.decisionDate),
      OptDay(data.publicationDate),
      Str(if data.court != "" then data.court else "Unknown"),
      Str(if data.courtType.Code() != "" then data.courtType.Code() else "OTHER"),
      OptStr(data.procedureType),
      OptStr(data.subjectArea),
      OptStr(data.summary),
      Str(ContentUrl + "?id=" + queried),
      OptStr(xmlPath),
      Strs(data.relatedEclis),
      Time(now) ]
  }

  lemma InsertColumnsDistinct()
    ensures |InsertColumns| == 13
    ensures forall i, j :: 0 <= i < j < |InsertColumns| ==> InsertColumns[i] != InsertColumns[j]
  {
  }

  /** Read by column name, a phase-2 row holds: the record's ECLI, or the
      queried one when the record has none; its case number and both
      dates; the court, or "Unknown"; the court-type code, or "OTHER"; its
      procedure type, subject area and summary; the content URL of the
      queried ECLI; the stored path; the related ECLIs; and the time. */
  lemma UitspraakRowColumns(queried: string, data: DecisionRecord, xmlPath: Option<string>, now: int)
    ensures var row := UitspraakRow(queried, data, xmlPath, now);
      |row| == |InsertColumns|
      && Lookup(InsertColumns, row, "ecli")
         == Some(Str(if data.ecli.Some? && data.ecli.value != "" then data.ecli.value else queried))
      && Lookup(InsertColumns, row, "case_number") == Some(OptStr(data.caseNumber))
      && Lookup(InsertColumns, row, "decision_date") == Some(OptDay(data.decisionDate))
      && Lookup(InsertColumns, row, "publication_date") == Some(OptDay(data.publicationDate))
      && Lookup(InsertColumns, row, "court") == Some(Str(if data.court != "" then data.court else "Unknown"))
      && Lookup(InsertColumns, row, "court_type")
         == Some(Str(if data.courtType.Code() != "" then data.courtType.Code() else "OTHER"))
      && Lookup(InsertColumns, row, "procedure_type") == Some(OptStr(data.procedureType))
      && Lookup(InsertColumns, row, "subject_area") == Some(OptStr(data.subjectArea))
      && Lookup(InsertColumns, row, "summary") == Some(OptStr(data.summary))
      && Lookup(InsertColumns, row, "content_url") == Some(Str(ContentUrl + "?id=" + queried))
      && Lookup(InsertColumns, row, "xml_path") == Some(OptStr(xmlPath))
      && Lookup(InsertColumns, row, "related_eclis") == Some(Strs(data.relatedEclis))
      && Lookup(InsertColumns, row, "scraped_at") == Some(Time(now))
  {
    var row := UitspraakRow(queried, data, xmlPath, now);
    InsertColumnsDistinct();
    LookupAt(InsertColumns, row, 0);
    LookupAt(InsertColumns, row, 1);
    LookupAt(InsertColumns, row, 2);
    LookupAt(InsertColumns, row, 3);
    LookupAt(InsertColumns, row, 4);
    LookupAt(InsertColumns, row, 5);
    LookupAt(InsertColumns, row, 6);
    LookupAt(InsertColumns, row, 7);
    LookupAt(InsertColumns, row, 8);
    LookupAt(InsertColumns, row, 9);
    LookupAt(InsertColumns, row, 10);
    LookupAt(InsertColumns, row, 11);
    LookupAt(InsertColumns, row, 12);
  }

  /** For a record the extractor produced, the court and court-type
      defaults never apply: the row holds the record's court and the code
      of its type. */
  lemma ExtractedRowKeepsCourt(queried: string, input: XmlInput, fromIsoFormat: string -> Option<Date>,
                               xmlPath: Option<string>, now: int)
    requires input.WellFormed?
    ensures var data := Extract(input, fromIsoFormat).value; var row := UitspraakRow(queried, data, xmlPath, now);
      row[4] == Str(data.court) && row[5] == Str(data.courtType.Code())
  {
    var data := Extract(input, fromIsoFormat).value;
    RowKeepsCourt(queried, data, xmlPath, now);
  }

  /** A record with a non-empty court keeps its court and court type in
      the row: the type code is never empty. */
  lemma RowKeepsCourt(queried: string, data: DecisionRecord, xmlPath: Option<string>, now: int)
    requires data.court != ""
    ensures UitspraakRow(queried, data, xmlPath, now)[4] == Str(data.court)
    ensures UitspraakRow(queried, data, xmlPath, now)[5] == Str(data.courtType.Code())
  {
  }

  /** The row one fetched ECLI contributes: one exactly when a record was
      parsed. */
  function RowFor(f: Fetched): (r: Option<seq<Value>>)
    ensures r.Some? <==> f.data.Some?
    ensures r.Some? ==> |r.value| == |InsertColumns| && r.value[9] == Str(ContentUrl + "?id=" + f.ecli)
  {
    if f.data.Some? then Some(UitspraakRow(f.ecli, f.data.value, f.xmlPath, f.scrapedAt)) else None
  }

  /** The inner loop of `phase2_fetch` over one batch: a row for every
      fetched record, in the order of the batch. */
  method BuildRows(batch: seq<Fetched>) returns (rows: seq<seq<Value>>)
    ensures rows == Select(batch, RowFor)
    ensures forall k :: 0 <= k < |rows| ==> |rows[k]| == |InsertColumns|
  {
    rows := [];
    var i := 0;
    while i < |batch|
      invariant 0 <= i <= |batch|
      invariant rows == Select(batch[..i], RowFor)
    {
      SelectStep(batch, RowFor, i);
      var f := batch[i];
      if f.data.Some? {
        rows := rows + [UitspraakRow(f.ecli, f.data.value, f.xmlPath, f.scrapedAt)];
      }
      i := i + 1;
    }
    assert batch[..i] == batch;
    forall k | 0 <= k < |rows|
      ensures |rows[k]| == |InsertColumns|
    {
      SelectMember(batch, RowFor, k);
    }
  }

  /** The rows of a batch are those of the fetched records, in order: row
      k belongs to batch entry KeptIndices[k], and an entry is skipped
      exactly when it has no record. */
  lemma RowsFollowBatch(batch: seq<Fetched>)
    ensures var rows, idx := Select(batch, RowFor), KeptIndices(batch, RowFor);
      |idx| == |rows|
      && (forall k :: 0 <= k < |idx| ==>
             idx[k] < |batch| && batch[idx[k]].data.Some?
             && rows[k] == UitspraakRow(batch[idx[k]].ecli, batch[idx[k]].data.value,
                                        batch[idx[k]].xmlPath, batch[idx[k]].scrapedAt))
      && (forall k, l :: 0 <= k < l < |idx| ==> idx[k] < idx[l])
      && (forall i :: 0 <= i < |batch| ==> (batch[i].data.Some? <==> i in idx))
  {
    SelectIsSubsequence(batch, RowFor);
  }
}
