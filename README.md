# rechtspraak-scraper, modelled in Dafny

The rechtspraak scraper collects Dutch court decisions published by
rechtspraak.nl. It works in two phases:

- Phase 1 walks monthly sitemap windows and finds the ECLI (European Case
  Law Identifier) in every listed location.
- Phase 2 downloads each pending decision, parses its XML metadata into a
  decision record, files the raw document under a path derived from the
  ECLI, and builds database rows.

A separate backfill script goes back over stored records that have no XML
path. It downloads and files their documents and re-inserts their rows with
the path filled in.

This project models the logic of those three scripts. It proves what that
logic guarantees.

The modules mirror the program:

- `Common`: `Option`, and `Select`, the filter-and-append that every
  "loop, test, append" of the scripts builds. It comes with its
  order-preservation, concatenation and membership lemmas.
- `Text`: the Python string operations the code relies on, each modelled
  for this code:
  - `str.lower` on the characters that matter here;
  - `strip` of white space, and `split` on a single separator character;
  - `replace`, `startswith` and `in` on strings.

  It also defines two tools of the model that the code does not call:
  `Join`, the inverse of `split`, used to state the path properties, and
  `EndsWith`, used to state the ".xml" suffix.
- `Courts`: `extract_court_type`, the ordered substring cascade from court
  names to court-type codes.
- `Dates`: calendar dates, `date.isoformat`, and `strptime(…, "%Y-%m-%d")`.
  The latter follows CPython's directive patterns: a 4-digit year, a
  1- or 2-digit month, and a 1- or 2-digit or space-padded (" 5") day;
  the date must be valid.
  - It also covers the two-step date parsing of `parse_uitspraak`, and
    `relativedelta(months=1)` with its clamping of the day.
- `Sitemap`: `parse_sitemap` over the already-parsed `<url>` elements. It
  includes a model of `re.search(r"id=(ECLI:[^&]+)", loc)`: the leftmost
  match and the greedy group.
- `Uitspraak`: `parse_uitspraak` over a document given as its sequence of
  elements, in document order:
  - the `find`/`findall` lookups;
  - the `or` fallbacks;
  - the summary;
  - the related-ECLI loop;
  - the malformed-document case.
- `Rows`: row tuples, matched to column-name lists by position.
- `Scraper` (`src/main.py`):
  - `ecli_to_path`;
  - the `generate_monthly_ranges` loop;
  - the rows `phase2_fetch` builds from fetched records.
- `Backfill` (`src/backfill.py`):
  - its copy of `ecli_to_path`;
  - the rebuilt rows;
  - the `processed`/`success`/`failed` bookkeeping;
  - the outer batch loop.

Outside inputs become parameters:

- the clock (`date.today()`, `datetime.now`);
- the results of HTTP downloads and object-store uploads;
- the rows the database queries return;
- `datetime.fromisoformat`, which is a function parameter
  `fromIsoFormat: string -> Option<Date>`, so every result holds whatever
  that function does.

## Model

| member | source | states |
|---|---|---|
| Courts.ExtractCourtType | src/parser.py:128-147 | with `Text.Contains` as Python's `in`, the court type is the first entry of the needle table whose needle occurs in the lower-cased name |
| Courts.CascadeInOrder | src/parser.py:132-147 | the table lookup is exactly the if/elif chain: hoge raad, gerechtshof, rechtbank, raad van state, centrale raad van beroep, college van beroep, raad voor de rechtspraak, else OTHER |
| Courts.FirstMatchAt | src/parser.py:132-147 | when needle k is the first that occurs, the cascade answers entry k's type |
| Courts.FirstMatchCases | src/parser.py:132-147 | the cascade answers OTHER exactly when no needle occurs; otherwise some needle occurs and no earlier one does |
| Courts.CourtCodeInVocabulary | src/parser.py:128-147 | the returned code is one of HR, HOF, RB, RVS, CRVB, CBB, RVR, OTHER, and is never empty |
| Courts.CourtTypeByPriority | src/parser.py:132-147 | a name whose first occurring needle is entry k gets entry k's type |
| Courts.CourtTypeOtherIffNoNeedle | src/parser.py:146-147 | OTHER is returned if and only if no needle occurs in the lower-cased name |
| Courts.HogeRaadAlwaysWins | src/parser.py:132-133 | a name containing "hoge raad" in any case is HR, whatever else it contains |
| Courts.GerechtshofBeforeRechtbank | src/parser.py:134-137 | a name with both "gerechtshof" and "rechtbank" (and no "hoge raad") is HOF |
| Courts.CourtTypeIgnoresCase | src/parser.py:130 | lower-casing the name first changes nothing |
| Courts.UnknownCourtIsOther | src/parser.py:88-89 | the fallback court name "Unknown" is classified OTHER |
| Courts.EveryCourtTypeReachable | src/parser.py:132-147 | every court type is the answer for some name, so no branch is dead |
| Courts.ReachingNameClassified | src/parser.py:132-147 | each type's own needle (or "Unknown" for OTHER) is classified as that type |
| Courts.ReachingCentraleRaad | src/parser.py:140-141 | "centrale raad van beroep" is CRVB: it does not contain "raad van state" |
| Courts.ReachingCollege | src/parser.py:142-143 | "college van beroep" is CBB |
| Courts.ReachingRaadVoorDeRechtspraak | src/parser.py:144-145 | "raad voor de rechtspraak" is RVR |
| Courts.Reach | src/parser.py:132-147 | a needle that misses a character of every earlier needle is classified by its own entry |
| Text.Lower | src/parser.py:130 | lower-casing keeps the length and leaves no upper-case ASCII letter |
| Text.LowerIdempotent | src/parser.py:130 | lower-casing twice is lower-casing once |
| Text.LowerOfLower | src/parser.py:130 | a text without upper-case letters is its own lower case |
| Text.Strip | src/parser.py:105 | the result is a slice of the input, with only white space cut off either side and no white space at its ends |
| Text.Split | src/main.py:124 | `split(":")` yields at least one part and no part holds the separator |
| Text.JoinSplit | src/main.py:124 | joining the parts of a split with the separator gives back the text |
| Text.SplitJoin | src/main.py:124-125 | splitting a join of separator-free parts gives back the parts |
| Text.SplitCount | src/main.py:125 | the number of parts is one more than the number of separators |
| Text.ReplaceCharRemoves | src/main.py:129 | of `Text.ReplaceChar`, Python's `replace`: after replacing ':' by "_" no ':' is left |
| Text.ReplaceCharUnchanged | src/main.py:129 | a text without ':' is unchanged by the replacement |
| Text.ReplaceJoin | src/main.py:129 | replacing the separator of a join is joining with the replacement |
| Text.Take | src/parser.py:72 | `s[:10]` has length min(len, 10) and is a prefix of s |
| Dates.DaysInMonth | src/parser.py:72 | the month lengths of the proleptic Gregorian calendar, between 28 and 31 |
| Dates.DigitChar | src/main.py:91 | the digit written for n is a digit whose value is n |
| Dates.Pad2Digits | src/main.py:91 | the two-digit field of isoformat spells the number |
| Dates.Pad4Digits | src/main.py:91 | the four-digit year field of isoformat spells the year |
| Dates.IsoFormat | src/main.py:91 | isoformat is ten characters with dashes at positions 4 and 7 |
| Dates.StrptimeYmd | src/parser.py:72 | strptime accepts only valid calendar dates; which texts it accepts and what it reads is stated by `Dates.StrptimeSpellsDate` |
| Dates.MonthSpells | src/parser.py:72 | `%m` reads month m from exactly its two-digit form and, below 10, its single digit |
| Dates.DaySpells | src/parser.py:72 | `%d` reads day d from exactly its two-digit form and, below 10, its single digit with or without a leading space |
| Dates.YearSpells | src/parser.py:72 | four digits are the `%04d` text of the year they spell |
| Dates.StrptimeAcceptsSpelling | src/parser.py:72 | a text strptime accepts spells the date it gives |
| Dates.StrptimeReadsSpelling | src/parser.py:72 | every spelling of a valid date is read as that date |
| Dates.StrptimeSpellsDate | src/parser.py:72 | strptime gives date d exactly when the text spells d, which must be valid: a day past its month's end, year 0000 or any other text is rejected |
| Dates.StrptimeReadsIsoFormat | src/parser.py:72 | strptime "%Y-%m-%d" reads back every date isoformat writes |
| Dates.ParseDateField | src/parser.py:66-84 | no date without a non-empty text; fromisoformat of the text with Z as +00:00 wins; otherwise strptime of its first ten characters, or None |
| Dates.DateFieldOfIsoPrefix | src/parser.py:66-74 | a text that starts with a date's isoformat parses to that date whenever `fromisoformat` fails on it or gives that same date |
| Dates.DecisionDateExample | src/parser.py:66-74 | "2025-03-14T00:00:00Z" parses to 14 March 2025 whenever `fromisoformat` fails on it or gives that same date |
| Dates.IsoFormatExample | src/main.py:91 | 14 March 2025 is written "2025-03-14" |
| Dates.AddOneMonth | src/main.py:87-90 | adding one month moves to the next month and keeps the day, clamped to that month's length |
| Dates.FirstOfMonth | src/main.py:86-92 | the first of the month with a given month number |
| Dates.MonthNumberOrder | src/main.py:89 | Python date order is the order of month numbers, then of days within the same month |
| Dates.FirstOfMonthValid | src/main.py:86-92 | every first of a month in the supported years is a valid date |
| Sitemap.GroupEnd | src/parser.py:29 | the greedy `[^&]+` stops at the first '&' or at the end |
| Sitemap.Leftmost | src/parser.py:29-30 | the scan inside `re.search`: the first position at or after the start where the pattern matches, or None when it matches nowhere after it |
| Sitemap.SearchEcli | src/parser.py:29-30 | search finds a match exactly when one exists, and returns the group of the leftmost match |
| Sitemap.MatchShape | src/parser.py:29-32 | a found ECLI starts with "ECLI:", is longer than that, holds no '&' and occurs in the location |
| Sitemap.EntryOf | src/parser.py:23-35 | a url element yields an entry exactly when its location is present, non-empty and matches; the entry copies the location and lastmod |
| Sitemap.ParseSitemap | src/parser.py:17-37 | the entries are those of the url elements that yield one, in order, each with an ECLI-shaped id taken from its url |
| Sitemap.EntriesWellFormed | src/parser.py:29-35 | every entry's ECLI starts with "ECLI:", holds no '&' and occurs in its url |
| Sitemap.SitemapKeepsOrder | src/parser.py:22-37 | the entries are an order-preserving subsequence of the url elements, skipping exactly those that yield nothing |
| Sitemap.DroppedWithoutMatch | src/parser.py:27-30 | a missing or empty location, or one without a match, gives no entry |
| Sitemap.SearchAfterPrefix | src/parser.py:28-29 | in "…id=ECLI:…" with no '=' before, the ECLI runs up to the next '&' or the end |
| Sitemap.EntryOfFound | src/parser.py:27-35 | a non-empty location with a match yields the entry of the group `re.search` returns, with the lastmod and the location |
| Sitemap.EntryAfterPrefix | src/parser.py:27-35 | a location "…id=ECLI:…" with no '=' before "id=" yields the entry whose ECLI runs up to the next '&' or the end |
| Sitemap.DetailsUrlExample | src/parser.py:28-35 | the details URL with a trailing parameter gives "ECLI:NL:HR:2025:1" |
| Uitspraak.Find | src/parser.py:48 | `find` gives None exactly when no element has the tag, and otherwise an element with that tag |
| Uitspraak.FirstIndex | src/parser.py:48 | the position found is the first with the tag |
| Uitspraak.GetTextFirstOnly | src/parser.py:47-49 | of `Uitspraak.GetText`: get_text looks only at the first element with the tag: its text if non-empty, else None |
| Uitspraak.GetTextCases | src/parser.py:47-49 | get_text never returns the empty string; None means no element or an empty first one |
| Uitspraak.OrElse | src/parser.py:60 | Python `a or b`: a when a is a non-empty string, b otherwise |
| Uitspraak.EcliFallback | src/parser.py:60 | the ECLI is the identifier text when there is one, else the rs:ecli text |
| Uitspraak.ProcedureFallback | src/parser.py:92 | the procedure is the dcterms:type text, else the psi:procedure text |
| Uitspraak.CaseNumberFirstNonEmpty | src/parser.py:51-53 | of `Uitspraak.GetAllText` and `Uitspraak.Record`: the case number is the first zaaknummer text that is non-empty |
| Uitspraak.CaseNumberAbsent | src/parser.py:96-99 | with no non-empty zaaknummer text there is no case number |
| Uitspraak.UnknownCourtWithoutCreator | src/parser.py:87-89 | without a creator the court is "Unknown" and of type OTHER |
| Uitspraak.CourtFromCreator | src/parser.py:87-88 | with a creator the court is its text |
| Uitspraak.NoDatesWithoutDateElements | src/parser.py:63-84 | without date elements both dates are None |
| Uitspraak.DecisionDateFromPrefix | src/parser.py:63-74 | a dcterms:date text that starts with a date's isoformat gives that decision date whenever `fromisoformat` fails on it or gives that same date |
| Uitspraak.DecisionDateFallback | src/parser.py:63-74 | of `Uitspraak.Record`: the decision date is parsed from the dcterms:date text when there is one, and otherwise from the rs:datum text |
| Uitspraak.UnparsableDateNoFallback | src/parser.py:63-74 | a dcterms:date text that neither parse stage reads gives no decision date, whatever rs:datum holds |
| Uitspraak.IssuedAndSubjectWithoutFallback | src/parser.py:64-93 | the publication date is parsed from the dcterms:issued text alone and the subject area is the dcterms:subject text alone; without those texts both are None |
| Uitspraak.RelatedRef | src/parser.py:109-112 | with `Text.StartsWith` as Python's `startswith`, a relation contributes its rdf:resource exactly when that attribute exists and starts with "ECLI:" |
| Uitspraak.CollectRelated | src/parser.py:107-112 | the related list is the qualifying references in document order, each starting with "ECLI:" |
| Uitspraak.RelatedIsOrderedFilter | src/parser.py:107-112 | related ECLIs are an order-preserving subsequence of the relation elements, keeping exactly those with an ECLI reference |
| Uitspraak.SummaryStripped | src/parser.py:101-105 | of `Uitspraak.Summary`: the summary exists exactly when the element does, and is its text with tail, stripped of surrounding white space only |
| Uitspraak.Extract | src/parser.py:40-125 | a malformed document gives None; otherwise the court is never empty, its type is that of the court, and every related ECLI starts with "ECLI:" |
| Uitspraak.ParseUitspraak | src/parser.py:40-125 | the method computes the extraction function |
| Rows.ColumnIndex | src/main.py:263-266 | the index of a column name is its first position in the column list |
| Rows.LookupAt | src/main.py:263-266 | with distinct column names, column names[k] holds row[k] |
| Rows.ColumnIndexOfSharedPrefix | src/backfill.py:187-191 | two column lists with a common prefix place those names alike |
| Scraper.EcliToPath | src/main.py:119-133 | the path starts with "rechtspraak/", ends with ".xml" and holds no ':' |
| Scraper.PathOfLongEcli | src/main.py:124-130 | five or more parts give rechtspraak/part1/part2/part3/parts-joined-by-'_'.xml |
| Scraper.PathOfShortEcli | src/main.py:131-133 | fewer than five parts give rechtspraak/other/parts-joined-by-'_'.xml |
| Scraper.PathCases | src/main.py:124-133 | every identifier is the join of its parts, and its safe name is their join with '_' |
| Scraper.DocstringPath | src/main.py:120-123 | ECLI:NL:HR:2025:123 goes to rechtspraak/NL/HR/2025/ECLI_NL_HR_2025_123.xml |
| Scraper.GenerateMonthlyRanges | src/main.py:83-94 | the loop returns `Scraper.MonthlyRanges`, the month windows from January of the start year up to the window end |
| Scraper.RangesLoopTest | src/main.py:89 | on a first of month, `current < end` means its month number is below the window end |
| Scraper.GuardIsWindowEnd | src/main.py:87-89 | the loop runs through the current month, and also the next one when today is not the first |
| Scraper.WindowsAt | src/main.py:90-91 | window k is the window of month start + k |
| Scraper.RangesEmptyIff | src/main.py:86-89 | no windows exactly when January of the start year is not before today + 1 month |
| Scraper.FirstRangeStartsInJanuary | src/main.py:86 | the first window starts on 1 January of the start year |
| Scraper.RangesChain | src/main.py:90-92 | consecutive windows meet: each ends where the next begins |
| Scraper.RangeIsOneMonth | src/main.py:90-91 | each window starts on a first of month and ends one month later |
| Scraper.RangesStartBeforeEnd | src/main.py:89 | every window starts before today + 1 month |
| Scraper.LastRangeReachesEnd | src/main.py:89 | the last window ends on or after today + 1 month |
| Scraper.LastRangeAfterToday | src/main.py:87-89 | when today is not the first of its month, the last window starts after today |
| Scraper.UitspraakRowColumns | src/main.py:243-257 | of `Scraper.UitspraakRow`: by column name the row holds the ECLI (or the queried one), the case number, both dates, the court (or "Unknown"), the court-type code (or "OTHER"), the procedure type, subject area and summary, the content URL, the path, the related ECLIs and the time |
| Scraper.RowKeepsCourt | src/main.py:248-249 | a record with a court keeps its court and court type; the defaults never apply |
| Scraper.ExtractedRowKeepsCourt | src/main.py:248-249 | for every parsed record the row holds the record's court and court-type code |
| Scraper.InsertColumnsDistinct | src/main.py:263-266 | the thirteen insert columns are distinct |
| Scraper.RowFor | src/main.py:242-257 | a fetched ECLI contributes a row exactly when a record was parsed; the row has thirteen values and its content URL |
| Scraper.BuildRows | src/main.py:237-257 | the batch's rows are those of the fetched records, in order, each with thirteen values |
| Scraper.RowsFollowBatch | src/main.py:237-257 | the rows are an order-preserving subsequence of the batch, skipping exactly the records not parsed |
| Backfill.EcliToPath | src/backfill.py:79-90 | the path starts with "rechtspraak/", ends with ".xml" and holds no ':' |
| Backfill.SamePathAsScraper | src/backfill.py:79-90 | the backfill's `ecli_to_path` equals the scraper's on every input |
| Backfill.Queue | src/backfill.py:159-175 | a record is queued exactly when its path is present and non-empty, as a thirteen-value row |
| Backfill.RebuiltRowColumns | src/backfill.py:161-175 | of `Backfill.Rebuild`: by column name a rebuilt row holds every queried column unchanged, then the new time and the path |
| Backfill.SameColumnsAsFetch | src/backfill.py:187-191 | the backfill insert names the same columns as the fetch phase's insert |
| Backfill.QueuedWithPath | src/backfill.py:156-175 | queued exactly when the path is truthy, and the queued row's xml_path is that path |
| Backfill.QueuedIffStored | src/backfill.py:93-115 | a path from the download is never empty, so a record is queued exactly when its document was stored |
| Backfill.ProcessBatch | src/backfill.py:153-180 | the queued rows, in order; processed grows by the batch size, success by the rows queued, failed by the rest |
| Backfill.Rounds | src/backfill.py:134-149 | the loop runs the batches before the first empty one, and stops at it |
| Backfill.InsertsAreQueuedRows | src/backfill.py:153-192 | the inserts, put together, are the queued rows of all processed records, whatever the batching |
| Backfill.RunBackfill | src/backfill.py:130-195 | it stops at the first empty batch; it inserts the non-empty row lists; processed counts all records, success the queued ones, and processed == success + failed |
| Common.SelectIsSubsequence | src/parser.py:22-35 | filter-and-append output is the subsequence at ascending kept positions, keeping exactly the accepted elements |
| Common.SelectAppend | src/backfill.py:153-180 | filtering a concatenation is concatenating the filtered parts |

## Left out

- Network access is not modelled. This covers `get_http_client`,
  `fetch_sitemap`, `fetch_uitspraak`, `download_and_store_xml`, timeouts and
  the User-Agent. Their results are inputs: the `data` and `xmlPath` of
  `Scraper.Fetched`, and the `xmlPath` of `Backfill.Pending`.
- The ClickHouse queries and inserts are not modelled, nor is the
  ReplacingMergeTree deduplication. The pending and "missing xml_path"
  batches are input sequences. An insert is the row list it would send.
- The MinIO uploads, bucket creation, `log`, `time.sleep`, argparse and the
  environment configuration are side effects or configuration only.
- XML parsing by lxml is not modelled. A document is either `Malformed`
  (the `XMLSyntaxError` branch) or its elements in document order.
  - `.//x` is a search over descendants. The root element is not part of
    the list, matching lxml, which does not match the root itself.
  - `tostring(method="text")` is modelled as the element's inner text
    followed by its tail. lxml includes the tail by default.
- The `rdf:Description` lookup (src/parser.py:56-58) is left out: its
  result is never used.
- `datetime.fromisoformat` is a function parameter, not a model of
  Python's ISO parser. Only the strptime fallback is modelled exactly.
- Text.Lower: only ASCII letters and KELVIN SIGN are modelled. Python's
  full Unicode case mapping is not. That is harmless for the court
  needles, which are ASCII, but not only because they are: a character
  can lower-case to ASCII plus more, as U+0130 gives 'i' followed by
  U+0307, which the model leaves unchanged. No needle contains 'i' or
  U+0307, so no needle match is gained or lost by that either.
  - KELVIN SIGN is modelled because it lower-cases to an ASCII 'k'.
- Dates.StrptimeYmd recognises only ASCII digits; CPython's `\d` also
  accepts other Unicode decimal digits.
- Phase 1's conversion of `lastmod` to a timestamp (src/main.py:192-198)
  uses `fromisoformat` and the clock. Only the entries it converts are
  modelled.
- `parse_sitemap` on malformed XML raises an exception; that case is not
  modelled. The sitemap model starts from the `<url>` elements.
- Scraper.MonthlyRanges is defined only for the inputs on which
  `generate_monthly_ranges` raises nothing (`Scraper.RangesDefined`): a
  start year in 1..9999, and a today such that the month of
  `today + 1 month` is within year 9999 and, when today is not the first
  of its month, so is the month after it (the loop's last
  `current + relativedelta(months=1)`). Otherwise `date` or
  `relativedelta` raises a ValueError (a year out of range).
- The phase-2 outer `while True` loop over pending batches is not modelled
  as a loop. Its termination depends on the database removing processed
  ECLIs from the pending view. Only one batch is modelled, by
  Scraper.BuildRows. An ECLI whose fetch or parse fails gets no row, so
  it stays pending and the next query returns it again: while such an
  ECLI keeps failing, the source loop never ends. The model does not
  show this.
- Backfill.RunBackfill: the batches are taken as a given input sequence,
  independent of what earlier rounds did, and the loop stops at the first
  empty one. In the source a record whose download fails is not
  re-inserted, keeps its NULL `xml_path` and is returned again by the next
  `WHERE xml_path IS NULL` query (src/backfill.py:113-115, 137-159). While any
  download keeps failing, for example for a withdrawn decision, the loop
  never sees an empty batch, and it processes and counts those records as
  failed again on every round. The model does not capture this feedback
  from one round's inserts to the next round's batch.
- The backfill's `total_count` query is only logged, so it is left out.
- Timestamps are abstract integers read from the clock.

Three behaviours of the code are easy to miss, and the model keeps them:

- The stored summary includes the element's tail text, because lxml's
  `tostring(method="text")` includes the tail by default.
- The monthly windows run through the month after the current one
  whenever today is not the first of the month, although the
  `generate_monthly_ranges` docstring says "to today". The last window
  then starts after today.
- The path folders are the ECLI parts 1, 2 and 3.
