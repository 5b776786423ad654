/** The XML backfill script: for every stored record without an XML path
    it downloads and stores the document, then re-inserts the record's
    queried columns with a fresh `scraped_at` and the new `xml_path`,
    keeping the counters `processed`, `success` and `failed`. */
module Backfill {
  import opened Common
  import opened Text
  import opened Rows
  import Scraper

  // ---------------------------------------------------------------- ecli_to_path

  /** The script's own copy of `ecli_to_path`: with at least five
      ':'-separated parts, folders for the country, court and year parts,
      otherwise the folder "other"; the file is the ECLI with ':' turned
      into '_', plus ".xml". */
  function EcliToPath(ecli: string): (path: string)
    ensures StartsWith(path, "rechtspraak/") && EndsWith(path, ".xml")
    ensures ':' !in path
  {
    var parts := Split(ecli, ':');
    ReplaceCharRemoves(ecli, ':', "_");
    if |parts| >= 5 then
      var country, court, year := parts[1], parts[2], parts[3];
      var safeEcli := ReplaceChar(ecli, ':', "_");
      var p := "rechtspraak/" + country + "/" + court + "/" + year + "/" + safeEcli + ".xml";
      assert p[..12] == "rechtspraak/";
      p
    else
      var safeEcli := ReplaceChar(ecli, ':', "_");
      var p := "rechtspraak/other/" + safeEcli + ".xml";
      assert p[..12] == "rechtspraak/";
      p
  }

  /** The two copies of `ecli_to_path` agree on every input, so the
      backfill stores a document where the scraper would. */
  lemma SamePathAsScraper(ecli: string)
    ensures EcliToPath(ecli) == Scraper.EcliToPath(ecli)
  {
  }

  // ---------------------------------------------------------------- rows

  /** The columns the batch query selects, in order. */
  const QueryColumns: seq<string> := [
    "ecli", "case_number", "decision_date", "publication_date",
    "court", "court_type", "procedure_type", "subject_area",
    "summary", "content_url", "related_eclis"
  ]

  /** The column list of the backfill's insert. */
  const BackfillColumns: seq<string> := [
    "ecli", "case_number", "decision_date", "publication_date",
    "court", "court_type", "procedure_type", "subject_area",
    "summary", "content_url", "related_eclis", "scraped_at", "xml_path"
  ]

  /** A row of the batch query: one value per selected column. */
  type QueryRow = r: seq<Value> | |r| == 11 witness seq(11, _ => Null)

  /** One record of a batch together with what the outside world gave for
      it: the result of `download_and_store_xml` for its ECLI and the time
      the clock read afterwards. */
  datatype Pending = Pending(row: QueryRow, xmlPath: Option<string>, now: int)

  /** Python truthiness of `xml_path`: present and not the empty string. */
  predicate Truthy(o: Option<string>) {
    o.Some? && o.value != ""
  }

  /** The row re-inserted for a record: the eleven queried values, then
      the new time and the new path. */
  function Rebuild(row: QueryRow, now: int, path: string): seq<Value> {
    row + [Time(now), Str(path)]
  }

  /** The row one record contributes to `rows_to_insert`, if any. */
  function Queue(p: Pending): (r: Option<seq<Value>>)
    ensures r.Some? <==> p.xmlPath.Some? && p.xmlPath.value != ""
    ensures r.Some? ==> |r.value| == |BackfillColumns|
  {
    if Truthy(p.xmlPath) then Some(Rebuild(p.row, p.now, p.xmlPath.value)) else None
  }

  lemma QueryColumnsPrefix()
    ensures |QueryColumns| == 11 && |BackfillColumns| == 13
    ensures BackfillColumns[..11] == QueryColumns
  {
  }

  lemma BackfillColumnsDistinct()
    ensures |BackfillColumns| == 13
    ensures forall i, j :: 0 <= i < j < |BackfillColumns| ==> BackfillColumns[i] != BackfillColumns[j]
  {
  }

  /** Read by column name, a rebuilt row holds every queried column
      unchanged, the new time under `scraped_at` and the new path under
      `xml_path`. */
  lemma RebuiltRowColumns(row: QueryRow, now: int, path: string)
    ensures var r := Rebuild(row, now, path);
      |r| == |BackfillColumns|
      && (forall name :: name in QueryColumns ==> Lookup(BackfillColumns, r, name) == Lookup(QueryColumns, row, name))
      && Lookup(BackfillColumns, r, "scraped_at") == Some(Time(now))
      && Lookup(BackfillColumns, r, "xml_path") == Some(Str(path))
  {
    var r := Rebuild(row, now, path);
    QueryColumnsPrefix();
    forall name | name in QueryColumns
      ensures Lookup(BackfillColumns, r, name) == Lookup(QueryColumns, row, name)
    {
      assert name in BackfillColumns[..11];
      ColumnIndexOfSharedPrefix(BackfillColumns, QueryColumns, 11, name);
      var i := ColumnIndex(QueryColumns, name);
      assert r[i] == row[i];
    }
    BackfillColumnsDistinct();
    LookupAt(BackfillColumns, r, 11);
    LookupAt(BackfillColumns, r, 12);
  }

  /** The backfill insert names the same thirteen columns as the fetch
      phase's insert, only in another order. */
  lemma SameColumnsAsFetch()
    ensures forall name :: name in BackfillColumns <==> name in Scraper.InsertColumns
  {
  }

  /** A record is queued exactly when the download returned a non-empty
      path, and its row then carries that path. */
  lemma QueuedWithPath(p: Pending)
    ensures Queue(p).Some? <==> Truthy(p.xmlPath)
    ensures Queue(p).Some? ==> Lookup(BackfillColumns, Queue(p).value, "xml_path") == Some(Str(p.xmlPath.value))
  {
    if Queue(p).Some? {
      RebuiltRowColumns(p.row, p.now, p.xmlPath.value);
    }
  }

  /** `download_and_store_xml` returns the object path of the ECLI on
      success and None on failure; since that path is never empty, the
      test `if xml_path` queues a record exactly when its document was
      stored. */
  lemma QueuedIffStored(row: QueryRow, ecli: string, stored: bool, now: int)
    ensures Queue(Pending(row, if stored then Some(EcliToPath(ecli)) else None, now)).Some? <==> stored
  {
    if stored {
      assert EcliToPath(ecli)[..12] == "rechtspraak/";
    }
  }

  // ---------------------------------------------------------------- the batch loop

  /** The inner loop of `main` over one batch: it queues a row for every
      record with a path and counts each record as processed and as either
      a success or a failure. */
  method ProcessBatch(batch: seq<Pending>, processed0: int, success0: int, failed0: int)
    returns (rows: seq<seq<Value>>, processed: int, success: int, failed: int)
    ensures rows == Select(batch, Queue)
    ensures processed == processed0 + |batch|
    ensures success == success0 + |rows| && failed == failed0 + (|batch| - |rows|)
  {
    rows, processed, success, failed := [], processed0, success0, failed0;
    var i := 0;
    while i < |batch|
      invariant 0 <= i <= |batch|
      invariant rows == Select(batch[..i], Queue)
      invariant processed == processed0 + i
      invariant success == success0 + |rows| && failed == failed0 + (i - |rows|)
    {
      SelectStep(batch, Queue, i);
      var p := batch[i];
      if Truthy(p.xmlPath) {
        rows := rows + [Rebuild(p.row, p.now, p.xmlPath.value)];
        success := success + 1;
      } else {
        failed := failed + 1;
      }
      processed := processed + 1;
      i := i + 1;
    }
    assert batch[..i] == batch;
  }

  /** The batch the query returns on round i; an empty one once the given
      results run out. */
  function BatchAt(batches: seq<seq<Pending>>, i: nat): seq<Pending> {
    if i < |batches| then batches[i] else []
  }

  /** The number of rounds the loop runs: the batches before the first
      empty one. */
  function Rounds(batches: seq<seq<Pending>>): (n: nat)
    ensures n <= |batches|
    ensures forall j :: 0 <= j < n ==> batches[j] != []
    ensures n == |batches| || batches[n] == []
  {
    if batches == [] || batches[0] == [] then 0 else 1 + Rounds(batches[1..])
  }

  /** The insert a round makes: its queued rows, none when there are none. */
  function InsertFor(batch: seq<Pending>): (r: Option<seq<seq<Value>>>)
    ensures r.Some? <==> Select(batch, Queue) != []
  {
    var rows := Select(batch, Queue);
    if rows == [] then None else Some(rows)
  }

  /** Cutting the records into rounds changes nothing about what is
      inserted: the inserts, put together, are the queued rows of all
      processed records in order. */
  lemma {:induction false} InsertsAreQueuedRows(bs: seq<seq<Pending>>)
    ensures Flatten(Select(bs, InsertFor)) == Select(Flatten(bs), Queue)
  {
    if bs != [] {
      var front, last := bs[..|bs| - 1], bs[|bs| - 1];
      InsertsAreQueuedRows(front);
      SelectAppend(Flatten(front), last, Queue);
      var ins := Select(front, InsertFor);
      assert Flatten(bs) == Flatten(front) + last;
      if InsertFor(last).Some? {
        assert Select(bs, InsertFor) == ins + [Select(last, Queue)];
        assert (ins + [Select(last, Queue)])[..|ins|] == ins;
      } else {
        assert Select(bs, InsertFor) == ins;
        assert Select(last, Queue) == [];
      }
    }
  }

  /** `main` over the successive results of the batch query: it stops at
      the first empty batch; the inserts are the non-empty queued rows of
      every processed batch, the counters count the records processed,
      the rows queued and the rest. */
  method RunBackfill(batches: seq<seq<Pending>>)
    returns (inserts: seq<seq<seq<Value>>>, processed: int, success: int, failed: int)
    ensures var n := Rounds(batches);
      inserts == Select(batches[..n], InsertFor)
      && Flatten(inserts) == Select(Flatten(batches[..n]), Queue)
      && processed == |Flatten(batches[..n])|
      && success == |Flatten(inserts)|
      && processed == success + failed
  {
    inserts, processed, success, failed := [], 0, 0, 0;
    var i := 0;
    var batch := BatchAt(batches, 0);
    while batch != []
      invariant i <= Rounds(batches)
      invariant batch == BatchAt(batches, i)
      invariant inserts == Select(batches[..i], InsertFor)
      invariant processed == |Flatten(batches[..i])|
      invariant success == |Select(Flatten(batches[..i]), Queue)|
      invariant processed == success + failed
      decreases |batches| - i
    {
      RoundStep(batches, i);
      var rows;
      rows, processed, success, failed := ProcessBatch(batch, processed, success, failed);
      if rows != [] {
        inserts := inserts + [rows];
      }
      i := i + 1;
      batch := BatchAt(batches, i);
    }
    InsertsAreQueuedRows(batches[..i]);
  }

  /** One round extends the processed prefix by batch i. */
  lemma RoundStep(batches: seq<seq<Pending>>, i: nat)
    requires i < |batches|
    ensures Select(batches[..i + 1], InsertFor) == Select(batches[..i], InsertFor) + Pick(InsertFor(batches[i]))
    ensures Flatten(batches[..i + 1]) == Flatten(batches[..i]) + batches[i]
    ensures Select(Flatten(batches[..i + 1]), Queue) == Select(Flatten(batches[..i]), Queue) + Select(batches[i], Queue)
  {
    SelectStep(batches, InsertFor, i);
    FlattenStep(batches, i);
    SelectAppend(Flatten(batches[..i]), batches[i], Queue);
  }
}
