/**
 * The two lambdas together: the collector uploads a blob whose name and CSV
 * body the loader later reads. These lemmas connect the collector's output
 * (module Scraper) to the loader's routing and parsing (module Reconcile).
 */
module Pipeline {
  import opened Wrappers
  import opened PyStr
  import opened CsvDialect
  import opened Headers
  import opened ObjectStore
  import opened Scraper
  import opened Reconcile

  /** A blob named by `upcoming_ipos` is loaded into the upcoming table. */
  lemma UpcomingBlobRoutes(uuid: string)
    ensures RouteOf(UpcomingBlobName(uuid)) == Some(UpcomingTable)
  {
  }

  /** A blob named by `previous_ipos` is loaded into the completed table. */
  lemma Last100BlobRoutes(uuid: string)
    ensures RouteOf(Last100BlobName(uuid)) == Some(CompletedTable)
  {
  }

  /** Header texts the writer leaves unquoted and the reader's line split leaves whole. */
  predicate PlainHeaders(headers: seq<string>) {
    && headers != [] && headers != [""]
    && forall i :: 0 <= i < |headers| ==> !NeedsQuotes(headers[i]) && LineFree(headers[i])
  }

  /** The names the loader gives the collector's headers. */
  function Cleaned(headers: seq<string>): (names: seq<string>)
    ensures |names| == |headers|
  {
    seq(|headers|, i requires 0 <= i < |headers| => CleanHeader(headers[i]))
  }

  /** The header line the writer produces splits back into the header texts. */
  lemma HeaderLineSplits(headers: seq<string>)
    requires PlainHeaders(headers)
    ensures Split(FormatRecord(headers), ',') == headers
  {
    assert FormatFields(headers) == headers by {
      forall i | 0 <= i < |headers| ensures FormatFields(headers)[i] == headers[i] {
        FormatFieldPlain(headers[i]);
      }
    }
    SplitJoin(headers, ',');
  }

  /**
   * The loader reads back what the collector wrote: the header line gives
   * the cleaned header texts, and the `DictReader` rows are the collector's
   * rows, each with its own written line as the line it is fingerprinted by.
   */
  lemma CollectorBlobParses(headers: seq<string>, rows: seq<seq<string>>)
    requires PlainHeaders(headers)
    requires forall i :: 0 <= i < |rows| ==> rows[i] != [] && CellsLineFree(rows[i])
    ensures ParseBlob(CsvText([headers] + rows)) == Success(Parsed(Cleaned(headers), FormatRecords(rows)))
    ensures |DictRows(FormatRecords(rows))| == |rows|
    ensures forall i :: 0 <= i < |rows| ==> DictRows(FormatRecords(rows))[i] == Row(rows[i], FormatRecord(rows[i]))
  {
    CollectorLines(headers, rows);
    HeaderLineSplits(headers);
    assert HeaderNames(FormatRecord(headers)) == Cleaned(headers);
    DictRowsOfFormatted(rows);
  }

  /** The lines of the collector's CSV text: the header line, then one line per row. */
  lemma CollectorLines(headers: seq<string>, rows: seq<seq<string>>)
    requires PlainHeaders(headers)
    requires forall i :: 0 <= i < |rows| ==> rows[i] != [] && CellsLineFree(rows[i])
    ensures SplitLines(CsvText([headers] + rows)) == [FormatRecord(headers)] + FormatRecords(rows)
  {
    var all := [headers] + rows;
    assert forall i :: 0 <= i < |all| ==> CellsLineFree(all[i]) by {
      forall i | 0 <= i < |all| ensures CellsLineFree(all[i]) {
        if i > 0 {
          assert all[i] == rows[i - 1];
        }
      }
    }
    SplitLinesOfCsvText(all);
    assert FormatRecords(all) == [FormatRecord(headers)] + FormatRecords(rows) by {
      forall i | 0 <= i < |all| ensures FormatRecords(all)[i] == ([FormatRecord(headers)] + FormatRecords(rows))[i] {
        if i > 0 {
          assert all[i] == rows[i - 1];
        }
      }
    }
  }

  /**
   * Loading an upcoming blob the collector wrote reconciles exactly its rows
   * into the upcoming table and leaves the completed table alone; when the
   * cleaned headers name every column the constructor reads, nothing raises.
   */
  lemma UpcomingBlobLoads(t: Tables, headers: seq<string>, rows: seq<seq<string>>, uuid: string,
                          hash: string -> string)
    requires PlainHeaders(headers)
    requires forall i :: 0 <= i < |rows| ==> rows[i] != [] && CellsLineFree(rows[i])
    ensures forall i :: 0 <= i < |rows| ==> NoCrLf(FormatRecords(rows)[i])
    ensures var o := LoadBlob(t, Blob(UpcomingBlobName(uuid), CsvText([headers] + rows)), hash);
            var a := ApplyRows(t.upcoming, UpcomingTable, Cleaned(headers), DictRows(FormatRecords(rows)), hash);
            && o == Outcome(t.(upcoming := a.table), a.error)
            && (HasColumns(UpcomingTable, Cleaned(headers)) ==> o.error.None?)
  {
    CollectorBlobParses(headers, rows);
    UpcomingBlobRoutes(uuid);
    LoadBlobRouted(t, Blob(UpcomingBlobName(uuid), CsvText([headers] + rows)), hash, UpcomingTable,
                   Parsed(Cleaned(headers), FormatRecords(rows)));
    if HasColumns(UpcomingTable, Cleaned(headers)) {
      ApplyRowsSucceeds(t.upcoming, UpcomingTable, Cleaned(headers), DictRows(FormatRecords(rows)), hash);
    }
  }

  /** The same for a last-100 blob and the completed table. */
  lemma Last100BlobLoads(t: Tables, headers: seq<string>, rows: seq<seq<string>>, uuid: string,
                         hash: string -> string)
    requires PlainHeaders(headers)
    requires forall i :: 0 <= i < |rows| ==> rows[i] != [] && CellsLineFree(rows[i])
    ensures forall i :: 0 <= i < |rows| ==> NoCrLf(FormatRecords(rows)[i])
    ensures var o := LoadBlob(t, Blob(Last100BlobName(uuid), CsvText([headers] + rows)), hash);
            var a := ApplyRows(t.completed, CompletedTable, Cleaned(headers), DictRows(FormatRecords(rows)), hash);
            && o == Outcome(t.(completed := a.table), a.error)
            && (HasColumns(CompletedTable, Cleaned(headers)) ==> o.error.None?)
  {
    CollectorBlobParses(headers, rows);
    Last100BlobRoutes(uuid);
    LoadBlobRouted(t, Blob(Last100BlobName(uuid), CsvText([headers] + rows)), hash, CompletedTable,
                   Parsed(Cleaned(headers), FormatRecords(rows)));
    if HasColumns(CompletedTable, Cleaned(headers)) {
      ApplyRowsSucceeds(t.completed, CompletedTable, Cleaned(headers), DictRows(FormatRecords(rows)), hash);
    }
  }
}
