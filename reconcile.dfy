/**
 * What `load_file` (data-loader/load_data.py) does to the two database tables,
 * as functions on values. A table is the sequence of its records in the
 * order the database returns them, so `query(...).filter(symbol == k).first()`
 * is the first record with symbol `k` and `session.add` appends.
 *
 * For every data row of a blob the loader fingerprints the raw line, looks up
 * the row's key, and then inserts a record (no record has that symbol),
 * replaces all records with that symbol by one new record (the first stored
 * fingerprint differs) or skips the row (it is equal). Each row is committed
 * on its own, so a row that raises leaves the table as the last commit left it.
 */
module Reconcile {
  import opened Wrappers
  import opened PyStr
  import opened CsvDialect
  import opened Headers
  import opened ObjectStore

  /** A stored row of `upcoming_ipos` or `ipos`; the database-assigned `id` is left out. */
  datatype Record =
    | UpcomingIpo(company: Value, symbol: Value, leadManagers: Value, sharesMillions: Value,
                  priceLow: Value, priceHigh: Value, estVolume: Value, expectedToTrade: Value,
                  fingerprint: string)
    | CompletedIpo(company: Value, symbol: Value, industry: Value, offerDate: Value,
                   sharesMillions: Value, offerPrice: Value, firstDayClose: Value,
                   fingerprint: string)

  /** The two tables the loader writes. */
  datatype Target = UpcomingTable | CompletedTable

  datatype Tables = Tables(upcoming: seq<Record>, completed: seq<Record>)

  /** Why `load_file` raises: the header pop of an empty blob, or a KeyError for a column. */
  datatype LoadError = EmptyBlob | MissingColumn(name: string)

  // ---------------------------------------------------------------- routing

  /** The table a blob is loaded into, chosen by the prefix of its key. */
  function RouteOf(key: string): (r: Option<Target>)
    ensures r == Some(UpcomingTable) <==> StartsWith(key, "upcoming")
    ensures r == Some(CompletedTable) <==> StartsWith(key, "last_100")
    ensures r == None <==> !StartsWith(key, "upcoming") && !StartsWith(key, "last_100")
  {
    if StartsWith(key, "upcoming") then
      assert key[0] == 'u';
      Some(UpcomingTable)
    else if StartsWith(key, "last_100") then Some(CompletedTable)
    else None
  }

  /** The `row[...]` names each model's constructor reads, in keyword order. */
  function Required(target: Target): (names: seq<string>)
    ensures |names| >= 2
  {
    match target
    case UpcomingTable =>
      ["company", "symbol_proposed", "lead_managers", "shares_millions",
       "price_low", "price_high", "est_volume", "expected_to_trade"]
    case CompletedTable =>
      ["company", "symbol", "industry", "offer_date",
       "shares_millions", "offer_price", "1st_day_close"]
  }

  /** The column the symbol is read from; it is the second keyword of the constructor. */
  function KeyColumn(target: Target): (name: string)
    ensures name == Required(target)[1]
  {
    match target
    case UpcomingTable => "symbol_proposed"
    case CompletedTable => "symbol"
  }

  // ---------------------------------------------------------------- records

  /** `row[name]`: a KeyError when the header has no such name. */
  function Column(names: seq<string>, fields: seq<string>, name: string): (r: Result<Value, LoadError>)
    ensures r.Failure? <==> name !in names
    ensures r.Failure? ==> r.error == MissingColumn(name)
    ensures r.Success? ==> Lookup(names, fields, name) == Some(r.value)
  {
    match Lookup(names, fields, name)
    case None => Failure(MissingColumn(name))
    case Some(v) => Success(v)
  }

  /** The keyword arguments, evaluated left to right: the first missing column raises. */
  function Arguments(names: seq<string>, fields: seq<string>, wanted: seq<string>): (r: Result<seq<Value>, LoadError>)
    ensures r.Success? <==> forall i :: 0 <= i < |wanted| ==> wanted[i] in names
    ensures r.Success? ==> |r.value| == |wanted|
    ensures r.Success? ==> forall i :: 0 <= i < |wanted| ==> Lookup(names, fields, wanted[i]) == Some(r.value[i])
    ensures r.Failure? ==> exists i :: 0 <= i < |wanted| && wanted[i] !in names && r.error == MissingColumn(wanted[i])
                                      && forall j :: 0 <= j < i ==> wanted[j] in names
  {
    if wanted == [] then Success([])
    else
      var v :- Column(names, fields, wanted[0]);
      var rest :- Arguments(names, fields, wanted[1..]);
      Success([v] + rest)
  }

  /** The column values of a record, in the order of `Required`. */
  function Columns(r: Record): seq<Value> {
    match r
    case UpcomingIpo(c, s, l, n, lo, hi, v, d, _) => [c, s, l, n, lo, hi, v, d]
    case CompletedIpo(c, s, i, d, n, o, f, _) => [c, s, i, d, n, o, f]
  }

  function TargetOf(r: Record): Target {
    if r.UpcomingIpo? then UpcomingTable else CompletedTable
  }

  /**
   * `UpcomingIPOs(...)` / `IPOs(...)` built from a row, with the line's
   * fingerprint: the record of the routed table that holds the row's values
   * of the constructor's columns, or the KeyError of the first missing one.
   */
  function Build(target: Target, names: seq<string>, fields: seq<string>, fingerprint: string)
    : (r: Result<Record, LoadError>)
    ensures r.Success? ==> TargetOf(r.value) == target && r.value.fingerprint == fingerprint
    ensures r.Success? ==> Arguments(names, fields, Required(target)) == Success(Columns(r.value))
    ensures r.Failure? ==> Arguments(names, fields, Required(target)) == Failure(r.error)
  {
    var v :- Arguments(names, fields, Required(target));
    Success(Assemble(target, v, fingerprint))
  }

  /** The record of `target` whose columns are `v`, in the order of `Required`. */
  function Assemble(target: Target, v: seq<Value>, fingerprint: string): (r: Record)
    requires |v| == |Required(target)|
    ensures Columns(r) == v && TargetOf(r) == target && r.fingerprint == fingerprint
  {
    match target
    case UpcomingTable => UpcomingIpo(v[0], v[1], v[2], v[3], v[4], v[5], v[6], v[7], fingerprint)
    case CompletedTable => CompletedIpo(v[0], v[1], v[2], v[3], v[4], v[5], v[6], fingerprint)
  }

  /** The record's symbol is the row's key column. */
  lemma BuildKey(target: Target, names: seq<string>, fields: seq<string>, fingerprint: string)
    requires Build(target, names, fields, fingerprint).Success?
    ensures Lookup(names, fields, KeyColumn(target)) == Some(Build(target, names, fields, fingerprint).value.symbol)
  {
    var rec := Build(target, names, fields, fingerprint).value;
    assert Columns(rec)[1] == rec.symbol;
  }

  /** A constructor call fails exactly when the header lacks one of its columns. */
  lemma BuildSucceeds(target: Target, names: seq<string>, fields: seq<string>, fingerprint: string)
    ensures Build(target, names, fields, fingerprint).Success? <==> HasColumns(target, names)
  {
  }

  /** Every column a constructor reads is in the header. */
  predicate HasColumns(target: Target, names: seq<string>) {
    forall i :: 0 <= i < |Required(target)| ==> Required(target)[i] in names
  }

  // ---------------------------------------------------------------- tables

  /** The records with symbol `k`, in table order: `filter(symbol == k)`. */
  function WithSymbol(t: seq<Record>, k: Value): (r: seq<Record>)
    ensures |r| <= |t|
  {
    if t == [] then []
    else WithSymbol(t[..|t| - 1], k) + (if t[|t| - 1].symbol == k then [t[|t| - 1]] else [])
  }

  /** The table after `filter(symbol == k).delete()`. */
  function Without(t: seq<Record>, k: Value): (r: seq<Record>)
    ensures |r| <= |t|
  {
    if t == [] then []
    else Without(t[..|t| - 1], k) + (if t[|t| - 1].symbol != k then [t[|t| - 1]] else [])
  }

  /** `filter(symbol == k).first()` */
  function FirstWith(t: seq<Record>, k: Value): Option<Record> {
    var w := WithSymbol(t, k);
    if w == [] then None else Some(w[0])
  }

  /** `WithSymbol` keeps exactly the records with the symbol, and `Without` exactly the others. */
  lemma {:induction false} FilterMembers(t: seq<Record>, k: Value, x: Record)
    ensures x in WithSymbol(t, k) <==> x in t && x.symbol == k
    ensures x in Without(t, k) <==> x in t && x.symbol != k
    decreases |t|
  {
    if t != [] {
      var a := t[..|t| - 1];
      assert t == a + [t[|t| - 1]];
      FilterMembers(a, k, x);
    }
  }

  /** The invariant the loader keeps: at most one record per symbol. */
  ghost predicate UniqueSymbols(t: seq<Record>) {
    forall k :: |WithSymbol(t, k)| <= 1
  }

  datatype Action = Insert | Replace | Skip

  /** What the loader does with a row whose key is `k` and whose line hashes to `fingerprint`. */
  function Decide(t: seq<Record>, k: Value, fingerprint: string): Action {
    match FirstWith(t, k)
    case None => Insert
    case Some(r) => if r.fingerprint != fingerprint then Replace else Skip
  }

  /** The table after the loader has handled a row whose record is `rec`. */
  function Step(t: seq<Record>, rec: Record): seq<Record> {
    match Decide(t, rec.symbol, rec.fingerprint)
    case Insert => t + [rec]
    case Replace => Without(t, rec.symbol) + [rec]
    case Skip => t
  }

  lemma WithSymbolSnoc(t: seq<Record>, x: Record, k: Value)
    ensures WithSymbol(t + [x], k) == WithSymbol(t, k) + (if x.symbol == k then [x] else [])
  {
    assert (t + [x])[..|t|] == t;
  }

  lemma {:induction false} WithoutWithSymbol(t: seq<Record>, k: Value, j: Value)
    ensures WithSymbol(Without(t, k), j) == if j == k then [] else WithSymbol(t, j)
    decreases |t|
  {
    if t != [] {
      var a, x := t[..|t| - 1], t[|t| - 1];
      assert t == a + [x];
      WithoutWithSymbol(a, k, j);
      WithSymbolSnoc(a, x, j);
      if x.symbol != k {
        assert Without(t, k) == Without(a, k) + [x];
        WithSymbolSnoc(Without(a, k), x, j);
      } else {
        assert Without(t, k) == Without(a, k) + [];
        assert Without(t, k) == Without(a, k);
        if j != k {
          assert WithSymbol(t, j) == WithSymbol(a, j) + [];
        }
      }
    }
  }

  lemma {:induction false} WithoutAbsent(t: seq<Record>, k: Value)
    requires WithSymbol(t, k) == []
    ensures Without(t, k) == t
    decreases |t|
  {
    if t != [] {
      var a, x := t[..|t| - 1], t[|t| - 1];
      assert t == a + [x];
      assert x.symbol != k by {
        FilterMembers(t, k, x);
      }
      WithoutAbsent(a, k);
    }
  }

  /** Inserting: the row's key had no record; now exactly the new one, appended at the end. */
  lemma StepInserts(t: seq<Record>, rec: Record)
    requires WithSymbol(t, rec.symbol) == []
    ensures Decide(t, rec.symbol, rec.fingerprint) == Insert
    ensures |Step(t, rec)| == |t| + 1 && Step(t, rec)[..|t|] == t
    ensures WithSymbol(Step(t, rec), rec.symbol) == [rec]
  {
    WithSymbolSnoc(t, rec, rec.symbol);
    assert (t + [rec])[..|t|] == t;
  }

  /**
   * Replacing: the first stored fingerprint differs, so every record with
   * the symbol goes and exactly one new record comes.
   */
  lemma StepReplaces(t: seq<Record>, rec: Record)
    requires WithSymbol(t, rec.symbol) != []
    requires WithSymbol(t, rec.symbol)[0].fingerprint != rec.fingerprint
    ensures Decide(t, rec.symbol, rec.fingerprint) == Replace
    ensures WithSymbol(Step(t, rec), rec.symbol) == [rec]
    ensures |Step(t, rec)| == |t| - |WithSymbol(t, rec.symbol)| + 1
  {
    var k := rec.symbol;
    WithSymbolSnoc(Without(t, k), rec, k);
    WithoutWithSymbol(t, k, k);
    WithoutCount(t, k);
  }

  lemma {:induction false} WithoutCount(t: seq<Record>, k: Value)
    ensures |Without(t, k)| + |WithSymbol(t, k)| == |t|
    decreases |t|
  {
    if t != [] {
      WithoutCount(t[..|t| - 1], k);
    }
  }

  /** Skipping: the first stored fingerprint equals the line's, and the table stays as it is. */
  lemma StepSkips(t: seq<Record>, rec: Record)
    requires WithSymbol(t, rec.symbol) != []
    requires WithSymbol(t, rec.symbol)[0].fingerprint == rec.fingerprint
    ensures Decide(t, rec.symbol, rec.fingerprint) == Skip
    ensures Step(t, rec) == t
  {
  }

  /** Records with any other symbol are untouched, whatever the row's action. */
  lemma StepFrame(t: seq<Record>, rec: Record, j: Value)
    requires j != rec.symbol
    ensures WithSymbol(Step(t, rec), j) == WithSymbol(t, j)
  {
    var k := rec.symbol;
    match Decide(t, k, rec.fingerprint)
    case Insert =>
      WithSymbolSnoc(t, rec, j);
    case Replace =>
      WithSymbolSnoc(Without(t, k), rec, j);
      WithoutWithSymbol(t, k, j);
    case Skip =>
  }

  /** The records with the row's own symbol after the step. */
  lemma StepOwn(t: seq<Record>, rec: Record)
    ensures WithSymbol(Step(t, rec), rec.symbol)
            == if Decide(t, rec.symbol, rec.fingerprint) == Skip then WithSymbol(t, rec.symbol) else [rec]
  {
    var k := rec.symbol;
    match Decide(t, k, rec.fingerprint)
    case Insert =>
      StepInserts(t, rec);
    case Replace =>
      StepReplaces(t, rec);
    case Skip =>
  }

  /** A step keeps at most one record per symbol. */
  lemma StepKeepsUnique(t: seq<Record>, rec: Record)
    requires UniqueSymbols(t)
    ensures UniqueSymbols(Step(t, rec))
  {
    forall j ensures |WithSymbol(Step(t, rec), j)| <= 1 {
      if j == rec.symbol {
        StepOwn(t, rec);
        assert |WithSymbol(t, j)| <= 1;
      } else {
        StepFrame(t, rec, j);
        assert |WithSymbol(t, j)| <= 1;
      }
    }
  }

  /** With at most one record per symbol, no two positions share a symbol. */
  lemma {:induction false} UniqueSymbolsDistinct(t: seq<Record>)
    requires UniqueSymbols(t)
    ensures forall i, j :: 0 <= i < j < |t| ==> t[i].symbol != t[j].symbol
    decreases |t|
  {
    if t != [] {
      var a, x := t[..|t| - 1], t[|t| - 1];
      assert t == a + [x];
      forall k ensures |WithSymbol(a, k)| <= 1 {
        WithSymbolSnoc(a, x, k);
        assert |WithSymbol(t, k)| <= 1;
      }
      UniqueSymbolsDistinct(a);
      WithSymbolSnoc(a, x, x.symbol);
      assert |WithSymbol(t, x.symbol)| <= 1;
      assert WithSymbol(a, x.symbol) == [];
      forall i | 0 <= i < |a| ensures a[i].symbol != x.symbol {
        assert a[i] in a;
        FilterMembers(a, x.symbol, a[i]);
      }
    }
  }

  // ---------------------------------------------------------------- rows

  /**
   * One iteration of the `for row in reader` loop on the routed table: the
   * key lookup, the first-record query, then insert, replace or skip. A
   * KeyError leaves the table as it was (the row is never committed).
   */
  function RowStep(t: seq<Record>, target: Target, names: seq<string>, row: Row, hash: string -> string)
    : (r: Result<seq<Record>, LoadError>)
    ensures KeyColumn(target) !in names ==> r == Failure(MissingColumn(KeyColumn(target)))
    ensures HasColumns(target, names) ==> r.Success?
    ensures r.Failure? ==> exists i :: 0 <= i < |Required(target)| && Required(target)[i] !in names
                                      && r.error == MissingColumn(Required(target)[i])
  {
    var key :- Column(names, row.fields, KeyColumn(target));
    var fingerprint := hash(row.line);
    if Decide(t, key, fingerprint) == Skip then Success(t)
    else
      var rec :- Build(target, names, row.fields, fingerprint);
      Success(Step(t, rec))
  }

  /** A table after some rows of a blob, and the error that stopped them, if any. */
  datatype Applied = Applied(table: seq<Record>, error: Option<LoadError>)

  /**
   * The rows handled in order; after the first failing row nothing more
   * happens, and the table is the one the rows before it committed.
   */
  function ApplyRows(t: seq<Record>, target: Target, names: seq<string>, rows: seq<Row>, hash: string -> string)
    : (a: Applied)
    decreases |rows|
  {
    if rows == [] then Applied(t, None)
    else
      var prev := ApplyRows(t, target, names, rows[..|rows| - 1], hash);
      if prev.error.Some? then prev
      else
        match RowStep(prev.table, target, names, rows[|rows| - 1], hash)
        case Success(next) => Applied(next, None)
        case Failure(e) => Applied(prev.table, Some(e))
  }

  /** With every column the constructor reads present, no row raises. */
  lemma {:induction false} ApplyRowsSucceeds(t: seq<Record>, target: Target, names: seq<string>, rows: seq<Row>,
                                             hash: string -> string)
    requires HasColumns(target, names)
    ensures ApplyRows(t, target, names, rows, hash).error.None?
    decreases |rows|
  {
    if rows != [] {
      ApplyRowsSucceeds(t, target, names, rows[..|rows| - 1], hash);
    }
  }

  /** Reconciling rows keeps at most one record per symbol. */
  lemma {:induction false} ApplyRowsKeepsUnique(t: seq<Record>, target: Target, names: seq<string>, rows: seq<Row>,
                                                hash: string -> string)
    requires UniqueSymbols(t)
    ensures UniqueSymbols(ApplyRows(t, target, names, rows, hash).table)
    decreases |rows|
  {
    if rows != [] {
      var m := |rows| - 1;
      ApplyRowsKeepsUnique(t, target, names, rows[..m], hash);
      var prev := ApplyRows(t, target, names, rows[..m], hash);
      if prev.error.None? && RowStep(prev.table, target, names, rows[m], hash).Success? {
        RowStepKeepsUnique(prev.table, target, names, rows[m], hash);
      }
    }
  }

  lemma RowStepKeepsUnique(t: seq<Record>, target: Target, names: seq<string>, row: Row, hash: string -> string)
    requires RowStep(t, target, names, row, hash).Success?
    ensures UniqueSymbols(t) ==> UniqueSymbols(RowStep(t, target, names, row, hash).value)
  {
    var key := Column(names, row.fields, KeyColumn(target)).value;
    var fingerprint := hash(row.line);
    if Decide(t, key, fingerprint) != Skip && UniqueSymbols(t) {
      StepKeepsUnique(t, Build(target, names, row.fields, fingerprint).value);
    }
  }

  /** One more row: the next row's step on the table the rows before it left. */
  lemma ApplyRowsNext(t: seq<Record>, target: Target, names: seq<string>, rows: seq<Row>, hash: string -> string, i: nat)
    requires i < |rows| && ApplyRows(t, target, names, rows[..i], hash).error.None?
    ensures var prev := ApplyRows(t, target, names, rows[..i], hash).table;
            ApplyRows(t, target, names, rows[..i + 1], hash)
            == match RowStep(prev, target, names, rows[i], hash)
               case Success(next) => Applied(next, None)
               case Failure(e) => Applied(prev, Some(e))
  {
    assert rows[..i + 1][..i] == rows[..i];
  }

  /**
   * A failed row ends the load: whatever rows follow it, the table and the
   * error stay those of the failure, so the rows before it keep their commits.
   */
  lemma {:induction false} FailureIsFinal(t: seq<Record>, target: Target, names: seq<string>, rows: seq<Row>,
                                          hash: string -> string, n: nat)
    requires n <= |rows| && ApplyRows(t, target, names, rows[..n], hash).error.Some?
    ensures ApplyRows(t, target, names, rows, hash) == ApplyRows(t, target, names, rows[..n], hash)
    decreases |rows|
  {
    if n < |rows| {
      var m := |rows| - 1;
      var pre := rows[..m];
      assert pre[..n] == rows[..n];
      FailureIsFinal(t, target, names, pre, hash, n);
      assert rows == pre + [rows[m]];
      RowAfterFailure(t, target, names, pre, rows[m], hash);
    } else {
      assert rows[..n] == rows;
    }
  }

  /** A row after a failed one changes nothing. */
  lemma RowAfterFailure(t: seq<Record>, target: Target, names: seq<string>, pre: seq<Row>, x: Row,
                        hash: string -> string)
    requires ApplyRows(t, target, names, pre, hash).error.Some?
    ensures ApplyRows(t, target, names, pre + [x], hash) == ApplyRows(t, target, names, pre, hash)
  {
    assert (pre + [x])[..|pre|] == pre;
  }

  // ---------------------------------------------------------------- blobs

  /** `[clean_header(header) for header in headers.split(',')]` */
  function HeaderNames(line: string): (names: seq<string>)
    ensures |names| == |Split(line, ',')|
  {
    var parts := Split(line, ',');
    seq(|parts|, i requires 0 <= i < |parts| => CleanHeader(parts[i]))
  }

  /** Every name of the header is a cleaned name. */
  lemma HeaderNamesClean(line: string)
    ensures forall i :: 0 <= i < |HeaderNames(line)| ==> Clean(HeaderNames(line)[i])
  {
    forall i | 0 <= i < |HeaderNames(line)| ensures Clean(HeaderNames(line)[i]) {
      CleanHeaderShape(Split(line, ',')[i]);
    }
  }

  /** The blob's lines without the header, and the header's names. */
  datatype Parsed = Parsed(names: seq<string>, data: seq<string>)

  /** `body.splitlines()`, then `lines.pop(0)`: an IndexError when there are no lines. */
  function ParseBlob(body: string): (r: Result<Parsed, LoadError>)
    ensures r.Failure? <==> SplitLines(body) == []
    ensures r.Failure? ==> r.error == EmptyBlob
    ensures r.Success? ==> forall i :: 0 <= i < |r.value.data| ==> NoCrLf(r.value.data[i])
    ensures r.Success? ==> [SplitLines(body)[0]] + r.value.data == SplitLines(body)
  {
    var lines := SplitLines(body);
    if lines == [] then Failure(EmptyBlob)
    else
      assert forall i :: 1 <= i < |lines| ==> NoCrLf(lines[i]) by {
        forall i | 1 <= i < |lines| ensures NoCrLf(lines[i]) {
          assert LineFree(lines[i]);
        }
      }
      Success(Parsed(HeaderNames(lines[0]), lines[1..]))
  }

  function TableOf(t: Tables, target: Target): seq<Record> {
    match target
    case UpcomingTable => t.upcoming
    case CompletedTable => t.completed
  }

  function WithTable(t: Tables, target: Target, table: seq<Record>): (r: Tables)
    ensures TableOf(r, target) == table
  {
    match target
    case UpcomingTable => t.(upcoming := table)
    case CompletedTable => t.(completed := table)
  }

  /** Both tables after `load_file`, and the exception it raised, if any. */
  datatype Outcome = Outcome(tables: Tables, error: Option<LoadError>)

  ghost predicate TablesUnique(t: Tables) {
    UniqueSymbols(t.upcoming) && UniqueSymbols(t.completed)
  }

  /**
   * `load_file(blob)`: an empty blob raises before anything else; a blob
   * whose key has neither prefix changes nothing; otherwise the rows are
   * reconciled into the routed table and the other table is left alone.
   */
  function LoadBlob(t: Tables, blob: Blob, hash: string -> string): (r: Outcome)
    ensures SplitLines(blob.body) == [] ==> r == Outcome(t, Some(EmptyBlob))
    ensures SplitLines(blob.body) != [] && RouteOf(blob.key) == None ==> r == Outcome(t, None)
    ensures RouteOf(blob.key) != Some(UpcomingTable) ==> r.tables.upcoming == t.upcoming
    ensures RouteOf(blob.key) != Some(CompletedTable) ==> r.tables.completed == t.completed
  {
    match ParseBlob(blob.body)
    case Failure(e) => Outcome(t, Some(e))
    case Success(parsed) =>
      match RouteOf(blob.key)
      case None => Outcome(t, None)
      case Some(target) =>
        var a := ApplyRows(TableOf(t, target), target, parsed.names, DictRows(parsed.data), hash);
        Outcome(WithTable(t, target, a.table), a.error)
  }

  /** A load keeps at most one record per symbol in both tables. */
  lemma LoadBlobKeepsUnique(t: Tables, blob: Blob, hash: string -> string)
    requires TablesUnique(t)
    ensures TablesUnique(LoadBlob(t, blob, hash).tables)
  {
    match ParseBlob(blob.body)
    case Failure(_) =>
    case Success(parsed) =>
      match RouteOf(blob.key)
      case None =>
      case Some(target) =>
        ApplyRowsKeepsUnique(TableOf(t, target), target, parsed.names, DictRows(parsed.data), hash);
  }

  /** A blob with a header line and a routed key is the routed table's rows, reconciled. */
  lemma LoadBlobRouted(t: Tables, blob: Blob, hash: string -> string, target: Target, parsed: Parsed)
    requires ParseBlob(blob.body) == Success(parsed) && RouteOf(blob.key) == Some(target)
    ensures var a := ApplyRows(TableOf(t, target), target, parsed.names, DictRows(parsed.data), hash);
            LoadBlob(t, blob, hash) == Outcome(WithTable(t, target, a.table), a.error)
  {
  }

  // ---------------------------------------------------------------- the queue

  /** The tables after draining, how many blobs were loaded (and deleted), and the error that stopped it. */
  datatype Drained = Drained(tables: Tables, loaded: nat, error: Option<LoadError>)

  /** `load_file` as the drain loop calls it: the outcome of one blob on the current tables. */
  function LoadWith(hash: string -> string): (Tables, Blob) -> Outcome
  {
    (t: Tables, blob: Blob) => LoadBlob(t, blob, hash)
  }

  /**
   * `main`: the blobs loaded in order by `load`, each deleted once its load
   * returned; the first failing load ends the run with its own commits kept.
   * The loader's drain is `Drain(t, blobs, LoadWith(hash))`.
   */
  function Drain(t: Tables, blobs: seq<Blob>, load: (Tables, Blob) -> Outcome): (d: Drained)
    ensures d.loaded <= |blobs|
    ensures d.error.None? ==> d.loaded == |blobs|
    ensures d.error.Some? ==> d.loaded < |blobs|
    decreases |blobs|
  {
    if blobs == [] then Drained(t, 0, None)
    else
      var m := |blobs| - 1;
      var prev := Drain(t, blobs[..m], load);
      if prev.error.Some? then prev
      else
        var o := load(prev.tables, blobs[m]);
        Drained(o.tables, if o.error.None? then prev.loaded + 1 else prev.loaded, o.error)
  }

  /** Draining with `load_file` keeps at most one record per symbol in both tables. */
  lemma {:induction false} DrainKeepsUnique(t: Tables, blobs: seq<Blob>, hash: string -> string)
    requires TablesUnique(t)
    ensures TablesUnique(Drain(t, blobs, LoadWith(hash)).tables)
    decreases |blobs|
  {
    if blobs != [] {
      var m := |blobs| - 1;
      DrainKeepsUnique(t, blobs[..m], hash);
      var prev := Drain(t, blobs[..m], LoadWith(hash));
      assert LoadWith(hash)(prev.tables, blobs[m]) == LoadBlob(prev.tables, blobs[m], hash);
      if prev.error.None? {
        LoadBlobKeepsUnique(prev.tables, blobs[m], hash);
      }
    }
  }

  /**
   * A drain that fails stops at the first blob whose load raises: every blob
   * before it loaded without error, and the tables are what that blob's load
   * left, its committed rows included.
   */
  lemma {:induction false} DrainStopsAtFailure(t: Tables, blobs: seq<Blob>, load: (Tables, Blob) -> Outcome)
    requires Drain(t, blobs, load).error.Some?
    ensures var d := Drain(t, blobs, load);
            && Drain(t, blobs[..d.loaded], load) == Drained(Drain(t, blobs[..d.loaded], load).tables, d.loaded, None)
            && load(Drain(t, blobs[..d.loaded], load).tables, blobs[d.loaded]) == Outcome(d.tables, d.error)
    decreases |blobs|
  {
    var m := |blobs| - 1;
    var prev := Drain(t, blobs[..m], load);
    if prev.error.Some? {
      DrainStopsAtFailure(t, blobs[..m], load);
      assert blobs[..m][..prev.loaded] == blobs[..prev.loaded];
    } else {
      assert blobs[..prev.loaded] == blobs[..m];
    }
  }

  /** One more blob: its load on the tables the blobs before it left. */
  lemma DrainNext(t: Tables, blobs: seq<Blob>, load: (Tables, Blob) -> Outcome, i: nat)
    requires i < |blobs| && Drain(t, blobs[..i], load).error.None?
    ensures var prev := Drain(t, blobs[..i], load);
            var o := load(prev.tables, blobs[i]);
            Drain(t, blobs[..i + 1], load)
            == Drained(o.tables, if o.error.None? then prev.loaded + 1 else prev.loaded, o.error)
  {
    assert blobs[..i + 1][..i] == blobs[..i];
  }

  /**
   * The drain loop's step: when the blobs before `i` loaded and blob `i`
   * loads to `o`, either it loaded and the drain goes on, or the drain of
   * all the blobs ends there with `o`.
   */
  lemma DrainStep(t: Tables, blobs: seq<Blob>, load: (Tables, Blob) -> Outcome, i: nat, tables: Tables, o: Outcome)
    requires i < |blobs| && Drain(t, blobs[..i], load) == Drained(tables, i, None)
    requires load(tables, blobs[i]) == o
    ensures o.error.None? ==> Drain(t, blobs[..i + 1], load) == Drained(o.tables, i + 1, None)
    ensures o.error.Some? ==> Drain(t, blobs, load) == Drained(o.tables, i, o.error)
  {
    DrainNext(t, blobs, load, i);
    if o.error.Some? {
      DrainFailureIsFinal(t, blobs[..i + 1], blobs[i + 1..], load);
      assert blobs[..i + 1] + blobs[i + 1..] == blobs;
    }
  }

  /** A blob after a failed drain changes nothing. */
  lemma DrainAfterFailure(t: Tables, pre: seq<Blob>, x: Blob, load: (Tables, Blob) -> Outcome)
    requires Drain(t, pre, load).error.Some?
    ensures Drain(t, pre + [x], load) == Drain(t, pre, load)
  {
    assert (pre + [x])[..|pre|] == pre;
  }

  /** A failed load ends the drain: the blobs after it change nothing. */
  lemma {:induction false} DrainFailureIsFinal(t: Tables, pre: seq<Blob>, post: seq<Blob>,
                                               load: (Tables, Blob) -> Outcome)
    requires Drain(t, pre, load).error.Some?
    ensures Drain(t, pre + post, load) == Drain(t, pre, load)
    decreases |post|
  {
    if post == [] {
      assert pre + post == pre;
    } else {
      var m := |post| - 1;
      DrainFailureIsFinal(t, pre, post[..m], load);
      assert pre + post == (pre + post[..m]) + [post[m]];
      DrainAfterFailure(t, pre + post[..m], post[m], load);
    }
  }
}
