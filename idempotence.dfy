/**
 * Loading the same blob twice. The second load can move records (a replace
 * appends), so the tables are equal symbol by symbol and as multisets, and
 * exactly equal when the blob's keys are distinct. The argument looks at one
 * symbol at a time: the records with symbol `k` after the rows are a fold of
 * the rows with key `k` only.
 */
module Idempotence {
  import opened Wrappers
  import opened CsvDialect
  import opened ObjectStore
  import opened Reconcile

  /** The table after a sequence of rows whose records all build: the rows' steps in order. */
  function Fold(t: seq<Record>, recs: seq<Record>): seq<Record>
    decreases |recs|
  {
    if recs == [] then t else Step(Fold(t, recs[..|recs| - 1]), recs[|recs| - 1])
  }

  /** A row's step seen from the records with the row's own symbol. */
  function KeyStep(s: seq<Record>, rec: Record): seq<Record> {
    if s != [] && s[0].fingerprint == rec.fingerprint then s else [rec]
  }

  function KeyFold(s: seq<Record>, recs: seq<Record>): seq<Record>
    decreases |recs|
  {
    if recs == [] then s else KeyStep(KeyFold(s, recs[..|recs| - 1]), recs[|recs| - 1])
  }

  /** The records a complete header builds from the rows. */
  function Records(target: Target, names: seq<string>, rows: seq<Row>, hash: string -> string): (recs: seq<Record>)
    requires HasColumns(target, names)
    ensures |recs| == |rows|
  {
    seq(|rows|, i requires 0 <= i < |rows| => Build(target, names, rows[i].fields, hash(rows[i].line)).value)
  }

  // ------------------------------------------------------------ complete headers

  /** With every column present a row never fails, and its step is the record's `Step`. */
  lemma RowStepComplete(t: seq<Record>, target: Target, names: seq<string>, row: Row, hash: string -> string)
    requires HasColumns(target, names)
    ensures RowStep(t, target, names, row, hash)
            == Success(Step(t, Build(target, names, row.fields, hash(row.line)).value))
  {
    BuildKey(target, names, row.fields, hash(row.line));
  }

  lemma {:induction false} ApplyRowsComplete(t: seq<Record>, target: Target, names: seq<string>, rows: seq<Row>,
                                             hash: string -> string)
    requires HasColumns(target, names)
    ensures ApplyRows(t, target, names, rows, hash) == Applied(Fold(t, Records(target, names, rows, hash)), None)
    decreases |rows|
  {
    if rows != [] {
      var m := |rows| - 1;
      var recs := Records(target, names, rows, hash);
      var prev := ApplyRows(t, target, names, rows[..m], hash);
      assert prev == Applied(Fold(t, recs[..m]), None) by {
        ApplyRowsComplete(t, target, names, rows[..m], hash);
        assert recs[..m] == Records(target, names, rows[..m], hash);
      }
      RowStepComplete(prev.table, target, names, rows[m], hash);
    }
  }

  /** With a column missing, a load that succeeds skipped every row and changed nothing. */
  lemma {:induction false} IncompleteUnchanged(t: seq<Record>, target: Target, names: seq<string>, rows: seq<Row>,
                                               hash: string -> string)
    requires !HasColumns(target, names)
    requires ApplyRows(t, target, names, rows, hash).error.None?
    ensures ApplyRows(t, target, names, rows, hash).table == t
    decreases |rows|
  {
    if rows != [] {
      var m := |rows| - 1;
      var prev := ApplyRows(t, target, names, rows[..m], hash);
      assert prev.error.None?;
      assert prev.table == t by {
        IncompleteUnchanged(t, target, names, rows[..m], hash);
      }
      var row := rows[m];
      BuildSucceeds(target, names, row.fields, hash(row.line));
      assert RowStep(t, target, names, row, hash) == Success(t);
    }
  }

  // ------------------------------------------------------------ one symbol at a time

  /** The records with symbol `k` after the rows depend only on those before and the rows with key `k`. */
  lemma {:induction false} Projection(t: seq<Record>, recs: seq<Record>, k: Value)
    ensures WithSymbol(Fold(t, recs), k) == KeyFold(WithSymbol(t, k), WithSymbol(recs, k))
    decreases |recs|
  {
    if recs != [] {
      var m := |recs| - 1;
      var a, x := recs[..m], recs[m];
      assert recs == a + [x];
      var T := Fold(t, a);
      assert Fold(t, recs) == Step(T, x);
      Projection(t, a, k);
      WithSymbolSnoc(a, x, k);
      ProjectionStep(T, x, k);
      if x.symbol == k {
        assert WithSymbol(recs, k) == WithSymbol(a, k) + [x];
        KeyFoldSnoc(WithSymbol(t, k), WithSymbol(a, k), x);
        assert WithSymbol(Step(T, x), k) == KeyStep(WithSymbol(T, k), x);
      } else {
        assert WithSymbol(recs, k) == WithSymbol(a, k) + [];
        assert WithSymbol(recs, k) == WithSymbol(a, k);
        assert WithSymbol(Step(T, x), k) == WithSymbol(T, k);
      }
    }
  }

  lemma ProjectionStep(t: seq<Record>, x: Record, k: Value)
    ensures WithSymbol(Step(t, x), k) == if x.symbol == k then KeyStep(WithSymbol(t, k), x) else WithSymbol(t, k)
  {
    if x.symbol == k {
      StepOwn(t, x);
    } else {
      StepFrame(t, x, k);
    }
  }

  lemma KeyFoldSnoc(s: seq<Record>, w: seq<Record>, x: Record)
    ensures KeyFold(s, w + [x]) == KeyStep(KeyFold(s, w), x)
  {
    assert (w + [x])[..|w|] == w;
  }

  /** After at least one row the first record carries the last row's fingerprint. */
  lemma KeyFoldLast(s: seq<Record>, recs: seq<Record>)
    requires recs != []
    ensures KeyFold(s, recs) != [] && KeyFold(s, recs)[0].fingerprint == recs[|recs| - 1].fingerprint
  {
  }

  /** Two consecutive rows with different fingerprints make the outcome independent of the start. */
  lemma {:induction false} KeyFoldReset(s: seq<Record>, s': seq<Record>, recs: seq<Record>, j: nat)
    requires 1 <= j < |recs| && recs[j].fingerprint != recs[j - 1].fingerprint
    ensures KeyFold(s, recs) == KeyFold(s', recs)
    decreases |recs|
  {
    var m := |recs| - 1;
    if j == m {
      KeyFoldLast(s, recs[..m]);
      KeyFoldLast(s', recs[..m]);
    } else {
      KeyFoldReset(s, s', recs[..m], j);
    }
  }

  /** Rows that all carry the first record's fingerprint are all skipped. */
  lemma {:induction false} KeyFoldStable(s: seq<Record>, recs: seq<Record>)
    requires s != []
    requires forall i :: 0 <= i < |recs| ==> recs[i].fingerprint == s[0].fingerprint
    ensures KeyFold(s, recs) == s
    decreases |recs|
  {
    if recs != [] {
      KeyFoldStable(s, recs[..|recs| - 1]);
    }
  }

  /** Without a reset every fingerprint equals the last. */
  lemma {:induction false} NoResetSame(recs: seq<Record>, i: nat)
    requires forall j :: 1 <= j < |recs| ==> recs[j].fingerprint == recs[j - 1].fingerprint
    requires i < |recs|
    ensures recs[i].fingerprint == recs[|recs| - 1].fingerprint
    decreases |recs| - i
  {
    if i < |recs| - 1 {
      NoResetSame(recs, i + 1);
    }
  }

  lemma KeyFoldIdempotent(s: seq<Record>, recs: seq<Record>)
    ensures KeyFold(KeyFold(s, recs), recs) == KeyFold(s, recs)
  {
    if recs != [] {
      var r := KeyFold(s, recs);
      if j :| 1 <= j < |recs| && recs[j].fingerprint != recs[j - 1].fingerprint {
        KeyFoldReset(r, s, recs, j);
      } else {
        KeyFoldLast(s, recs);
        forall i | 0 <= i < |recs| ensures recs[i].fingerprint == r[0].fingerprint {
          NoResetSame(recs, i);
        }
        KeyFoldStable(r, recs);
      }
    }
  }

  /** Folding the same rows again leaves the records of every symbol as they are. */
  lemma FoldIdempotentBySymbol(t: seq<Record>, recs: seq<Record>, k: Value)
    ensures WithSymbol(Fold(Fold(t, recs), recs), k) == WithSymbol(Fold(t, recs), k)
  {
    Projection(Fold(t, recs), recs, k);
    Projection(t, recs, k);
    KeyFoldIdempotent(WithSymbol(t, k), WithSymbol(recs, k));
  }

  /** A record occurs in a table as often as among the records with its symbol. */
  lemma {:induction false} CountBySymbol(t: seq<Record>, x: Record)
    ensures multiset(t)[x] == multiset(WithSymbol(t, x.symbol))[x]
    decreases |t|
  {
    if t != [] {
      var a, y := t[..|t| - 1], t[|t| - 1];
      assert t == a + [y];
      CountBySymbol(a, x);
      WithSymbolSnoc(a, y, x.symbol);
    }
  }

  /** Tables with the same records for every symbol hold the same records. */
  lemma SameBySymbol(a: seq<Record>, b: seq<Record>)
    requires forall k :: WithSymbol(a, k) == WithSymbol(b, k)
    ensures multiset(a) == multiset(b)
  {
    forall x ensures multiset(a)[x] == multiset(b)[x] {
      CountBySymbol(a, x);
      CountBySymbol(b, x);
    }
  }

  // ------------------------------------------------------------ reloading a blob

  /** A load that raises has changed nothing before it raised: every earlier row was a skip. */
  lemma {:induction false} FailedRowsUnchanged(t: seq<Record>, target: Target, names: seq<string>, rows: seq<Row>,
                                               hash: string -> string)
    requires ApplyRows(t, target, names, rows, hash).error.Some?
    ensures ApplyRows(t, target, names, rows, hash).table == t
    decreases |rows|
  {
    if HasColumns(target, names) {
      ApplyRowsSucceeds(t, target, names, rows, hash);
      assert false;
    }
    var m := |rows| - 1;
    var prev := ApplyRows(t, target, names, rows[..m], hash);
    if prev.error.Some? {
      FailedRowsUnchanged(t, target, names, rows[..m], hash);
    } else {
      IncompleteUnchanged(t, target, names, rows[..m], hash);
    }
  }

  /**
   * Applying the same rows a second time raises exactly what the first pass
   * raised, and leaves every symbol's records, and so the table as a
   * multiset, as the first pass left them.
   */
  lemma ApplyRowsTwice(t: seq<Record>, target: Target, names: seq<string>, rows: seq<Row>, hash: string -> string)
    ensures var a1 := ApplyRows(t, target, names, rows, hash);
            var a2 := ApplyRows(a1.table, target, names, rows, hash);
            && a2.error == a1.error
            && (forall k :: WithSymbol(a2.table, k) == WithSymbol(a1.table, k))
            && multiset(a2.table) == multiset(a1.table)
  {
    var t1 := ApplyRows(t, target, names, rows, hash).table;
    if HasColumns(target, names) {
      var recs := Records(target, names, rows, hash);
      ApplyRowsComplete(t, target, names, rows, hash);
      ApplyRowsComplete(t1, target, names, rows, hash);
      forall k ensures WithSymbol(Fold(t1, recs), k) == WithSymbol(t1, k) {
        FoldIdempotentBySymbol(t, recs, k);
      }
      SameBySymbol(Fold(t1, recs), t1);
    } else if ApplyRows(t, target, names, rows, hash).error.None? {
      IncompleteUnchanged(t, target, names, rows, hash);
    } else {
      FailedRowsUnchanged(t, target, names, rows, hash);
    }
  }

  /**
   * Loading a blob a second time, as `main` does with a blob whose first
   * load raised and which therefore stayed in the bucket, raises exactly what
   * the first load raised and leaves every symbol's records, and so both
   * tables as multisets, as the first load left them.
   */
  lemma ReloadIdempotent(t: Tables, blob: Blob, hash: string -> string)
    ensures var o1 := LoadBlob(t, blob, hash);
            var o2 := LoadBlob(o1.tables, blob, hash);
            && o2.error == o1.error
            && (forall k :: WithSymbol(o2.tables.upcoming, k) == WithSymbol(o1.tables.upcoming, k))
            && (forall k :: WithSymbol(o2.tables.completed, k) == WithSymbol(o1.tables.completed, k))
            && multiset(o2.tables.upcoming) == multiset(o1.tables.upcoming)
            && multiset(o2.tables.completed) == multiset(o1.tables.completed)
  {
    match ParseBlob(blob.body)
    case Failure(_) =>
    case Success(parsed) =>
      match RouteOf(blob.key)
      case None =>
      case Some(target) =>
        ApplyRowsTwice(TableOf(t, target), target, parsed.names, DictRows(parsed.data), hash);
  }

  /**
   * Why reloading is equal only up to order: a blob whose rows are `a1` and
   * `a2` with one symbol and different fingerprints, then `b` with another
   * symbol, loaded into an empty table, leaves `[a2, b]`; loading it again
   * replaces that symbol's record twice, which moves it behind `b`.
   */
  lemma ReloadReorders(a1: Record, a2: Record, b: Record)
    requires a1.symbol == a2.symbol && a1.fingerprint != a2.fingerprint && b.symbol != a1.symbol
    ensures Fold([], [a1, a2, b]) == [a2, b]
    ensures Fold([a2, b], [a1, a2, b]) == [b, a2]
    ensures [b, a2] != [a2, b]
  {
    FirstLoad(a1, a2, b);
    FoldThree([], a1, a2, b);
    SecondLoad(a1, a2, b);
    FoldThree([a2, b], a1, a2, b);
  }

  /** The first load of the rows of `ReloadReorders`, step by step. */
  lemma FirstLoad(a1: Record, a2: Record, b: Record)
    requires a1.symbol == a2.symbol && a1.fingerprint != a2.fingerprint && b.symbol != a1.symbol
    ensures Step(Step(Step([], a1), a2), b) == [a2, b]
  {
    assert Step([], a1) == [a1] by {
      assert WithSymbol([], a1.symbol) == [];
    }
    assert Step([a1], a2) == [a2] by {
      SmallFilters(a1, a2, a2.symbol);
    }
    assert Step([a2], b) == [a2, b] by {
      SmallFilters(a2, b, b.symbol);
    }
  }

  /** The second load of the same rows, step by step. */
  lemma SecondLoad(a1: Record, a2: Record, b: Record)
    requires a1.symbol == a2.symbol && a1.fingerprint != a2.fingerprint && b.symbol != a1.symbol
    ensures Step(Step(Step([a2, b], a1), a2), b) == [b, a2]
  {
    ReplaceFirstOfPair(a2, b, a1);
    ReplaceLastOfPair(b, a1, a2);
    SkipFirstOfPair(b, a2);
  }

  lemma ReplaceFirstOfPair(x: Record, y: Record, r: Record)
    requires x.symbol == r.symbol && x.fingerprint != r.fingerprint && y.symbol != r.symbol
    ensures Step([x, y], r) == [y, r]
  {
    SmallFilters(x, y, r.symbol);
    assert Decide([x, y], r.symbol, r.fingerprint) == Replace;
  }

  lemma ReplaceLastOfPair(x: Record, y: Record, r: Record)
    requires y.symbol == r.symbol && y.fingerprint != r.fingerprint && x.symbol != r.symbol
    ensures Step([x, y], r) == [x, r]
  {
    SmallFilters(x, y, r.symbol);
    assert Decide([x, y], r.symbol, r.fingerprint) == Replace;
  }

  lemma SkipFirstOfPair(x: Record, y: Record)
    requires y.symbol != x.symbol
    ensures Step([x, y], x) == [x, y]
  {
    SmallFilters(x, y, x.symbol);
    assert Decide([x, y], x.symbol, x.fingerprint) == Skip;
  }

  /** The records of one- and two-record tables with symbol `k`, and the others. */
  lemma SmallFilters(x: Record, y: Record, k: Value)
    ensures WithSymbol([x], k) == (if x.symbol == k then [x] else [])
    ensures Without([x], k) == (if x.symbol != k then [x] else [])
    ensures WithSymbol([x, y], k) == WithSymbol([x], k) + (if y.symbol == k then [y] else [])
    ensures Without([x, y], k) == Without([x], k) + (if y.symbol != k then [y] else [])
  {
    SingleFilters(x, k);
    assert [x, y][..1] == [x];
  }

  lemma SingleFilters(x: Record, k: Value)
    ensures WithSymbol([x], k) == (if x.symbol == k then [x] else [])
    ensures Without([x], k) == (if x.symbol != k then [x] else [])
  {
    assert [x][..0] == [];
  }

  /** Three rows are three steps. */
  lemma FoldThree(t: seq<Record>, x: Record, y: Record, z: Record)
    ensures Fold(t, [x, y, z]) == Step(Step(Step(t, x), y), z)
  {
    assert Fold(t, [x]) == Step(t, x) by {
      assert [x][..0] == [];
    }
    assert Fold(t, [x, y]) == Step(Fold(t, [x]), y) by {
      assert [x, y][..1] == [x];
    }
    assert [x, y, z][..2] == [x, y];
  }

  // ------------------------------------------------------------ distinct keys

  /** With distinct symbols, the only record with a row's symbol is that row's. */
  lemma {:induction false} OnlyOwnSymbol(recs: seq<Record>, i: nat)
    requires i < |recs|
    requires forall p, q :: 0 <= p < q < |recs| ==> recs[p].symbol != recs[q].symbol
    ensures WithSymbol(recs, recs[i].symbol) == [recs[i]]
    decreases |recs|
  {
    var m := |recs| - 1;
    var a, x := recs[..m], recs[m];
    assert recs == a + [x];
    WithSymbolSnoc(a, x, recs[i].symbol);
    if i == m {
      NoneWithSymbol(a, x.symbol);
    } else {
      OnlyOwnSymbol(a, i);
    }
  }

  lemma {:induction false} NoneWithSymbol(recs: seq<Record>, k: Value)
    requires forall p :: 0 <= p < |recs| ==> recs[p].symbol != k
    ensures WithSymbol(recs, k) == []
    decreases |recs|
  {
    if recs != [] {
      NoneWithSymbol(recs[..|recs| - 1], k);
    }
  }

  /** Rows that are all skipped against a table leave it as it is. */
  lemma {:induction false} AllSkipped(t: seq<Record>, recs: seq<Record>)
    requires forall i :: 0 <= i < |recs| ==> Decide(t, recs[i].symbol, recs[i].fingerprint) == Skip
    ensures Fold(t, recs) == t
    decreases |recs|
  {
    if recs != [] {
      AllSkipped(t, recs[..|recs| - 1]);
    }
  }

  /**
   * When the rows' symbols are distinct, the second pass skips every row:
   * before each row the table is the one the first pass left, and the row's
   * decision against it is Skip.
   */
  lemma DistinctSecondPassSkips(t: seq<Record>, recs: seq<Record>)
    requires forall p, q :: 0 <= p < q < |recs| ==> recs[p].symbol != recs[q].symbol
    ensures var t1 := Fold(t, recs);
            && Fold(t1, recs) == t1
            && forall i :: 0 <= i < |recs| ==>
                 Fold(t1, recs[..i]) == t1 && Decide(t1, recs[i].symbol, recs[i].fingerprint) == Skip
  {
    var t1 := Fold(t, recs);
    forall i | 0 <= i < |recs| ensures Decide(t1, recs[i].symbol, recs[i].fingerprint) == Skip {
      var k := recs[i].symbol;
      Projection(t, recs, k);
      OnlyOwnSymbol(recs, i);
      assert [recs[i]][..0] == [];
      KeyFoldLast(WithSymbol(t, k), [recs[i]]);
    }
    AllSkipped(t1, recs);
    forall i | 0 <= i < |recs| ensures Fold(t1, recs[..i]) == t1 {
      AllSkipped(t1, recs[..i]);
    }
  }

  /**
   * The same for whole rows: when the header is complete and the rows' keys
   * are distinct, reloading gives back exactly the table of the first load.
   */
  /**
   * A blob whose header lacks a column the constructor reads never changes
   * the table: every row is a skip until one raises, so loading it again
   * gives exactly the same table and the same error.
   */
  lemma IncompleteReloadExact(t: seq<Record>, target: Target, names: seq<string>, rows: seq<Row>,
                              hash: string -> string)
    requires !HasColumns(target, names)
    ensures var a1 := ApplyRows(t, target, names, rows, hash);
            a1.table == t && ApplyRows(a1.table, target, names, rows, hash) == a1
  {
    if ApplyRows(t, target, names, rows, hash).error.None? {
      IncompleteUnchanged(t, target, names, rows, hash);
    } else {
      FailedRowsUnchanged(t, target, names, rows, hash);
    }
  }

  lemma DistinctReloadExact(t: seq<Record>, target: Target, names: seq<string>, rows: seq<Row>, hash: string -> string)
    requires HasColumns(target, names)
    requires forall p, q :: 0 <= p < q < |rows| ==>
               Lookup(names, rows[p].fields, KeyColumn(target)) != Lookup(names, rows[q].fields, KeyColumn(target))
    ensures var t1 := ApplyRows(t, target, names, rows, hash).table;
            ApplyRows(t1, target, names, rows, hash) == Applied(t1, None)
  {
    var recs := Records(target, names, rows, hash);
    forall p | 0 <= p < |rows| ensures recs[p].symbol == Lookup(names, rows[p].fields, KeyColumn(target)).value {
      BuildKey(target, names, rows[p].fields, hash(rows[p].line));
    }
    DistinctSecondPassSkips(t, recs);
    ApplyRowsComplete(t, target, names, rows, hash);
    ApplyRowsComplete(Fold(t, recs), target, names, rows, hash);
  }
}
