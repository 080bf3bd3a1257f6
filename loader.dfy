/**
 * The loader lambda (data-loader/load_data.py) as it runs: a database session
 * whose two tables `load_file` changes row by row, and the `main` loop that
 * drains the bucket. Each method is proved against the functions of
 * `Reconcile`, whose properties are proved there and in `Idempotence`.
 */
module Loader {
  import opened Wrappers
  import opened PyStr
  import opened CsvDialect
  import opened ObjectStore
  import opened Reconcile

  /** The committed contents of the `upcoming_ipos` and `ipos` tables. */
  class Store {
    var upcoming: seq<Record>
    var completed: seq<Record>
    /** `hashlib.sha256(line.encode()).hexdigest()`, left uninterpreted. */
    const hash: string -> string

    constructor (upcoming: seq<Record>, completed: seq<Record>, hash: string -> string)
      ensures this.upcoming == upcoming && this.completed == completed && this.hash == hash
    {
      this.upcoming := upcoming;
      this.completed := completed;
      this.hash := hash;
    }

    function Contents(): Tables
      reads this
    {
      Tables(upcoming, completed)
    }

    function Table(target: Target): seq<Record>
      reads this
    {
      TableOf(Contents(), target)
    }

    /** `session.commit()` of a new version of one table. */
    method Commit(target: Target, table: seq<Record>)
      modifies this
      ensures Contents() == WithTable(old(Contents()), target, table)
    {
      match target
      case UpcomingTable => upcoming := table;
      case CompletedTable => completed := table;
    }

    /**
     * One row on the routed table: the key lookup, the `first()` query, and
     * a skip, or a delete and an add, or an add, committed together. A
     * KeyError leaves the staged delete uncommitted.
     */
    method ReconcileRow(target: Target, names: seq<string>, row: Row) returns (error: Option<LoadError>)
      modifies this
      ensures match RowStep(old(Table(target)), target, names, row, hash)
              case Success(t) => error.None? && Contents() == WithTable(old(Contents()), target, t)
              case Failure(e) => error == Some(e) && Contents() == old(Contents())
    {
      var table := Table(target);
      var key := Column(names, row.fields, KeyColumn(target));
      if key.Failure? {
        assert RowStep(table, target, names, row, hash) == Failure(key.error);
        return Some(key.error);
      }
      var fingerprint := hash(row.line);
      var first := FirstWith(table, key.value);
      var staged := table;
      if first.Some? {
        if first.value.fingerprint == fingerprint {
          assert Decide(table, key.value, fingerprint) == Skip;
          assert RowStep(table, target, names, row, hash) == Success(table);
          assert Contents() == WithTable(old(Contents()), target, table);
          return None;
        }
        staged := Without(table, key.value);
      }
      assert Decide(table, key.value, fingerprint) != Skip;
      var rec := Build(target, names, row.fields, fingerprint);
      if rec.Failure? {
        assert RowStep(table, target, names, row, hash) == Failure(rec.error);
        return Some(rec.error);
      }
      BuildKey(target, names, row.fields, fingerprint);
      assert staged + [rec.value] == Step(table, rec.value);
      assert RowStep(table, target, names, row, hash) == Success(staged + [rec.value]);
      staged := staged + [rec.value];
      Commit(target, staged);
      return None;
    }

    /**
     * `load_file`: split the body into lines, pop the header, clean its
     * names, and reconcile every `DictReader` row into the table the key
     * routes to, stopping at the first row that raises.
     */
    method LoadFile(blob: Blob) returns (error: Option<LoadError>)
      modifies this
      ensures Outcome(Contents(), error) == LoadBlob(old(Contents()), blob, hash)
    {
      var lines := SplitLines(blob.body);
      if lines == [] {
        return Some(EmptyBlob);
      }
      var header := lines[0];
      lines := lines[1..];
      var names := HeaderNames(header);
      assert ParseBlob(blob.body) == Success(Parsed(names, lines));
      var rows := DictRows(lines);
      var route := RouteOf(blob.key);
      if route.None? {
        return None;
      }
      var target := route.value;
      var start := old(Table(target));
      var i := 0;
      while i < |rows|
        invariant 0 <= i <= |rows|
        invariant ApplyRows(start, target, names, rows[..i], hash) == Applied(Table(target), None)
        invariant Contents() == WithTable(old(Contents()), target, Table(target))
      {
        ApplyRowsNext(start, target, names, rows, hash, i);
        error := ReconcileRow(target, names, rows[i]);
        if error.Some? {
          FailureIsFinal(start, target, names, rows, hash, i + 1);
          return;
        }
        i := i + 1;
      }
      assert rows[..i] == rows;
      return None;
    }
  }

  /**
   * `main`: every object of the bucket's listing, in order, is loaded and
   * then deleted; the first load that raises ends the run, leaving that
   * object and all after it in the bucket.
   */
  method DrainBucket(store: Store, bucket: Bucket) returns (error: Option<LoadError>)
    requires DistinctKeys(bucket.objects)
    modifies store, bucket
    ensures var d := Drain(old(store.Contents()), old(bucket.objects), LoadWith(store.hash));
            && store.Contents() == d.tables
            && error == d.error
            && bucket.objects == old(bucket.objects)[d.loaded..]
  {
    var queue := bucket.objects;
    var start := store.Contents();
    var i := 0;
    error := None;
    while i < |queue|
      invariant 0 <= i <= |queue|
      invariant Drain(start, queue[..i], LoadWith(store.hash)) == Drained(store.Contents(), i, None)
      invariant bucket.objects == queue[i..]
      invariant error.None?
    {
      ghost var before := store.Contents();
      error := store.LoadFile(queue[i]);
      DrainStep(start, queue, LoadWith(store.hash), i, before, Outcome(store.Contents(), error));
      if error.Some? {
        return;
      }
      assert DistinctKeys(queue[i..]);
      RemovedFirst(queue[i..]);
      bucket.Delete(queue[i].key);
      assert queue[i..][1..] == queue[i + 1..];
      i := i + 1;
    }
    assert queue[..i] == queue;
  }
}
