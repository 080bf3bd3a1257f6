/**
 * The `csv` module's excel dialect as the collector and the loader use it.
 *
 * Writing (`csv.writer`, QUOTE_MINIMAL): a field is quoted when it holds a
 * delimiter `,`, a quote `"` or a character of the "\r\n" terminator; inside
 * quotes every `"` is doubled; fields are joined by `,` and each record ends
 * with "\r\n" (RFC 4180 section 2 describes the same format). A record made
 * of one empty field is written as `""` so that it does not read back as a
 * blank line.
 *
 * Reading (`csv.reader` over the list of lines that `splitlines()` produced,
 * then `csv.DictReader` with explicit field names): a character-level state
 * machine; a line that ends inside a quoted field continues the record on the
 * next line (the line break itself is lost, since `splitlines()` removed it);
 * a blank line reads as the empty record, which `DictReader` skips, but only
 * AFTER it has taken the reader's line count for the row it is about to return.
 */
module CsvDialect {
  import opened Wrappers
  import opened PyStr

  // ---------------------------------------------------------------- writer

  predicate NeedsQuotes(field: string) {
    ',' in field || '"' in field || '\r' in field || '\n' in field
  }

  /** Every `"` doubled, everything else kept. */
  function Escape(field: string): (r: string)
    ensures '"' !in field ==> r == field
    ensures LineFree(field) ==> LineFree(r)
    ensures NoCrLf(field) ==> NoCrLf(r)
  {
    if field == [] then []
    else (if field[0] == '"' then "\"\"" else [field[0]]) + Escape(field[1..])
  }

  function FormatField(field: string): string
  {
    if NeedsQuotes(field) then "\"" + Escape(field) + "\"" else field
  }

  function FormatFields(record: seq<string>): (r: seq<string>)
    ensures |r| == |record|
    ensures forall i :: 0 <= i < |record| ==> r[i] == FormatField(record[i])
  {
    seq(|record|, i requires 0 <= i < |record| => FormatField(record[i]))
  }

  /** `writer.writerow(record)` without its terminator. */
  function FormatRecord(record: seq<string>): string
  {
    if record == [""] then "\"\"" else Join(FormatFields(record), ',')
  }

  function FormatRecords(records: seq<seq<string>>): (r: seq<string>)
    ensures |r| == |records|
    ensures forall i :: 0 <= i < |records| ==> r[i] == FormatRecord(records[i])
  {
    seq(|records|, i requires 0 <= i < |records| => FormatRecord(records[i]))
  }

  /** The text a `csv.writer` leaves in its buffer after writing `records` in order. */
  function CsvText(records: seq<seq<string>>): string
  {
    CrlfJoin(FormatRecords(records))
  }

  predicate CellsLineFree(record: seq<string>) {
    forall i :: 0 <= i < |record| ==> LineFree(record[i])
  }

  // ---------------------------------------------------------------- reader

  /** No character the reader treats as an end of line. */
  predicate NoCrLf(s: string) {
    forall k :: 0 <= k < |s| ==> s[k] != '\r' && s[k] != '\n'
  }

  datatype Mode = StartRecord | StartField | InField | InQuoted | QuoteInQuoted

  /** The reader's state: where it is, the field being built, the fields saved so far. */
  datatype Parser = Parser(mode: Mode, field: string, fields: seq<string>)

  const Fresh := Parser(StartRecord, "", [])

  /** One character of a line; `splitlines()` leaves no "\r" or "\n" inside a line. */
  function Feed(p: Parser, c: char): Parser
    requires c != '\r' && c != '\n'
  {
    match p.mode
    case StartRecord | StartField =>
      if c == '"' then Parser(InQuoted, p.field, p.fields)
      else if c == ',' then Parser(StartField, "", p.fields + [p.field])
      else Parser(InField, p.field + [c], p.fields)
    case InField =>
      if c == ',' then Parser(StartField, "", p.fields + [p.field])
      else Parser(InField, p.field + [c], p.fields)
    case InQuoted =>
      if c == '"' then Parser(QuoteInQuoted, p.field, p.fields)
      else Parser(InQuoted, p.field + [c], p.fields)
    case QuoteInQuoted =>
      if c == '"' then Parser(InQuoted, p.field + ['"'], p.fields)
      else if c == ',' then Parser(StartField, "", p.fields + [p.field])
      else Parser(InField, p.field + [c], p.fields)
  }

  function FeedLine(p: Parser, line: string): Parser
    requires NoCrLf(line)
    decreases |line|
  {
    if line == [] then p else FeedLine(Feed(p, line[0]), line[1..])
  }

  /** What the end of a line does: finish the record, or carry on inside a quoted field. */
  datatype LineEnd = Complete(record: seq<string>) | Pending(parser: Parser)

  function EndOfLine(p: Parser): (e: LineEnd)
    ensures e.Pending? <==> p.mode == InQuoted
  {
    match p.mode
    case StartRecord => Complete([])
    case InQuoted => Pending(p)
    case _ => Complete(p.fields + [p.field])
  }

  /**
   * The next record from `lines[pos..]`, continuing the partly read record `p`,
   * with the reader's line count after it. At the end of the input, a record
   * still inside a quoted field is returned as it stands.
   */
  function NextRecord(lines: seq<string>, pos: nat, p: Parser): (r: Option<(seq<string>, nat)>)
    requires pos <= |lines|
    requires forall i :: 0 <= i < |lines| ==> NoCrLf(lines[i])
    ensures r.Some? ==> pos <= r.value.1 <= |lines|
    ensures r.Some? && p.mode != InQuoted ==> pos < r.value.1
    decreases |lines| - pos
  {
    if pos == |lines| then
      if p.mode == InQuoted then Some((p.fields + [p.field], pos)) else None
    else
      match EndOfLine(FeedLine(p, lines[pos]))
      case Complete(record) => Some((record, pos + 1))
      case Pending(q) => NextRecord(lines, pos + 1, q)
  }

  /** A row of `csv.DictReader` and the line `lines[reader.line_num - 1]` it is fingerprinted by. */
  datatype Row = Row(fields: seq<string>, line: string)

  /**
   * The rows `DictReader` yields from `lines[pos..]`. `held` is the line count
   * taken before blank records were skipped.
   */
  function Rows(lines: seq<string>, pos: nat, held: Option<nat>): seq<Row>
    requires pos <= |lines|
    requires forall i :: 0 <= i < |lines| ==> NoCrLf(lines[i])
    requires held.Some? ==> 1 <= held.value <= pos
    decreases |lines| - pos
  {
    match NextRecord(lines, pos, Fresh)
    case None => []
    case Some((record, next)) =>
      var num := if held.Some? then held.value else next;
      if record == [] then Rows(lines, next, Some(num))
      else [Row(record, lines[num - 1])] + Rows(lines, next, None)
  }

  function DictRows(lines: seq<string>): seq<Row>
    requires forall i :: 0 <= i < |lines| ==> NoCrLf(lines[i])
  {
    Rows(lines, 0, None)
  }

  /** A `DictReader` value: a field of the row, or its `restval` None for a short row. */
  datatype Value = Null | Text(text: string)

  /** The last position of `name`, which is the one `dict(zip(...))` keeps. */
  function LastIndex(names: seq<string>, name: string): (j: nat)
    requires name in names
    ensures j < |names| && names[j] == name
    ensures forall k :: j < k < |names| ==> names[k] != name
  {
    if names[|names| - 1] == name then |names| - 1
    else LastIndex(names[..|names| - 1], name)
  }

  /** `row[name]`: None is the KeyError of a name that is not a field name. */
  function Lookup(names: seq<string>, fields: seq<string>, name: string): (v: Option<Value>)
    ensures v.None? <==> name !in names
  {
    if name !in names then None
    else
      var j := LastIndex(names, name);
      Some(if j < |fields| then Text(fields[j]) else Null)
  }

  // ------------------------------------------------------ reader lemmas

  /** With distinct names, a name looks up the field in its own column, or None past the row's end. */
  lemma LookupColumn(names: seq<string>, fields: seq<string>, i: nat)
    requires i < |names|
    requires forall a, b :: 0 <= a < b < |names| ==> names[a] != names[b]
    ensures Lookup(names, fields, names[i]) == Some(if i < |fields| then Text(fields[i]) else Null)
  {
    var j := LastIndex(names, names[i]);
    assert j == i by {
      if j < i { assert names[j] == names[i]; }
    }
  }

  lemma {:induction false} FeedLineAppend(p: Parser, a: string, b: string)
    requires NoCrLf(a) && NoCrLf(b)
    ensures NoCrLf(a + b)
    ensures FeedLine(p, a + b) == FeedLine(FeedLine(p, a), b)
    decreases |a|
  {
    if a != [] {
      assert (a + b)[1..] == a[1..] + b;
      FeedLineAppend(Feed(p, a[0]), a[1..], b);
    } else {
      assert a + b == b;
    }
  }

  lemma FeedLineOne(p: Parser, c: char)
    requires c != '\r' && c != '\n'
    ensures NoCrLf([c]) && FeedLine(p, [c]) == Feed(p, c)
  {
    assert [c][1..] == [];
  }

  /** Inside quotes, an escaped field reads back as itself. */
  lemma {:induction false} FeedEscaped(acc: string, fields: seq<string>, f: string)
    requires NoCrLf(f)
    ensures NoCrLf(Escape(f))
    ensures FeedLine(Parser(InQuoted, acc, fields), Escape(f)) == Parser(InQuoted, acc + f, fields)
    decreases |f|
  {
    if f != [] {
      var p := Parser(InQuoted, acc, fields);
      var q := Parser(InQuoted, acc + [f[0]], fields);
      assert NoCrLf(f[1..]) by {
        forall k | 0 <= k < |f[1..]| ensures f[1..][k] != '\r' && f[1..][k] != '\n' {
          assert f[1..][k] == f[k + 1];
        }
      }
      var tail := Escape(f[1..]);
      assert FeedLine(q, tail) == Parser(InQuoted, acc + f, fields) by {
        FeedEscaped(acc + [f[0]], fields, f[1..]);
        assert acc + [f[0]] + f[1..] == acc + f;
      }
      var head := if f[0] == '"' then "\"\"" else [f[0]];
      assert Escape(f) == head + tail;
      assert NoCrLf(head) && FeedLine(p, head) == q by {
        if f[0] == '"' {
          var m := Parser(QuoteInQuoted, acc, fields);
          FeedLineOne(m, '"');
          assert head[0] == '"' && head[1..] == "\"";
          assert FeedLine(p, head) == FeedLine(m, head[1..]);
        } else {
          FeedLineOne(p, f[0]);
        }
      }
      FeedLineAppend(p, head, tail);
    }
  }

  /** At the start of a field: a fresh record, or just after a delimiter. */
  predicate AtFieldStart(p: Parser, fields: seq<string>) {
    p.field == "" && p.fields == fields
    && (p.mode == StartField || (p.mode == StartRecord && fields == []))
  }

  /** Just after a field `f`: a delimiter or the end of the line saves it. */
  predicate AfterField(p: Parser, fields: seq<string>, f: string) {
    p.field == f && p.fields == fields
    && (p.mode == StartField || p.mode == InField || p.mode == QuoteInQuoted
        || (p.mode == StartRecord && fields == []))
    && (p.mode == StartField || p.mode == StartRecord ==> f == "")
  }

  lemma {:induction false} FeedPlain(p: Parser, fields: seq<string>, acc: string, f: string)
    requires p.mode == InField && p.field == acc && p.fields == fields
    requires !NeedsQuotes(f)
    ensures NoCrLf(f)
    ensures FeedLine(p, f) == Parser(InField, acc + f, fields)
    decreases |f|
  {
    if f != [] {
      assert f[0] != ',' && f[0] != '\r' && f[0] != '\n';
      assert !NeedsQuotes(f[1..]) by {
        assert forall c :: c in f[1..] ==> c in f;
      }
      FeedPlain(Feed(p, f[0]), fields, acc + [f[0]], f[1..]);
      assert acc + [f[0]] + f[1..] == acc + f;
    }
  }

  lemma FeedField(p: Parser, fields: seq<string>, f: string)
    requires AtFieldStart(p, fields) && LineFree(f)
    ensures NoCrLf(FormatField(f))
    ensures AfterField(FeedLine(p, FormatField(f)), fields, f)
  {
    if NeedsQuotes(f) {
      var e := Escape(f);
      assert NoCrLf(f);
      assert FeedLine(p, "\"") == Parser(InQuoted, "", fields) by {
        FeedLineOne(p, '"');
      }
      assert NoCrLf(e) && FeedLine(Parser(InQuoted, "", fields), e) == Parser(InQuoted, f, fields) by {
        FeedEscaped("", fields, f);
        assert "" + f == f;
      }
      FeedLineAppend(p, "\"", e);
      FeedLineOne(Parser(InQuoted, f, fields), '"');
      FeedLineAppend(p, "\"" + e, "\"");
    } else if f != [] {
      var q := Feed(p, f[0]);
      assert f[0] != '"' && f[0] != ',' && f[0] != '\r' && f[0] != '\n';
      assert q == Parser(InField, [f[0]], fields);
      assert !NeedsQuotes(f[1..]) by {
        assert forall c :: c in f[1..] ==> c in f;
      }
      FeedPlain(q, fields, [f[0]], f[1..]);
      assert [f[0]] + f[1..] == f;
    }
  }

  lemma JoinFormatFields(record: seq<string>)
    requires |record| > 1
    ensures Join(FormatFields(record), ',')
            == FormatField(record[0]) + [','] + Join(FormatFields(record[1..]), ',')
  {
    assert FormatFields(record)[1..] == FormatFields(record[1..]);
  }

  lemma CommaAfterField(p: Parser, fields: seq<string>, f: string, head: string)
    requires NoCrLf(head) && AfterField(FeedLine(p, head), fields, f)
    ensures NoCrLf(head + [','])
    ensures FeedLine(p, head + [',']) == Parser(StartField, "", fields + [f])
  {
    FeedLineOne(FeedLine(p, head), ',');
    FeedLineAppend(p, head, [',']);
  }

  lemma RestLineFree(record: seq<string>)
    requires |record| >= 1 && CellsLineFree(record)
    ensures CellsLineFree(record[1..])
  {
    forall i | 0 <= i < |record| - 1 ensures LineFree(record[1..][i]) {
      assert record[1..][i] == record[i + 1];
    }
  }

  lemma {:induction false} FeedJoined(p: Parser, fields: seq<string>, record: seq<string>)
    requires |record| >= 1 && AtFieldStart(p, fields) && CellsLineFree(record)
    ensures NoCrLf(Join(FormatFields(record), ','))
    ensures AfterField(FeedLine(p, Join(FormatFields(record), ',')), fields + record[..|record| - 1], record[|record| - 1])
    decreases |record|
  {
    if |record| == 1 {
      FeedField(p, fields, record[0]);
      assert Join(FormatFields(record), ',') == FormatFields(record)[0];
    } else {
      var rest := record[1..];
      var head := FormatField(record[0]) + [','];
      var tail := Join(FormatFields(rest), ',');
      var r := Parser(StartField, "", fields + [record[0]]);
      assert NoCrLf(head) && FeedLine(p, head) == r by {
        FeedField(p, fields, record[0]);
        CommaAfterField(p, fields, record[0], FormatField(record[0]));
      }
      assert NoCrLf(tail) && AfterField(FeedLine(r, tail), fields + record[..|record| - 1], record[|record| - 1]) by {
        RestLineFree(record);
        FeedJoined(r, fields + [record[0]], rest);
        assert fields + [record[0]] + rest[..|rest| - 1] == fields + record[..|record| - 1];
      }
      assert Join(FormatFields(record), ',') == head + tail by {
        JoinFormatFields(record);
      }
      FeedLineAppend(p, head, tail);
    }
  }

  /** A written record, read back as one line, is the record it was written from. */
  lemma ParseFormattedRecord(record: seq<string>)
    requires record != [] && CellsLineFree(record)
    ensures NoCrLf(FormatRecord(record))
    ensures EndOfLine(FeedLine(Fresh, FormatRecord(record))) == Complete(record)
  {
    if record == [""] {
      assert FormatRecord(record) == "\"\"";
      assert FeedLine(Fresh, "\"\"") == Parser(QuoteInQuoted, "", []);
    } else {
      FeedJoined(Fresh, [], record);
      var q := FeedLine(Fresh, FormatRecord(record));
      assert q.mode != StartRecord by {
        if |record| == 1 {
          assert record[0] != "";
        }
      }
      assert [] + record[..|record| - 1] + [record[|record| - 1]] == record;
    }
  }

  lemma {:induction false} FormatFieldLineFree(f: string)
    requires LineFree(f)
    ensures LineFree(FormatField(f))
  {
  }

  lemma FormatRecordLineFree(record: seq<string>)
    requires CellsLineFree(record)
    ensures LineFree(FormatRecord(record))
  {
    var parts := FormatFields(record);
    forall i | 0 <= i < |parts| ensures LineFree(parts[i]) {
      FormatFieldLineFree(record[i]);
    }
    JoinLineFree(parts);
  }

  lemma {:induction false} JoinLineFree(parts: seq<string>)
    requires forall i :: 0 <= i < |parts| ==> LineFree(parts[i])
    ensures LineFree(Join(parts, ','))
  {
    if |parts| > 1 {
      JoinLineFree(parts[1..]);
    }
  }

  /** A field without a delimiter, quote or line break is written as it is. */
  lemma FormatFieldPlain(f: string)
    requires !NeedsQuotes(f)
    ensures FormatField(f) == f
  {
  }

  /** `splitlines()` takes the writer's text apart into the written records. */
  lemma SplitLinesOfCsvText(records: seq<seq<string>>)
    requires forall i :: 0 <= i < |records| ==> CellsLineFree(records[i])
    ensures SplitLines(CsvText(records)) == FormatRecords(records)
  {
    var lines := FormatRecords(records);
    forall i | 0 <= i < |lines| ensures LineFree(lines[i]) {
      FormatRecordLineFree(records[i]);
    }
    SplitLinesOfCrlfJoin(lines);
  }

  /** Lines that each hold one whole non-empty record read as one row per line. */
  lemma {:induction false} RowsOfWholeLines(lines: seq<string>, records: seq<seq<string>>, pos: nat)
    requires |lines| == |records| && pos <= |lines|
    requires forall i :: 0 <= i < |lines| ==> NoCrLf(lines[i])
    requires forall i :: 0 <= i < |lines| ==>
               records[i] != [] && EndOfLine(FeedLine(Fresh, lines[i])) == Complete(records[i])
    ensures |Rows(lines, pos, None)| == |lines| - pos
    ensures forall i :: pos <= i < |lines| ==> Rows(lines, pos, None)[i - pos] == Row(records[i], lines[i])
    decreases |lines| - pos
  {
    if pos < |lines| {
      var rest := Rows(lines, pos + 1, None);
      var all := Rows(lines, pos, None);
      assert all == [Row(records[pos], lines[pos])] + rest by {
        assert EndOfLine(FeedLine(Fresh, lines[pos])) == Complete(records[pos]);
        assert NextRecord(lines, pos, Fresh) == Some((records[pos], pos + 1));
      }
      RowsOfWholeLines(lines, records, pos + 1);
      forall i | pos <= i < |lines| ensures all[i - pos] == Row(records[i], lines[i]) {
        if i > pos {
          assert all[i - pos] == rest[i - (pos + 1)];
        }
      }
    }
  }

  /**
   * Reading back what the writer wrote: one row per record, in order, each
   * with its own written line, when no record is empty and no cell holds a
   * line break.
   */
  lemma DictRowsOfFormatted(records: seq<seq<string>>)
    requires forall i :: 0 <= i < |records| ==> records[i] != [] && CellsLineFree(records[i])
    ensures forall i :: 0 <= i < |records| ==> NoCrLf(FormatRecords(records)[i])
    ensures |DictRows(FormatRecords(records))| == |records|
    ensures forall i :: 0 <= i < |records| ==>
              DictRows(FormatRecords(records))[i] == Row(records[i], FormatRecord(records[i]))
  {
    var lines := FormatRecords(records);
    forall i | 0 <= i < |records|
      ensures NoCrLf(lines[i]) && EndOfLine(FeedLine(Fresh, lines[i])) == Complete(records[i])
    {
      ParseFormattedRecord(records[i]);
    }
    RowsOfWholeLines(lines, records, 0);
  }

  /** A row after a blank line is fingerprinted by the blank line, not by its own. */
  lemma BlankLineQuirk()
    ensures DictRows(["", "a,b"]) == [Row(["a", "b"], "")]
  {
    var lines := ["", "a,b"];
    assert NextRecord(lines, 0, Fresh) == Some(([], 1));
    var p1 := Parser(InField, "a", []);
    var p2 := Parser(StartField, "", ["a"]);
    var p3 := Parser(InField, "b", ["a"]);
    assert "a,b"[0] == 'a' && "a,b"[1..] == ",b";
    assert ",b"[0] == ',' && ",b"[1..] == "b";
    assert "b"[0] == 'b' && "b"[1..] == "";
    assert FeedLine(p2, "b") == p3;
    assert FeedLine(p1, ",b") == p3;
    assert [] + ['a'] == "a";
    assert Feed(Fresh, 'a') == p1;
    assert FeedLine(Fresh, "a,b") == p3;
    assert EndOfLine(p3) == Complete(["a", "b"]);
    assert NextRecord(lines, 1, Fresh) == Some((["a", "b"], 2));
    assert NextRecord(lines, 2, Fresh) == None;
    assert Rows(lines, 2, None) == [];
    assert Rows(lines, 1, Some(1)) == [Row(["a", "b"], "")];
  }

  /** A quoted field that spans two lines reads as one record and is fingerprinted by its last line. */
  lemma MultiLineQuirk()
    ensures DictRows(["\"a", "b\",c"]) == [Row(["ab", "c"], "b\",c")]
  {
    var lines := ["\"a", "b\",c"];
    var p := Parser(InQuoted, "a", []);
    OpenQuoteLine();
    CloseQuoteLine();
    assert NextRecord(lines, 1, p) == Some((["ab", "c"], 2));
    assert NextRecord(lines, 0, Fresh) == Some((["ab", "c"], 2));
    assert NextRecord(lines, 2, Fresh) == None;
  }

  /** The first line of `MultiLineQuirk` leaves the reader inside the quoted field. */
  lemma OpenQuoteLine()
    ensures NoCrLf("\"a") && FeedLine(Fresh, "\"a") == Parser(InQuoted, "a", [])
  {
    assert "\"a"[0] == '"' && "\"a"[1..] == "a";
    assert "a"[0] == 'a' && "a"[1..] == "";
    assert FeedLine(Parser(InQuoted, "", []), "a") == Parser(InQuoted, "a", []);
  }

  /** The second line of `MultiLineQuirk` closes the field and reads one more. */
  lemma CloseQuoteLine()
    ensures NoCrLf("b\",c")
    ensures FeedLine(Parser(InQuoted, "a", []), "b\",c") == Parser(InField, "c", ["ab"])
    ensures EndOfLine(Parser(InField, "c", ["ab"])) == Complete(["ab", "c"])
  {
    var q1 := Parser(InQuoted, "ab", []);
    var q2 := Parser(QuoteInQuoted, "ab", []);
    var q3 := Parser(StartField, "", ["ab"]);
    var q4 := Parser(InField, "c", ["ab"]);
    assert "b\",c"[0] == 'b' && "b\",c"[1..] == "\",c";
    assert "\",c"[0] == '"' && "\",c"[1..] == ",c";
    assert ",c"[0] == ',' && ",c"[1..] == "c";
    assert "c"[0] == 'c' && "c"[1..] == "";
    assert FeedLine(q3, "c") == q4;
    assert FeedLine(q2, ",c") == q4;
    assert FeedLine(q1, "\",c") == q4;
    assert "a" + ['b'] == "ab";
  }
}
