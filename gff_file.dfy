/** `GffFile`: the header block and the line stream `from_file` hands to
    the constructor, the lookup table `__post_init__` builds when asked,
    and the table `to_csv` writes. */
module GffFiles {
  import opened Wrappers
  import opened Strings
  import opened Dicts
  import opened GffRecords
  import opened GffParser
  import opened GffLookup

  /** A constructed `GffFile`: its metadata, the records its line stream
      still yields and the exception that stream ends with, if any, and
      `_lookup` (empty unless asked for). */
  datatype GffFile = GffFile(metadata: seq<Metadatum>, records: seq<GffLine>, failure: Option<Error>, table: Table)

  /** `_lookup_table` run over a line stream: the feature loop sees the
      records one by one, so an error of the loop comes first, then the
      exception that ends the stream, then the tail and the check. */
  ghost function StreamLookup(records: seq<GffLine>, failure: Option<Error>): Result<Table, Error> {
    var acc :- Process(records);
    if failure.Some? then Err(failure.value) else Finish(Ok(acc))
  }

  /** `GffFile.from_file(file, lookup)` on a file holding `lines`. Without
      the lookup nothing past the header block is read yet; with it, the
      lookup reads the whole stream, so none of it is left. */
  ghost function FromFile(lines: seq<string>, lookup: bool): Result<GffFile, Error> {
    var s := FromLines(lines);
    if !lookup then Ok(GffFile(s.metadata, s.records, s.error, map[]))
    else
      var t :- StreamLookup(s.records, s.error);
      Ok(GffFile(s.metadata, [], None, t))
  }

  /** `from_file`, then `__post_init__`. */
  method ReadGffFile(lines: seq<string>, lookup: bool) returns (r: Result<GffFile, Error>)
    ensures r == FromFile(lines, lookup)
  {
    var s := ReadGff(lines);
    if !lookup {
      return Ok(GffFile(s.metadata, s.records, s.error, map[]));
    }
    var acc := FeatureLoop(s.records);
    if acc.Err? {
      return Err(acc.error);
    }
    if s.error.Some? {
      return Err(s.error.value);
    }
    var t := FinishTable(acc.value.0, acc.value.1);
    if t.Err? {
      return Err(t.error);
    }
    return Ok(GffFile(s.metadata, [], None, t.value));
  }

  /** With the lookup, reading succeeds exactly when the whole stream
      reads cleanly and the lookup table can be built from its records;
      the file then holds that table, and no records. */
  lemma FromFileLookup(lines: seq<string>)
    ensures var s := FromLines(lines); var f := FromFile(lines, true);
      (f.Ok? <==> s.error.None? && Lookup(s.records).Ok?) &&
      (f.Ok? ==> f.value.table == Lookup(s.records).value && f.value.records == [] &&
                 f.value.metadata == s.metadata)
    ensures var s := FromLines(lines); var f := FromFile(lines, true);
      f.Err? ==> f.error == (if Process(s.records).Err? then Process(s.records).error
                            else if s.error.Some? then s.error.value
                            else Lookup(s.records).error)
  {
  }

  /** Without the lookup, reading never fails: the exception of a bad
      line waits until the records are read. */
  lemma FromFileDeferred(lines: seq<string>)
    ensures var s := FromLines(lines); var f := FromFile(lines, false);
      f.Ok? && f.value.records == s.records && f.value.failure == s.error && f.value.table == map[]
  {
  }

  // ---- to_csv ----

  /** The keys of one dict. */
  function KeySet(d: Dict<string, Value>): (ks: set<string>)
    ensures forall k :: k in ks <==> HasKey(d, k)
  {
    set k | k in Keys(d)
  }

  /** The union of the attribute keys of the records. */
  function AttributeKeys(rs: seq<GffLine>): (ks: set<string>)
    ensures forall k :: k in ks <==> exists i :: 0 <= i < |rs| && HasKey(rs[i].attributes, k)
  {
    if rs == [] then {}
    else
      var p := rs[..|rs| - 1];
      assert forall i :: 0 <= i < |p| ==> p[i] == rs[i];
      AttributeKeys(p) + KeySet(rs[|rs| - 1].attributes)
  }

  /** `csv_fieldnames`: the column names, then the attribute keys sorted. */
  function CsvHeader(rs: seq<GffLine>): seq<string> {
    ColumnNames + SortedSeqOf(AttributeKeys(rs))
  }

  /** One cell: `str` of the value, the empty text for a missing key. */
  function Cell(d: Dict<string, Value>, k: string): string {
    if Get(d, k).Some? then Text(Get(d, k).value) else ""
  }

  /** The cells `csv.DictWriter` writes for one record. */
  function CsvRow(l: GffLine, header: seq<string>): (cells: seq<string>)
    ensures |cells| == |header|
  {
    seq(|header|, j requires 0 <= j < |header| => Cell(AsDict(l), header[j]))
  }

  /** One written row: the cells joined by the delimiter. */
  function RowText(l: GffLine, header: seq<string>, sep: char): string {
    Join(CsvRow(l, header), sep)
  }

  function RowLines(rs: seq<GffLine>, header: seq<string>, sep: char): seq<string> {
    seq(|rs|, i requires 0 <= i < |rs| => RowText(rs[i], header, sep))
  }

  /** Writing one more record adds its row at the end. */
  lemma RowLinesSnoc(rs: seq<GffLine>, x: GffLine, header: seq<string>, sep: char)
    ensures RowLines(rs + [x], header, sep) == RowLines(rs, header, sep) + [RowText(x, header, sep)]
  {
    var a := RowLines(rs + [x], header, sep);
    var b := RowLines(rs, header, sep) + [RowText(x, header, sep)];
    assert |a| == |b|;
    forall i | 0 <= i < |a| ensures a[i] == b[i] {
      assert (rs + [x])[i] == if i < |rs| then rs[i] else x;
    }
  }

  /** `to_csv(file, write_metadata, sep)`, as the lines written: the
      metadata block when asked for, the header, one line per record. The
      stream is read to the end first, so its exception comes before the
      check for an empty stream. */
  function CsvLines(f: GffFile, writeMetadata: bool, sep: char): Result<seq<string>, Error> {
    if f.failure.Some? then Err(f.failure.value)
    else if f.records == [] then Err(EmptyStream)
    else
      var header := CsvHeader(f.records);
      Ok((if writeMetadata then [RenderMetadata(f.metadata)] else []) + [Join(header, sep)] +
         RowLines(f.records, header, sep))
  }

  /** `to_csv`, with its two loops: the attribute keys of every record,
      then one row per record. */
  method ToCsv(f: GffFile, writeMetadata: bool, sep: char) returns (r: Result<seq<string>, Error>)
    ensures r == CsvLines(f, writeMetadata, sep)
  {
    if f.failure.Some? {
      return Err(f.failure.value);
    }
    var attributeKeys, mainCols := CollectKeys(f.records);
    if mainCols.None? {
      return Err(EmptyStream);
    }
    var fieldnames := mainCols.value + SortedSeqOf(attributeKeys);
    var head := (if writeMetadata then [RenderMetadata(f.metadata)] else []) + [Join(fieldnames, sep)];
    var out := WriteRows(head, f.records, fieldnames, sep);
    return Ok(out);
  }

  /** The first loop of `to_csv`: the column names from the first record,
      the union of every record's attribute keys. */
  method CollectKeys(lines: seq<GffLine>) returns (attributeKeys: set<string>, mainCols: Option<seq<string>>)
    ensures attributeKeys == AttributeKeys(lines)
    ensures mainCols == if lines == [] then None else Some(ColumnNames)
  {
    attributeKeys := {};
    mainCols := None;
    var i := 0;
    while i < |lines|
      invariant 0 <= i <= |lines|
      invariant attributeKeys == AttributeKeys(lines[..i])
      invariant mainCols == if i == 0 then None else Some(ColumnNames)
    {
      if i == 0 {
        mainCols := Some(ColumnNames);
      }
      assert lines[..i + 1][..i] == lines[..i];
      attributeKeys := attributeKeys + KeySet(lines[i].attributes);
      i := i + 1;
    }
    assert lines[..i] == lines;
  }

  /** The second loop of `to_csv`: one row per record, after `head`. */
  method WriteRows(head: seq<string>, lines: seq<GffLine>, fieldnames: seq<string>, sep: char) returns (out: seq<string>)
    ensures out == head + RowLines(lines, fieldnames, sep)
  {
    out := head;
    var j := 0;
    while j < |lines|
      invariant 0 <= j <= |lines|
      invariant out == head + RowLines(lines[..j], fieldnames, sep)
    {
      assert lines[..j + 1] == lines[..j] + [lines[j]];
      RowLinesSnoc(lines[..j], lines[j], fieldnames, sep);
      out := out + [RowText(lines[j], fieldnames, sep)];
      j := j + 1;
    }
    assert lines[..j] == lines;
  }

  /** The header is the eight column names, then every attribute key of
      every record, each once, in sorted order. */
  lemma HeaderShape(rs: seq<GffLine>)
    ensures var h := CsvHeader(rs);
      |h| >= 8 && h[..8] == ColumnNames && StrictlySorted(h[8..]) &&
      forall k :: k in h[8..] <==> exists i :: 0 <= i < |rs| && HasKey(rs[i].attributes, k)
  {
    var h := CsvHeader(rs);
    assert h[8..] == SortedSeqOf(AttributeKeys(rs));
  }

  /** Every key of every record's `as_dict` is a field name, so the
      writer never meets a key it has no column for. */
  lemma RowKeysInHeader(rs: seq<GffLine>, i: int, k: string)
    requires 0 <= i < |rs| && HasKey(AsDict(rs[i]), k)
    ensures k in CsvHeader(rs)
  {
    AsDictKeys(rs[i], k);
    if k !in ColumnNames {
      assert k in AttributeKeys(rs);
      assert k in CsvHeader(rs)[8..];
    }
  }

  /** A cell holds the record's attribute of that name when it has one,
      else its column of that name, else nothing. */
  lemma RowCell(l: GffLine, header: seq<string>, j: int)
    requires UniqueKeys(l.attributes) && 0 <= j < |header|
    ensures var k := header[j];
      CsvRow(l, header)[j] ==
        if HasKey(l.attributes, k) then Text(Get(l.attributes, k).value)
        else if k in ColumnNames then Text(Get(ColumnsDict(l.columns), k).value)
        else ""
  {
    var k := header[j];
    AsDictGet(l, k);
    assert Keys(ColumnsDict(l.columns)) == ColumnNames;
  }

  /** `to_csv` fails exactly when the stream fails or holds no record:
      the stream's own exception first, then the empty stream. */
  lemma CsvErrors(f: GffFile, writeMetadata: bool, sep: char)
    ensures CsvLines(f, writeMetadata, sep).Err? <==> f.failure.Some? || f.records == []
    ensures f.failure.Some? ==> CsvLines(f, writeMetadata, sep) == Err(f.failure.value)
    ensures f.failure.None? && f.records == [] ==> CsvLines(f, writeMetadata, sep) == Err(EmptyStream)
  {
  }

  /** Otherwise it writes the metadata block when asked for, then the
      header, then one line per record. */
  lemma CsvWritten(f: GffFile, writeMetadata: bool, sep: char)
    requires CsvLines(f, writeMetadata, sep).Ok?
    ensures var out := CsvLines(f, writeMetadata, sep).value;
      var m := if writeMetadata then 1 else 0;
      |out| == m + 1 + |f.records| && out[m] == Join(CsvHeader(f.records), sep) &&
      (writeMetadata ==> out[0] == RenderMetadata(f.metadata))
  {
    var header := CsvHeader(f.records);
    var meta := if writeMetadata then [RenderMetadata(f.metadata)] else [];
    var rows := RowLines(f.records, header, sep);
    assert CsvLines(f, writeMetadata, sep).value == meta + [Join(header, sep)] + rows;
    Layout(meta, Join(header, sep), rows);
  }

  /** The lines after the header are the records' rows, in order. */
  lemma CsvRowsWritten(f: GffFile, writeMetadata: bool, sep: char, i: int)
    requires CsvLines(f, writeMetadata, sep).Ok? && 0 <= i < |f.records|
    ensures var out := CsvLines(f, writeMetadata, sep).value;
      var m := if writeMetadata then 1 else 0;
      m + 1 + i < |out| && out[m + 1 + i] == RowText(f.records[i], CsvHeader(f.records), sep)
  {
    var header := CsvHeader(f.records);
    var meta := if writeMetadata then [RenderMetadata(f.metadata)] else [];
    var rows := RowLines(f.records, header, sep);
    assert CsvLines(f, writeMetadata, sep).value == meta + [Join(header, sep)] + rows;
    LayoutRow(meta, Join(header, sep), rows, i);
    assert rows[i] == RowText(f.records[i], header, sep);
  }

  lemma Layout<T>(meta: seq<T>, h: T, rows: seq<T>)
    ensures var out := meta + [h] + rows;
      |out| == |meta| + 1 + |rows| && out[|meta|] == h && (|meta| == 1 ==> out[0] == meta[0])
  {
  }

  lemma LayoutRow<T>(meta: seq<T>, h: T, rows: seq<T>, i: int)
    requires 0 <= i < |rows|
    ensures var out := meta + [h] + rows; |meta| + 1 + i < |out| && out[|meta| + 1 + i] == rows[i]
  {
  }

  /** A file read with the lookup has no records left: the lookup read
      them, so writing it as a table finds the stream empty. */
  lemma LookupLeavesNothing(lines: seq<string>, writeMetadata: bool, sep: char)
    requires FromFile(lines, true).Ok?
    ensures CsvLines(FromFile(lines, true).value, writeMetadata, sep) == Err(EmptyStream)
  {
  }

  // ---- the table of two records ----

  const Row1: GffLine := GffLine(Columns(Str("TEST"), Str("test"), Str("gene"), 1, 100, Str("."), Str("+"), Str("+")),
                                 [("ID", Str("test001")), ("comment", Str("Test"))])
  const Row2: GffLine := GffLine(Columns(Str("TEST"), Str("test"), Str("gene"), 121, 120, Str("."), Str("+"), Str("-")),
                                 [("ID", Str("test001")), ("tag", Str("test_tag"))])

  /** Two records sharing `ID`, one with `comment` and one with `tag`: the
      header is the columns, then `ID`, `comment`, `tag`. */
  lemma ExampleHeader()
    ensures CsvHeader([Row1, Row2]) == ColumnNames + ["ID", "comment", "tag"]
  {
    ExampleKeys();
    ExampleSorted();
    var ks: set<string> := {"ID", "comment", "tag"};
    var xs := SortedSeqOf(ks);
    assert forall x :: x in xs <==> x in ["ID", "comment", "tag"];
    SortedUnique(xs, ["ID", "comment", "tag"]);
  }

  /** `sorted` compares code points: capitals come before lower case. */
  lemma ExampleSorted()
    ensures StrictlySorted(["ID", "comment", "tag"])
  {
    var xs := ["ID", "comment", "tag"];
    assert Less("ID", "comment") by {
      assert "ID"[0] < "comment"[0];
    }
    assert Less("ID", "tag") by {
      assert "ID"[0] < "tag"[0];
    }
    assert Less("comment", "tag") by {
      assert "comment"[0] < "tag"[0];
    }
    assert xs[0] == "ID" && xs[1] == "comment" && xs[2] == "tag";
  }

  lemma ExampleKeys()
    ensures AttributeKeys([Row1, Row2]) == {"ID", "comment", "tag"}
  {
    assert [Row1, Row2][..1] == [Row1] && [Row1][..0] == [];
    assert AttributeKeys([Row1]) == AttributeKeys([]) + KeySet(Row1.attributes);
    assert AttributeKeys([Row1, Row2]) == AttributeKeys([Row1]) + KeySet(Row2.attributes);
    assert Keys(Row1.attributes) == ["ID", "comment"];
    assert Keys(Row2.attributes) == ["ID", "tag"];
    assert KeySet(Row1.attributes) == {"ID", "comment"};
    assert KeySet(Row2.attributes) == {"ID", "tag"};
  }

  /** The second record's last three cells: its `ID`, nothing under
      `comment`, its `tag`. */
  lemma ExampleSecondRow()
    ensures CsvRow(Row2, CsvHeader([Row1, Row2]))[8..] == ["test001", "", "test_tag"]
  {
    ExampleHeader();
    SecondRowCells(CsvHeader([Row1, Row2]));
  }

  lemma SecondRowCells(h: seq<string>)
    requires h == ColumnNames + ["ID", "comment", "tag"]
    ensures CsvRow(Row2, h)[8..] == ["test001", "", "test_tag"]
  {
    assert Get(Row2.attributes, "ID") == Some(Str("test001"));
    assert Get(Row2.attributes, "tag") == Some(Str("test_tag"));
    ExampleCell(h, 8, "ID", "test001");
    ExampleCell(h, 10, "tag", "test_tag");
    ExampleNoComment(h);
    LastThree(CsvRow(Row2, h));
  }

  lemma LastThree<T>(s: seq<T>)
    requires |s| == 11
    ensures s[8..] == [s[8], s[9], s[10]]
  {
  }

  lemma ExampleCell(h: seq<string>, j: int, k: string, v: string)
    requires 0 <= j < |h| && h[j] == k && Get(Row2.attributes, k) == Some(Str(v))
    ensures CsvRow(Row2, h)[j] == v
  {
    assert UniqueKeys(Row2.attributes) by {
      assert Row2.attributes[0].0 != Row2.attributes[1].0;
    }
    RowCell(Row2, h, j);
  }

  lemma NotAColumn()
    ensures "comment" !in ColumnNames
  {
    assert forall i :: 0 <= i < |ColumnNames| ==> ColumnNames[i][0] != 'c' || |ColumnNames[i]| != 7;
  }

  lemma ExampleNoComment(h: seq<string>)
    requires h == ColumnNames + ["ID", "comment", "tag"]
    ensures CsvRow(Row2, h)[9] == ""
  {
    assert UniqueKeys(Row2.attributes) by {
      assert Row2.attributes[0].0 != Row2.attributes[1].0;
    }
    assert h[9] == "comment";
    assert Keys(Row2.attributes) == ["ID", "tag"];
    assert !HasKey(Row2.attributes, "comment");
    NotAColumn();
    RowCell(Row2, h, 9);
  }
}
