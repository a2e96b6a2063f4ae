/** Reading a GFF file (`GffFile._from_file` and `GffFile.from_file`): each
    line is stripped and read as a header, a blank or a data line; the
    headers seen before the first data line become the metadata, and every
    data line becomes a record until one of them fails to parse. */
module GffParser {
  import opened Wrappers
  import opened Strings
  import opened Dicts
  import opened GffRecords

  datatype LineKind = Blank | Header(m: Metadatum) | Data(text: string)

  /** A stripped line that starts with `#`: `##` means constrained; all
      leading `#` and the whitespace after them go, and the rest is split
      at tabs into the name and the values. */
  function HeaderOf(line: string): Metadatum
    requires StartsWith(line, "#")
  {
    var fields := Split(TrimStart(TrimStartChar(line, '#')), '\t');
    Metadatum(fields[0], if StartsWith(line, "##") then Constrained else Free, fields[1..])
  }

  /** The header's flag is constrained exactly on `##`; its name and
      values hold no tab and, joined with tabs, give back the line after
      its leading `#` and the whitespace after them. */
  lemma HeaderOfFields(line: string)
    requires StartsWith(line, "#")
    ensures var m := HeaderOf(line);
      m.flag == (if StartsWith(line, "##") then Constrained else Free) &&
      '\t' !in m.name && (forall j :: 0 <= j < |m.values| ==> '\t' !in m.values[j]) &&
      Join([m.name] + m.values, '\t') == TrimStart(TrimStartChar(line, '#'))
  {
    var body := TrimStart(TrimStartChar(line, '#'));
    var fields := Split(body, '\t');
    JoinSplit(body, '\t');
    assert [fields[0]] + fields[1..] == fields;
  }

  /** How `_from_file` reads one line of the file. */
  function Classify(raw: string): (k: LineKind)
    ensures k.Data? ==> k.text == Strip(raw) && k.text != [] && k.text[0] != '#'
    ensures k.Blank? <==> Strip(raw) == []
  {
    var line := Strip(raw);
    if StartsWith(line, "#") then Header(HeaderOf(line))
    else if |line| > 0 then Data(line)
    else Blank
  }

  /** A stripped line starting with `#` is a header, `##` making it
      constrained, its name and values the tab-split of what follows the
      leading `#` and the whitespace after them; any other non-empty line
      is data. */
  lemma ClassifyKinds(raw: string)
    ensures var k := Classify(raw); var line := Strip(raw);
      (k.Header? <==> StartsWith(line, "#")) && (k.Data? <==> line != [] && !StartsWith(line, "#"))
    ensures var k := Classify(raw); var line := Strip(raw);
      k.Header? ==> var f := Split(TrimStart(TrimStartChar(line, '#')), '\t');
        k.m == Metadatum(f[0], if StartsWith(line, "##") then Constrained else Free, f[1..])
  {
  }

  function Strs(fields: seq<string>): (vs: seq<Value>)
    ensures |vs| == |fields| && forall i :: 0 <= i < |fields| ==> vs[i] == Str(fields[i])
  {
    if fields == [] then [] else [Str(fields[0])] + Strs(fields[1..])
  }

  /** `data[:8]`, the positional arguments of `GffColumns`. */
  function ColumnArgs(data: seq<string>): (args: seq<Value>)
    ensures |args| == if |data| <= 8 then |data| else 8
    ensures forall j :: 0 <= j < |args| ==> args[j] == Str(data[j])
  {
    Strs(if |data| <= 8 then data else data[..8])
  }

  /** A data line: split at tabs only, the first eight fields are the
      columns, the rest joined back with tabs is the attribute column. A
      line with fewer than five fields is reported as corrupted (the
      `TypeError` is caught); a bad `start` or `end` is not caught. */
  function ParseDataLine(line: string): (r: Result<GffLine, Error>)
    ensures |Split(line, '\t')| < 5 ==> r == Err(CorruptedLine(line))
    ensures r.Ok? ==> UniqueKeys(r.value.attributes)
  {
    var data := Split(line, '\t');
    var columns := MakeColumns(ColumnArgs(data));
    if columns.Err? then
      if columns.error.MissingArguments? || columns.error.TooManyArguments? then Err(CorruptedLine(line))
      else Err(columns.error)
    else
      Ok(GffLine(columns.value, ParseAttributes(if |data| <= 8 then "" else Join(data[8..], '\t'))))
  }

  /** Five fields or more with integer `start` and `end` bind: the
      first eight fields, the missing optional ones `.`, `+` and `.`. */
  lemma FieldsBind(data: seq<string>)
    requires |data| >= 5 && ParseInt(data[3]).Some? && ParseInt(data[4]).Some?
    ensures MakeColumns(ColumnArgs(data)) == Ok(Columns(Str(data[0]), Str(data[1]), Str(data[2]),
        ParseInt(data[3]).value, ParseInt(data[4]).value,
        if |data| > 5 then Str(data[5]) else Str("."),
        if |data| > 6 then Str(data[6]) else Str("+"),
        if |data| > 7 then Str(data[7]) else Str(".")))
  {
    var args := ColumnArgs(data);
    assert args[3] == Str(data[3]) && args[4] == Str(data[4]);
  }

  /** A data line with five fields or more and integer `start` and `end`
      is read: its columns are its first eight fields, and the missing
      optional ones are `.`, `+` and `.`. */
  lemma DataLineColumns(line: string)
    requires var data := Split(line, '\t'); |data| >= 5 && ParseInt(data[3]).Some? && ParseInt(data[4]).Some?
    ensures var data := Split(line, '\t'); var r := ParseDataLine(line);
      r.Ok? && r.value.columns == Columns(Str(data[0]), Str(data[1]), Str(data[2]),
        ParseInt(data[3]).value, ParseInt(data[4]).value,
        if |data| > 5 then Str(data[5]) else Str("."),
        if |data| > 6 then Str(data[6]) else Str("+"),
        if |data| > 7 then Str(data[7]) else Str("."))
  {
    FieldsBind(Split(line, '\t'));
  }

  /** The attribute column is the parse of the ninth field onward joined
      back with tabs; a line of eight fields or fewer has no attributes. */
  lemma DataLineAttributes(line: string)
    requires ParseDataLine(line).Ok?
    ensures var data := Split(line, '\t'); var a := ParseDataLine(line).value.attributes;
      (|data| > 8 ==> a == ParseAttributes(Join(data[8..], '\t'))) && (|data| <= 8 ==> a == [])
  {
    ParseNoEquals("");
  }

  /** A `start` that is no integer is the uncaught `ValueError`; so is an
      `end` that is no integer once `start` is one. */
  lemma FieldsBadInteger(data: seq<string>)
    requires |data| >= 5 && (ParseInt(data[3]).None? || ParseInt(data[4]).None?)
    ensures MakeColumns(ColumnArgs(data)) ==
      Err(NotAnInteger(if ParseInt(data[3]).None? then data[3] else data[4]))
  {
    var args := ColumnArgs(data);
    assert args[3] == Str(data[3]) && args[4] == Str(data[4]);
  }

  /** A `start` that is no integer is the uncaught `ValueError`, not the
      corrupted-line error. */
  lemma DataLineBadStart(line: string)
    requires var data := Split(line, '\t'); |data| >= 5 && ParseInt(data[3]).None?
    ensures ParseDataLine(line) == Err(NotAnInteger(Split(line, '\t')[3]))
  {
    FieldsBadInteger(Split(line, '\t'));
  }

  /** So is an `end` that is no integer, once `start` is one. */
  lemma DataLineBadEnd(line: string)
    requires var data := Split(line, '\t');
      |data| >= 5 && ParseInt(data[3]).Some? && ParseInt(data[4]).None?
    ensures ParseDataLine(line) == Err(NotAnInteger(Split(line, '\t')[4]))
  {
    FieldsBadInteger(Split(line, '\t'));
  }

  /** A data line reads exactly when it has five fields or more and both
      `start` and `end` are integers. */
  lemma DataLineOutcome(line: string)
    ensures var data := Split(line, '\t');
      ParseDataLine(line).Ok? <==> |data| >= 5 && ParseInt(data[3]).Some? && ParseInt(data[4]).Some?
  {
    var data := Split(line, '\t');
    if |data| >= 5 {
      if ParseInt(data[3]).None? {
        DataLineBadStart(line);
      } else if ParseInt(data[4]).None? {
        DataLineBadEnd(line);
      } else {
        DataLineColumns(line);
      }
    }
  }

  /** What one line of the file contributes. */
  datatype Item = Skip | Head(m: Metadatum) | Row(r: Result<GffLine, Error>)

  function ReadLine(raw: string): Item {
    match Classify(raw)
    case Blank => Skip
    case Header(m) => Head(m)
    case Data(t) => Row(ParseDataLine(t))
  }

  function ReadLines(lines: seq<string>): (items: seq<Item>)
    ensures |items| == |lines|
  {
    if lines == [] then [] else [ReadLine(lines[0])] + ReadLines(lines[1..])
  }

  /** Each line is read on its own. */
  lemma {:induction false} ReadLinesAt(lines: seq<string>, i: int)
    requires 0 <= i < |lines|
    ensures ReadLines(lines)[i] == ReadLine(lines[i])
  {
    var rest := ReadLines(lines[1..]);
    assert ReadLines(lines) == [ReadLine(lines[0])] + rest;
    if i > 0 {
      ReadLinesAt(lines[1..], i - 1);
      assert lines[1..][i - 1] == lines[i];
    }
  }

  lemma {:induction false} ReadLinesAppend(a: seq<string>, b: seq<string>)
    ensures ReadLines(a + b) == ReadLines(a) + ReadLines(b)
  {
    if a == [] {
      assert a + b == b;
    } else {
      assert (a + b)[0] == a[0] && (a + b)[1..] == a[1..] + b;
      ReadLinesAppend(a[1..], b);
    }
  }

  /** What `from_file` delivers: the metadata block, then the records the
      line generator yields, then the exception it raises, if any. */
  datatype GffStream = GffStream(metadata: seq<Metadatum>, records: seq<GffLine>, error: Option<Error>)

  /** Index of the first data line, `|items|` when there is none. */
  function FirstRow(items: seq<Item>): (n: nat)
    ensures n <= |items|
    ensures n < |items| ==> items[n].Row?
    ensures forall i :: 0 <= i < n ==> !items[i].Row?
  {
    if items == [] then 0
    else if items[0].Row? then 0
    else 1 + FirstRow(items[1..])
  }

  /** The header lines, in order. */
  function HeadersIn(items: seq<Item>): seq<Metadatum> {
    if items == [] then []
    else
      var k := items[|items| - 1];
      HeadersIn(items[..|items| - 1]) + (if k.Head? then [k.m] else [])
  }

  /** The records of the data lines, up to the first that fails. */
  function Rows(items: seq<Item>): (seq<GffLine>, Option<Error>) {
    if items == [] then ([], None)
    else if !items[0].Row? then Rows(items[1..])
    else if items[0].r.Err? then ([], Some(items[0].r.error))
    else var rest := Rows(items[1..]); ([items[0].r.value] + rest.0, rest.1)
  }

  /** The headers before the first data line, or none when there is no
      data line; then the records. */
  function FromItems(items: seq<Item>): GffStream {
    var rs := Rows(items);
    GffStream(ShownHeaders(items), rs.0, rs.1)
  }

  /** The metadata block `from_file` receives. */
  function ShownHeaders(items: seq<Item>): seq<Metadatum> {
    var n := FirstRow(items);
    if n < |items| then HeadersIn(items[..n]) else []
  }

  /** `from_file` on a file holding `lines`. */
  function FromLines(lines: seq<string>): GffStream {
    FromItems(ReadLines(lines))
  }

  /** `_from_file`, consumed by `from_file` and then to the end, over the
      lines as read: headers are collected into a list that is shown once,
      just before the first data line is parsed; later headers are appended
      but never shown. */
  method ReadItems(items: seq<Item>) returns (s: GffStream)
    ensures s == FromItems(items)
  {
    var metadata: seq<Metadatum> := [];
    var shown := false;
    var block: seq<Metadatum> := [];
    var records: seq<GffLine> := [];
    var i := 0;
    assert items[0..] == items && [] + Rows(items).0 == Rows(items).0;
    while i < |items|
      invariant 0 <= i <= |items|
      invariant metadata == HeadersIn(items[..i])
      invariant shown <==> FirstRow(items) < i
      invariant shown ==> block == HeadersIn(items[..FirstRow(items)])
      invariant Rows(items) == (records + Rows(items[i..]).0, Rows(items[i..]).1)
    {
      assert items[..i + 1][..i] == items[..i];
      assert items[i..][1..] == items[i + 1..];
      match items[i] {
        case Head(m) =>
          metadata := metadata + [m];
        case Skip =>
        case Row(r) =>
          if !shown {
            block := metadata;
          }
          shown := true;
          if r.Err? {
            return GffStream(block, records, Some(r.error));
          }
          assert records + Rows(items[i..]).0 == (records + [r.value]) + Rows(items[i + 1..]).0;
          records := records + [r.value];
      }
      i := i + 1;
    }
    assert items[..i] == items;
    return GffStream(if shown then block else [], records, None);
  }

  /** `from_file` on a file holding `lines`. */
  method ReadGff(lines: seq<string>) returns (s: GffStream)
    ensures s == FromLines(lines)
  {
    s := ReadItems(ReadLines(lines));
  }

  // ---- properties of the stream ----

  /** A file without data lines gives no metadata and no records. */
  lemma NoDataLines(lines: seq<string>)
    requires forall i :: 0 <= i < |lines| ==> !Classify(lines[i]).Data?
    ensures FromLines(lines) == GffStream([], [], None)
  {
    forall i | 0 <= i < |lines| ensures !ReadLines(lines)[i].Row? {
      ReadLinesAt(lines, i);
    }
    NoRows(ReadLines(lines));
  }

  lemma {:induction false} NoRows(items: seq<Item>)
    requires forall i :: 0 <= i < |items| ==> !items[i].Row?
    ensures Rows(items) == ([], None)
  {
    if items != [] {
      NoRows(items[1..]);
    }
  }

  /** Lines after the first data line do not change the metadata: header
      lines that come later are dropped. */
  lemma LaterHeadersIgnored(lines: seq<string>, extra: seq<string>)
    requires exists i :: 0 <= i < |lines| && ReadLine(lines[i]).Row?
    ensures FromLines(lines + extra).metadata == FromLines(lines).metadata
  {
    ReadLinesAppend(lines, extra);
    var i :| 0 <= i < |lines| && ReadLine(lines[i]).Row?;
    ReadLinesAt(lines, i);
    MetadataFixed(ReadLines(lines), ReadLines(extra), i);
  }

  lemma MetadataFixed(a: seq<Item>, b: seq<Item>, i: nat)
    requires i < |a| && a[i].Row?
    ensures FromItems(a + b).metadata == FromItems(a).metadata
  {
    FirstRowAppend(a, b, i);
    var n := FirstRow(a);
    assert (a + b)[..n] == a[..n];
  }

  lemma {:induction false} FirstRowAppend(a: seq<Item>, b: seq<Item>, i: nat)
    requires i < |a| && a[i].Row?
    ensures FirstRow(a + b) == FirstRow(a) < |a|
  {
    if !a[0].Row? {
      assert (a + b)[1..] == a[1..] + b;
      assert a[1..][i - 1] == a[i];
      FirstRowAppend(a[1..], b, i - 1);
    }
  }

  /** Reading `a + b` is reading `a`, then, if `a` had no bad line,
      reading `b`. */
  lemma {:induction false} RowsAppend(a: seq<Item>, b: seq<Item>)
    ensures Rows(a + b) ==
      if Rows(a).1.Some? then Rows(a)
      else (Rows(a).0 + Rows(b).0, Rows(b).1)
  {
    if a == [] {
      assert a + b == b;
      assert [] + Rows(b).0 == Rows(b).0;
    } else {
      assert (a + b)[0] == a[0] && (a + b)[1..] == a[1..] + b;
      RowsAppend(a[1..], b);
      if a[0].Row? && a[0].r.Ok? {
        assert Rows(a) == ([a[0].r.value] + Rows(a[1..]).0, Rows(a[1..]).1);
        assert Rows(a + b) == ([a[0].r.value] + Rows(a[1..] + b).0, Rows(a[1..] + b).1);
        assert [a[0].r.value] + Rows(a[1..]).0 + Rows(b).0 == [a[0].r.value] + (Rows(a[1..]).0 + Rows(b).0);
      }
    }
  }

  /** The records before a malformed line are delivered, then its error. */
  lemma RecordsBeforeError(good: seq<string>, bad: string, rest: seq<string>)
    requires FromLines(good).error == None
    requires ReadLine(bad).Row? && ReadLine(bad).r.Err?
    ensures FromLines(good + [bad] + rest).records == FromLines(good).records
    ensures FromLines(good + [bad] + rest).error == Some(ReadLine(bad).r.error)
  {
    var x := ReadLine(bad);
    ReadLinesSplit(good, bad, rest);
    RowsBeforeError(ReadLines(good), x, ReadLines(rest));
  }

  lemma ReadLinesSplit(a: seq<string>, x: string, c: seq<string>)
    ensures ReadLines(a + [x] + c) == ReadLines(a) + [ReadLine(x)] + ReadLines(c)
  {
    assert a + [x] + c == a + ([x] + c);
    ReadLinesAppend(a, [x] + c);
    ReadLinesAppend([x], c);
    assert ReadLines(a) + ([ReadLine(x)] + ReadLines(c)) == ReadLines(a) + [ReadLine(x)] + ReadLines(c);
  }

  lemma RowsBeforeError(a: seq<Item>, x: Item, c: seq<Item>)
    requires Rows(a).1 == None && x.Row? && x.r.Err?
    ensures Rows(a + [x] + c) == (Rows(a).0, Some(x.r.error))
  {
    assert a + [x] + c == a + ([x] + c);
    assert ([x] + c)[0] == x;
    assert Rows([x] + c) == ([], Some(x.r.error));
    RowsAppend(a, [x] + c);
    assert Rows(a).0 + [] == Rows(a).0;
  }

  lemma {:induction false} HeadersInAppend(a: seq<Item>, b: seq<Item>)
    ensures HeadersIn(a + b) == HeadersIn(a) + HeadersIn(b)
    decreases |b|
  {
    if b == [] {
      assert a + b == a;
    } else {
      var b' := b[..|b| - 1];
      assert (a + b)[..|a + b| - 1] == a + b';
      assert (a + b)[|a + b| - 1] == b[|b| - 1];
      HeadersInAppend(a, b');
    }
  }

  /** A blank line can be dropped anywhere without changing what is read. */
  lemma BlankLineIrrelevant(a: seq<string>, b: string, c: seq<string>)
    requires Classify(b) == Blank
    ensures FromLines(a + [b] + c) == FromLines(a + c)
  {
    ReadLinesAppend(a + [b], c);
    ReadLinesAppend(a, [b]);
    ReadLinesAppend(a, c);
    assert ReadLines([b]) == [Skip];
    SkipIrrelevant(ReadLines(a), ReadLines(c));
  }

  lemma SkipIrrelevant(a: seq<Item>, c: seq<Item>)
    ensures FromItems(a + [Skip] + c) == FromItems(a + c)
  {
    SkipRows(a, c);
    SkipShown(a, c);
  }

  lemma SkipRows(a: seq<Item>, c: seq<Item>)
    ensures Rows(a + [Skip] + c) == Rows(a + c)
  {
    assert a + [Skip] + c == a + ([Skip] + c);
    RowsAppend(a, [Skip] + c);
    RowsAppend(a, c);
    assert ([Skip] + c)[1..] == c;
  }

  lemma SkipShown(a: seq<Item>, c: seq<Item>)
    ensures ShownHeaders(a + [Skip] + c) == ShownHeaders(a + c)
  {
    FirstRowSkip(a, c);
    var n := FirstRow(a + c);
    if n < |a| {
      SkipBefore(a, c, n);
    } else if n < |a + c| {
      SkipAfter(a, c, n - |a|);
    }
  }

  lemma SkipBefore(a: seq<Item>, c: seq<Item>, n: nat)
    requires n < |a|
    ensures (a + [Skip] + c)[..n] == (a + c)[..n]
  {
    assert (a + [Skip] + c)[..n] == a[..n];
  }

  lemma SkipAfter(a: seq<Item>, c: seq<Item>, m: nat)
    requires m <= |c|
    ensures HeadersIn((a + [Skip] + c)[..|a| + m + 1]) == HeadersIn((a + c)[..|a| + m])
  {
    var b := c[..m];
    assert (a + [Skip] + c)[..|a| + m + 1] == (a + [Skip]) + b;
    assert (a + c)[..|a| + m] == a + b;
    HeadersInAppend(a + [Skip], b);
    HeadersInAppend(a, b);
    assert (a + [Skip])[..|a|] == a;
  }

  lemma {:induction false} FirstRowSkip(a: seq<Item>, c: seq<Item>)
    ensures var n := FirstRow(a + c);
      FirstRow(a + [Skip] + c) == (if n < |a| then n else n + 1)
  {
    if a == [] {
      assert a + [Skip] + c == [Skip] + c;
      assert ([Skip] + c)[1..] == c;
      assert a + c == c;
    } else {
      assert (a + [Skip] + c)[1..] == a[1..] + [Skip] + c;
      assert (a + c)[1..] == a[1..] + c;
      assert (a + [Skip] + c)[0] == a[0] == (a + c)[0];
      FirstRowSkip(a[1..], c);
    }
  }

  // ---- reading back what the record types render ----

  predicate NoSpace(s: string) {
    forall i :: 0 <= i < |s| ==> !IsSpace(s[i])
  }

  /** A header `str(GffMetadatum)` writes so that reading it back is
      exact: a name that does not start with `#`, no whitespace in the name
      or the values, and no empty last value (whose tab would be stripped). */
  predicate PlainHeader(m: Metadatum) {
    m.name != [] && m.name[0] != '#' && NoSpace(m.name) &&
    (forall j :: 0 <= j < |m.values| ==> NoSpace(m.values[j])) &&
    (m.values == [] || m.values[|m.values| - 1] != [])
  }

  lemma TrimEndSpace(s: string, c: char)
    requires IsSpace(c)
    ensures TrimEnd(s + [c]) == TrimEnd(s)
  {
    assert (s + [c])[..|s|] == s;
  }

  lemma TrimStartCharPrefix(p: string, s: string, c: char)
    requires forall i :: 0 <= i < |p| ==> p[i] == c
    requires s != [] && s[0] != c
    ensures TrimStartChar(p + s, c) == s
    decreases |p|
  {
    if p != [] {
      assert (p + s)[1..] == p[1..] + s;
      TrimStartCharPrefix(p[1..], s, c);
    } else {
      assert p + s == s;
    }
  }

  /** The name and the values of a header, as `str(GffMetadatum)` writes
      them after the prefix, without the trailing tab of an empty list. */
  function HeaderBody(m: Metadatum): string {
    if m.values == [] then m.name else m.name + "\t" + Join(m.values, '\t')
  }

  /** Reading the line `str(GffMetadatum)` writes gives it back. */
  lemma HeaderRoundTrip(m: Metadatum)
    requires PlainHeader(m)
    ensures Classify(RenderMetadatum(m)) == Header(m)
  {
    var line := RenderMetadatum(m);
    var t := Prefix(m.flag) + HeaderBody(m);
    StripRendered(m);
    assert Strip(line) == t;
    HeaderBodySplit(m);
    HeaderOfPrefixed(m.flag, HeaderBody(m));
  }

  lemma StripRendered(m: Metadatum)
    requires PlainHeader(m)
    ensures Strip(RenderMetadatum(m)) == Prefix(m.flag) + HeaderBody(m)
  {
    var p := Prefix(m.flag);
    var line := RenderMetadatum(m);
    var body := HeaderBody(m);
    assert p + body + (if m.values == [] then "\t" else "") == line;
    assert TrimStart(line) == line;
    if m.values == [] {
      TrimEndSpace(p + m.name, '\t');
    } else {
      JoinEnds(m.values, '\t');
    }
  }

  lemma HeaderBodySplit(m: Metadatum)
    requires PlainHeader(m)
    ensures Split(HeaderBody(m), '\t') == [m.name] + m.values
  {
    assert '\t' !in m.name by {
      assert IsSpace('\t');
    }
    if m.values == [] {
      SplitNoSep(m.name, '\t');
    } else {
      forall j | 0 <= j < |m.values| ensures '\t' !in m.values[j] {
        assert IsSpace('\t');
      }
      SplitJoin(m.values, '\t');
      SplitFirst(m.name, Join(m.values, '\t'), '\t');
    }
  }

  /** A header line is its prefix, then a body that starts with neither
      `#` nor whitespace: the prefix alone sets the flag and is dropped. */
  lemma HeaderOfPrefixed(f: Flag, body: string)
    requires body != [] && body[0] != '#' && !IsSpace(body[0])
    ensures var t := Prefix(f) + body; var fields := Split(body, '\t');
      StartsWith(t, "#") && HeaderOf(t) == Metadatum(fields[0], f, fields[1..])
  {
    var p := Prefix(f);
    var t := p + body;
    assert t[..1] == "#";
    if f == Constrained {
      assert t[..2] == "##";
    } else {
      assert t[1] == body[0];
      assert !StartsWith(t, "##");
    }
    TrimStartCharPrefix(p, body, '#');
    assert TrimStart(body) == body;
  }

  /** The last character of a join of pieces whose last piece is not
      empty is the last character of that piece. */
  lemma {:induction false} JoinEnds(parts: seq<string>, sep: char)
    requires |parts| >= 1 && parts[|parts| - 1] != []
    ensures var j := Join(parts, sep); var l := parts[|parts| - 1];
      j != [] && j[|j| - 1] == l[|l| - 1]
  {
    if |parts| > 1 {
      JoinEnds(parts[1..], sep);
    }
  }

  /** The columns as reading them back from a file gives them: every text
      field a `Str`, `start` and `end` unchanged. */
  function TextColumns(c: Columns): Columns {
    Columns(Str(Text(c.seqid)), Str(Text(c.source)), Str(Text(c.feature)), c.start, c.end,
            Str(Text(c.score)), Str(Text(c.strand)), Str(Text(c.phase)))
  }

  /** A data line `str(GffLine)` writes so that reading it back is exact:
      no tab inside a column, a `seqid` that starts with neither whitespace
      nor `#`, a line that does not end in whitespace once the empty
      attribute column's tab is gone, and attributes the codec can carry. */
  predicate PlainLine(l: GffLine) {
    var texts := ColumnTexts(l.columns);
    var tail := if l.attributes == [] then texts[7] else RenderAttributes(l.attributes);
    (forall i :: 0 <= i < 8 ==> '\t' !in texts[i]) &&
    texts[0] != [] && !IsSpace(texts[0][0]) && texts[0][0] != '#' &&
    tail != [] && !IsSpace(tail[|tail| - 1]) &&
    UniqueKeys(l.attributes) && CleanAttributes(l.attributes)
  }

  /** Reading the line `str(GffLine)` writes gives the record back, with
      every column and attribute value as its text. */
  lemma DataLineRoundTrip(l: GffLine)
    requires PlainLine(l)
    ensures ReadLine(RenderLine(l)) == Row(Ok(GffLine(TextColumns(l.columns), AsText(l.attributes))))
  {
    var t := if l.attributes == [] then RenderColumns(l.columns) else RenderLine(l);
    StripRenderedLine(l);
    ReadDataLine(RenderLine(l), t);
    ParseRenderedLine(l);
  }

  /** A line whose stripped text does not start with `#` is a data line. */
  lemma ReadDataLine(raw: string, t: string)
    requires Strip(raw) == t && t != [] && t[0] != '#'
    ensures ReadLine(raw) == Row(ParseDataLine(t))
  {
    assert !StartsWith(t, "#") by {
      assert t[..1][0] == t[0];
    }
    assert Classify(raw) == Data(t);
  }

  lemma StripRenderedLine(l: GffLine)
    requires PlainLine(l)
    ensures var t := if l.attributes == [] then RenderColumns(l.columns) else RenderLine(l);
      Strip(RenderLine(l)) == t && t != [] && t[0] != '#'
  {
    var texts := ColumnTexts(l.columns);
    var cols := RenderColumns(l.columns);
    var a := RenderAttributes(l.attributes);
    JoinStarts(texts, '\t');
    assert RenderLine(l) == cols + ['\t'] + a;
    if l.attributes == [] {
      assert a == [];
      assert RenderLine(l) == cols + ['\t'];
      JoinEnds(texts, '\t');
      assert TrimStart(cols) == cols && TrimEnd(cols) == cols;
      TrimEndSpace(cols, '\t');
      assert TrimStart(RenderLine(l)) == RenderLine(l);
    } else {
      StripSolid(RenderLine(l));
    }
  }

  /** The first character of a join whose first piece is not empty is the
      first character of that piece. */
  lemma JoinStarts(parts: seq<string>, sep: char)
    requires |parts| >= 1 && parts[0] != []
    ensures var j := Join(parts, sep); j != [] && j[0] == parts[0][0]
  {
  }

  lemma ParseRenderedLine(l: GffLine)
    requires PlainLine(l)
    ensures var t := if l.attributes == [] then RenderColumns(l.columns) else RenderLine(l);
      ParseDataLine(t) == Ok(GffLine(TextColumns(l.columns), AsText(l.attributes)))
  {
    if l.attributes == [] {
      ParseBareLine(l);
    } else {
      ParseFullLine(l);
    }
  }

  /** A record with no attributes is written as its eight columns. */
  lemma ParseBareLine(l: GffLine)
    requires PlainLine(l) && l.attributes == []
    ensures ParseDataLine(RenderColumns(l.columns)) == Ok(GffLine(TextColumns(l.columns), AsText(l.attributes)))
  {
    var texts := ColumnTexts(l.columns);
    SplitJoin(texts, '\t');
    assert Split(RenderColumns(l.columns), '\t') == texts;
    SplitNoSep("", '=');
    assert AttributePairs([""]) == [];
    MakeTextColumns(l.columns);
  }

  lemma ParseFullLine(l: GffLine)
    requires PlainLine(l) && l.attributes != []
    ensures ParseDataLine(RenderLine(l)) == Ok(GffLine(TextColumns(l.columns), AsText(l.attributes)))
  {
    var data := Split(RenderLine(l), '\t');
    FullLineFields(l);
    assert ColumnArgs(data) == Strs(ColumnTexts(l.columns));
    AttributesRoundTrip(l.attributes);
    MakeTextColumns(l.columns);
  }

  /** A rendered line with attributes splits into the eight column texts,
      then fields that join back to the attribute text. */
  lemma FullLineFields(l: GffLine)
    requires PlainLine(l) && l.attributes != []
    ensures var data := Split(RenderLine(l), '\t');
      |data| > 8 && data[..8] == ColumnTexts(l.columns) && Join(data[8..], '\t') == RenderAttributes(l.attributes)
  {
    var texts := ColumnTexts(l.columns);
    var a := RenderAttributes(l.attributes);
    var data := Split(RenderLine(l), '\t');
    JoinAppend(texts, a, '\t');
    SplitJoinThen(texts, a, '\t');
    assert data == texts + Split(a, '\t');
    assert data[..8] == texts && data[8..] == Split(a, '\t');
    JoinSplit(a, '\t');
  }

  lemma MakeTextColumns(c: Columns)
    ensures MakeColumns(Strs(ColumnTexts(c))) == Ok(TextColumns(c))
  {
    MakeFromTexts(ColumnTexts(c), c.start, c.end);
  }

  /** Eight text fields whose `start` and `end` are integers written out
      make columns of `Str` values and those two integers. */
  lemma MakeFromTexts(t: seq<string>, start: int, end: int)
    requires |t| == 8 && t[3] == IntToString(start) && t[4] == IntToString(end)
    ensures MakeColumns(Strs(t)) ==
      Ok(Columns(Str(t[0]), Str(t[1]), Str(t[2]), start, end, Str(t[5]), Str(t[6]), Str(t[7])))
  {
    ParseIntRoundTrip(start);
    ParseIntRoundTrip(end);
    var args := Strs(t);
    assert IntOf(args[3]) == Ok(start) && IntOf(args[4]) == Ok(end);
  }

}
