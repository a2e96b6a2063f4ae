/** The record types of `bioino/gff.py`: header lines (`GffMetadatum`,
    `GffMetadata`), the eight fixed columns (`GffColumns`), a data line
    (`GffLine`) with its `tag=value` attribute codec, and the flattening to
    and from a single dict (`as_dict`, `from_dict`). */
module GffRecords {
  import opened Wrappers
  import opened Strings
  import opened Dicts

  /** A cell value. Text read from a file is always `Str`; the lookup table
      writes integer offsets into attributes, and `GffColumns` turns `start`
      and `end` into integers. */
  datatype Value = Str(s: string) | Int(n: int)

  /** `str(v)`. */
  function Text(v: Value): string {
    match v
    case Str(s) => s
    case Int(n) => IntToString(n)
  }

  /** The exceptions the modelled code raises. */
  datatype Error =
    | InvalidFlag                              // ValueError from GffMetadatum, a fixed message
    | NotConvertible(item: string)             // ValueError from GffMetadata
    | TooManyArguments(count: nat)             // TypeError: more than 8 columns
    | MissingArguments(names: seq<string>)     // TypeError: a required column is absent
    | UnexpectedKeywords(keywords: set<string>)   // TypeError: a keyword GffColumns lacks
    | NotAnInteger(text: string)               // ValueError from int()
    | CorruptedLine(line: string)              // IOError from _from_file
    | NameNotText(name: Value)                 // TypeError: tag prefix + non-str Name
    | NoEligibleFeature                        // AttributeError on None, lookup table
    | MissingPositions(positions: seq<int>)    // AttributeError, lookup coverage check
    | EmptyStream                              // IOError from to_csv

  // ---- header lines ----

  datatype Flag = Free | Constrained

  /** A header line. The values are kept as the text `str()` gives them. */
  datatype Metadatum = Metadatum(name: string, flag: Flag, values: seq<string>)

  /** `GffMetadatum(name, flag, values)` with its flag check; an absent
      flag means 'constrained'. */
  function MakeMetadatum(name: string, flag: Option<string>, values: seq<string>): (r: Result<Metadatum, Error>)
    ensures r.Ok? <==> flag == None || flag == Some("free") || flag == Some("constrained")
    ensures r.Ok? ==> r.value.name == name && r.value.values == values
    ensures r.Ok? ==> (r.value.flag == Free <==> flag == Some("free"))
    ensures r.Err? ==> r == Err(InvalidFlag)
  {
    match flag
    case None => Ok(Metadatum(name, Constrained, values))
    case Some(f) =>
      if f == "free" then Ok(Metadatum(name, Free, values))
      else if f == "constrained" then Ok(Metadatum(name, Constrained, values))
      else Err(InvalidFlag)
  }

  function Prefix(f: Flag): string {
    if f == Constrained then "##" else "#"
  }

  /** `str(GffMetadatum)`: the prefix, the name, a tab, then the values
      joined by tabs; the tab after the name is there even with no values. */
  function RenderMetadatum(m: Metadatum): (line: string)
    ensures StartsWith(line, Prefix(m.flag))
    ensures m.values == [] ==> line == Prefix(m.flag) + m.name + "\t"
  {
    Prefix(m.flag) + m.name + "\t" + Join(m.values, '\t')
  }

  /** What `GffMetadata` accepts as an item: a ready `GffMetadatum`, a tuple
      of its fields (`GffMetadatum(*item)`, flag and values optional), or
      anything else (a string or a non-iterable), kept as its text. */
  datatype MetaItem =
    | Datum(m: Metadatum)
    | Fields(name: string, flag: Option<string>, values: seq<string>)
    | Atom(text: string)

  function CoerceItem(item: MetaItem): Result<Metadatum, Error> {
    match item
    case Datum(m) => Ok(m)
    case Fields(n, f, vs) => MakeMetadatum(n, f, vs)
    case Atom(t) => Err(NotConvertible(t))
  }

  /** `GffMetadata.__post_init__`: every item converted in order; the first
      item that cannot be converted raises. */
  method BuildMetadata(items: seq<MetaItem>) returns (r: Result<seq<Metadatum>, Error>)
    ensures r.Ok? <==> forall i :: 0 <= i < |items| ==> CoerceItem(items[i]).Ok?
    ensures r.Ok? ==> (|r.value| == |items| &&
      forall i :: 0 <= i < |items| ==> Ok(r.value[i]) == CoerceItem(items[i]))
    ensures r.Err? ==>
      exists i :: 0 <= i < |items| && CoerceItem(items[i]) == Err(r.error) &&
                  forall j :: 0 <= j < i ==> CoerceItem(items[j]).Ok?
  {
    var acc: seq<Metadatum> := [];
    var i := 0;
    while i < |items|
      invariant 0 <= i <= |items| && |acc| == i
      invariant forall j :: 0 <= j < i ==> Ok(acc[j]) == CoerceItem(items[j])
    {
      var c := CoerceItem(items[i]);
      if c.Err? {
        return Err(c.error);
      }
      acc := acc + [c.value];
      i := i + 1;
    }
    return Ok(acc);
  }

  /** `str(GffMetadata)`: the header lines joined by newlines. */
  function RenderMetadata(ms: seq<Metadatum>): string {
    Join(RenderedLines(ms), '\n')
  }

  function RenderedLines(ms: seq<Metadatum>): (ls: seq<string>)
    ensures |ls| == |ms| && forall i :: 0 <= i < |ms| ==> ls[i] == RenderMetadatum(ms[i])
  {
    if ms == [] then [] else [RenderMetadatum(ms[0])] + RenderedLines(ms[1..])
  }

  /** Splitting the rendered block at newlines gives back one line per
      header, provided no name or value holds a newline. */
  lemma MetadataBlockLines(ms: seq<Metadatum>)
    requires |ms| >= 1
    requires forall i :: 0 <= i < |ms| ==> '\n' !in RenderMetadatum(ms[i])
    ensures Split(RenderMetadata(ms), '\n') == RenderedLines(ms)
  {
    SplitJoin(RenderedLines(ms), '\n');
  }

  // ---- the eight columns ----

  datatype Columns = Columns(seqid: Value, source: Value, feature: Value, start: int, end: int,
                             score: Value, strand: Value, phase: Value)

  /** The field names of `GffColumns`, in order. */
  const ColumnNames: seq<string> := ["seqid", "source", "feature", "start", "end", "score", "strand", "phase"]

  /** `_GFF_COLNAMES`: the column names and `attribute`. */
  const GffColNames: seq<string> := ColumnNames + ["attribute"]

  /** The fields `GffColumns` cannot do without. */
  const RequiredNames: seq<string> := ["seqid", "source", "feature", "start", "end"]

  /** `int(v)`: a number passes, text must be decimal. */
  function IntOf(v: Value): (r: Result<int, Error>)
    ensures v.Int? ==> r == Ok(v.n)
    ensures v.Str? ==> (r.Ok? <==> ParseInt(v.s).Some?)
  {
    match v
    case Int(n) => Ok(n)
    case Str(s) => if ParseInt(s).Some? then Ok(ParseInt(s).value) else Err(NotAnInteger(s))
  }

  /** The required fields `kw` lacks, in field order. */
  function MissingRequired(kw: map<string, Value>): (r: seq<string>)
    ensures r == [] <==> HasRequired(kw)
  {
    (if "seqid" in kw then [] else ["seqid"]) + (if "source" in kw then [] else ["source"]) +
    (if "feature" in kw then [] else ["feature"]) + (if "start" in kw then [] else ["start"]) +
    (if "end" in kw then [] else ["end"])
  }

  predicate HasRequired(kw: map<string, Value>) {
    "seqid" in kw && "source" in kw && "feature" in kw && "start" in kw && "end" in kw
  }

  function Default(kw: map<string, Value>, name: string, fallback: string): Value {
    if name in kw then kw[name] else Str(fallback)
  }

  /** `GffColumns(**kw)` and its `__post_init__`: unknown keywords and
      absent required fields raise `TypeError`, then `start` and `end` go
      through `int()`, `start` first; the optional fields default to
      `.`, `+` and `.`. */
  function BindColumns(kw: map<string, Value>): (r: Result<Columns, Error>)
    ensures (exists k :: k in kw && k !in ColumnNames) ==> r.Err? && r.error.UnexpectedKeywords?
    ensures r.Ok? <==> ((forall k :: k in kw ==> k in ColumnNames) &&
      HasRequired(kw) && IntOf(kw["start"]).Ok? && IntOf(kw["end"]).Ok?)
    ensures ((forall k :: k in kw ==> k in ColumnNames) && HasRequired(kw) && IntOf(kw["start"]).Err?) ==>
              r == Err(IntOf(kw["start"]).error)
    ensures ((forall k :: k in kw ==> k in ColumnNames) && HasRequired(kw) && IntOf(kw["start"]).Ok? &&
             IntOf(kw["end"]).Err?) ==> r == Err(IntOf(kw["end"]).error)
    ensures r.Ok? ==> (r.value.seqid == kw["seqid"] && r.value.source == kw["source"] &&
      r.value.feature == kw["feature"] &&
      Ok(r.value.start) == IntOf(kw["start"]) && Ok(r.value.end) == IntOf(kw["end"]) &&
      r.value.score == Default(kw, "score", ".") && r.value.strand == Default(kw, "strand", "+") &&
      r.value.phase == Default(kw, "phase", "."))
  {
    var unknown := set k | k in kw && k !in ColumnNames;
    assert forall k :: k in kw && k !in ColumnNames ==> k in unknown;
    if unknown != {} then Err(UnexpectedKeywords(unknown))
    else
      var missing := MissingRequired(kw);
      if missing != [] then Err(MissingArguments(missing))
      else
        var start :- IntOf(kw["start"]);
        var end :- IntOf(kw["end"]);
        Ok(Columns(kw["seqid"], kw["source"], kw["feature"], start, end,
                   Default(kw, "score", "."), Default(kw, "strand", "+"), Default(kw, "phase", ".")))
  }

  /** `GffColumns(*args)`: five to eight positional fields, `start` and
      `end` through `int()`, the missing optional fields defaulted. */
  function MakeColumns(args: seq<Value>): (r: Result<Columns, Error>)
    ensures |args| > 8 ==> r == Err(TooManyArguments(|args|))
    ensures |args| < 5 ==> r == Err(MissingArguments(RequiredNames[|args|..]))
    ensures 5 <= |args| <= 8 ==> (r.Ok? <==> IntOf(args[3]).Ok? && IntOf(args[4]).Ok?)
    ensures 5 <= |args| <= 8 && IntOf(args[3]).Err? ==> r == Err(IntOf(args[3]).error)
    ensures 5 <= |args| <= 8 && IntOf(args[3]).Ok? && IntOf(args[4]).Err? ==> r == Err(IntOf(args[4]).error)
    ensures r.Ok? ==> (r.value.seqid == args[0] && r.value.source == args[1] &&
      r.value.feature == args[2] &&
      Ok(r.value.start) == IntOf(args[3]) && Ok(r.value.end) == IntOf(args[4]) &&
      r.value.score == (if |args| > 5 then args[5] else Str(".")) &&
      r.value.strand == (if |args| > 6 then args[6] else Str("+")) &&
      r.value.phase == (if |args| > 7 then args[7] else Str(".")))
  {
    if |args| > 8 then Err(TooManyArguments(|args|))
    else if |args| < 5 then Err(MissingArguments(RequiredNames[|args|..]))
    else
      var start :- IntOf(args[3]);
      var end :- IntOf(args[4]);
      Ok(Columns(args[0], args[1], args[2], start, end,
                 if |args| > 5 then args[5] else Str("."),
                 if |args| > 6 then args[6] else Str("+"),
                 if |args| > 7 then args[7] else Str(".")))
  }

  /** The keywords `GffColumns(*args)` binds its positional arguments to:
      the first `|args|` field names, in order. */
  function Positional(args: seq<Value>): (kw: map<string, Value>)
    requires |args| <= 8
    ensures forall j :: 0 <= j < |args| ==> ColumnNames[j] in kw && kw[ColumnNames[j]] == args[j]
    ensures forall k :: k in kw ==> exists j :: 0 <= j < |args| && ColumnNames[j] == k
  {
    NamesDistinct();
    map j | 0 <= j < |args| :: ColumnNames[j] := args[j]
  }

  /** Positional construction binds like keyword construction: five to
      eight arguments give what `GffColumns(**kw)` gives for the same
      fields named. */
  lemma PositionalBinds(args: seq<Value>)
    requires 5 <= |args| <= 8
    ensures MakeColumns(args) == BindColumns(Positional(args))
  {
    PositionalKnown(args);
    PositionalRequired(args);
    PositionalOptional(args);
  }

  lemma PositionalKnown(args: seq<Value>)
    requires |args| <= 8
    ensures forall k :: k in Positional(args) ==> k in ColumnNames
  {
    var kw := Positional(args);
    forall k | k in kw ensures k in ColumnNames {
      var j :| 0 <= j < |args| && ColumnNames[j] == k;
    }
  }

  lemma PositionalRequired(args: seq<Value>)
    requires 5 <= |args| <= 8
    ensures var kw := Positional(args);
      HasRequired(kw) && kw["seqid"] == args[0] && kw["source"] == args[1] && kw["feature"] == args[2] &&
      kw["start"] == args[3] && kw["end"] == args[4]
  {
    assert ColumnNames[0] == "seqid" && ColumnNames[1] == "source" && ColumnNames[2] == "feature" &&
      ColumnNames[3] == "start" && ColumnNames[4] == "end";
  }

  lemma PositionalOptional(args: seq<Value>)
    requires 5 <= |args| <= 8
    ensures var kw := Positional(args);
      Default(kw, "score", ".") == (if |args| > 5 then args[5] else Str(".")) &&
      Default(kw, "strand", "+") == (if |args| > 6 then args[6] else Str("+")) &&
      Default(kw, "phase", ".") == (if |args| > 7 then args[7] else Str("."))
  {
    var kw := Positional(args);
    NamesDistinct();
    assert ColumnNames[5] == "score" && ColumnNames[6] == "strand" && ColumnNames[7] == "phase";
    forall j | |args| <= j < 8 ensures ColumnNames[j] !in kw {
      assert forall i :: 0 <= i < |args| ==> ColumnNames[i] != ColumnNames[j];
    }
  }

  /** `asdict(columns)`: the eight fields in order. */
  function ColumnsDict(c: Columns): (d: Dict<string, Value>)
    ensures Keys(d) == ColumnNames
  {
    [("seqid", c.seqid), ("source", c.source), ("feature", c.feature), ("start", Int(c.start)),
     ("end", Int(c.end)), ("score", c.score), ("strand", c.strand), ("phase", c.phase)]
  }

  /** `str(GffColumns)`: the eight values as text, joined by tabs. */
  function RenderColumns(c: Columns): string {
    Join(ColumnTexts(c), '\t')
  }

  function ColumnTexts(c: Columns): (t: seq<string>)
    ensures |t| == 8
  {
    [Text(c.seqid), Text(c.source), Text(c.feature), IntToString(c.start), IntToString(c.end),
     Text(c.score), Text(c.strand), Text(c.phase)]
  }

  // ---- a data line and its attributes ----

  datatype GffLine = GffLine(columns: Columns, attributes: Dict<string, Value>)

  /** The pairs `_get_gff_attributes` zips: piece `j` split at `=` gives its
      last `;`-segment as a key, piece `j+1` its first `;`-segment as the
      value. */
  function AttributePairs(pieces: seq<string>): (r: seq<(string, Value)>)
    ensures |pieces| >= 1 ==> |r| == |pieces| - 1
    ensures forall i :: 0 <= i < |r| ==> r[i].1.Str?
  {
    if |pieces| < 2 then []
    else
      var keySegs := Split(pieces[0], ';');
      [(keySegs[|keySegs| - 1], Str(Split(pieces[1], ';')[0]))] + AttributePairs(pieces[1..])
  }

  /** `GffLine._get_gff_attributes`: one pair per `=`, later pairs with a
      repeated key overwriting the value; all values are text. */
  function ParseAttributes(x: string): (r: Dict<string, Value>)
    ensures UniqueKeys(r)
    ensures |r| <= multiset(x)['=']
    ensures forall k :: HasKey(r, k) ==> '=' !in k && ';' !in k
  {
    var pairs := AttributePairs(Split(x, '='));
    SplitCount(x, '=');
    UpdateUnique([], pairs);
    AttributeKeysClean(Split(x, '='));
    forall k | HasKey(FromPairs(pairs), k) ensures '=' !in k && ';' !in k {
      UpdateHasKey([], pairs, k);
      var i :| 0 <= i < |pairs| && Keys(pairs)[i] == k;
    }
    FromPairs(pairs)
  }

  lemma {:induction false} AttributeKeysClean(pieces: seq<string>)
    requires forall i :: 0 <= i < |pieces| ==> '=' !in pieces[i]
    ensures forall i :: 0 <= i < |AttributePairs(pieces)| ==>
      '=' !in AttributePairs(pieces)[i].0 && ';' !in AttributePairs(pieces)[i].0
  {
    if |pieces| >= 2 {
      AttributeKeysClean(pieces[1..]);
      var segs := Split(pieces[0], ';');
      var k := segs[|segs| - 1];
      assert forall c :: c in k ==> c in pieces[0] by {
        JoinSplit(pieces[0], ';');
        JoinContains(segs, ';', |segs| - 1);
      }
    }
  }

  /** Every piece of a join is part of the joined string. */
  lemma {:induction false} JoinContains(parts: seq<string>, sep: char, i: nat)
    requires i < |parts|
    ensures forall c :: c in parts[i] ==> c in Join(parts, sep)
  {
    if |parts| > 1 && i > 0 {
      JoinContains(parts[1..], sep, i - 1);
    }
  }

  /** The `k=v` texts `__str__` joins with `;`. */
  function AttributeTexts(d: Dict<string, Value>): (t: seq<string>)
    ensures |t| == |d|
  {
    if d == [] then [] else [d[0].0 + "=" + Text(d[0].1)] + AttributeTexts(d[1..])
  }

  /** Column 9 as `GffLine.__str__` writes it. */
  function RenderAttributes(d: Dict<string, Value>): string {
    Join(AttributeTexts(d), ';')
  }

  /** `str(GffLine)`: the columns, a tab, then the attributes. */
  function RenderLine(l: GffLine): string {
    RenderColumns(l.columns) + "\t" + RenderAttributes(l.attributes)
  }

  /** The attributes with the values replaced by their text, as reading
      them back from a file would give. */
  function AsText(d: Dict<string, Value>): (r: Dict<string, Value>)
    ensures |r| == |d| && Keys(r) == Keys(d)
    ensures forall i :: 0 <= i < |d| ==> r[i] == (d[i].0, Str(Text(d[i].1)))
  {
    if d == [] then [] else [(d[0].0, Str(Text(d[0].1)))] + AsText(d[1..])
  }

  /** No key or value text holds `=` or `;`. */
  predicate CleanAttributes(d: Dict<string, Value>) {
    forall i :: 0 <= i < |d| ==>
      '=' !in d[i].0 && ';' !in d[i].0 && '=' !in Text(d[i].1) && ';' !in Text(d[i].1)
  }

  predicate AllText(d: Dict<string, Value>) {
    forall i :: 0 <= i < |d| ==> d[i].1.Str?
  }

  lemma AsTextOfText(d: Dict<string, Value>)
    requires AllText(d)
    ensures AsText(d) == d
  {
    assert forall i :: 0 <= i < |d| ==> AsText(d)[i] == d[i];
  }

  lemma AttributePairsHead(a: string, b: string, t: seq<string>)
    requires var sa, sb := Split(a, ';'), Split(b, ';'); sa[|sa| - 1] == sb[|sb| - 1]
    ensures AttributePairs([a] + t) == AttributePairs([b] + t)
  {
    if t == [] {
      assert [a] + t == [a] && [b] + t == [b];
    } else {
      PairsFirst(a, t);
      PairsFirst(b, t);
    }
  }

  /** The first pair of `[a] + t` has the last `;`-segment of `a` as its
      key. */
  lemma PairsFirst(a: string, t: seq<string>)
    requires t != []
    ensures var sa := Split(a, ';');
      AttributePairs([a] + t) == [(sa[|sa| - 1], Str(Split(t[0], ';')[0]))] + AttributePairs(t)
  {
    var p := [a] + t;
    assert p[0] == a && p[1] == t[0] && p[1..] == t;
  }

  /** The `=`-pieces of a rendered attribute column, read back. */
  lemma {:induction false} RenderedPieces(d: Dict<string, Value>)
    requires |d| >= 1 && CleanAttributes(d)
    ensures Split(RenderAttributes(d), '=')[0] == d[0].0
    ensures AttributePairs(Split(RenderAttributes(d), '=')) == AsText(d)
  {
    if |d| == 1 {
      RenderedOne(d);
    } else {
      var rest := d[1..];
      assert CleanAttributes(rest) by {
        forall i | 0 <= i < |rest| ensures rest[i] == d[i + 1] { }
      }
      RenderedPieces(rest);
      RenderedMore(d);
    }
  }

  lemma RenderedOne(d: Dict<string, Value>)
    requires |d| == 1 && CleanAttributes(d)
    ensures Split(RenderAttributes(d), '=')[0] == d[0].0
    ensures AttributePairs(Split(RenderAttributes(d), '=')) == AsText(d)
  {
    var k, t := d[0].0, Text(d[0].1);
    assert RenderAttributes(d) == k + ['='] + t;
    SplitFirst(k, t, '=');
    SplitNoSep(t, '=');
    SplitNoSep(k, ';');
    SplitNoSep(t, ';');
    assert Split(RenderAttributes(d), '=') == [k, t];
    assert AttributePairs([k, t]) == [(k, Str(t))];
  }

  /** One more pair in front: its key is the first piece, and its value
      is glued by `;` to the next key in the second. */
  lemma RenderedMore(d: Dict<string, Value>)
    requires |d| >= 2 && CleanAttributes(d)
    requires Split(RenderAttributes(d[1..]), '=')[0] == d[1].0
    requires AttributePairs(Split(RenderAttributes(d[1..]), '=')) == AsText(d[1..])
    ensures Split(RenderAttributes(d), '=')[0] == d[0].0
    ensures AttributePairs(Split(RenderAttributes(d), '=')) == AsText(d)
  {
    var k, t := d[0].0, Text(d[0].1);
    var s' := Split(RenderAttributes(d[1..]), '=');
    var k1 := d[1].0;
    var p := t + [';'] + k1;
    RenderedSplit(d);
    assert Split(RenderAttributes(d), '=') == [k] + ([p] + s'[1..]);
    SplitFirst(t, k1, ';');
    SplitNoSep(k1, ';');
    SplitNoSep(k, ';');
    assert Split(p, ';') == [t, k1];
    assert s' == [k1] + s'[1..];
    AttributePairsHead(p, k1, s'[1..]);
    PairsCons(k, p, s'[1..]);
    assert AttributePairs([p] + s'[1..]) == AttributePairs(s');
    assert AsText(d) == [(k, Str(t))] + AsText(d[1..]);
  }

  /** How the rendered column of `d` splits at `=`, given how the
      rendered column of `d[1..]` does. */
  lemma RenderedSplit(d: Dict<string, Value>)
    requires |d| >= 2 && CleanAttributes(d)
    requires Split(RenderAttributes(d[1..]), '=')[0] == d[1].0
    ensures var s' := Split(RenderAttributes(d[1..]), '=');
      Split(RenderAttributes(d), '=') == [d[0].0] + ([Text(d[0].1) + [';'] + d[1].0] + s'[1..])
  {
    var k, t := d[0].0, Text(d[0].1);
    var r' := RenderAttributes(d[1..]);
    assert AttributeTexts(d)[1..] == AttributeTexts(d[1..]);
    assert RenderAttributes(d) == k + ['='] + ((t + [';']) + r');
    SplitFirst(k, (t + [';']) + r', '=');
    SplitPrefixed(t + [';'], r', '=');
  }

  /** The first pair comes from the first two pieces. */
  lemma PairsCons(k: string, p: string, t: seq<string>)
    requires Split(k, ';') == [k]
    ensures AttributePairs([k] + ([p] + t)) == [(k, Str(Split(p, ';')[0]))] + AttributePairs([p] + t)
  {
    assert ([k] + ([p] + t))[1..] == [p] + t;
  }

  /** Reading back the attribute column `__str__` writes gives the same
      dict, each value as its text, as long as no key or value holds `=`
      or `;`. */
  lemma AttributesRoundTrip(d: Dict<string, Value>)
    requires UniqueKeys(d) && CleanAttributes(d)
    ensures ParseAttributes(RenderAttributes(d)) == AsText(d)
  {
    if d == [] {
      SplitNoSep("", '=');
      assert AttributePairs([""]) == [];
    } else {
      RenderedPieces(d);
      assert UniqueKeys(AsText(d)) by {
        forall i, j | 0 <= i < j < |d| ensures AsText(d)[i].0 != AsText(d)[j].0 {
          assert AsText(d)[i].0 == d[i].0 && AsText(d)[j].0 == d[j].0;
        }
      }
      FromDistinctPairs(AsText(d));
    }
  }

  /** Text without `=` holds no attribute. */
  lemma ParseNoEquals(x: string)
    requires '=' !in x
    ensures ParseAttributes(x) == []
  {
    SplitNoSep(x, '=');
    assert AttributePairs([x]) == [];
  }

  /** A segment: text holding neither `=` nor `;`. */
  predicate Segment(x: string) {
    '=' !in x && ';' !in x
  }

  /** Each key is the `;`-segment just before its `=` and each value the
      one just after it; a segment in the middle is dropped, so
      `a=b;c;d=e` holds `a` and `d` only. */
  lemma ParseDropsMiddle(a: string, b: string, c: string, d: string, e: string)
    requires Segment(a) && Segment(b) && Segment(c) && Segment(d) && Segment(e) && a != d
    ensures ParseAttributes(a + "=" + b + ";" + c + ";" + d + "=" + e) == [(a, Str(b)), (d, Str(e))]
  {
    var x := a + "=" + b + ";" + c + ";" + d + "=" + e;
    var mid := b + [';'] + (c + [';'] + d);
    MiddleText(a, b, c, d, e);
    MiddleSegments(b, c, d);
    MiddlePieces(a, mid, e);
    var pairs := [(a, Str(b)), (d, Str(e))];
    assert Split(x, '=') == [a, mid, e];
    MiddlePairs(a, mid, e, b, c, d);
    FromDistinctPairs(pairs);
    assert ParseAttributes(x) == FromPairs(AttributePairs([a, mid, e]));
  }

  lemma MiddlePairs(a: string, mid: string, e: string, b: string, c: string, d: string)
    requires Split(a, ';') == [a] && Split(mid, ';') == [b, c, d] && ';' !in e
    ensures AttributePairs([a, mid, e]) == [(a, Str(b)), (d, Str(e))]
  {
    SplitNoSep(e, ';');
    var pieces := [a, mid, e];
    assert pieces[1..] == [mid, e] && pieces[1..][1..] == [e];
  }

  lemma MiddleText(a: string, b: string, c: string, d: string, e: string)
    ensures a + "=" + b + ";" + c + ";" + d + "=" + e == a + ['='] + ((b + [';'] + (c + [';'] + d)) + ['='] + e)
  {
  }

  lemma MiddlePieces(a: string, mid: string, e: string)
    requires '=' !in a && '=' !in mid && '=' !in e
    ensures Split(a + ['='] + (mid + ['='] + e), '=') == [a, mid, e]
  {
    SplitNoSep(e, '=');
    SplitFirst(mid, e, '=');
    SplitFirst(a, mid + ['='] + e, '=');
  }

  /** The middle piece splits into its three segments and holds no `=`. */
  lemma MiddleSegments(b: string, c: string, d: string)
    requires Segment(b) && Segment(c) && Segment(d)
    ensures '=' !in b + [';'] + (c + [';'] + d)
    ensures Split(b + [';'] + (c + [';'] + d), ';') == [b, c, d]
  {
    SplitNoSep(d, ';');
    SplitFirst(c, d, ';');
    SplitFirst(b, c + [';'] + d, ';');
  }

  // ---- flattening ----

  /** `GffLine.as_dict`: the columns, overlaid by the attributes. */
  function AsDict(l: GffLine): Dict<string, Value> {
    Update(ColumnsDict(l.columns), l.attributes)
  }

  /** An attribute wins over a column of the same name; the columns come
      first in the key order. */
  lemma AsDictGet(l: GffLine, k: string)
    requires UniqueKeys(l.attributes)
    ensures Get(AsDict(l), k) ==
      if HasKey(l.attributes, k) then Get(l.attributes, k) else Get(ColumnsDict(l.columns), k)
  {
    UpdateGet(ColumnsDict(l.columns), l.attributes, k);
  }

  /** The keys of `as_dict` are the column names and the attribute keys. */
  lemma AsDictKeys(l: GffLine, k: string)
    ensures HasKey(AsDict(l), k) <==> k in ColumnNames || HasKey(l.attributes, k)
  {
    UpdateHasKey(ColumnsDict(l.columns), l.attributes, k);
  }

  /** The pairs `(k, d[k])` for the keys `ks`, in that order. */
  function PairsFor(d: map<string, Value>, ks: seq<string>): (r: Dict<string, Value>)
    requires forall i :: 0 <= i < |ks| ==> ks[i] in d
    ensures Keys(r) == ks
    ensures forall i :: 0 <= i < |ks| ==> r[i].1 == d[ks[i]]
  {
    if ks == [] then [] else [(ks[0], d[ks[0]])] + PairsFor(d, ks[1..])
  }

  /** The keys of `d` that are not names in `_GFF_COLNAMES`, sorted. */
  function ExtraKeys(d: map<string, Value>): (ks: seq<string>)
    ensures forall k :: k in ks <==> k in d && k !in GffColNames
    ensures StrictlySorted(ks)
  {
    SortedSeqOf(set k | k in d && k !in GffColNames)
  }

  /** The entries of `d` whose keys are in `_GFF_COLNAMES`. */
  function ColumnKeywords(d: map<string, Value>): (kw: map<string, Value>)
    ensures forall k :: k in kw <==> k in d && k in GffColNames
    ensures forall k :: k in kw ==> kw[k] == d[k]
  {
    map k | k in d && k in GffColNames :: d[k]
  }

  /** `GffLine.from_dict`: the keys in `_GFF_COLNAMES` become the columns
      (so an `attribute` key is an unexpected keyword), every other key
      becomes an attribute, in sorted key order. */
  function FromDict(d: map<string, Value>): (r: Result<GffLine, Error>)
    ensures "attribute" in d ==> r == Err(UnexpectedKeywords({"attribute"}))
    ensures r.Ok? ==> (Keys(r.value.attributes) == ExtraKeys(d) &&
      forall i :: 0 <= i < |r.value.attributes| ==> r.value.attributes[i].1 == d[r.value.attributes[i].0])
  {
    var kw := ColumnKeywords(d);
    assert "attribute" in d ==> (set k | k in kw && k !in ColumnNames) == {"attribute"};
    var columns :- BindColumns(kw);
    var ks := ExtraKeys(d);
    Ok(GffLine(columns, PairsFor(d, ks)))
  }

  /** `from_dict` succeeds exactly when there is no `attribute` key, the
      five required columns are there, and `start` and `end` are
      integers. */
  lemma FromDictOk(d: map<string, Value>)
    ensures FromDict(d).Ok? <==> ("attribute" !in d && HasRequired(d) && IntOf(d["start"]).Ok? && IntOf(d["end"]).Ok?)
  {
    var kw := ColumnKeywords(d);
    if "attribute" !in d {
      assert forall k :: k in kw ==> k in ColumnNames;
      assert HasRequired(kw) <==> HasRequired(d);
    }
  }

  lemma ColumnsDictUnique(c: Columns)
    ensures UniqueKeys(ColumnsDict(c))
  {
    NamesDistinct();
    DistinctKeys(ColumnsDict(c), ColumnNames);
  }

  lemma NamesDistinct()
    ensures forall i, j :: 0 <= i < j < |ColumnNames| ==> ColumnNames[i] != ColumnNames[j]
  {
    forall i, j | 0 <= i < j < |ColumnNames| ensures ColumnNames[i] != ColumnNames[j] {
      assert |ColumnNames[i]| != |ColumnNames[j]| || ColumnNames[i][1] != ColumnNames[j][1];
    }
  }

  /** The mapping `asdict(columns)` stands for. */
  predicate NamesColumns(m: map<string, Value>, c: Columns) {
    (forall k :: k in m ==> k in ColumnNames) && HasRequired(m) &&
    "score" in m && "strand" in m && "phase" in m &&
    m["seqid"] == c.seqid && m["source"] == c.source && m["feature"] == c.feature &&
    m["start"] == Int(c.start) && m["end"] == Int(c.end) &&
    m["score"] == c.score && m["strand"] == c.strand && m["phase"] == c.phase
  }

  lemma ColumnsDictMap(c: Columns)
    ensures NamesColumns(ToMap(ColumnsDict(c)), c)
  {
    var d := ColumnsDict(c);
    var m := ToMap(d);
    ColumnsDictUnique(c);
    GetAt(d, 0); GetAt(d, 1); GetAt(d, 2); GetAt(d, 3);
    GetAt(d, 4); GetAt(d, 5); GetAt(d, 6); GetAt(d, 7);
    forall k | k in m ensures k in ColumnNames {
      assert HasKey(d, k);
    }
  }

  /** Keyword construction from the column mapping gives the columns. */
  lemma BindNamedColumns(m: map<string, Value>, c: Columns)
    requires NamesColumns(m, c)
    ensures BindColumns(m) == Ok(c)
  {
    assert BindColumns(m).Ok?;
  }

  /** Keyword construction from `asdict(columns)` gives the columns back. */
  lemma BindColumnsDict(c: Columns)
    ensures BindColumns(ToMap(ColumnsDict(c))) == Ok(c)
  {
    ColumnsDictMap(c);
    BindNamedColumns(ToMap(ColumnsDict(c)), c);
  }

  /** The column keywords of `as_dict(line)` are `asdict(columns)`, when no
      attribute key is a column name. */
  lemma AsDictColumnKeywords(l: GffLine)
    requires UniqueKeys(l.attributes)
    requires forall k :: HasKey(l.attributes, k) ==> k !in GffColNames
    ensures ColumnKeywords(ToMap(AsDict(l))) == ToMap(ColumnsDict(l.columns))
  {
    var m, cm := ToMap(AsDict(l)), ToMap(ColumnsDict(l.columns));
    var kw := ColumnKeywords(m);
    forall k ensures k in kw <==> k in cm {
      AsDictKeys(l, k);
    }
    forall k | k in kw ensures kw[k] == cm[k] {
      AsDictGet(l, k);
    }
  }

  /** The attributes `from_dict` picks out of `as_dict(line)` are the
      line's, when their keys are sorted and avoid the column names. */
  lemma AsDictExtraPairs(l: GffLine)
    requires UniqueKeys(l.attributes) && StrictlySorted(Keys(l.attributes))
    requires forall k :: HasKey(l.attributes, k) ==> k !in GffColNames
    ensures var m := ToMap(AsDict(l)); PairsFor(m, ExtraKeys(m)) == l.attributes
  {
    var a := l.attributes;
    var m := ToMap(AsDict(l));
    AsDictExtraKeys(l);
    forall i | 0 <= i < |a| ensures a[i].0 in m && m[a[i].0] == a[i].1 {
      AsDictAttribute(l, i);
    }
    PairsForAll(m, a);
  }

  lemma PairsForAll(m: map<string, Value>, a: Dict<string, Value>)
    requires forall i :: 0 <= i < |a| ==> a[i].0 in m && m[a[i].0] == a[i].1
    ensures PairsFor(m, Keys(a)) == a
  {
    var b := PairsFor(m, Keys(a));
    forall i | 0 <= i < |a| ensures b[i] == a[i] {
      assert Keys(b)[i] == Keys(a)[i] == a[i].0;
    }
  }

  lemma AsDictExtraKeys(l: GffLine)
    requires StrictlySorted(Keys(l.attributes))
    requires forall k :: HasKey(l.attributes, k) ==> k !in GffColNames
    ensures ExtraKeys(ToMap(AsDict(l))) == Keys(l.attributes)
  {
    var m := ToMap(AsDict(l));
    forall k ensures k in ExtraKeys(m) <==> k in Keys(l.attributes) {
      AsDictKeys(l, k);
    }
    SortedUnique(ExtraKeys(m), Keys(l.attributes));
  }

  lemma AsDictAttribute(l: GffLine, i: nat)
    requires UniqueKeys(l.attributes) && i < |l.attributes|
    ensures var m := ToMap(AsDict(l)); l.attributes[i].0 in m && m[l.attributes[i].0] == l.attributes[i].1
  {
    var a := l.attributes;
    var k := a[i].0;
    assert Keys(a)[i] == k;
    AsDictKeys(l, k);
    AsDictGet(l, k);
    GetAt(a, i);
  }

  /** `from_dict(as_dict(line))` gives the line back when its attribute
      keys avoid the column names and are already in sorted order. */
  lemma FromDictAsDict(l: GffLine)
    requires UniqueKeys(l.attributes) && StrictlySorted(Keys(l.attributes))
    requires forall k :: HasKey(l.attributes, k) ==> k !in GffColNames
    ensures FromDict(ToMap(AsDict(l))) == Ok(l)
  {
    var m := ToMap(AsDict(l));
    AsDictColumnKeywords(l);
    BindColumnsDict(l.columns);
    AsDictExtraPairs(l);
    FromDictParts(m, l);
  }

  lemma FromDictParts(m: map<string, Value>, l: GffLine)
    requires BindColumns(ColumnKeywords(m)) == Ok(l.columns)
    requires PairsFor(m, ExtraKeys(m)) == l.attributes
    ensures FromDict(m) == Ok(l)
  {
  }
}
