/** The coordinate lookup table of `GffFile` (`_gapfill_table` and
    `_lookup_table`): every chromosome position from 1 up to the last
    position filled maps to the records that annotate it. Positions inside
    an eligible feature get that feature, with its distance from the
    feature's anchor; each gap between two eligible features is cut at its
    midpoint, the first half pointing to the feature before it and the
    second half to the feature after it; 1000 positions from the end of the
    last eligible feature point back to it.

    Python builds the entries of a feature body by writing the offset into
    one attributes dict that `copy` (a shallow `dataclasses.replace`)
    shares between the feature, all of its body entries and
    `last_feature`, so in Python every body entry of a feature shows the
    offset of its last position. Here each body entry is a fresh record
    with the offset of its own position, and `last_feature` is the feature
    as read, without an `offset` attribute. */
module GffLookup {
  import opened Wrappers
  import opened Dicts
  import opened GffRecords

  /** `lookup_table`: position to the records there, in the order added. */
  type Table = map<int, seq<GffLine>>

  /** `_GFF_FEATURE_BLOCKLIST` excluded, a `Name`, and no `Parent`. */
  predicate Eligible(l: GffLine) {
    l.columns.feature != Str("region") && l.columns.feature != Str("repeat_region") &&
    HasKey(l.attributes, "Name") && !HasKey(l.attributes, "Parent")
  }

  predicate PlusStrand(l: GffLine) {
    l.columns.strand == Str("+")
  }

  /** The state the feature loop carries: `last_feature`, when present, is
      an eligible feature. */
  predicate LastOk(last: Option<GffLine>) {
    last.Some? ==> Eligible(last.value)
  }

  function Abs(x: int): nat {
    if x < 0 then -x else x
  }

  /** Where the entries of one run of positions come from: the record they
      copy, the position their offsets count from, the direction in which
      the offsets grow, and their `locus_tag`. */
  datatype Side = Side(line: GffLine, anchor: int, sign: Sign, tag: string)

  /** The factor `1.` or `-1.` the offsets are multiplied by. */
  datatype Sign = Plus | Minus

  /** `d * sign`, for a sign of one or minus one. */
  function Signed(d: int, sign: Sign): int {
    if sign == Plus then d else -d
  }

  /** `prefix + attributes['Name']`: concatenation fails unless the name
      is text. */
  function MakeSide(l: GffLine, anchor: int, sign: Sign, prefix: string): (r: Result<Side, Error>)
    requires HasKey(l.attributes, "Name")
    ensures r.Ok? <==> Get(l.attributes, "Name").value.Str?
    ensures r.Ok? ==> r.value == Side(l, anchor, sign, prefix + Get(l.attributes, "Name").value.s)
    ensures r.Err? ==> r.error == NameNotText(Get(l.attributes, "Name").value)
  {
    match Get(l.attributes, "Name").value
    case Str(name) => Ok(Side(l, anchor, sign, prefix + name))
    case Int(n) => Err(NameNotText(Int(n)))
  }

  /** The record before the midpoint of a gap: the previous eligible
      feature, or the current one when there is none, in which case the
      `_up-`/`_down-` tags are swapped. */
  function UpstreamSide(line: GffLine, last: Option<GffLine>): Result<Side, Error>
    requires Eligible(line) && LastOk(last)
  {
    var l := if last.Some? then last.value else line;
    if PlusStrand(l) then MakeSide(l, l.columns.start, Plus, if last.Some? then "_down-" else "_up-")
    else MakeSide(l, l.columns.end, Minus, if last.Some? then "_up-" else "_down-")
  }

  /** The record after the midpoint of a gap: the current feature. */
  function DownstreamSide(line: GffLine): Result<Side, Error>
    requires Eligible(line)
  {
    if PlusStrand(line) then MakeSide(line, line.columns.start, Minus, "_up-")
    else MakeSide(line, line.columns.end, Plus, "_down-")
  }

  /** The record of the trailing positions: the last eligible feature. */
  function TailSide(last: GffLine): Result<Side, Error>
    requires Eligible(last)
  {
    if PlusStrand(last) then MakeSide(last, last.columns.start, Plus, "_down-")
    else MakeSide(last, last.columns.end, Minus, "_up-")
  }

  /** A copy of the side's record whose attributes gain the `locus_tag`,
      then the `offset` of position `i`. */
  function Entry(side: Side, i: int): GffLine {
    var tagged := Put(side.line.attributes, "locus_tag", Str(side.tag));
    GffLine(side.line.columns, Put(tagged, "offset", Int(Signed(i - side.anchor, side.sign))))
  }

  /** One entry of the side for each position in `lo..hi`. */
  function Fill(side: Side, lo: int, hi: int): Table {
    map i | lo <= i <= hi :: [Entry(side, i)]
  }

  function LastEnd(last: Option<GffLine>): int {
    if last.Some? then last.value.columns.end else 0
  }

  /** `gap_midpoint`. Python's `//` rounds down; so does `/` here, whose
      divisor is positive. */
  function Midpoint(lastEnd: int, start: int): int {
    lastEnd + 1 + ((start - 1) - (lastEnd + 1)) / 2
  }

  /** `_gapfill_table`: the positions after the previous feature's end
      (or after 0) up to the midpoint go to the upstream side, those after
      the midpoint up to the position before `start` to the downstream
      side. */
  function GapFill(line: GffLine, last: Option<GffLine>): Result<Table, Error>
    requires Eligible(line) && LastOk(last)
  {
    var lastEnd := LastEnd(last);
    var up :- UpstreamSide(line, last);
    var down :- DownstreamSide(line);
    Ok(Halves(lastEnd, line.columns.start, up, down))
  }

  /** The two halves of the gap, cut at the midpoint. */
  function Halves(lastEnd: int, start: int, up: Side, down: Side): Table {
    Cut(up, down, lastEnd + 1, Midpoint(lastEnd, start), start - 1)
  }

  /** `up` fills `lo..mid`, `down` fills the positions after `mid` up to `hi`. */
  function Cut(up: Side, down: Side, lo: int, mid: int, hi: int): Table {
    Fill(up, lo, mid) + Fill(down, mid + 1, hi)
  }

  /** The copy of a feature placed at one of its own positions, with its
      absolute distance from the start (`+` strand) or the end. */
  function BodyEntry(l: GffLine, i: int): GffLine {
    var anchor := if PlusStrand(l) then l.columns.start else l.columns.end;
    GffLine(l.columns, Put(l.attributes, "offset", Int(Abs(i - anchor))))
  }

  function BodyRange(l: GffLine, lo: int, hi: int): (es: map<int, GffLine>)
    ensures forall i :: i in es <==> lo <= i <= hi
  {
    map i | lo <= i <= hi :: BodyEntry(l, i)
  }

  function TailRange(side: Side, lo: int, hi: int): map<int, GffLine> {
    map i | lo <= i <= hi :: Entry(side, i)
  }

  /** `lookup_table[i]` of a `defaultdict(list)`. */
  function At<V>(t: map<int, seq<V>>, i: int): seq<V> {
    if i in t then t[i] else []
  }

  /** `lookup_table[i].append(es[i])` for every position of `es`. */
  function AppendEach<V>(t: map<int, seq<V>>, es: map<int, V>): (r: map<int, seq<V>>)
    ensures r.Keys == t.Keys + es.Keys
    ensures forall i :: i in r ==> r[i] == At(t, i) + (if i in es then [es[i]] else [])
  {
    map i | i in t.Keys + es.Keys :: At(t, i) + (if i in es then [es[i]] else [])
  }

  /** One pass of the feature loop: an eligible feature replaces the
      entries of its gap, appends its body entries, and becomes
      `last_feature`; any other line changes nothing. */
  function Step(acc: (Table, Option<GffLine>), line: GffLine): (r: Result<(Table, Option<GffLine>), Error>)
    requires LastOk(acc.1)
    ensures r.Ok? ==> LastOk(r.value.1)
  {
    if !Eligible(line) then Ok(acc)
    else
      var gap :- GapFill(line, acc.1);
      Ok((AppendEach(acc.0 + gap, BodyRange(line, line.columns.start, line.columns.end)), Some(line)))
  }

  /** The feature loop over the lines, in file order. */
  function Process(lines: seq<GffLine>): (r: Result<(Table, Option<GffLine>), Error>)
    ensures r.Ok? ==> LastOk(r.value.1)
  {
    if lines == [] then Ok((map[], None))
    else
      var acc :- Process(lines[..|lines| - 1]);
      Step(acc, lines[|lines| - 1])
  }

  /** `max(lookup_table)`. */
  ghost function MaxOf(s: set<int>): (m: int)
    requires s != {}
    ensures m in s && forall x :: x in s ==> x <= m
  {
    HasElement(s);
    var x :| x in s;
    if s == {x} then x
    else
      assert s - {x} != {} by {
        assert s != {x};
      }
      var m' := MaxOf(s - {x});
      assert forall y :: y in s ==> y == x || y in s - {x};
      if x > m' then x else m'
  }

  lemma HasElement(s: set<int>)
    requires s != {}
    ensures exists x :: x in s
  {
    if forall x :: x !in s {
      assert false;
    }
  }

  /** `missing_entries`: the positions in `lo..hi` with no entry, in
      order. */
  function Missing(t: Table, lo: int, hi: int): (ms: seq<int>)
    ensures forall i :: i in ms <==> lo <= i <= hi && At(t, i) == []
    decreases hi - lo + 1
  {
    if lo > hi then [] else (if At(t, lo) == [] then [lo] else []) + Missing(t, lo + 1, hi)
  }

  /** `_lookup_table`: the feature loop, then the tail of the last
      eligible feature, then the check that no position from 1 to the
      highest one is empty. Without an eligible feature, `last_feature`
      is still `None` when its strand is read. */
  ghost function Lookup(lines: seq<GffLine>): Result<Table, Error> {
    Finish(Process(lines))
  }

  /** What follows the feature loop: the tail, then the coverage check. */
  ghost function Finish(r: Result<(Table, Option<GffLine>), Error>): Result<Table, Error>
    requires r.Ok? ==> LastOk(r.value.1)
  {
    var acc :- r;
    if acc.1.None? then Err(NoEligibleFeature)
    else
      var w := WithTail(acc.0, acc.1.value);
      WithTailShape(acc.0, acc.1.value);
      assert w.Ok? ==> acc.1.value.columns.end in w.value;
      CheckTail(w)
  }

  /** The coverage check of a table that could be built. */
  ghost function CheckTail(w: Result<Table, Error>): Result<Table, Error>
    requires w.Ok? ==> w.value.Keys != {}
  {
    var t :- w;
    Check(t)
  }

  lemma CheckTailOk(w: Result<Table, Error>)
    requires w.Ok? && w.value.Keys != {}
    ensures CheckTail(w) == Check(w.value)
  {
  }

  /** The 1000 positions from the last eligible feature's end on, each
      with an entry of that feature appended. */
  function WithTail(t: Table, last: GffLine): Result<Table, Error>
    requires Eligible(last)
  {
    TailOf(t, last.columns.end, TailSide(last))
  }

  /** The tail entries of a side that could be built, from `end` on. */
  function TailOf(t: Table, end: int, side: Result<Side, Error>): Result<Table, Error> {
    if side.Err? then Err(side.error) else Ok(AppendEach(t, TailRange(side.value, end, end + 999)))
  }

  lemma TailOfOk(t: Table, end: int, side: Result<Side, Error>)
    requires side.Ok?
    ensures TailOf(t, end, side) == Ok(AppendEach(t, TailRange(side.value, end, end + 999)))
  {
  }

  /** The tail fails exactly when the last feature's `Name` is not text;
      otherwise it adds the positions `end..end+999`, and at each of them
      appends one entry of the last feature after what was there. */
  lemma WithTailShape(t: Table, last: GffLine)
    requires Eligible(last)
    ensures WithTail(t, last).Ok? <==> TailSide(last).Ok?
    ensures WithTail(t, last).Ok? ==> var r := WithTail(t, last).value;
      forall i :: i in r <==> i in t || last.columns.end <= i <= last.columns.end + 999
    ensures WithTail(t, last).Ok? ==> var r := WithTail(t, last).value;
      forall i :: i in r ==>
        r[i] == At(t, i) + (if last.columns.end <= i <= last.columns.end + 999 then [Entry(TailSide(last).value, i)] else [])
  {
    if TailSide(last).Ok? {
      TailRangeKeys(TailSide(last).value, last.columns.end, last.columns.end + 999);
    }
  }

  lemma TailRangeKeys(side: Side, lo: int, hi: int)
    ensures forall i :: i in TailRange(side, lo, hi) <==> lo <= i <= hi
  {
  }

  /** The coverage check: every position from 1 up to the highest key
      must hold an entry. */
  ghost function Check(t: Table): Result<Table, Error>
    requires t.Keys != {}
  {
    var missing := Missing(t, 1, MaxOf(t.Keys));
    if missing != [] then Err(MissingPositions(missing)) else Ok(t)
  }

  // ---- the gap table ----

  /** The gap table covers exactly the positions strictly between the
      previous feature's end (or 0) and the current start, one entry each:
      the upstream side's up to the midpoint, the downstream side's
      after it. */
  lemma GapFillShape(line: GffLine, last: Option<GffLine>)
    requires Eligible(line) && LastOk(last) && GapFill(line, last).Ok?
    ensures var g := GapFill(line, last).value;
      forall i :: i in g <==> LastEnd(last) < i < line.columns.start
    ensures var g := GapFill(line, last).value; var mid := Midpoint(LastEnd(last), line.columns.start);
      forall i :: i in g ==>
        g[i] == [Entry(if i <= mid then UpstreamSide(line, last).value else DownstreamSide(line).value, i)]
  {
    HalvesShape(LastEnd(last), line.columns.start, UpstreamSide(line, last).value, DownstreamSide(line).value);
  }

  lemma HalvesShape(lastEnd: int, start: int, up: Side, down: Side)
    ensures var g := Halves(lastEnd, start, up, down);
      forall i :: i in g <==> lastEnd < i < start
    ensures var g := Halves(lastEnd, start, up, down); var mid := Midpoint(lastEnd, start);
      forall i :: i in g ==> g[i] == [Entry(if i <= mid then up else down, i)]
  {
    var mid := Midpoint(lastEnd, start);
    var f1, f2 := Fill(up, lastEnd + 1, mid), Fill(down, mid + 1, start - 1);
    MidpointBounds(lastEnd, start);
    FillKeys(up, lastEnd + 1, mid);
    FillKeys(down, mid + 1, start - 1);
    FillValues(up, lastEnd + 1, mid);
    FillValues(down, mid + 1, start - 1);
    var g := f1 + f2;
    forall i | i in g ensures g[i] == [Entry(if i <= mid then up else down, i)] {
      if i in f2 {
        assert g[i] == f2[i];
      } else {
        assert g[i] == f1[i];
      }
    }
  }

  /** The midpoint splits a gap of `n` positions into a first half of
      `n` halved rounding up and a second half of `n` halved rounding
      down; with no gap, both halves are empty. */
  lemma MidpointBounds(lastEnd: int, start: int)
    ensures var n := (start - 1) - lastEnd; var mid := Midpoint(lastEnd, start);
      (n >= 0 ==> mid - lastEnd == (n + 1) / 2 && (start - 1) - mid == n / 2) &&
      (n < 0 ==> mid <= lastEnd && mid + 1 > start - 1)
  {
  }

  /** When `start` is at most one past the previous end, the gap table is
      empty. */
  lemma GapFillEmpty(line: GffLine, last: Option<GffLine>)
    requires Eligible(line) && LastOk(last) && GapFill(line, last).Ok?
    requires line.columns.start <= LastEnd(last) + 1
    ensures GapFill(line, last).value == map[]
  {
    GapFillShape(line, last);
    var g := GapFill(line, last).value;
    assert forall i :: i !in g;
  }

  /** The gap table fails exactly when the current feature's `Name` is
      not text, given that the previous one's is. */
  lemma GapFillOk(line: GffLine, last: Option<GffLine>)
    requires Eligible(line) && LastOk(last)
    requires last.Some? ==> TextName(last.value)
    ensures GapFill(line, last).Ok? <==> TextName(line)
    ensures GapFill(line, last).Err? ==> GapFill(line, last).error.NameNotText?
  {
  }

  predicate TextName(l: GffLine) {
    Get(l.attributes, "Name").Some? && Get(l.attributes, "Name").value.Str?
  }

  /** An entry carries the signed distance of its position from the
      side's anchor as `offset`, ... */
  lemma EntryOffset(side: Side, i: int)
    ensures Get(Entry(side, i).attributes, "offset") == Some(Int(Signed(i - side.anchor, side.sign)))
  {
  }

  /** ... the side's tag as `locus_tag`, ... */
  lemma EntryTag(side: Side, i: int)
    ensures Get(Entry(side, i).attributes, "locus_tag") == Some(Str(side.tag))
  {
    var tagged := Put(side.line.attributes, "locus_tag", Str(side.tag));
    assert Get(Put(tagged, "offset", Int(Signed(i - side.anchor, side.sign))), "locus_tag") == Get(tagged, "locus_tag");
  }

  /** ... and every other attribute of the side's record unchanged. */
  lemma EntryOther(side: Side, i: int, k: string)
    requires k != "offset" && k != "locus_tag"
    ensures Get(Entry(side, i).attributes, k) == Get(side.line.attributes, k)
  {
    var tagged := Put(side.line.attributes, "locus_tag", Str(side.tag));
    assert Get(Put(tagged, "offset", Int(Signed(i - side.anchor, side.sign))), k) == Get(tagged, k);
  }

  /** A body entry carries the distance, never negative, from the start
      of a `+` feature or the end of any other. */
  lemma BodyEntryAttributes(l: GffLine, i: int, k: string)
    ensures BodyEntry(l, i).columns == l.columns
    ensures Get(BodyEntry(l, i).attributes, "offset") ==
      Some(Int(Abs(i - if PlusStrand(l) then l.columns.start else l.columns.end)))
    ensures k != "offset" ==> Get(BodyEntry(l, i).attributes, k) == Get(l.attributes, k)
  {
  }

  /** The body entry as the code builds it: `copy` shares the feature's
      attributes dict with every one of its body entries, so once the body
      loop is done each of them shows the offset written last, that of
      `end`. The rest of the model uses `BodyEntry`. */
  function SharedBodyEntry(l: GffLine, i: int): GffLine
    requires l.columns.start <= i <= l.columns.end
  {
    BodyEntry(l, l.columns.end)
  }

  /** On a `+` feature longer than one position, the entry at `start`
      shows the feature's length less one instead of 0. */
  lemma SharedBodyDiffers(l: GffLine)
    requires PlusStrand(l) && l.columns.start < l.columns.end
    ensures Get(SharedBodyEntry(l, l.columns.start).attributes, "offset") == Some(Int(l.columns.end - l.columns.start))
    ensures Get(BodyEntry(l, l.columns.start).attributes, "offset") == Some(Int(0))
  {
    BodyEntryAttributes(l, l.columns.end, "offset");
    BodyEntryAttributes(l, l.columns.start, "offset");
  }

  // ---- the feature loop ----

  /** An eligible feature replaces what the table held in its gap and
      appends to what it held elsewhere: its body entry goes last at each
      of its positions. */
  lemma StepEntries(acc: (Table, Option<GffLine>), line: GffLine, i: int)
    requires LastOk(acc.1) && Eligible(line) && Step(acc, line).Ok?
    ensures var t := Step(acc, line).value.0; var s, e := line.columns.start, line.columns.end;
      var body := if s <= i <= e then [BodyEntry(line, i)] else [];
      At(t, i) == (if LastEnd(acc.1) < i < s then GapFill(line, acc.1).value[i] else At(acc.0, i)) + body
  {
    GapFillShape(line, acc.1);
  }

  /** The keys after an eligible feature: those before, the gap and the
      body. */
  lemma StepKeys(acc: (Table, Option<GffLine>), line: GffLine)
    requires LastOk(acc.1) && Eligible(line) && Step(acc, line).Ok?
    ensures var t := Step(acc, line).value.0;
      forall i :: i in t <==>
        (i in acc.0 || LastEnd(acc.1) < i < line.columns.start || line.columns.start <= i <= line.columns.end)
  {
    GapFillShape(line, acc.1);
  }

  /** A line that is not an eligible feature has no effect at all. */
  lemma {:induction false} IneligibleIgnored(a: seq<GffLine>, x: GffLine, b: seq<GffLine>)
    requires !Eligible(x)
    ensures Process(a + [x] + b) == Process(a + b)
    decreases |b|
  {
    if b == [] {
      ProcessLast(a, x);
      assert a + [x] + b == a + [x] && a + b == a;
    } else {
      var b', y := b[..|b| - 1], b[|b| - 1];
      IneligibleIgnored(a, x, b');
      SameLast(a + [x] + b', a + b', y);
      SplitLast(a + [x], b);
      SplitLast(a, b);
    }
  }

  lemma SplitLast<T>(p: seq<T>, b: seq<T>)
    requires b != []
    ensures p + b == (p + b[..|b| - 1]) + [b[|b| - 1]]
  {
    assert b == b[..|b| - 1] + [b[|b| - 1]];
  }

  /** Two runs that end alike end alike after one more line. */
  lemma SameLast(s: seq<GffLine>, s': seq<GffLine>, l: GffLine)
    requires Process(s) == Process(s')
    ensures Process(s + [l]) == Process(s' + [l])
  {
    ProcessLast(s, l);
    ProcessLast(s', l);
  }

  /** The feature loop over one more line takes one more step. */
  lemma ProcessLast(s: seq<GffLine>, l: GffLine)
    ensures Process(s + [l]) == if Process(s).Err? then Err(Process(s).error) else Step(Process(s).value, l)
  {
    assert (s + [l])[..|s|] == s;
  }

  lemma LookupIgnores(a: seq<GffLine>, x: GffLine, b: seq<GffLine>)
    requires !Eligible(x)
    ensures Lookup(a + [x] + b) == Lookup(a + b)
  {
    IneligibleIgnored(a, x, b);
  }

  predicate SomeEligible(lines: seq<GffLine>) {
    exists i :: 0 <= i < |lines| && Eligible(lines[i])
  }

  predicate EligibleNamesText(lines: seq<GffLine>) {
    forall i :: 0 <= i < |lines| && Eligible(lines[i]) ==> TextName(lines[i])
  }

  /** The feature loop fails exactly when an eligible feature's `Name` is
      not text; otherwise it ends holding a `last_feature` exactly when
      some line is eligible. */
  lemma {:induction false} ProcessOutcome(lines: seq<GffLine>)
    ensures Process(lines).Ok? <==> EligibleNamesText(lines)
    ensures Process(lines).Err? ==> Process(lines).error.NameNotText?
    ensures Process(lines).Ok? ==>
      (Process(lines).value.1.Some? <==> SomeEligible(lines)) &&
      (Process(lines).value.1.Some? ==> TextName(Process(lines).value.1.value))
  {
    if lines != [] {
      var p, x := lines[..|lines| - 1], lines[|lines| - 1];
      ProcessOutcome(p);
      assert forall i :: 0 <= i < |p| ==> p[i] == lines[i];
      assert EligibleNamesText(lines) <==> EligibleNamesText(p) && (Eligible(x) ==> TextName(x));
      assert SomeEligible(lines) <==> SomeEligible(p) || Eligible(x);
      if Process(p).Ok? && Eligible(x) {
        GapFillOk(x, Process(p).value.1);
      }
    }
  }

  // ---- coverage ----

  /** Every position from 1 up to a key of the table is a key too. */
  predicate DownClosed(keys: set<int>) {
    forall i, j :: i in keys && 1 <= j <= i ==> j in keys
  }

  predicate Covers(keys: set<int>, hi: int) {
    forall j :: 1 <= j <= hi ==> j in keys
  }

  predicate NonEmpty(t: Table) {
    forall i :: i in t ==> t[i] != []
  }

  /** What the feature loop keeps: no empty list, no hole below a filled
      position, and every position up to the last feature's end filled. */
  predicate Covered(t: Table, lastEnd: int) {
    NonEmpty(t) && DownClosed(t.Keys) && Covers(t.Keys, lastEnd)
  }

  /** Filling the gap after `lastEnd` and then a body from `s` to `e`
      leaves no hole. */
  lemma GrowClosed(keys: set<int>, lastEnd: int, s: int, e: int, keys': set<int>)
    requires DownClosed(keys) && Covers(keys, lastEnd)
    requires forall i :: i in keys' <==> i in keys || lastEnd < i < s || s <= i <= e
    ensures DownClosed(keys') && Covers(keys', e)
  {
  }

  /** Adding the tail from the last end on leaves no hole. */
  lemma TailClosed(keys: set<int>, e: int, keys': set<int>)
    requires DownClosed(keys) && Covers(keys, e)
    requires forall i :: i in keys' <==> i in keys || e <= i <= e + 999
    ensures DownClosed(keys')
  {
  }

  lemma StepCovered(acc: (Table, Option<GffLine>), line: GffLine)
    requires LastOk(acc.1) && Covered(acc.0, LastEnd(acc.1)) && Step(acc, line).Ok?
    ensures Covered(Step(acc, line).value.0, LastEnd(Step(acc, line).value.1))
  {
    if Eligible(line) {
      var s, e := line.columns.start, line.columns.end;
      var gap := GapFill(line, acc.1).value;
      GapFillCover(line, acc.1);
      var t := AppendEach(acc.0 + gap, BodyRange(line, s, e));
      assert Step(acc, line).value == (t, Some(line));
      AppendCovered(acc.0, gap, BodyRange(line, s, e), LastEnd(acc.1), s, e);
    }
  }

  /** The gap table's keys, each with an entry. */
  lemma GapFillCover(line: GffLine, last: Option<GffLine>)
    requires Eligible(line) && LastOk(last) && GapFill(line, last).Ok?
    ensures var g := GapFill(line, last).value;
      NonEmpty(g) && forall i :: i in g <==> LastEnd(last) < i < line.columns.start
  {
    var g := GapFill(line, last).value;
    assert g == Halves(LastEnd(last), line.columns.start, UpstreamSide(line, last).value, DownstreamSide(line).value);
    HalvesShape(LastEnd(last), line.columns.start, UpstreamSide(line, last).value, DownstreamSide(line).value);
  }

  lemma AppendCovered(t: Table, gap: Table, body: map<int, GffLine>, lastEnd: int, s: int, e: int)
    requires Covered(t, lastEnd) && NonEmpty(gap)
    requires forall i :: i in gap <==> lastEnd < i < s
    requires forall i :: i in body <==> s <= i <= e
    ensures Covered(AppendEach(t + gap, body), e)
  {
    var t' := AppendEach(t + gap, body);
    assert NonEmpty(t + gap);
    GrowClosed(t.Keys, lastEnd, s, e, t'.Keys);
  }

  lemma {:induction false} ProcessCovered(lines: seq<GffLine>)
    requires Process(lines).Ok?
    ensures Covered(Process(lines).value.0, LastEnd(Process(lines).value.1))
  {
    if lines != [] {
      var p := lines[..|lines| - 1];
      ProcessCovered(p);
      StepCovered(Process(p).value, lines[|lines| - 1]);
    }
  }

  /** The lookup table is built exactly when some line is an eligible
      feature and every eligible feature's `Name` is text. Otherwise the
      error is the `None` dereference or the `Name` that is not text:
      the missing-positions check never fires, and in the table built
      every position from 1 up to the highest holds an entry. */
  lemma LookupOutcome(lines: seq<GffLine>)
    ensures Lookup(lines).Ok? <==> SomeEligible(lines) && EligibleNamesText(lines)
    ensures Lookup(lines).Err? ==>
      Lookup(lines).error == NoEligibleFeature || Lookup(lines).error.NameNotText?
    ensures Lookup(lines).Ok? ==> var t := Lookup(lines).value;
      t.Keys != {} && forall i :: 1 <= i <= MaxOf(t.Keys) ==> i in t && t[i] != []
  {
    ProcessOutcome(lines);
    if Process(lines).Ok? {
      ProcessCovered(lines);
    }
    FinishOutcome(Process(lines));
  }

  lemma FinishOutcome(r: Result<(Table, Option<GffLine>), Error>)
    requires r.Ok? ==> LastOk(r.value.1) && Covered(r.value.0, LastEnd(r.value.1))
    requires r.Ok? && r.value.1.Some? ==> TextName(r.value.1.value)
    ensures Finish(r).Ok? <==> r.Ok? && r.value.1.Some?
    ensures Finish(r).Err? && r.Ok? ==> Finish(r).error == NoEligibleFeature
    ensures Finish(r).Err? && r.Err? ==> Finish(r).error == r.error
    ensures Finish(r).Ok? ==> var t := Finish(r).value;
      t.Keys != {} && forall i :: 1 <= i <= MaxOf(t.Keys) ==> i in t && t[i] != []
  {
    if r.Ok? && r.value.1.Some? {
      var last := r.value.1.value;
      TailCovered(r.value.0, last);
    }
  }

  /** Once the tail is added, no position from 1 up to the highest is
      missing, so the check passes. */
  lemma TailCovered(t0: Table, last: GffLine)
    requires Eligible(last) && TextName(last) && Covered(t0, last.columns.end)
    ensures WithTail(t0, last).Ok?
    ensures var t := WithTail(t0, last).value;
      t.Keys != {} && (forall i :: 1 <= i <= MaxOf(t.Keys) ==> i in t && t[i] != []) && Check(t) == Ok(t)
  {
    var e := last.columns.end;
    assert TailSide(last).Ok?;
    WithTailShape(t0, last);
    var t := WithTail(t0, last).value;
    assert e in t;
    assert NonEmpty(t);
    TailClosed(t0.Keys, e, t.Keys);
    ClosedNoMissing(t);
  }

  lemma AppendNonEmpty(t: Table, es: map<int, GffLine>)
    requires NonEmpty(t)
    ensures NonEmpty(AppendEach(t, es))
  {
  }

  /** A table without holes misses no position. */
  lemma ClosedNoMissing(t: Table)
    requires NonEmpty(t) && DownClosed(t.Keys) && t.Keys != {}
    ensures forall i :: 1 <= i <= MaxOf(t.Keys) ==> i in t && t[i] != []
    ensures Missing(t, 1, MaxOf(t.Keys)) == []
  {
    var top := MaxOf(t.Keys);
    assert top in t.Keys;
    forall i | 1 <= i <= top ensures At(t, i) != [] {
      assert i in t;
    }
    NoneMissing(t, 1, top);
  }

  lemma {:induction false} NoneMissing(t: Table, lo: int, hi: int)
    requires forall i :: lo <= i <= hi ==> At(t, i) != []
    ensures Missing(t, lo, hi) == []
    decreases hi - lo + 1
  {
    if lo <= hi {
      NoneMissing(t, lo + 1, hi);
    }
  }

  // ---- the loops ----

  /** `_gapfill_table`, with its two loops: the positions up to the
      midpoint, then those after it. */
  method GapFillTable(line: GffLine, last: Option<GffLine>) returns (r: Result<Table, Error>)
    requires Eligible(line) && LastOk(last)
    ensures r == GapFill(line, last)
  {
    var thisStart := line.columns.start;
    var lastEnd := if last.None? then 0 else last.value.columns.end;
    var gapSpan := (thisStart - 1) - (lastEnd + 1);
    var gapMidpoint := lastEnd + 1 + gapSpan / 2;
    var upSide := UpstreamSide(line, last);
    if upSide.Err? {
      return Err(upSide.error);
    }
    var downSide := DownstreamSide(line);
    if downSide.Err? {
      return Err(downSide.error);
    }
    var up, down := upSide.value, downSide.value;
    assert lastEnd == LastEnd(last);
    var table := FillHalves(lastEnd, thisStart, gapMidpoint, up, down);
    GapFillHalves(line, last);
    HalvesAt(lastEnd, thisStart, gapMidpoint, up, down);
    return Ok(table);
  }

  /** The two loops of `_gapfill_table`: the upstream side's entries up
      to the midpoint, then the downstream side's up to the position
      before the current start. */
  method FillHalves(lastEnd: int, thisStart: int, gapMidpoint: int, up: Side, down: Side) returns (table: Table)
    ensures table == Cut(up, down, lastEnd + 1, gapMidpoint, thisStart - 1)
  {
    var first := FillRange(map[], up, lastEnd + 1, gapMidpoint);
    table := FillRange(first, down, gapMidpoint + 1, thisStart - 1);
    HalvesInOrder(lastEnd + 1, gapMidpoint, thisStart - 1, up, down, first, table);
  }

  /** `lookup_table[i].append(...)` of one side's entry for each position
      `lo..hi`, in a table with nothing at or after `lo`. */
  method FillRange(t: Table, side: Side, lo: int, hi: int) returns (table: Table)
    requires forall k :: k in t ==> k < lo
    ensures table == t + Fill(side, lo, hi)
    ensures forall k :: k in table ==> k in t || lo <= k <= hi
  {
    table := t;
    var i := lo;
    while i <= hi
      invariant lo <= i && (i <= hi + 1 || i == lo)
      invariant table == t + Fill(side, lo, i - 1)
    {
      FillRangeStep(t, side, lo, i);
      table := table[i := At(table, i) + [Entry(side, i)]];
      i := i + 1;
    }
    FillEmpty(side, lo, i - 1, hi);
    FillKeys(side, lo, hi);
  }

  lemma FillRangeStep(t: Table, side: Side, lo: int, i: int)
    requires forall k :: k in t ==> k < lo
    requires lo <= i
    ensures var u := t + Fill(side, lo, i - 1);
      u[i := At(u, i) + [Entry(side, i)]] == t + Fill(side, lo, i)
  {
    FillStep(side, lo, i);
    var e := [Entry(side, i)];
    assert At(t + Fill(side, lo, i - 1), i) + e == e;
    UnionPut(t, Fill(side, lo, i - 1), i, e);
  }

  lemma GapFillHalves(line: GffLine, last: Option<GffLine>)
    requires Eligible(line) && LastOk(last)
    requires UpstreamSide(line, last).Ok? && DownstreamSide(line).Ok?
    ensures GapFill(line, last) ==
      Ok(Halves(LastEnd(last), line.columns.start, UpstreamSide(line, last).value, DownstreamSide(line).value))
  {
  }

  lemma HalvesAt(lastEnd: int, start: int, mid: int, up: Side, down: Side)
    requires mid == Midpoint(lastEnd, start)
    ensures Halves(lastEnd, start, up, down) == Cut(up, down, lastEnd + 1, mid, start - 1)
  {
  }

  /** Filling the first half into an empty table, then the second half,
      gives the two halves. */
  lemma HalvesInOrder(lo: int, mid: int, hi: int, up: Side, down: Side, first: Table, both: Table)
    requires first == map[] + Fill(up, lo, mid)
    requires both == first + Fill(down, mid + 1, hi)
    ensures both == Cut(up, down, lo, mid, hi)
  {
    UnionEmpty(Fill(up, lo, mid), Fill(down, mid + 1, hi), first, both);
  }

  lemma UnionEmpty<K, V>(a: map<K, V>, b: map<K, V>, first: map<K, V>, both: map<K, V>)
    requires first == map[] + a && both == first + b
    ensures both == a + b
  {
  }

  /** The fill holds exactly the positions `lo..hi`, ... */
  lemma FillKeys(side: Side, lo: int, hi: int)
    ensures forall k :: k in Fill(side, lo, hi) <==> lo <= k <= hi
  {
  }

  /** ... each with the one entry of its position. */
  lemma FillValues(side: Side, lo: int, hi: int)
    ensures forall k :: k in Fill(side, lo, hi) ==> Fill(side, lo, hi)[k] == [Entry(side, k)]
  {
  }

  lemma UnionPut(t: Table, f: Table, i: int, v: seq<GffLine>)
    ensures (t + f)[i := v] == t + f[i := v]
  {
  }

  /** One more position adds one more entry, at a position not yet
      filled. */
  lemma FillStep(side: Side, lo: int, i: int)
    requires lo <= i
    ensures Fill(side, lo, i) == Fill(side, lo, i - 1)[i := [Entry(side, i)]]
    ensures i !in Fill(side, lo, i - 1)
  {
  }

  /** Ranges that hold no position give the same, empty, fill. */
  lemma FillEmpty(side: Side, lo: int, hi: int, hi': int)
    requires hi == hi' || (hi < lo && hi' < lo)
    ensures Fill(side, lo, hi) == Fill(side, lo, hi')
  {
  }

  /** `_lookup_table`, loop by loop. */
  method LookupTable(lines: seq<GffLine>) returns (r: Result<Table, Error>)
    ensures r == Lookup(lines)
  {
    var acc := FeatureLoop(lines);
    if acc.Err? {
      return Err(acc.error);
    }
    r := FinishTable(acc.value.0, acc.value.1);
  }

  /** The feature loop of `_lookup_table`: the gap of each eligible
      feature, then its body. */
  method FeatureLoop(lines: seq<GffLine>) returns (r: Result<(Table, Option<GffLine>), Error>)
    ensures r == Process(lines)
  {
    var table: Table := map[];
    var last: Option<GffLine> := None;
    var n := 0;
    while n < |lines|
      invariant 0 <= n <= |lines|
      invariant Process(lines[..n]) == Ok((table, last))
    {
      var line := lines[n];
      ProcessPrefix(lines, n);
      if Eligible(line) {
        var gap := GapFillTable(line, last);
        if gap.Err? {
          StepErr((table, last), line);
          ProcessSticky(lines, n + 1);
          return Err(gap.error);
        }
        StepOk((table, last), line);
        table := AppendBody(table + gap.value, line);
        last := Some(line);
      }
      n := n + 1;
    }
    assert lines[..n] == lines;
    r := Ok((table, last));
  }

  /** One more line is one more step of the feature loop. */
  lemma ProcessPrefix(lines: seq<GffLine>, n: int)
    requires 0 <= n < |lines| && Process(lines[..n]).Ok?
    ensures Process(lines[..n + 1]) == Step(Process(lines[..n]).value, lines[n])
  {
    assert lines[..n + 1][..n] == lines[..n];
  }

  lemma StepErr(acc: (Table, Option<GffLine>), line: GffLine)
    requires LastOk(acc.1) && Eligible(line) && GapFill(line, acc.1).Err?
    ensures Step(acc, line) == Err(GapFill(line, acc.1).error)
  {
  }

  lemma StepOk(acc: (Table, Option<GffLine>), line: GffLine)
    requires LastOk(acc.1) && Eligible(line) && GapFill(line, acc.1).Ok?
    ensures Step(acc, line) ==
      Ok((AppendEach(acc.0 + GapFill(line, acc.1).value, BodyRange(line, line.columns.start, line.columns.end)), Some(line)))
  {
  }

  /** Once the feature loop fails it stays failed: Python raises there. */
  lemma {:induction false} ProcessSticky(lines: seq<GffLine>, n: int)
    requires 0 <= n <= |lines| && Process(lines[..n]).Err?
    ensures Process(lines) == Process(lines[..n])
    decreases |lines|
  {
    if n == |lines| {
      assert lines[..n] == lines;
    } else {
      var p := lines[..|lines| - 1];
      assert p[..n] == lines[..n];
      ProcessSticky(p, n);
    }
  }

  /** The body loop: a copy of the feature, with its offset, appended at
      each of its own positions. */
  method AppendBody(t: Table, line: GffLine) returns (table: Table)
    ensures table == AppendEach(t, BodyRange(line, line.columns.start, line.columns.end))
  {
    var start, end := line.columns.start, line.columns.end;
    table := t;
    var i := start;
    AppendNothing(t, BodyRange(line, start, i - 1));
    while i <= end
      invariant start <= i && (i <= end + 1 || i == start)
      invariant table == AppendEach(t, BodyRange(line, start, i - 1))
    {
      BodyStep(t, line, start, i);
      table := table[i := At(table, i) + [BodyEntry(line, i)]];
      i := i + 1;
    }
    BodyRangeSame(line, start, i - 1, end);
  }

  lemma BodyStep(t: Table, line: GffLine, lo: int, i: int)
    requires lo <= i
    ensures var u := AppendEach(t, BodyRange(line, lo, i - 1));
      u[i := At(u, i) + [BodyEntry(line, i)]] == AppendEach(t, BodyRange(line, lo, i))
  {
    var es := BodyRange(line, lo, i - 1);
    assert BodyRange(line, lo, i) == es[i := BodyEntry(line, i)];
    AppendStep(t, es, i, BodyEntry(line, i));
  }

  lemma BodyRangeSame(line: GffLine, lo: int, hi: int, hi': int)
    requires hi == hi' || (hi < lo && hi' < lo)
    ensures BodyRange(line, lo, hi) == BodyRange(line, lo, hi')
  {
  }

  lemma AppendNothing<V>(t: map<int, seq<V>>, es: map<int, V>)
    requires es.Keys == {}
    ensures AppendEach(t, es) == t
  {
    var r := AppendEach(t, es);
    assert r.Keys == t.Keys;
    forall i | i in r ensures r[i] == t[i] {
      assert i !in es && r[i] == t[i] + [];
    }
  }

  /** Appending one more entry, at a position `es` did not hold yet. */
  lemma AppendStep<V>(t: map<int, seq<V>>, es: map<int, V>, j: int, v: V)
    requires j !in es
    ensures AppendEach(t, es[j := v]) == AppendEach(t, es)[j := At(AppendEach(t, es), j) + [v]]
  {
    var a, b := AppendEach(t, es[j := v]), AppendEach(t, es)[j := At(AppendEach(t, es), j) + [v]];
    assert a.Keys == b.Keys;
    forall k | k in a ensures a[k] == b[k] {
      if k == j {
        assert At(AppendEach(t, es), j) == At(t, j);
      }
    }
  }

  /** After the feature loop: the `None` dereference, the tail, the
      coverage check. */
  method FinishTable(table: Table, last: Option<GffLine>) returns (r: Result<Table, Error>)
    requires LastOk(last)
    ensures r == Finish(Ok((table, last)))
  {
    if last.None? {
      return Err(NoEligibleFeature);
    }
    var l := last.value;
    var side := TailSide(l);
    if side.Err? {
      return Err(side.error);
    }
    var t := AppendTail(table, side.value, l.columns.end, l.columns.end + 999);
    FinishByTail(table, l);
    r := CheckTable(t);
  }

  lemma FinishByTail(table: Table, l: GffLine)
    requires Eligible(l) && TailSide(l).Ok?
    ensures var t := AppendEach(table, TailRange(TailSide(l).value, l.columns.end, l.columns.end + 999));
      t.Keys != {} && Finish(Ok((table, Some(l)))) == Check(t)
  {
    TailRangeKeys(TailSide(l).value, l.columns.end, l.columns.end + 999);
    AppendHas(table, TailRange(TailSide(l).value, l.columns.end, l.columns.end + 999), l.columns.end);
    TailOfOk(table, l.columns.end, TailSide(l));
    CheckTailOk(WithTail(table, l));
  }

  lemma AppendHas<V>(t: map<int, seq<V>>, es: map<int, V>, k: int)
    requires k in es
    ensures k in AppendEach(t, es) && AppendEach(t, es).Keys != {}
  {
  }

  /** The tail loop: an entry of the last feature appended at each
      position `lo..hi`. */
  method AppendTail(t: Table, side: Side, lo: int, hi: int) returns (table: Table)
    ensures table == AppendEach(t, TailRange(side, lo, hi))
  {
    table := t;
    var i := lo;
    TailRangeKeys(side, lo, i - 1);
    AppendNothing(t, TailRange(side, lo, i - 1));
    while i <= hi
      invariant lo <= i && (i <= hi + 1 || i == lo)
      invariant table == AppendEach(t, TailRange(side, lo, i - 1))
    {
      TailStep(t, side, lo, i);
      table := table[i := At(table, i) + [Entry(side, i)]];
      i := i + 1;
    }
    TailRangeSame(side, lo, i - 1, hi);
  }

  lemma TailStep(t: Table, side: Side, lo: int, i: int)
    requires lo <= i
    ensures var u := AppendEach(t, TailRange(side, lo, i - 1));
      u[i := At(u, i) + [Entry(side, i)]] == AppendEach(t, TailRange(side, lo, i))
  {
    TailRangeStep(side, lo, i);
    AppendStep(t, TailRange(side, lo, i - 1), i, Entry(side, i));
  }

  lemma TailRangeStep(side: Side, lo: int, i: int)
    requires lo <= i
    ensures TailRange(side, lo, i) == TailRange(side, lo, i - 1)[i := Entry(side, i)]
    ensures i !in TailRange(side, lo, i - 1)
  {
  }

  lemma TailRangeSame(side: Side, lo: int, hi: int, hi': int)
    requires hi == hi' || (hi < lo && hi' < lo)
    ensures TailRange(side, lo, hi) == TailRange(side, lo, hi')
  {
  }

  /** `max(lookup_table)`, then `missing_entries`. */
  method CheckTable(t: Table) returns (r: Result<Table, Error>)
    requires t.Keys != {}
    ensures r == Check(t)
  {
    var top := MaxKey(t.Keys);
    var missing := MissingList(t, 1, top);
    if |missing| > 0 {
      return Err(MissingPositions(missing));
    }
    return Ok(t);
  }

  /** The largest element of a set of positions, one element at a time. */
  method MaxKey(keys: set<int>) returns (m: int)
    requires keys != {}
    ensures m == MaxOf(keys)
  {
    HasElement(keys);
    var k :| k in keys;
    m := k;
    var rest := keys - {k};
    while rest != {}
      invariant rest <= keys && m in keys
      invariant forall x :: x in keys && x !in rest ==> x <= m
      decreases |rest|
    {
      HasElement(rest);
      var x :| x in rest;
      if x > m {
        m := x;
      }
      rest := rest - {x};
    }
    MaxUnique(keys, m);
  }

  /** Only one element of a set is at least every element. */
  lemma MaxUnique(s: set<int>, m: int)
    requires m in s && forall x :: x in s ==> x <= m
    ensures m == MaxOf(s)
  {
  }

  /** The positions `lo..hi` whose list is empty, in increasing order. */
  method MissingList(t: Table, lo: int, hi: int) returns (ms: seq<int>)
    ensures ms == Missing(t, lo, hi)
  {
    ms := [];
    var i := lo;
    while i <= hi
      invariant lo <= i && (i <= hi + 1 || i == lo)
      invariant ms == Missing(t, lo, i - 1)
    {
      MissingStep(t, lo, i);
      if |At(t, i)| == 0 {
        ms := ms + [i];
      }
      i := i + 1;
    }
  }

  /** `Missing` grows at the end as the range grows. */
  lemma {:induction false} MissingStep(t: Table, lo: int, i: int)
    requires lo <= i
    ensures Missing(t, lo, i) == Missing(t, lo, i - 1) + (if At(t, i) == [] then [i] else [])
    decreases i - lo
  {
    var last := if At(t, i) == [] then [i] else [];
    if lo < i {
      MissingStep(t, lo + 1, i);
      var first := if At(t, lo) == [] then [lo] else [];
      assert Missing(t, lo, i) == first + (Missing(t, lo + 1, i - 1) + last);
      Regroup(first, Missing(t, lo + 1, i - 1), last);
    } else {
      assert Missing(t, lo, i) == last + [];
    }
  }

  lemma Regroup<T>(a: seq<T>, b: seq<T>, c: seq<T>)
    ensures a + (b + c) == (a + b) + c
  {
  }
}
