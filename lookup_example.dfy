/** The worked example of the lookup table: two `+` genes, `g1` on 1..10
    and `g2` on 21..30, with nothing else in the file. */
module GffLookupExample {
  import opened Wrappers
  import opened Dicts
  import opened GffRecords
  import opened GffLookup

  function Gene(name: string, start: int, end: int): GffLine {
    GffLine(Columns(Str("chr"), Str("test"), Str("gene"), start, end, Str("."), Str("+"), Str(".")),
            [("Name", Str(name))])
  }

  const G1: GffLine := Gene("g1", 1, 10)
  const G2: GffLine := Gene("g2", 21, 30)

  lemma GenesEligible()
    ensures Eligible(G1) && Eligible(G2) && TextName(G1) && TextName(G2)
  {
    assert Keys(G1.attributes) == ["Name"];
    assert Keys(G2.attributes) == ["Name"];
  }

  /** After `g1`: its ten body entries and nothing else. */
  lemma AfterFirst()
    ensures Process([G1]).Ok? && Process([G1]).value.1 == Some(G1)
    ensures forall i :: i in Process([G1]).value.0 <==> 1 <= i <= 10
  {
    GenesEligible();
    assert [G1][..0] == [];
    GapFillShape(G1, None);
    assert GapFill(G1, None).Ok?;
  }

  lemma FirstAt(i: int)
    ensures Process([G1]).Ok?
    ensures At(Process([G1]).value.0, i) == if 1 <= i <= 10 then [BodyEntry(G1, i)] else []
  {
    GenesEligible();
    assert [G1][..0] == [];
    GapFillShape(G1, None);
    StepEntries((map[], None), G1, i);
  }

  lemma SidesOfSecond()
    ensures UpstreamSide(G2, Some(G1)) == Ok(Side(G1, 1, Plus, "_down-g1"))
    ensures DownstreamSide(G2) == Ok(Side(G2, 21, Minus, "_up-g2"))
    ensures TailSide(G2) == Ok(Side(G2, 21, Plus, "_down-g2"))
  {
    GenesEligible();
    assert "_down-" + "g1" == "_down-g1";
    assert "_up-" + "g2" == "_up-g2";
    assert "_down-" + "g2" == "_down-g2";
  }

  lemma SecondStep()
    ensures Process([G1]).Ok? && Process([G1, G2]) == Step(Process([G1]).value, G2)
    ensures Step(Process([G1]).value, G2).Ok?
  {
    GenesEligible();
    AfterFirst();
    assert [G1, G2][..1] == [G1];
    SidesOfSecond();
  }

  /** After `g2`: the positions 1..30, and `g2` as `last_feature`. */
  lemma AfterSecond()
    ensures Process([G1, G2]).Ok? && Process([G1, G2]).value.1 == Some(G2)
    ensures forall i :: i in Process([G1, G2]).value.0 <==> 1 <= i <= 30
  {
    GenesEligible();
    AfterFirst();
    SecondStep();
    StepKeys(Process([G1]).value, G2);
  }

  /** What each position holds after `g2`: the bodies of both genes, and
      the gap 11..20 cut at 15, `g1` pointing downstream before the
      midpoint and `g2` upstream after it. */
  lemma SecondAt(i: int)
    ensures Process([G1, G2]).Ok?
    ensures At(Process([G1, G2]).value.0, i) ==
      if 1 <= i <= 10 then [BodyEntry(G1, i)]
      else if 11 <= i <= 15 then [Entry(Side(G1, 1, Plus, "_down-g1"), i)]
      else if 16 <= i <= 20 then [Entry(Side(G2, 21, Minus, "_up-g2"), i)]
      else if 21 <= i <= 30 then [BodyEntry(G2, i)]
      else []
  {
    GenesEligible();
    SecondStep();
    StepEntries(Process([G1]).value, G2, i);
    if 10 < i < 21 {
      GapAt(i);
    } else {
      FirstAt(i);
    }
  }

  /** The gap between the genes, one position at a time. */
  lemma GapAt(i: int)
    requires 10 < i < 21
    ensures Eligible(G2) && GapFill(G2, Some(G1)).Ok?
    ensures i in GapFill(G2, Some(G1)).value
    ensures GapFill(G2, Some(G1)).value[i] ==
      if i <= 15 then [Entry(Side(G1, 1, Plus, "_down-g1"), i)] else [Entry(Side(G2, 21, Minus, "_up-g2"), i)]
  {
    GenesEligible();
    SidesOfSecond();
    assert Midpoint(10, 21) == 15;
    GapFillShape(G2, Some(G1));
  }

  /** The table of the example is the one after `g2` with the tail of
      `g2` added: the coverage check passes. */
  lemma ExampleIsTail()
    ensures Process([G1, G2]).Ok?
    ensures Lookup([G1, G2]) == WithTail(Process([G1, G2]).value.0, G2)
    ensures WithTail(Process([G1, G2]).value.0, G2).Ok?
  {
    GenesEligible();
    AfterSecond();
    ProcessCovered([G1, G2]);
    var t2 := Process([G1, G2]).value.0;
    TailCovered(t2, G2);
    CheckTailOk(WithTail(t2, G2));
  }

  /** The example's table has exactly the positions 1..1029: the tail of
      `g2` runs from its end, 30, to 30 + 999. */
  lemma ExampleKeys()
    ensures Lookup([G1, G2]).Ok?
    ensures forall i :: i in Lookup([G1, G2]).value <==> 1 <= i <= 1029
  {
    GenesEligible();
    ExampleIsTail();
    AfterSecond();
    WithTailShape(Process([G1, G2]).value.0, G2);
  }

  /** What each position of the example holds: what it held after `g2`,
      then, from 30 on, an entry of `g2` tagged `_down-g2`. */
  lemma ExampleAt(i: int)
    ensures Lookup([G1, G2]).Ok?
    ensures At(Lookup([G1, G2]).value, i) ==
      At(Process([G1, G2]).value.0, i) + (if 30 <= i <= 1029 then [Entry(Side(G2, 21, Plus, "_down-g2"), i)] else [])
  {
    GenesEligible();
    ExampleIsTail();
    AfterSecond();
    SidesOfSecond();
    WithTailShape(Process([G1, G2]).value.0, G2);
  }

  /** The `locus_tag` and `offset` one entry carries. */
  predicate Tagged(l: GffLine, tag: string, offset: int) {
    Get(l.attributes, "locus_tag") == Some(Str(tag)) && Get(l.attributes, "offset") == Some(Int(offset))
  }

  lemma TaggedEntry(side: Side, i: int, offset: int)
    requires offset == Signed(i - side.anchor, side.sign)
    ensures Tagged(Entry(side, i), side.tag, offset)
  {
    EntryOffset(side, i);
    EntryTag(side, i);
  }

  /** Before the tail, the example's table holds what it held after `g2`. */
  lemma BeforeTail(i: int)
    requires i < 30
    ensures Lookup([G1, G2]).Ok?
    ensures At(Lookup([G1, G2]).value, i) == At(Process([G1, G2]).value.0, i)
  {
    ExampleAt(i);
  }

  /** A position of the gap up to the midpoint holds one entry of `g1`, ... */
  lemma DownEntry(i: int)
    requires 11 <= i <= 15
    ensures Lookup([G1, G2]).Ok?
    ensures At(Lookup([G1, G2]).value, i) == [Entry(Side(G1, 1, Plus, "_down-g1"), i)]
  {
    BeforeTail(i);
    SecondAt(i);
  }

  /** ... one after it one entry of `g2`. */
  lemma UpEntry(i: int)
    requires 16 <= i <= 20
    ensures Lookup([G1, G2]).Ok?
    ensures At(Lookup([G1, G2]).value, i) == [Entry(Side(G2, 21, Minus, "_up-g2"), i)]
  {
    BeforeTail(i);
    SecondAt(i);
  }

  /** The first half of the example's gap: `g1`'s downstream offsets
      10..14 on 11..15. */
  lemma ExampleDownOffsets(i: int)
    requires 11 <= i <= 15
    ensures Tagged(Entry(Side(G1, 1, Plus, "_down-g1"), i), "_down-g1", i - 1)
  {
    TaggedEntry(Side(G1, 1, Plus, "_down-g1"), i, i - 1);
  }

  /** The second half: `g2`'s upstream offsets on 16..20, the distance
      from its start times the sign `-1.`, which is 5..1. */
  lemma ExampleUpOffsets(i: int)
    requires 16 <= i <= 20
    ensures Tagged(Entry(Side(G2, 21, Minus, "_up-g2"), i), "_up-g2", Signed(i - 21, Minus))
  {
    TaggedEntry(Side(G2, 21, Minus, "_up-g2"), i, Signed(i - 21, Minus));
  }

  /** The end of `g2` holds two entries, its body entry and then the first
      of its tail, ... */
  lemma OverlapEntries()
    ensures Lookup([G1, G2]).Ok?
    ensures At(Lookup([G1, G2]).value, 30) == [BodyEntry(G2, 30), Entry(Side(G2, 21, Plus, "_down-g2"), 30)]
  {
    ExampleAt(30);
    SecondAt(30);
    AppendOne(At(Process([G1, G2]).value.0, 30), BodyEntry(G2, 30), Entry(Side(G2, 21, Plus, "_down-g2"), 30));
  }

  lemma AppendOne<T>(s: seq<T>, a: T, b: T)
    requires s == [a]
    ensures s + [b] == [a, b]
  {
  }

  /** ... the body entry at distance 9 from the start of `g2` and without
      a `locus_tag`, the tail entry tagged `_down-g2` at the same distance. */
  lemma ExampleEndOffsets()
    ensures Get(BodyEntry(G2, 30).attributes, "offset") == Some(Int(9))
    ensures Get(BodyEntry(G2, 30).attributes, "locus_tag") == None
    ensures Tagged(Entry(Side(G2, 21, Plus, "_down-g2"), 30), "_down-g2", 9)
  {
    BodyEntryAttributes(G2, 30, "locus_tag");
    assert Get(G2.attributes, "locus_tag") == None;
    TaggedEntry(Side(G2, 21, Plus, "_down-g2"), 30, 9);
  }

  /** The last tail position, 1029, holds only the tail entry, ... */
  lemma LastEntry()
    ensures Lookup([G1, G2]).Ok?
    ensures At(Lookup([G1, G2]).value, 1029) == [Entry(Side(G2, 21, Plus, "_down-g2"), 1029)]
  {
    ExampleAt(1029);
    SecondAt(1029);
  }

  /** ... at distance 1008. */
  lemma ExampleLastOffset()
    ensures Tagged(Entry(Side(G2, 21, Plus, "_down-g2"), 1029), "_down-g2", 1008)
  {
    TaggedEntry(Side(G2, 21, Plus, "_down-g2"), 1029, 1008);
  }
}
