/** A small table that meets every fact the theorems rely on, so that none of them is vacuous. */
module SampleTables {
  import opened Clusters
  import opened ComposedText
  import opened Composition
  import opened Decomposition
  import opened LineBreaks
  import opened NormalForms
  import opened UnicodeTables
  import opened Utf8

  const LETTER := Property(5, 0, 0, NO_SEQUENCE, NO_SEQUENCE, NO_COMBINATION, 0, false, false, G.OTHER, G.ICB_NONE)

  /** U+00C0 is U+0041 U+0300, U+0041 folds to U+0061, and one character of each kind the boundary rules know. */
  function SampleProperty(c: int): Property {
    if c == 0x41 then LETTER.(casefoldIndex := 2, combIndex := 0, combLength := 1)
    else if c == 0xC0 then LETTER.(decompIndex := 0x4000)
    else if c == 0x300 then
      LETTER.(category := CATEGORY_MN, ccc := 230, combIsSecond := true, boundclass := G.EXTEND, conjunct := G.ICB_EXTEND)
    else if c == 0x915 then LETTER.(conjunct := G.ICB_CONSONANT)
    else if c == 0x94D then
      LETTER.(category := CATEGORY_MN, ccc := 9, boundclass := G.EXTEND, conjunct := G.ICB_LINKER)
    else if c == 0x200D then LETTER.(boundclass := G.ZWJ, conjunct := G.ICB_EXTEND)
    else if c == 0x1F600 then LETTER.(boundclass := G.EXTENDED_PICTOGRAPHIC)
    else if 0x1F1E6 <= c <= 0x1F1FF then LETTER.(boundclass := G.REGIONAL_INDICATOR)
    else if c == 0x2028 then LETTER.(category := CATEGORY_ZL)
    else if c == 0x2029 then LETTER.(category := CATEGORY_ZP)
    else LETTER
  }

  function SampleRank(c: int): nat {
    if c == 0xC0 then 2 else if c == 0x41 then 1 else 0
  }

  function Sample(): Tables {
    Tables(SampleProperty, [0x41, 0x300, 0x61], [0x300], [0xC0], SampleRank)
  }

  lemma SampleSequences()
    ensures SequenceFits(Sample().sequences, 0x4000) && SequenceAt(Sample().sequences, 0x4000) == [0x41, 0x300]
    ensures SequenceFits(Sample().sequences, 2) && SequenceAt(Sample().sequences, 2) == [0x61]
  {
    var q := Sample().sequences;
    assert EntriesFit(q, 2, 0) && EntriesFit(q, 1, 1) && EntriesFit(q, 0, 2);
    assert EntriesAt(q, 1, 1) == [0x300] + EntriesAt(q, 2, 0);
    assert EntriesAt(q, 0, 2) == [0x41] + EntriesAt(q, 1, 1);
    assert EntriesFit(q, 3, 0) && EntriesFit(q, 2, 1);
    assert EntriesAt(q, 2, 1) == [0x61] + EntriesAt(q, 3, 0);
  }

  lemma SampleCombinations()
    ensures Sample().CombinationsOk()
    ensures Sample().Listed(0x41, 0x300, 0xC0)
  {
    SampleSequences();
    var t := Sample();
    assert t.ListedAt(0x41, 0x300, 0xC0, 0);
    forall l, c, p | t.Listed(l, c, p)
      ensures t.CompositeOk(l, c, p)
    {
      var k :| t.ListedAt(l, c, p, k);
    }
  }

  lemma SampleExpansions()
    ensures Sample().SequencesOk()
  {
    SampleSequences();
    var t := Sample();
    assert t.GoodEntries(0xC0, [0x41, 0x300]);
    assert t.GoodEntries(0x41, [0x61]);
    assert t.GoodSequence(0xC0, 0x4000) && t.GoodSequence(0x41, 2);
  }

  lemma SampleInert()
    ensures Sample().HangulOk() && Sample().LumpTargetsOk()
  {
    var t := Sample();
    forall c | IsJamo(c) || t.IsLumpTarget(c)
      ensures t.prop(c) == LETTER
    {
    }
  }

  lemma SampleLines()
    ensures LinesOk(Sample())
  {
  }

  lemma SampleWellFormed()
    ensures Sample().WellFormed()
  {
    SampleExpansions();
    SampleInert();
    SampleCombinations();
  }

  lemma SampleBoundclasses()
    ensures BoundclassesOk(Sample())
  {
  }

  /** The sample is well formed, and its pair composes. */
  lemma SampleOk()
    ensures Sample().WellFormed() && BoundclassesOk(Sample()) && LinesOk(Sample()) && ConsonantsOk(Sample())
    ensures TableComposite(Sample(), 0x41, 0x300) == Some(0xC0)
  {
    SampleWellFormed();
    SampleBoundclasses();
    SampleLines();
    SampleCombinations();
    TableCompositeIs(Sample(), 0x41, 0x300, 0xC0);
  }

  /** DECOMPOSE with STRIPCC. */
  const STRIPPING := Options(false, false, false, false, true, false, false, false, false, true, false, false, false, false, false)

  /** COMPOSE with STRIPCC. */
  const COMPOSING := Options(false, false, false, true, false, false, false, false, false, true, false, false, false, false, false)

  /** The sample leaves these characters as they are. */
  lemma SampleKeeps(c: int, o: Options)
    requires Sample().WellFormed() && c in {0x61, 0x300, 0x01, 0x94D} && (o == STRIPPING || o == COMPOSING)
    ensures IsScalar(c) && Fixed(Sample(), o, c)
  {
    assert RouteOf(Sample(), c, o) == Keep;
  }

  lemma SampleSettled(o: Options)
    requires Sample().WellFormed() && (o == STRIPPING || o == COMPOSING)
    ensures Settled(Sample(), o, [0x61, 0x300, 0x01, 0x94D])
  {
    SampleKeeps(0x61, o);
    SampleKeeps(0x300, o);
    SampleKeeps(0x01, o);
    SampleKeeps(0x94D, o);
  }

  /** A letter, a mark, a control and a mark of lower class: stripping the control brings the marks together. */
  lemma StrippingNotIdempotent()
    requires Sample().WellFormed() && LinesOk(Sample())
    ensures var first := Map(Sample(), EncodeAll([0x61, 0x300, 0x01, 0x94D]), STRIPPING);
      first.Ok? && Map(Sample(), first.bytes, STRIPPING) != first
  {
    SampleSettled(STRIPPING);
    StrippingChanges(Sample(), STRIPPING, 0x61, 0x300, 0x01, 0x94D);
  }

  /** The same text with COMPOSE. */
  lemma StrippingNotIdempotentComposed()
    requires Sample().WellFormed() && LinesOk(Sample())
    ensures var first := Map(Sample(), EncodeAll([0x61, 0x300, 0x01, 0x94D]), COMPOSING);
      first.Ok? && Map(Sample(), first.bytes, COMPOSING) != first
  {
    SampleSettled(COMPOSING);
    NoRowNoComposite(Sample(), 0x61, 0x300);
    NoRowNoComposite(Sample(), 0x61, 0x94D);
    PlainTransparent(Sample(), COMPOSING);
    StrippingChangesComposed(Sample(), COMPOSING, 0x61, 0x300, 0x01, 0x94D);
  }
}
