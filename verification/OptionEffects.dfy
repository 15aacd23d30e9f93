/**
 * What the options do to a character and to a text, read off the tables: which characters can be left, which are
 * left as they are, and what becomes of the others.
 */
module OptionEffects {
  import opened Decomposition
  import opened NormalForms
  import opened Sequences
  import opened UnicodeTables

  /** The categories Mn, Mc and Me. */
  const MARKS: set<nat> := {6, 7, 8}

  /** Whether a canonical decomposition, or with COMPAT any decomposition, is to be made. */
  predicate Decomposes(t: Tables, o: Options, x: int) {
    (o.compose || o.decompose) && t.prop(x).decompIndex != NO_SEQUENCE && (t.prop(x).decompType == 0 || o.compat)
  }

  predicate Folds(t: Tables, o: Options, x: int) {
    o.casefold && t.prop(x).casefoldIndex != NO_SEQUENCE
  }

  /** Whether a character is a syllable that is taken apart, before any other option is looked at. */
  predicate TakenApart(o: Options, x: int) {
    (o.compose || o.decompose) && IsHangulSyllable(x)
  }

  /** No option has anything to do with `x`, except lumping it to itself. */
  predicate Untouched(t: Tables, o: Options, x: int) {
    && !TakenApart(o, x)
    && (o.rejectna || o.stripna ==> t.prop(x).category != CATEGORY_CN)
    && (o.ignore ==> !t.prop(x).ignorable)
    && (o.lump ==> t.LumpTarget(x, o) == None || t.LumpTarget(x, o) == Some(x))
    && (o.stripmark ==> t.prop(x).category !in MARKS)
    && !Folds(t, o, x) && !Decomposes(t, o, x)
  }

  // ---------- what can be left ----------

  lemma InertUntouched(t: Tables, o: Options, x: int)
    requires t.WellFormed() && t.Inert(x) && !IsHangulSyllable(x)
    requires t.LumpTarget(x, o) == None || t.LumpTarget(x, o) == Some(x)
    ensures Untouched(t, o, x)
  {
  }

  lemma JamoUntouched(t: Tables, o: Options, x: int)
    requires t.WellFormed() && IsJamo(x)
    ensures Untouched(t, o, x)
  {
    assert t.LumpTarget(x, o) == None;
  }

  /** A character that is lumped to is kept, behind a sentinel if a cluster begins. */
  lemma LumpedUntouched(t: Tables, o: Options, q: Options, y: int, state: nat, x: int)
    requires t.WellFormed() && t.IsLumpTarget(y) && q == o.(lump := false)
    requires DecomposeChar(t, y, q, state).Cells? && x in DecomposeChar(t, y, q, state).cells && x >= 0
    ensures Untouched(t, o, x)
  {
    LumpTargetStable(t, o, y);
    assert RouteOf(t, y, q) == Keep;
    assert x == y;
    InertUntouched(t, o, y);
  }

  /** With or without CHARBOUND, all that is left of a character are characters no option has anything to do with. */
  lemma {:induction false} OutputUntouched(t: Tables, uc: int, o: Options, state: nat, x: int)
    requires t.WellFormed() && DecomposeChar(t, uc, o, state).Cells? && x in DecomposeChar(t, uc, o, state).cells && x >= 0
    ensures Untouched(t, o, x)
    decreases o.lump, if IsCodepoint(uc) then t.rank(uc) else 0, 1, 0
  {
    match RouteOf(t, uc, o)
    case Syllable =>
      JamoUntouched(t, o, x);
    case Lump(y) =>
      LumpStep(t, uc, o, state, y, o.(lump := false));
      LumpedUntouched(t, o, o.(lump := false), y, state, x);
    case Expand(index) =>
      ExpandBelow(t, uc, o, index);
      ExpansionUntouched(t, SequenceAt(t.sequences, index), o, state, t.rank(uc), x);
    case _ =>
  }

  lemma {:induction false} ExpansionUntouched(t: Tables, es: seq<int>, o: Options, state: nat, bound: nat, x: int)
    requires t.WellFormed() && Below(t, es, bound)
    requires DecomposeAll(t, es, o, state, bound).Cells? && x in DecomposeAll(t, es, o, state, bound).cells && x >= 0
    ensures Untouched(t, o, x)
    decreases o.lump, bound, 0, |es|
  {
    var d := DecomposeChar(t, es[0], o, state);
    if x in d.cells {
      OutputUntouched(t, es[0], o, state, x);
    } else {
      ExpansionUntouched(t, es[1..], o, d.state, bound, x);
    }
  }

  /** The characters left as they are are exactly those. */
  lemma FixedIff(t: Tables, o: Options, x: int)
    requires t.WellFormed() && !o.charbound && IsCodepoint(x)
    ensures Fixed(t, o, x) <==> Untouched(t, o, x)
  {
    if Fixed(t, o, x) {
      OutputUntouched(t, x, o, 0, x);
    } else if Untouched(t, o, x) {
      if o.lump && t.LumpTarget(x, o).Some? {
        LumpTargetFixed(t, o, x);
      }
    }
  }

  // ---------- what becomes of the others ----------

  /** A character is refused exactly if it is none, or if it is not assigned and that is to be reported. */
  lemma RefusedIff(t: Tables, uc: int, o: Options, state: nat)
    requires t.WellFormed()
    ensures DecomposeChar(t, uc, o, state).Failed?
      <==> !IsCodepoint(uc) || (o.rejectna && t.prop(uc).category == CATEGORY_CN && !TakenApart(o, uc))
  {
    FailsIffRejected(t, uc, o, state);
  }

  /** Characters that are to be dropped, whatever else could be done with them. */
  predicate Dropped(t: Tables, o: Options, x: int) {
    (o.ignore && t.prop(x).ignorable) || (o.stripna && t.prop(x).category == CATEGORY_CN)
  }

  /** The effect of each option, in the order in which they take precedence. */
  lemma Effects(t: Tables, o: Options, x: int)
    requires t.WellFormed() && !o.charbound && DecomposeChar(t, x, o, 0).Cells?
    ensures TakenApart(o, x) ==> Image(t, o, x) == HangulDecomposition(x)
    ensures !TakenApart(o, x) && Dropped(t, o, x) ==> Image(t, o, x) == []
    ensures !TakenApart(o, x) && !Dropped(t, o, x) && o.lump && t.LumpTarget(x, o).Some? ==> Image(t, o, x) == [t.LumpTarget(x, o).value]
    ensures !TakenApart(o, x) && !Dropped(t, o, x) && !(o.lump && t.LumpTarget(x, o).Some?) && o.stripmark && t.prop(x).category in MARKS
      ==> Image(t, o, x) == []
  {
    if RouteOf(t, x, o).Lump? {
      LumpTargetFixed(t, o, x);
    }
  }

  /** Characters that nothing but case folding and decomposition is concerned with. */
  predicate Expandable(t: Tables, o: Options, x: int) {
    !TakenApart(o, x) && !Dropped(t, o, x) && (o.lump ==> t.LumpTarget(x, o) == None) && (o.stripmark ==> t.prop(x).category !in MARKS)
  }

  /** Case folding comes first; each replaces the character by the expansion of its sequence in the table. */
  lemma Expansions(t: Tables, o: Options, x: int)
    requires t.WellFormed() && !o.charbound && DecomposeChar(t, x, o, 0).Cells? && Expandable(t, o, x)
    ensures Folds(t, o, x) ==>
      SequenceFits(t.sequences, t.prop(x).casefoldIndex)
      && Image(t, o, x) == FlatMap(ImageFn(t, o), SequenceAt(t.sequences, t.prop(x).casefoldIndex))
    ensures !Folds(t, o, x) && Decomposes(t, o, x) ==>
      SequenceFits(t.sequences, t.prop(x).decompIndex)
      && Image(t, o, x) == FlatMap(ImageFn(t, o), SequenceAt(t.sequences, t.prop(x).decompIndex))
    ensures !Folds(t, o, x) && !Decomposes(t, o, x) ==> Image(t, o, x) == [x]
  {
    FailsIffRejected(t, x, o, 0);
    match RouteOf(t, x, o)
    case Expand(index) =>
      ExpandBelow(t, x, o, index);
      ExpansionIsFlatMap(t, SequenceAt(t.sequences, index), o, t.rank(x));
    case _ =>
  }

  // ---------- lumping ----------

  /** The characters lumped one by one, with what they are lumped to. */
  const LUMPED: seq<(int, int)> := [
    (0x2018, 0x27), (0x2019, 0x27), (0x02BC, 0x27), (0x02C8, 0x27), (0x2212, 0x2D), (0x2044, 0x2F), (0x2215, 0x2F),
    (0x2236, 0x3A), (0x2039, 0x3C), (0x2329, 0x3C), (0x3008, 0x3C), (0x203A, 0x3E), (0x232A, 0x3E), (0x3009, 0x3E),
    (0x2216, 0x5C), (0x02C4, 0x5E), (0x02C6, 0x5E), (0x2038, 0x5E), (0x2303, 0x5E), (0x02CD, 0x5F), (0x02CB, 0x60),
    (0x2223, 0x7C), (0x223C, 0x7E)]

  /** Spaces, dashes and connectors go by their category, separators only when all line breaks become U+000A. */
  lemma LumpsByCategory(t: Tables, o: Options, c: int)
    ensures var category, r := t.prop(c).category, t.LumpTarget(c, o);
      && (category == CATEGORY_ZS ==> r == Some(0x20))
      && ((forall k :: 0 <= k < |LUMPED| ==> LUMPED[k].0 != c) ==>
            && (category == CATEGORY_PD ==> r == Some(0x2D))
            && (category == CATEGORY_PC ==> r == Some(0x5F))
            && (category == CATEGORY_ZL || category == CATEGORY_ZP ==> r == if o.nlf2ls && o.nlf2ps then Some(0x0A) else None)
            && (t.LumpCategory(category) == None ==> r == None))
  {
    assert LUMPED[0].0 == 0x2018 && LUMPED[1].0 == 0x2019 && LUMPED[2].0 == 0x02BC && LUMPED[3].0 == 0x02C8 && LUMPED[4].0 == 0x2212 && LUMPED[5].0 == 0x2044;
    assert LUMPED[6].0 == 0x2215 && LUMPED[7].0 == 0x2236 && LUMPED[8].0 == 0x2039 && LUMPED[9].0 == 0x2329 && LUMPED[10].0 == 0x3008 && LUMPED[11].0 == 0x203A;
    assert LUMPED[12].0 == 0x232A && LUMPED[13].0 == 0x3009 && LUMPED[14].0 == 0x2216 && LUMPED[15].0 == 0x02C4 && LUMPED[16].0 == 0x02C6 && LUMPED[17].0 == 0x2038;
    assert LUMPED[18].0 == 0x2303 && LUMPED[19].0 == 0x02CD && LUMPED[20].0 == 0x02CB && LUMPED[21].0 == 0x2223 && LUMPED[22].0 == 0x223C;
  }

  lemma LumpsByCharacter(t: Tables, o: Options, k: nat)
    requires k < |LUMPED| && t.LumpCategory(t.prop(LUMPED[k].0).category) == None
    ensures t.LumpTarget(LUMPED[k].0, o) == Some(LUMPED[k].1)
  {
  }
}
