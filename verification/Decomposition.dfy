/** `utf8proc_decompose_char` and `seqindex_write_char_decomposed`. */
module Decomposition {
  import opened Grapheme
  import opened Sequences
  import opened UnicodeTables

  const ERROR_OVERFLOW: int := -2
  const ERROR_NOTASSIGNED: int := -4

  /** The cells a character becomes and the boundary state after it, or an error code. */
  datatype Decomposed = Cells(cells: seq<int>, state: nat) | Failed(code: int)

  predicate Normalizing(o: Options) { o.compose || o.decompose }

  /** Section 3.12 of the Unicode Standard: a syllable as its two or three jamo. */
  function HangulDecomposition(c: int): (r: seq<int>)
    requires IsHangulSyllable(c)
    ensures forall i :: 0 <= i < |r| ==> IsJamo(r[i])
  {
    var s := c - SBASE;
    var l, v, t := LBASE + s / NCOUNT, VBASE + s % NCOUNT / TCOUNT, TBASE + s % TCOUNT;
    if s % TCOUNT == 0 then [l, v] else [l, v, t]
  }

  /** The jamo are a leading consonant, a vowel and possibly a trailing consonant, and the syllable is the one they make up. */
  lemma HangulParts(c: int)
    requires IsHangulSyllable(c)
    ensures var r := HangulDecomposition(c);
      && 2 <= |r| <= 3 && IsHangulL(r[0]) && IsHangulV(r[1]) && (|r| == 3 ==> IsHangulT(r[2]))
      && c == SBASE + ((r[0] - LBASE) * VCOUNT + (r[1] - VBASE)) * TCOUNT + if |r| == 3 then r[2] - TBASE else 0
  {
    var s := c - SBASE;
    assert s % NCOUNT == s % NCOUNT / TCOUNT * TCOUNT + s % TCOUNT;
    assert s == s / NCOUNT * NCOUNT + s % NCOUNT;
  }

  /** What happens to a character. */
  datatype Route = Reject | Syllable | Drop | Lump(target: int) | Expand(index: nat) | Keep

  /** The tests of `utf8proc_decompose_char` in the order they are made. */
  function RouteOf(t: Tables, uc: int, o: Options): Route {
    var p := t.prop(uc);
    if !IsCodepoint(uc) then Reject
    else if Normalizing(o) && IsHangulSyllable(uc) then Syllable
    else if o.rejectna && p.category == CATEGORY_CN then Reject
    else if o.ignore && p.ignorable then Drop
    else if o.stripna && p.category == CATEGORY_CN then Drop
    else if o.lump && t.LumpTarget(uc, o).Some? then Lump(t.LumpTarget(uc, o).value)
    else if o.stripmark && IsMark(p.category) then Drop
    else if o.casefold && p.casefoldIndex != NO_SEQUENCE then Expand(p.casefoldIndex)
    else if Normalizing(o) && p.decompIndex != NO_SEQUENCE && (p.decompType == 0 || o.compat) then Expand(p.decompIndex)
    else Keep
  }

  /** The last part of `utf8proc_decompose_char`: the character itself, after a sentinel if a cluster begins. */
  function Literal(t: Tables, uc: int, o: Options, state: nat): Decomposed {
    if o.charbound then
      var v := BreakExtended(START, t.prop(uc).boundclass, ICB_NONE, t.prop(uc).conjunct, state);
      Cells(if v.breaks then [-1, uc] else [uc], v.state)
    else Cells([uc], state)
  }

  ghost function DecomposeChar(t: Tables, uc: int, o: Options, state: nat): Decomposed
    requires t.WellFormed()
    decreases o.lump, if IsCodepoint(uc) then t.rank(uc) else 0, 1, 0
  {
    match RouteOf(t, uc, o)
    case Reject => Failed(ERROR_NOTASSIGNED)
    case Syllable => Cells(HangulDecomposition(uc), state)
    case Drop => Cells([], state)
    case Lump(target) => DecomposeChar(t, target, o.(lump := false), state)
    case Expand(index) => DecomposeAll(t, SequenceAt(t.sequences, index), o, state, t.rank(uc))
    case Keep => Literal(t, uc, o, state)
  }

  /** `es` may be expanded below `bound`. */
  ghost predicate Below(t: Tables, es: seq<int>, bound: nat) {
    forall i :: 0 <= i < |es| ==>
      IsScalar(es[i]) && es[i] != 0 && t.prop(es[i]).category != CATEGORY_CN && t.rank(es[i]) < bound
  }

  ghost function DecomposeAll(t: Tables, es: seq<int>, o: Options, state: nat, bound: nat): Decomposed
    requires t.WellFormed() && Below(t, es, bound)
    decreases o.lump, bound, 0, |es|
  {
    if es == [] then Cells([], state)
    else
      match DecomposeChar(t, es[0], o, state)
      case Failed(_) => Failed(ERROR_OVERFLOW)
      case Cells(cells, state') => Prepend(cells, DecomposeAll(t, es[1..], o, state', bound))
  }

  function Prepend(cells: seq<int>, d: Decomposed): Decomposed {
    match d
    case Failed(code) => Failed(code)
    case Cells(more, state) => Cells(cells + more, state)
  }

  // ---------- expansions never fail, and without CHARBOUND do not touch the state ----------

  /** Changes only which state is carried through. */
  function WithState(d: Decomposed, state: nat): Decomposed {
    match d
    case Failed(code) => Failed(code)
    case Cells(cells, _) => Cells(cells, state)
  }

  lemma {:induction false} AssignedNeverFails(t: Tables, uc: int, o: Options, state: nat)
    requires t.WellFormed() && IsCodepoint(uc) && t.prop(uc).category != CATEGORY_CN
    ensures DecomposeChar(t, uc, o, state).Cells?
    decreases o.lump, t.rank(uc), 1, 0
  {
    match RouteOf(t, uc, o)
    case Lump(target) =>
      AssignedNeverFails(t, target, o.(lump := false), state);
    case Expand(index) =>
      ExpansionNeverFails(t, SequenceAt(t.sequences, index), o, state, t.rank(uc));
    case _ =>
  }

  lemma {:induction false} ExpansionNeverFails(t: Tables, es: seq<int>, o: Options, state: nat, bound: nat)
    requires t.WellFormed() && Below(t, es, bound)
    ensures DecomposeAll(t, es, o, state, bound).Cells?
    decreases o.lump, bound, 0, |es|
  {
    if es != [] {
      AssignedNeverFails(t, es[0], o, state);
      ExpansionNeverFails(t, es[1..], o, DecomposeChar(t, es[0], o, state).state, bound);
    }
  }

  /** The only failure of a single character: it is not assigned and that is to be reported. */
  lemma FailsIffRejected(t: Tables, uc: int, o: Options, state: nat)
    requires t.WellFormed()
    ensures DecomposeChar(t, uc, o, state).Failed? <==> RouteOf(t, uc, o) == Reject
    ensures DecomposeChar(t, uc, o, state).Failed? ==> DecomposeChar(t, uc, o, state) == Failed(ERROR_NOTASSIGNED)
  {
    match RouteOf(t, uc, o)
    case Lump(target) =>
      assert t.Inert(target);
      AssignedNeverFails(t, target, o.(lump := false), state);
    case Expand(index) =>
      ExpansionNeverFails(t, SequenceAt(t.sequences, index), o, state, t.rank(uc));
    case _ =>
  }

  lemma {:induction false} StateCarried(t: Tables, uc: int, o: Options, state: nat)
    requires t.WellFormed() && !o.charbound
    ensures DecomposeChar(t, uc, o, state) == WithState(DecomposeChar(t, uc, o, 0), state)
    decreases o.lump, if IsCodepoint(uc) then t.rank(uc) else 0, 1, 0
  {
    match RouteOf(t, uc, o)
    case Lump(target) =>
      StateCarried(t, target, o.(lump := false), state);
    case Expand(index) =>
      StateCarriedAll(t, SequenceAt(t.sequences, index), o, state, t.rank(uc));
    case _ =>
  }

  lemma {:induction false} StateCarriedAll(t: Tables, es: seq<int>, o: Options, state: nat, bound: nat)
    requires t.WellFormed() && !o.charbound && Below(t, es, bound)
    ensures DecomposeAll(t, es, o, state, bound) == WithState(DecomposeAll(t, es, o, 0, bound), state)
    decreases o.lump, bound, 0, |es|
  {
    if es != [] {
      AssignedNeverFails(t, es[0], o, 0);
      StateCarried(t, es[0], o, state);
      StateCarried(t, es[0], o, 0);
      StateCarriedAll(t, es[1..], o, state, bound);
    }
  }

  // ---------- the character map of an option set without CHARBOUND ----------

  /** The cells `uc` becomes; none if it is refused. */
  ghost function Image(t: Tables, o: Options, uc: int): seq<int>
    requires t.WellFormed()
  {
    var d := DecomposeChar(t, uc, o, 0);
    if d.Cells? then d.cells else []
  }

  ghost function ImageFn(t: Tables, o: Options): int -> seq<int>
    requires t.WellFormed()
  {
    (uc: int) => Image(t, o, uc)
  }

  lemma {:induction false} ExpansionIsFlatMap(t: Tables, es: seq<int>, o: Options, bound: nat)
    requires t.WellFormed() && !o.charbound && Below(t, es, bound)
    ensures DecomposeAll(t, es, o, 0, bound) == Cells(FlatMap(ImageFn(t, o), es), 0)
    decreases |es|
  {
    if es != [] {
      AssignedNeverFails(t, es[0], o, 0);
      StateCarried(t, es[0], o, 0);
      ExpansionIsFlatMap(t, es[1..], o, bound);
    }
  }

  /** A character the options leave as it is. */
  ghost predicate Fixed(t: Tables, o: Options, x: int)
    requires t.WellFormed()
  {
    DecomposeChar(t, x, o, 0) == Cells([x], 0)
  }

  lemma InertFixed(t: Tables, o: Options, x: int)
    requires t.WellFormed() && !o.charbound && IsCodepoint(x) && !IsHangulSyllable(x) && t.Inert(x)
    requires o.lump ==> t.LumpTarget(x, o) == None
    ensures Fixed(t, o, x)
  {
    assert RouteOf(t, x, o) == Keep;
  }

  lemma JamoFixed(t: Tables, o: Options, x: int)
    requires t.WellFormed() && !o.charbound && IsJamo(x)
    ensures Fixed(t, o, x)
  {
    assert t.LumpTarget(x, o) == None;
    InertFixed(t, o, x);
  }

  /** Below U+0080 only the category decides about lumping. */
  lemma AsciiLump(t: Tables, o: Options, x: int)
    requires 0 <= x < 0x80
    ensures t.LumpTarget(x, o) == None || t.LumpTarget(x, o) == t.LumpCategory(t.prop(x).category)
  {
  }

  /** What is lumped to is not lumped any further. */
  lemma LumpTargetStable(t: Tables, o: Options, x: int)
    requires t.WellFormed() && t.IsLumpTarget(x)
    ensures IsScalar(x) && x != 0 && !IsHangulSyllable(x) && t.Inert(x)
    ensures t.LumpTarget(x, o) == None || t.LumpTarget(x, o) == Some(x)
  {
    AsciiLump(t, o, x);
  }

  lemma LumpTargetFixed(t: Tables, o: Options, uc: int)
    requires t.WellFormed() && !o.charbound && t.LumpTarget(uc, o).Some?
    ensures var x := t.LumpTarget(uc, o).value; Fixed(t, o.(lump := false), x) && Fixed(t, o, x)
  {
    var x := t.LumpTarget(uc, o).value;
    LumpTargetStable(t, o, t.LumpTarget(uc, o).value);
    InertFixed(t, o.(lump := false), x);
    if o.lump && t.LumpTarget(x, o) == Some(x) {
      assert RouteOf(t, x, o) == Lump(x);
    } else {
      InertFixed(t, o, x);
    }
  }

  /** Whatever a character decomposes to is left as it is when decomposed again with the same options. */
  lemma {:induction false} OutputFixed(t: Tables, uc: int, o: Options, x: int)
    requires t.WellFormed() && !o.charbound
    requires DecomposeChar(t, uc, o, 0).Cells? && x in DecomposeChar(t, uc, o, 0).cells
    ensures Fixed(t, o, x)
    decreases o.lump, if IsCodepoint(uc) then t.rank(uc) else 0, 1, 0
  {
    match RouteOf(t, uc, o)
    case Syllable =>
      JamoFixed(t, o, x);
    case Lump(target) =>
      LumpTargetFixed(t, o, uc);
    case Expand(index) =>
      ExpansionFixed(t, SequenceAt(t.sequences, index), o, t.rank(uc), x);
    case _ =>
  }

  lemma {:induction false} ExpansionFixed(t: Tables, es: seq<int>, o: Options, bound: nat, x: int)
    requires t.WellFormed() && !o.charbound && Below(t, es, bound)
    requires DecomposeAll(t, es, o, 0, bound).Cells? && x in DecomposeAll(t, es, o, 0, bound).cells
    ensures Fixed(t, o, x)
    decreases o.lump, bound, 0, |es|
  {
    var d := DecomposeChar(t, es[0], o, 0);
    StateCarried(t, es[0], o, 0);
    if x in d.cells {
      OutputFixed(t, es[0], o, x);
    } else {
      ExpansionFixed(t, es[1..], o, bound, x);
    }
  }

  /** A scalar value becomes scalar values, and only U+0000 becomes U+0000. */
  lemma {:induction false} OutputScalar(t: Tables, uc: int, o: Options, x: int)
    requires t.WellFormed() && !o.charbound && IsScalar(uc)
    requires DecomposeChar(t, uc, o, 0).Cells? && x in DecomposeChar(t, uc, o, 0).cells
    ensures IsScalar(x) && (x == 0 ==> uc == 0)
    decreases o.lump, t.rank(uc), 1, 0
  {
    match RouteOf(t, uc, o)
    case Syllable =>
      assert IsJamo(x);
    case Lump(target) =>
      LumpTargetStable(t, o, t.LumpTarget(uc, o).value);
      OutputScalar(t, target, o.(lump := false), x);
    case Expand(index) =>
      ExpansionScalar(t, SequenceAt(t.sequences, index), o, t.rank(uc), x);
    case _ =>
  }

  lemma {:induction false} ExpansionScalar(t: Tables, es: seq<int>, o: Options, bound: nat, x: int)
    requires t.WellFormed() && !o.charbound && Below(t, es, bound)
    requires DecomposeAll(t, es, o, 0, bound).Cells? && x in DecomposeAll(t, es, o, 0, bound).cells
    ensures IsScalar(x) && x != 0
    decreases o.lump, bound, 0, |es|
  {
    StateCarried(t, es[0], o, 0);
    if x in DecomposeChar(t, es[0], o, 0).cells {
      OutputScalar(t, es[0], o, x);
    } else {
      ExpansionScalar(t, es[1..], o, bound, x);
    }
  }
}
