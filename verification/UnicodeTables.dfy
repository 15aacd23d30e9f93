/**
 The character tables that drive the text pipeline, and what the pipeline relies on them for.

 The tables themselves (`utf8proc_data.c`) are data.  Here they are an arbitrary value of `Tables`,
 and `WellFormed` states the facts about that data which the theorems use.  `SampleTables` shows
 that the facts can be met together.
 */
module UnicodeTables {

  datatype Option<+T> = None | Some(value: T)

  /** Option flags, one field for each `UTF8PROC_` constant. */
  datatype Options = Options(
    nullterm: bool, stable: bool, compat: bool, compose: bool, decompose: bool, ignore: bool,
    rejectna: bool, nlf2ls: bool, nlf2ps: bool, stripcc: bool, casefold: bool, charbound: bool,
    lump: bool, stripmark: bool, stripna: bool)

  datatype Property = Property(
    category: nat, ccc: nat, decompType: nat, decompIndex: nat, casefoldIndex: nat,
    combIndex: nat, combLength: nat, combIsSecond: bool, ignorable: bool,
    boundclass: nat, conjunct: nat)

  const NO_SEQUENCE: nat := 0xFFFF
  const NO_COMBINATION: nat := 0x3FF

  const CATEGORY_CN: nat := 0
  const CATEGORY_MN: nat := 6
  const CATEGORY_MC: nat := 7
  const CATEGORY_ME: nat := 8
  const CATEGORY_PC: nat := 12
  const CATEGORY_PD: nat := 13
  const CATEGORY_ZS: nat := 23
  const CATEGORY_ZL: nat := 24
  const CATEGORY_ZP: nat := 25

  predicate IsMark(category: nat) {
    category == CATEGORY_MN || category == CATEGORY_MC || category == CATEGORY_ME
  }

  predicate IsCodepoint(c: int) { 0 <= c < 0x110000 }

  predicate IsScalar(c: int) { IsCodepoint(c) && !(0xD800 <= c < 0xE000) }

  // ---------- Hangul (Unicode Standard section 3.12) ----------

  const SBASE := 0xAC00
  const LBASE := 0x1100
  const VBASE := 0x1161
  const TBASE := 0x11A7
  const LCOUNT := 19
  const VCOUNT := 21
  const TCOUNT := 28
  const NCOUNT := 588
  const SCOUNT := 11172

  predicate IsHangulL(c: int) { LBASE <= c < LBASE + LCOUNT }
  predicate IsHangulV(c: int) { VBASE <= c < VBASE + VCOUNT }
  predicate IsHangulT(c: int) { TBASE < c < TBASE + TCOUNT }
  predicate IsHangulSyllable(c: int) { SBASE <= c < SBASE + SCOUNT }
  predicate IsJamo(c: int) { IsHangulL(c) || IsHangulV(c) || IsHangulT(c) }

  // ---------- the sequence table ----------

  predicate IsLead(unit: nat) { unit / 0x800 % 0x20 == 0x1B }

  /** The codepoint at `pos`: one unit, or two when the first is a lead unit. */
  predicate EntryFits(q: seq<nat>, pos: nat) {
    pos < |q| && (IsLead(q[pos]) ==> pos + 1 < |q|)
  }

  function EntryWidth(q: seq<nat>, pos: nat): nat
    requires EntryFits(q, pos)
  {
    if IsLead(q[pos]) then 2 else 1
  }

  function EntryAt(q: seq<nat>, pos: nat): int
    requires EntryFits(q, pos)
  {
    if IsLead(q[pos]) then 0x10000 + q[pos] % 0x400 * 0x400 + q[pos + 1] % 0x400 else q[pos]
  }

  predicate EntriesFit(q: seq<nat>, pos: nat, n: nat)
    decreases n
  {
    n == 0 || (EntryFits(q, pos) && EntriesFit(q, pos + EntryWidth(q, pos), n - 1))
  }

  function EntriesAt(q: seq<nat>, pos: nat, n: nat): (r: seq<int>)
    requires EntriesFit(q, pos, n)
    ensures |r| == n
    decreases n
  {
    if n == 0 then [] else [EntryAt(q, pos)] + EntriesAt(q, pos + EntryWidth(q, pos), n - 1)
  }

  /** A sequence index packs the position (14 bits) and the length; 3 means a length unit follows. */
  predicate SequenceFits(q: seq<nat>, index: nat) {
    var pos, len := index % 0x4000, index / 0x4000;
    if len >= 3 then pos < |q| && EntriesFit(q, pos + 1, q[pos] + 1) else EntriesFit(q, pos, len + 1)
  }

  function SequenceAt(q: seq<nat>, index: nat): (r: seq<int>)
    requires SequenceFits(q, index)
    ensures r != []
  {
    var pos, len := index % 0x4000, index / 0x4000;
    if len >= 3 then EntriesAt(q, pos + 1, q[pos] + 1) else EntriesAt(q, pos, len + 1)
  }

  // ---------- the tables ----------

  /**
   `prop` is the property lookup, `sequences` the shared codepoint sequences, `second` and `combined`
   the rows of composable pairs.  `rank` is not in the data: it witnesses that following
   decompositions and case foldings ends.
   */
  datatype Tables = Tables(
    prop: int -> Property, sequences: seq<nat>, second: seq<int>, combined: seq<int>, rank: int -> nat)
  {
    /** The class a cell has for canonical ordering; a grapheme-break sentinel counts as a starter. */
    function Class(): int -> nat {
      var p := prop;
      (c: int) => if c < 0 then 0 else p(c).ccc
    }

    ghost predicate WellFormed() {
      SequencesOk() && HangulOk() && CombinationsOk() && LumpTargetsOk()
    }

    // --- decompositions and case foldings ---

    ghost predicate GoodEntry(c: int, e: int) {
      IsScalar(e) && e != 0 && prop(e).category != CATEGORY_CN && rank(e) < rank(c)
    }

    ghost predicate GoodEntries(c: int, es: seq<int>) {
      forall i :: 0 <= i < |es| ==> GoodEntry(c, es[i])
    }

    ghost predicate GoodSequence(c: int, index: nat) {
      index == NO_SEQUENCE || (SequenceFits(sequences, index) && GoodEntries(c, SequenceAt(sequences, index)))
    }

    ghost predicate SequencesOk() {
      forall c :: IsCodepoint(c) ==> GoodSequence(c, prop(c).decompIndex) && GoodSequence(c, prop(c).casefoldIndex)
    }

    // --- characters no step changes or removes ---

    predicate Inert(c: int) {
      var p := prop(c);
      && p.category != CATEGORY_CN && !IsMark(p.category) && !p.ignorable
      && p.decompIndex == NO_SEQUENCE && p.casefoldIndex == NO_SEQUENCE
    }

    ghost predicate HangulOk() {
      && (forall c :: IsJamo(c) ==> Inert(c) && LumpCategory(prop(c).category) == None)
      && (forall c :: IsHangulSyllable(c) ==> prop(c).ccc == 0)
    }

    // --- lumping ---

    predicate IsLumpTarget(c: int) {
      c in {0x20, 0x27, 0x2D, 0x2F, 0x3A, 0x3C, 0x3E, 0x5C, 0x5E, 0x5F, 0x60, 0x7C, 0x7E, 0x0A}
    }

    function LumpCategory(category: nat): Option<int> {
      if category == CATEGORY_ZS then Some(0x20)
      else if category == CATEGORY_PD then Some(0x2D)
      else if category == CATEGORY_PC then Some(0x5F)
      else if category == CATEGORY_ZL || category == CATEGORY_ZP then Some(0x0A)
      else None
    }

    /** What `c` is lumped to, if anything. */
    function LumpTarget(c: int, o: Options): (r: Option<int>)
      ensures r.Some? ==> IsLumpTarget(r.value)
    {
      var category := prop(c).category;
      if category == CATEGORY_ZS then Some(0x20)
      else if c == 0x2018 || c == 0x2019 || c == 0x02BC || c == 0x02C8 then Some(0x27)
      else if category == CATEGORY_PD || c == 0x2212 then Some(0x2D)
      else if c == 0x2044 || c == 0x2215 then Some(0x2F)
      else if c == 0x2236 then Some(0x3A)
      else if c == 0x2039 || c == 0x2329 || c == 0x3008 then Some(0x3C)
      else if c == 0x203A || c == 0x232A || c == 0x3009 then Some(0x3E)
      else if c == 0x2216 then Some(0x5C)
      else if c == 0x02C4 || c == 0x02C6 || c == 0x2038 || c == 0x2303 then Some(0x5E)
      else if category == CATEGORY_PC || c == 0x02CD then Some(0x5F)
      else if c == 0x02CB then Some(0x60)
      else if c == 0x2223 then Some(0x7C)
      else if c == 0x223C then Some(0x7E)
      else if o.nlf2ls && o.nlf2ps && (category == CATEGORY_ZL || category == CATEGORY_ZP) then Some(0x0A)
      else None
    }

    ghost predicate LumpTargetsOk() {
      forall c :: IsLumpTarget(c) ==>
        Inert(c) && (LumpCategory(prop(c).category) == None || LumpCategory(prop(c).category) == Some(c))
    }

    // --- composable pairs ---

    predicate HasRow(l: int) { prop(l).combIndex < NO_COMBINATION }

    /** `(l, c)` is listed in the pair table with composite `p`, at row position `k`. */
    predicate ListedAt(l: int, c: int, p: int, k: int) {
      var i := prop(l).combIndex;
      HasRow(l) && i <= k < i + prop(l).combLength && k < |second| && k < |combined|
      && second[k] == c && combined[k] == p
    }

    ghost predicate Listed(l: int, c: int, p: int) {
      exists k :: ListedAt(l, c, p, k)
    }

    /** A row lies within the tables, its second characters ascend, and each of them is marked as one. */
    ghost predicate RowOk(l: int) {
      var i, n := prop(l).combIndex, prop(l).combLength;
      HasRow(l) ==>
        && n > 0 && i + n <= |second| && i + n <= |combined|
        && (forall j, k :: i <= j < k < i + n ==> second[j] < second[k])
        && (forall k :: i <= k < i + n ==> prop(second[k]).combIsSecond)
    }

    /** A composite is the inverse of its own canonical decomposition. */
    ghost predicate CompositeOk(l: int, c: int, p: int) {
      && IsScalar(p) && !IsHangulSyllable(p) && p != 0
      && prop(p).ccc == 0 && prop(p).category != CATEGORY_CN && !prop(p).ignorable
      && prop(p).decompType == 0 && prop(p).decompIndex != NO_SEQUENCE
      && SequenceFits(sequences, prop(p).decompIndex) && SequenceAt(sequences, prop(p).decompIndex) == [l, c]
    }

    ghost predicate CombinationsOk() {
      && (forall l :: RowOk(l))
      && (forall l, c, p :: Listed(l, c, p) ==> CompositeOk(l, c, p))
    }
  }
}
