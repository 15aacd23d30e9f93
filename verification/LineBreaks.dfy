/**
 * Mapping its own output when line breaks are converted or controls stripped. Converting line breaks keeps mapping
 * idempotent. Stripping controls happens after the marks were ordered, so it can bring marks together that are out
 * of order; mapping is idempotent exactly when it does not.
 */
module LineBreaks {
  import opened Bytes
  import opened CanonicalOrdering
  import opened Composition
  import opened Decomposition
  import opened Mapping
  import opened NormalForms
  import opened Normalization
  import opened TextDecomposition
  import opened UnicodeTables
  import opened Utf8

  /** The characters STRIPCC is about. */
  predicate IsControl(c: int) {
    0 <= c < 0x20 || 0x7F <= c < 0xA0
  }

  /** Facts about the tables: no control is a mark, and what line breaks are converted to is left alone. */
  ghost predicate LinesOk(t: Tables) {
    && (forall c :: IsControl(c) ==> t.prop(c).ccc == 0)
    && (forall c :: c == 0x20 || c == 0x2028 || c == 0x2029 ==> t.Inert(c) && t.prop(c).ccc == 0)
    && t.prop(0x2028).category == CATEGORY_ZL && t.prop(0x2029).category == CATEGORY_ZP
  }

  // ---------- what conversion does ----------

  /** What NLF2LS and NLF2PS make of a line break; with STRIPCC alone it is a space. */
  function BreakOf(ls: bool, ps: bool): int {
    match (ls, ps)
    case (true, true) => 0x0A
    case (true, false) => 0x2028
    case (false, true) => 0x2029
    case (false, false) => 0x20
  }

  /** CR LF is one line break, and CR without LF, LF and U+0085 are one each; STRIPCC adds U+000B and U+000C. */
  lemma BreaksConverted(s: seq<int>, o: Options, i: nat)
    requires i < |s|
    ensures s[i] == 0x0D && i + 1 < |s| && s[i + 1] == 0x0A ==> ConvertFrom(s, o, i) == [BreakOf(o.nlf2ls, o.nlf2ps)] + ConvertFrom(s, o, i + 2)
    ensures s[i] == 0x0D && !(i + 1 < |s| && s[i + 1] == 0x0A) ==> ConvertFrom(s, o, i) == [BreakOf(o.nlf2ls, o.nlf2ps)] + ConvertFrom(s, o, i + 1)
    ensures s[i] == 0x0A || s[i] == 0x85 ==> ConvertFrom(s, o, i) == [BreakOf(o.nlf2ls, o.nlf2ps)] + ConvertFrom(s, o, i + 1)
    ensures o.stripcc && (s[i] == 0x0B || s[i] == 0x0C) ==> ConvertFrom(s, o, i) == [BreakOf(o.nlf2ls, o.nlf2ps)] + ConvertFrom(s, o, i + 1)
  {
  }

  /** STRIPCC makes a tab a space and drops the other controls and sentinels; everything else is kept. */
  lemma OthersConverted(s: seq<int>, o: Options, i: nat)
    requires i < |s| && s[i] !in {0x0A, 0x0D, 0x85} && (o.stripcc ==> s[i] != 0x0B && s[i] != 0x0C)
    ensures o.stripcc && s[i] == 0x09 ==> ConvertFrom(s, o, i) == [0x20] + ConvertFrom(s, o, i + 1)
    ensures o.stripcc && s[i] != 0x09 && (s[i] < 0 || IsControl(s[i])) ==> ConvertFrom(s, o, i) == ConvertFrom(s, o, i + 1)
    ensures !o.stripcc || (s[i] >= 0 && !IsControl(s[i])) ==> ConvertFrom(s, o, i) == [s[i]] + ConvertFrom(s, o, i + 1)
  {
    assert [] + ConvertFrom(s, o, i + 1) == ConvertFrom(s, o, i + 1);
  }

  /** The conversion is made exactly if one of the three options is set. */
  lemma ConvertIf(s: seq<int>, o: Options)
    ensures Convert(s, o) == if o.nlf2ls || o.nlf2ps || o.stripcc then ConvertFrom(s, o, 0) else s
  {
  }

  // ---------- what conversion leaves ----------

  /** Cells that a further conversion leaves as they are. */
  ghost predicate Clean(o: Options, s: seq<int>) {
    forall i :: 0 <= i < |s| ==> s[i] != 0x0D && Converted(s[i], o) == [s[i]]
  }

  lemma {:induction false} CleanFrom(o: Options, s: seq<int>, i: nat)
    requires Clean(o, s) && i <= |s|
    ensures ConvertFrom(s, o, i) == s[i..]
    decreases |s| - i
  {
    if i < |s| {
      CleanFrom(o, s, i + 1);
    }
  }

  lemma CleanFixed(o: Options, s: seq<int>)
    requires ConvertsLines(o) ==> Clean(o, s)
    ensures Convert(s, o) == s
  {
    if ConvertsLines(o) {
      CleanFrom(o, s, 0);
    }
  }

  lemma ConvertedClean(o: Options, c: int)
    requires ConvertsLines(o)
    ensures Clean(o, Converted(c, o))
  {
  }

  /** What conversion leaves is clean, and is from the text or a line break or a space. */
  lemma {:induction false} ConvertLeaves(o: Options, s: seq<int>, i: nat)
    requires ConvertsLines(o) && i <= |s|
    ensures Clean(o, ConvertFrom(s, o, i)) && |ConvertFrom(s, o, i)| <= |s| - i
    ensures forall k :: 0 <= k < |ConvertFrom(s, o, i)| ==>
      ConvertFrom(s, o, i)[k] in s || ConvertFrom(s, o, i)[k] == LineBreak(o) || ConvertFrom(s, o, i)[k] == 0x20
    decreases |s| - i
  {
    if i < |s| {
      ConvertLeaves(o, s, i + Width(s, i));
      ConvertedClean(o, s[i]);
    }
  }

  /** The characters conversion puts in are left alone by the options that put them in. */
  lemma LineBreakFixed(t: Tables, o: Options, c: int)
    requires t.WellFormed() && LinesOk(t) && !o.charbound && ConvertsLines(o) && (c == LineBreak(o) || c == 0x20)
    ensures IsScalar(c) && Fixed(t, o, c) && t.Class()(c) == 0
  {
    if c == 0x2028 || c == 0x2029 {
      InertFixed(t, o, c);
    } else {
      LumpTargetStable(t, o, c);
      if o.lump && t.LumpTarget(c, o).Some? {
        LumpTargetFixed(t, o, c);
      } else {
        InertFixed(t, o, c);
      }
    }
  }

  lemma ConvertSettled(t: Tables, o: Options, x: seq<int>)
    requires t.WellFormed() && LinesOk(t) && !o.charbound && Settled(t, o, x)
    ensures Settled(t, o, Convert(x, o)) && |Convert(x, o)| <= |x|
    ensures ConvertsLines(o) ==> Clean(o, Convert(x, o))
  {
    if ConvertsLines(o) {
      ConvertLeaves(o, x, 0);
      var c := Convert(x, o);
      forall k | 0 <= k < |c|
        ensures IsScalar(c[k]) && Fixed(t, o, c[k])
      {
        if c[k] !in x {
          LineBreakFixed(t, o, c[k]);
        }
      }
    }
  }

  // ---------- marks that stripping brings together ----------

  predicate Stripped(o: Options, c: int) {
    Converted(c, o) == []
  }

  /** All cells from `i` up to `j` are stripped. */
  ghost predicate AllStripped(o: Options, s: seq<int>, i: nat, j: nat)
    requires j <= |s|
  {
    forall k :: i <= k < j ==> Stripped(o, s[k])
  }

  /** From `i` on, no two marks that are out of order are separated by nothing but stripped controls. */
  ghost predicate KeptApart(ccc: int -> nat, o: Options, s: seq<int>, i: nat) {
    forall a, b :: i <= a < b < |s| && Reorderable(ccc, s[a], s[b]) ==> !AllStripped(o, s, a + 1, b)
  }

  /** What conversion does to classes: starters stay starters, and marks stay themselves. */
  ghost predicate Respects(ccc: int -> nat, o: Options) {
    forall c :: (ccc(c) > 0 ==> Converted(c, o) == [c]) && (ccc(c) == 0 && Converted(c, o) != [] ==> ccc(Converted(c, o)[0]) == 0)
  }

  lemma TablesRespect(t: Tables, o: Options)
    requires t.WellFormed() && LinesOk(t) && !o.charbound && ConvertsLines(o)
    ensures Respects(t.Class(), o)
  {
    LineBreakFixed(t, o, LineBreak(o));
    LineBreakFixed(t, o, 0x20);
    forall c
      ensures t.Class()(c) > 0 ==> Converted(c, o) == [c]
      ensures t.Class()(c) == 0 && Converted(c, o) != [] ==> t.Class()(Converted(c, o)[0]) == 0
    {
      assert t.Class()(c) > 0 ==> !IsControl(c) && c >= 0;
    }
  }

  /** The first cell left comes from the first one that is not stripped. */
  lemma {:induction false} FirstLeft(o: Options, s: seq<int>, i: nat) returns (f: nat)
    requires i <= |s|
    ensures i <= f <= |s| && AllStripped(o, s, i, f)
    ensures ConvertFrom(s, o, i) == [] <==> f == |s|
    ensures f < |s| ==> !Stripped(o, s[f]) && ConvertFrom(s, o, i)[0] == Converted(s[f], o)[0]
    decreases |s| - i
  {
    if i == |s| || !Stripped(o, s[i]) {
      f := i;
    } else {
      f := FirstLeft(o, s, i + 1);
    }
  }

  lemma OrderedCons(ccc: int -> nat, v: int, r: seq<int>)
    ensures Ordered(ccc, [v] + r) <==> Ordered(ccc, r) && (r == [] || !Reorderable(ccc, v, r[0]))
  {
    var s := [v] + r;
    if Ordered(ccc, r) && (r == [] || !Reorderable(ccc, v, r[0])) {
      forall i | 0 <= i < |s| - 1
        ensures !Reorderable(ccc, s[i], s[i + 1])
      {
        assert i > 0 ==> s[i] == r[i - 1] && s[i + 1] == r[i];
      }
    }
    if Ordered(ccc, s) {
      forall i | 0 <= i < |r| - 1
        ensures !Reorderable(ccc, r[i], r[i + 1])
      {
        assert r[i] == s[i + 1] && r[i + 1] == s[i + 2];
      }
      assert r != [] ==> s[0] == v && s[1] == r[0];
    }
  }

  /** Starters in front do not matter. */
  lemma ApartSkips(ccc: int -> nat, o: Options, s: seq<int>, i: nat, j: nat)
    requires i <= j <= |s| && forall k :: i <= k < j ==> ccc(s[k]) == 0
    ensures KeptApart(ccc, o, s, i) <==> KeptApart(ccc, o, s, j)
  {
  }

  /** The mark at `i` is kept apart from every later one it is out of order with. */
  ghost predicate MarkApart(ccc: int -> nat, o: Options, s: seq<int>, i: nat)
    requires i < |s|
  {
    forall b :: i < b < |s| && Reorderable(ccc, s[i], s[b]) ==> !AllStripped(o, s, i + 1, b)
  }

  lemma ApartSplit(ccc: int -> nat, o: Options, s: seq<int>, i: nat)
    requires i < |s|
    ensures KeptApart(ccc, o, s, i) <==> MarkApart(ccc, o, s, i) && KeptApart(ccc, o, s, i + 1)
  {
  }

  /** A mark is out of order with the first cell left behind it exactly if controls alone kept it apart. */
  lemma MarkApartIff(ccc: int -> nat, o: Options, s: seq<int>, i: nat)
    requires Respects(ccc, o) && i < |s| && ccc(s[i]) > 0
    ensures var r := ConvertFrom(s, o, i + 1);
      MarkApart(ccc, o, s, i) <==> (r == [] || !Reorderable(ccc, s[i], r[0]))
  {
    var f := FirstLeft(o, s, i + 1);
    forall b | i < b < |s| && Reorderable(ccc, s[i], s[b])
      ensures AllStripped(o, s, i + 1, b) <==> b == f
    {
      assert !Stripped(o, s[b]);
    }
  }

  lemma OrderedMark(ccc: int -> nat, o: Options, s: seq<int>, i: nat)
    requires Respects(ccc, o) && i < |s| && ccc(s[i]) > 0
    requires Ordered(ccc, ConvertFrom(s, o, i + 1)) <==> KeptApart(ccc, o, s, i + 1)
    ensures Ordered(ccc, ConvertFrom(s, o, i)) <==> KeptApart(ccc, o, s, i)
  {
    assert s[i] != 0x0D && ConvertFrom(s, o, i) == [s[i]] + ConvertFrom(s, o, i + 1);
    OrderedCons(ccc, s[i], ConvertFrom(s, o, i + 1));
    MarkApartIff(ccc, o, s, i);
    ApartSplit(ccc, o, s, i);
  }

  lemma OrderedStarter(ccc: int -> nat, o: Options, s: seq<int>, i: nat, j: nat)
    requires Respects(ccc, o) && i < |s| && ccc(s[i]) == 0 && j == i + Width(s, i)
    requires Ordered(ccc, ConvertFrom(s, o, j)) <==> KeptApart(ccc, o, s, j)
    ensures Ordered(ccc, ConvertFrom(s, o, i)) <==> KeptApart(ccc, o, s, i)
  {
    var v, r := Converted(s[i], o), ConvertFrom(s, o, j);
    assert ConvertFrom(s, o, i) == v + r;
    ApartSkips(ccc, o, s, i, j);
    if v == [] {
      assert v + r == r;
    } else {
      assert v == [v[0]];
      OrderedCons(ccc, v[0], r);
    }
  }

  /** The cells left are in canonical order exactly when marks out of order are kept apart. */
  lemma {:induction false} OrderedIffApart(ccc: int -> nat, o: Options, s: seq<int>, i: nat)
    requires Respects(ccc, o) && i <= |s|
    ensures Ordered(ccc, ConvertFrom(s, o, i)) <==> KeptApart(ccc, o, s, i)
    decreases |s| - i
  {
    if i < |s| {
      var j := i + Width(s, i);
      OrderedIffApart(ccc, o, s, j);
      if ccc(s[i]) > 0 {
        assert j == i + 1;
        OrderedMark(ccc, o, s, i);
      } else {
        OrderedStarter(ccc, o, s, i, j);
      }
    }
  }

  // ---------- idempotence ----------

  /** Without STRIPCC nothing is stripped, so ordered cells have no marks to bring together. */
  lemma ApartWithoutStripping(ccc: int -> nat, o: Options, s: seq<int>)
    requires !o.stripcc && Ordered(ccc, s)
    ensures KeptApart(ccc, o, s, 0)
  {
    forall a, b | 0 <= a < b < |s| && Reorderable(ccc, s[a], s[b])
      ensures !AllStripped(o, s, a + 1, b)
    {
      assert b > a + 1;
      assert !Stripped(o, s[a + 1]);
    }
  }

  lemma EncodeInjective(a: seq<int>, b: seq<int>)
    requires AllScalar(a) && AllScalar(b)
    ensures EncodeAll(a) == EncodeAll(b) <==> a == b
  {
    DecodeEncodeAll(a);
    DecodeEncodeAll(b);
  }

  /** Ordering keeps the cells, so it keeps them clean. */
  lemma ArrangedClean(t: Tables, o: Options, c: seq<int>)
    requires ConvertsLines(o) ==> Clean(o, c)
    ensures Convert(Arranged(t, o, c), o) == Arranged(t, o, c)
  {
    OrderPermutes(t.Class(), c);
    var r := Order(t.Class(), c);
    forall i | ConvertsLines(o) && 0 <= i < |r|
      ensures r[i] != 0x0D && Converted(r[i], o) == [r[i]]
    {
      assert r[i] in multiset(r);
      assert r[i] in c;
    }
    CleanFixed(o, r);
    CleanFixed(o, c);
  }

  /** Without COMPOSE, mapping the output orders what conversion left. */
  lemma MapAgain(t: Tables, o: Options, text: seq<Byte>) returns (x: seq<int>)
    requires t.WellFormed() && LinesOk(t) && !o.charbound && !o.compose && Map(t, text, o).Ok?
    ensures DecomposeText(t, text, Identity(), o) == Text(x) && Arranged(t, o, x) == x
    ensures AllScalar(Convert(x, o)) && AllScalar(Arranged(t, o, Convert(x, o)))
    ensures Map(t, text, o) == Ok(EncodeAll(Convert(x, o)))
    ensures Map(t, Map(t, text, o).bytes, o) == Ok(EncodeAll(Arranged(t, o, Convert(x, o))))
  {
    x := MapFacts(t, o, text);
    ConvertSettled(t, o, x);
    var c := Convert(x, o);
    SettledExpanded(t, o, c);
    ArrangedSettled(t, o, c);
    ArrangedClean(t, o, c);
    MapEncoded(t, o, c, Arranged(t, o, c));
  }

  /** Whether the cells of `x`, in canonical order, still are after conversion. */
  lemma ConvertOrderedIff(t: Tables, o: Options, x: seq<int>)
    requires t.WellFormed() && LinesOk(t) && !o.charbound && Ordered(t.Class(), x)
    ensures Ordered(t.Class(), Convert(x, o)) <==> KeptApart(t.Class(), o, x, 0)
  {
    if ConvertsLines(o) {
      TablesRespect(t, o);
      OrderedIffApart(t.Class(), o, x, 0);
    } else {
      ApartWithoutStripping(t.Class(), o, x);
    }
  }

  /**
   * Without COMPOSE, mapping its own output returns the same bytes exactly when it does not decompose or the
   * decomposed text has no two marks out of order with nothing but stripped controls between them.
   */
  lemma MapIdempotentIff(t: Tables, o: Options, text: seq<Byte>)
    requires t.WellFormed() && LinesOk(t) && !o.charbound && !o.compose && Map(t, text, o).Ok?
    ensures DecomposeText(t, text, Identity(), o).Text?
    ensures Map(t, Map(t, text, o).bytes, o) == Map(t, text, o)
      <==> (!o.decompose || KeptApart(t.Class(), o, DecomposeText(t, text, Identity(), o).cells, 0))
  {
    var x := MapAgain(t, o, text);
    var c, ccc := Convert(x, o), t.Class();
    EncodeInjective(Arranged(t, o, c), c);
    if o.decompose {
      OrderOrdered(ccc, x);
      ConvertOrderedIff(t, o, x);
      OrderOrdered(ccc, c);
      if Ordered(ccc, c) {
        OrderedFixed(ccc, c);
      }
    }
  }

  /** With COMPOSE, mapping the output composes what conversion left in canonical order. */
  lemma MapComposedAgain(t: Tables, o: Options, text: seq<Byte>) returns (x: seq<int>)
    requires t.WellFormed() && LinesOk(t) && !o.charbound && o.compose && Transparent(t, o) && Map(t, text, o).Ok?
    ensures DecomposeText(t, text, Identity(), o) == Text(x)
    ensures AllScalar(Compose(t, Convert(x, o))) && AllScalar(Compose(t, Order(t.Class(), Convert(x, o))))
    ensures Map(t, text, o) == Ok(EncodeAll(Compose(t, Convert(x, o))))
    ensures Map(t, Map(t, text, o).bytes, o) == Ok(EncodeAll(Compose(t, Order(t.Class(), Convert(x, o)))))
    ensures Ordered(t.Class(), x)
  {
    x := MapFacts(t, o, text);
    OrderOrdered(t.Class(), x);
    ConvertSettled(t, o, x);
    var c := Convert(x, o);
    var r := Order(t.Class(), c);
    SettledExpanded(t, o, c);
    ComposePreserves(t, o, c);
    ComposeAccepted(t, o, c);
    ArrangedSettled(t, o, c);
    SettledExpanded(t, o, r);
    ComposeAccepted(t, o, r);
    ArrangedClean(t, o, c);
    MapEncoded(t, o, Compose(t, c), r);
  }

  /**
   * With COMPOSE, mapping its own output returns the same bytes exactly when composing what conversion leaves and
   * composing it in canonical order give the same; in particular when no marks out of order come together.
   */
  lemma MapIdempotentComposed(t: Tables, o: Options, text: seq<Byte>)
    requires t.WellFormed() && LinesOk(t) && !o.charbound && o.compose && Transparent(t, o) && Map(t, text, o).Ok?
    ensures DecomposeText(t, text, Identity(), o).Text?
    ensures var x := DecomposeText(t, text, Identity(), o).cells;
      Map(t, Map(t, text, o).bytes, o) == Map(t, text, o)
      <==> Compose(t, Order(t.Class(), Convert(x, o))) == Compose(t, Convert(x, o))
    ensures var x := DecomposeText(t, text, Identity(), o).cells;
      KeptApart(t.Class(), o, x, 0) ==> Map(t, Map(t, text, o).bytes, o) == Map(t, text, o)
  {
    var x := MapComposedAgain(t, o, text);
    var c := Convert(x, o);
    EncodeInjective(Compose(t, Order(t.Class(), c)), Compose(t, c));
    ConvertOrderedIff(t, o, x);
    if Ordered(t.Class(), c) {
      OrderedFixed(t.Class(), c);
    }
  }

  /** Converting line breaks keeps mapping idempotent, for every text and every option set without CHARBOUND and STRIPCC. */
  lemma LineBreaksIdempotent(t: Tables, o: Options, text: seq<Byte>)
    requires t.WellFormed() && LinesOk(t) && !o.charbound && !o.stripcc && (o.compose ==> Transparent(t, o))
    requires Map(t, text, o).Ok?
    ensures Map(t, Map(t, text, o).bytes, o) == Map(t, text, o)
  {
    var x := MapFacts(t, o, text);
    if Normalizing(o) {
      OrderOrdered(t.Class(), x);
      ApartWithoutStripping(t.Class(), o, x);
    }
    if o.compose {
      MapIdempotentComposed(t, o, text);
    } else {
      MapIdempotentIff(t, o, text);
    }
  }

  /** Settled, ordered cells are what their own encoding decomposes to. */
  lemma SettledText(t: Tables, o: Options, x: seq<int>)
    requires t.WellFormed() && !o.charbound && !BadOptions(o) && Settled(t, o, x) && Ordered(t.Class(), x) && |x| <= MAX_CELLS
    ensures DecomposeText(t, EncodeAll(x), Identity(), o) == Text(x)
  {
    SettledExpanded(t, o, x);
    OrderedFixed(t.Class(), x);
    DecomposeTextBackward(t, o, x);
  }

  /** With DECOMPOSE and STRIPCC, a control between marks that are out of order makes mapping its own output change it. */
  lemma StrippingChanges(t: Tables, o: Options, a: int, m: int, c: int, n: int)
    requires t.WellFormed() && LinesOk(t) && !o.charbound && !BadOptions(o) && o.decompose && !o.compose
    requires Settled(t, o, [a, m, c, n]) && Stripped(o, c)
    requires t.Class()(a) == 0 && t.Class()(c) == 0 && t.Class()(m) > t.Class()(n) > 0
    ensures var first := Map(t, EncodeAll([a, m, c, n]), o);
      first.Ok? && Map(t, first.bytes, o) != first
  {
    var x := [a, m, c, n];
    SettledText(t, o, x);
    assert Reorderable(t.Class(), x[1], x[3]) && AllStripped(o, x, 2, 3);
    MapIdempotentIff(t, o, EncodeAll(x));
  }

  /** A starter that composes with neither of two marks keeps them. */
  lemma ComposeKeeps(t: Tables, a: int, m: int, n: int)
    requires a >= 0 && m >= 0 && n >= 0 && t.Class()(a) == 0 && t.Class()(m) > 0 && t.Class()(n) > 0
    requires Composite(t, a, m) == None && Composite(t, a, n) == None
    ensures Compose(t, [a, m, n]) == [a, m, n]
  {
    ComposeSnoc(t, [], a);
    ComposeSnoc(t, [a], m);
    ComposeSnoc(t, [a, m], n);
    assert [a] + [m] == [a, m] && [a, m] + [n] == [a, m, n] && [] + [a] == [a];
    assert LastStarter(t.Class(), [a]) == 0 && LastStarter(t.Class(), [a, m][..1]) == 0;
    assert [a, m][..1] == [a];
  }

  lemma OrderThree(ccc: int -> nat, a: int, m: int, n: int)
    requires ccc(a) == 0 && Reorderable(ccc, m, n)
    ensures Order(ccc, [a, m, n]) == [a, n, m]
  {
    OrderSwap(ccc, [a], m, n, []);
    assert [a] + [m, n] + [] == [a, m, n] && [a] + [n, m] + [] == [a, n, m];
    OrderedFixed(ccc, [a, n, m]);
  }

  lemma ConvertFour(o: Options, a: int, m: int, c: int, n: int)
    requires ConvertsLines(o) && Stripped(o, c) && Clean(o, [a, m, n])
    ensures Convert([a, m, c, n], o) == [a, m, n]
  {
    var x, k := [a, m, c, n], [a, m, n];
    assert k[0] == a && k[1] == m && k[2] == n;
    assert c != 0x0D;
    assert ConvertFrom(x, o, 3) == [n] + ConvertFrom(x, o, 4);
    assert ConvertFrom(x, o, 2) == [] + ConvertFrom(x, o, 3);
    assert ConvertFrom(x, o, 1) == [m] + ConvertFrom(x, o, 2);
  }

  /** With COMPOSE and STRIPCC such a control has the same effect, if the letter composes with neither mark. */
  lemma StrippingChangesComposed(t: Tables, o: Options, a: int, m: int, c: int, n: int)
    requires t.WellFormed() && LinesOk(t) && !o.charbound && !BadOptions(o) && o.compose && Transparent(t, o)
    requires Settled(t, o, [a, m, c, n]) && Stripped(o, c) && Clean(o, [a, m, n])
    requires t.Class()(a) == 0 && t.Class()(c) == 0 && t.Class()(m) > t.Class()(n) > 0
    requires Composite(t, a, m) == None && Composite(t, a, n) == None
    ensures var first := Map(t, EncodeAll([a, m, c, n]), o);
      first.Ok? && Map(t, first.bytes, o) != first
  {
    var x := [a, m, c, n];
    SettledText(t, o, x);
    ConvertFour(o, a, m, c, n);
    assert IsScalar(x[0]) && IsScalar(x[1]) && IsScalar(x[3]);
    ComposeKeeps(t, a, m, n);
    ComposeKeeps(t, a, n, m);
    OrderThree(t.Class(), a, m, n);
    assert [a, n, m][1] != [a, m, n][1];
    MapIdempotentComposed(t, o, EncodeAll(x));
  }
}
