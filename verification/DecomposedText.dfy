/** What the decomposition of a text is, and with which code a text is refused, said of the text and the tables. */
module DecomposedText {
  import opened Bytes
  import opened CanonicalOrdering
  import opened Composition
  import opened Decomposition
  import opened Mapping
  import opened NormalForms
  import opened Normalization
  import opened OptionEffects
  import opened Sequences
  import opened TextDecomposition
  import opened UnicodeTables
  import opened Utf8

  // ---------- the cells ----------

  ghost predicate AllUntouched(t: Tables, o: Options, cells: seq<int>) {
    forall i :: 0 <= i < |cells| && cells[i] >= 0 ==> Untouched(t, o, cells[i])
  }

  lemma {:induction false} GatherUntouched(t: Tables, custom: int -> int, o: Options, f: CharMap, text: Decoded, state: nat, done: seq<int>)
    requires t.WellFormed() && f == CharMapOf(t, custom, o) && AllUntouched(t, o, done) && Gather(f, text, state, done).Text?
    ensures AllUntouched(t, o, Gather(f, text, state, done).cells)
    decreases |text.cps|
  {
    if text.cps != [] {
      var cp := text.cps[0];
      var d := f(cp, state);
      assert d == DecomposeChar(t, custom(cp), o, state);
      forall i | 0 <= i < |done + d.cells| && (done + d.cells)[i] >= 0
        ensures Untouched(t, o, (done + d.cells)[i])
      {
        if i >= |done| {
          OutputUntouched(t, custom(cp), o, state, d.cells[i - |done|]);
        }
      }
      GatherUntouched(t, custom, o, f, text.(cps := text.cps[1..]), d.state, done + d.cells);
    }
  }

  /** Whatever the options, the cells of a decomposed text are sentinels and characters no option has anything to do with. */
  lemma TextUntouched(t: Tables, text: seq<Byte>, custom: int -> int, o: Options)
    requires t.WellFormed() && DecomposeText(t, text, custom, o).Text?
    ensures AllUntouched(t, o, DecomposeText(t, text, custom, o).cells)
  {
    var f := CharMapOf(t, custom, o);
    GatherUntouched(t, custom, o, f, Decode(text), 0, []);
    var cells := Gather(f, Decode(text), 0, []).cells;
    OrderPermutes(t.Class(), cells);
    var r := Order(t.Class(), cells);
    forall i | 0 <= i < |r| && r[i] >= 0
      ensures Untouched(t, o, r[i])
    {
      assert r[i] in multiset(r);
      assert r[i] in cells;
    }
  }

  /** With COMPOSE or DECOMPOSE the cells are in canonical order; marks of equal class stay in the order of the text. */
  lemma TextIsCanonical(t: Tables, text: seq<Byte>, o: Options)
    requires t.WellFormed() && !o.charbound && DecomposeText(t, text, Identity(), o).Text?
    ensures var cells := DecomposeText(t, text, Identity(), o).cells;
      var images := FlatMap(ImageFn(t, o), Decode(text).cps);
      if o.compose || o.decompose then Ordered(t.Class(), cells) && StableRearrangement(t.Class(), images, cells) else cells == images
  {
    DecomposeTextForward(t, o, text);
    OrderIsUnique(t.Class(), Expanded(t, o, Decode(text).cps), DecomposeText(t, text, Identity(), o).cells);
  }

  /** A custom function is applied to every codepoint before anything else is. */
  lemma {:induction false} CustomFirst(t: Tables, custom: int -> int, o: Options, text: Decoded, given: Decoded, state: nat, done: seq<int>)
    requires t.WellFormed() && given.valid == text.valid && |given.cps| == |text.cps|
    requires forall i :: 0 <= i < |text.cps| ==> given.cps[i] == custom(text.cps[i])
    ensures Gather(CharMapOf(t, custom, o), text, state, done) == Gather(CharMapOf(t, Identity(), o), given, state, done)
    decreases |text.cps|
  {
    if text.cps != [] {
      assert given.cps[0] == custom(text.cps[0]);
      var d := DecomposeChar(t, given.cps[0], o, state);
      if d.Cells? {
        CustomFirst(t, custom, o, text.(cps := text.cps[1..]), given.(cps := given.cps[1..]), d.state, done + d.cells);
      }
    }
  }

  /** So mapping with a custom function is mapping a text whose codepoints it was applied to. */
  lemma CustomText(t: Tables, text: seq<Byte>, custom: int -> int, o: Options, mapped: seq<Byte>)
    requires t.WellFormed() && Decode(mapped).valid == Decode(text).valid && |Decode(mapped).cps| == |Decode(text).cps|
    requires forall i :: 0 <= i < |Decode(text).cps| ==> Decode(mapped).cps[i] == custom(Decode(text).cps[i])
    ensures MapText(t, text, custom, o) == MapText(t, mapped, Identity(), o)
  {
    CustomFirst(t, custom, o, Decode(text), Decode(mapped), 0, []);
  }

  /** With any options: what was gathered from the text is put into canonical order if the text is normalized. */
  lemma TextIsOrdered(t: Tables, text: seq<Byte>, custom: int -> int, o: Options)
    requires t.WellFormed() && DecomposeText(t, text, custom, o).Text?
    ensures var cells, gathered := DecomposeText(t, text, custom, o).cells, Gather(CharMapOf(t, custom, o), Decode(text), 0, []);
      gathered.Text?
      && if o.compose || o.decompose then Ordered(t.Class(), cells) && StableRearrangement(t.Class(), gathered.cells, cells)
         else cells == gathered.cells
  {
    OrderIsUnique(t.Class(), Gather(CharMapOf(t, custom, o), Decode(text), 0, []).cells, DecomposeText(t, text, custom, o).cells);
  }

  /** In a normalized text no mark stands behind one of a higher class. */
  lemma ClassesAscend(t: Tables, text: seq<Byte>, custom: int -> int, o: Options, i: nat)
    requires t.WellFormed() && DecomposeText(t, text, custom, o).Text? && (o.compose || o.decompose)
    requires i + 1 < |DecomposeText(t, text, custom, o).cells|
    ensures var x, y := DecomposeText(t, text, custom, o).cells[i], DecomposeText(t, text, custom, o).cells[i + 1];
      x >= 0 && y >= 0 ==> t.prop(x).ccc <= t.prop(y).ccc || t.prop(y).ccc == 0
  {
    TextIsOrdered(t, text, custom, o);
  }

  /** The stages behind that: line breaks and controls, composition, and encoding, each with its own options. */
  lemma MapStages(t: Tables, text: seq<Byte>, custom: int -> int, o: Options)
    requires t.WellFormed()
    ensures var d := DecomposeText(t, text, custom, o);
      if d.TextError? then MapText(t, text, custom, o) == Err(d.code)
      else
        var lines := if o.nlf2ls || o.nlf2ps || o.stripcc then ConvertFrom(d.cells, o, 0) else d.cells;
        var result := if o.compose then Compose(t, lines) else lines;
        MapText(t, text, custom, o) == Ok(FlatMap(if o.charbound then CharboundEncodeChar else EncodeChar, result))
  {
  }

  // ---------- the errors ----------

  /** COMPOSE excludes DECOMPOSE, and STRIPMARK needs one of them; otherwise every text is refused with -5. */
  lemma OptionsRefused(t: Tables, text: seq<Byte>, custom: int -> int, o: Options)
    requires t.WellFormed()
    ensures (o.compose && o.decompose) || (o.stripmark && !o.compose && !o.decompose) ==> DecomposeText(t, text, custom, o) == TextError(-5)
    ensures DecomposeText(t, text, custom, o) == TextError(-5) ==> (o.compose && o.decompose) || (o.stripmark && !o.compose && !o.decompose)
  {
    if !BadOptions(o) {
      CharMapErrors(t, custom, o);
      GatherErrors(CharMapOf(t, custom, o), Decode(text), 0, []);
    }
  }

  /** Characters that are accepted and fit only add their cells. */
  lemma {:induction false} GatherPrefix(f: CharMap, g: int -> seq<int>, ok: int -> bool, text: Decoded, state: nat, done: seq<int>, k: nat)
    requires Stateless(f, g, ok) && k <= |text.cps| && AllOk(ok, text.cps[..k]) && |done| + |FlatMap(g, text.cps[..k])| <= MAX_CELLS
    ensures Gather(f, text, state, done) == Gather(f, text.(cps := text.cps[k..]), state, done + FlatMap(g, text.cps[..k]))
    decreases k
  {
    if k == 0 {
      assert text.cps[0..] == text.cps && done + FlatMap(g, []) == done;
    } else {
      var cp, rest := text.cps[0], text.(cps := text.cps[1..]);
      assert text.cps[..k] == [cp] + rest.cps[..k - 1] && rest.cps[k - 1..] == text.cps[k..];
      FlatMapCons(g, cp, rest.cps[..k - 1]);
      assert ok(text.cps[..k][0]);
      GatherPrefix(f, g, ok, rest, state, done + g(cp), k - 1);
      assert done + g(cp) + FlatMap(g, rest.cps[..k - 1]) == done + FlatMap(g, text.cps[..k]);
    }
  }

  /** The text up to its `k`-th codepoint gives no cause to refuse it. */
  ghost predicate FineUpTo(t: Tables, o: Options, cps: seq<int>, k: nat)
    requires t.WellFormed() && k <= |cps|
  {
    !BadOptions(o) && AllOk(AcceptFn(t, o), cps[..k]) && |FlatMap(ImageFn(t, o), cps[..k])| <= MAX_CELLS
  }

  lemma TextFrom(t: Tables, text: seq<Byte>, o: Options, k: nat)
    requires t.WellFormed() && !o.charbound && k <= |Decode(text).cps| && FineUpTo(t, o, Decode(text).cps, k)
    ensures var d := Decode(text);
      var rest := Gather(CharMapOf(t, Identity(), o), d.(cps := d.cps[k..]), 0, FlatMap(ImageFn(t, o), d.cps[..k]));
      rest.TextError? ==> DecomposeText(t, text, Identity(), o) == rest
  {
    var d := Decode(text);
    CharMapStateless(t, o);
    GatherPrefix(CharMapOf(t, Identity(), o), ImageFn(t, o), AcceptFn(t, o), d, 0, [], k);
    assert [] + FlatMap(ImageFn(t, o), d.cps[..k]) == FlatMap(ImageFn(t, o), d.cps[..k]);
  }

  /** The first fault of a text decides: ill-formed UTF-8 is -3. */
  lemma IllFormedRefused(t: Tables, text: seq<Byte>, o: Options)
    requires t.WellFormed() && !o.charbound && !WellFormedUtf8(text) && FineUpTo(t, o, Decode(text).cps, |Decode(text).cps|)
    ensures DecomposeText(t, text, Identity(), o) == TextError(-3)
  {
    DecodableIffWellFormed(text);
    DecodeIsDecodeAll(text);
    TextFrom(t, text, o, |Decode(text).cps|);
  }

  /** A character that is not assigned, if that is to be reported, is -4. */
  lemma UnassignedRefused(t: Tables, text: seq<Byte>, o: Options, k: nat)
    requires t.WellFormed() && !o.charbound && o.rejectna && k < |Decode(text).cps| && FineUpTo(t, o, Decode(text).cps, k)
    requires var cp := Decode(text).cps[k]; t.prop(cp).category == CATEGORY_CN && !TakenApart(o, cp)
    ensures DecomposeText(t, text, Identity(), o) == TextError(-4)
  {
    var d := Decode(text);
    TextFrom(t, text, o, k);
    assert d.cps[k..][0] == d.cps[k];
    RefusedIff(t, d.cps[k], o, 0);
    FailsIffRejected(t, d.cps[k], o, 0);
  }

  /** A result that gets too long is -2. */
  lemma TooLongRefused(t: Tables, text: seq<Byte>, o: Options, k: nat)
    requires t.WellFormed() && !o.charbound && k < |Decode(text).cps| && FineUpTo(t, o, Decode(text).cps, k)
    requires AcceptFn(t, o)(Decode(text).cps[k]) && |FlatMap(ImageFn(t, o), Decode(text).cps[..k + 1])| > 0x0FFF_FFFF_FFFF_FFFF
    ensures DecomposeText(t, text, Identity(), o) == TextError(-2)
  {
    var d, g := Decode(text), ImageFn(t, o);
    TextFrom(t, text, o, k);
    CharMapStateless(t, o);
    assert d.cps[k..][0] == d.cps[k] && d.cps[..k + 1] == d.cps[..k] + [d.cps[k]];
    FlatMapSnoc(g, d.cps[..k], d.cps[k]);
  }
}
