/** What mapping promises for whole byte strings: idempotence, and how the normal forms relate. */
module NormalForms {
  import opened Bytes
  import opened CanonicalOrdering
  import opened Composition
  import opened Decomposition
  import opened Mapping
  import opened Normalization
  import opened Sequences
  import opened TextDecomposition
  import opened UnicodeTables
  import opened Utf8

  function Identity(): int -> int { (c: int) => c }

  /** `utf8proc_map`: no custom function. */
  ghost function Map(t: Tables, text: seq<Byte>, o: Options): Mapped
    requires t.WellFormed()
  {
    MapText(t, text, Identity(), o)
  }

  /** Options under which a character's image does not depend on its neighbours and lines are kept. */
  predicate Contextless(o: Options) {
    !o.charbound && !ConvertsLines(o)
  }

  // ---------- gathering without a boundary state is a concatenation ----------

  /** The cells of all codepoints. */
  ghost function Expanded(t: Tables, o: Options, cps: seq<int>): seq<int>
    requires t.WellFormed()
  {
    FlatMap(ImageFn(t, o), cps)
  }

  /** `f` turns each codepoint into its image `g` and leaves the state alone, or rejects it. */
  ghost predicate Stateless(f: CharMap, g: int -> seq<int>, ok: int -> bool) {
    forall cp, state: nat :: (f(cp, state).Cells? <==> ok(cp)) && (ok(cp) ==> f(cp, state) == Cells(g(cp), state))
  }

  ghost predicate AllOk(ok: int -> bool, cps: seq<int>) {
    forall i :: 0 <= i < |cps| ==> ok(cps[i])
  }

  lemma {:induction false} GatherForward(f: CharMap, g: int -> seq<int>, ok: int -> bool, text: Decoded, state: nat, done: seq<int>)
    requires Stateless(f, g, ok) && |done| <= MAX_CELLS && Gather(f, text, state, done).Text?
    ensures text.valid && AllOk(ok, text.cps) && |done| + |FlatMap(g, text.cps)| <= MAX_CELLS
    ensures Gather(f, text, state, done) == Text(done + FlatMap(g, text.cps))
    decreases |text.cps|
  {
    if text.cps == [] {
      assert done + FlatMap(g, text.cps) == done;
    } else {
      var cp, rest := text.cps[0], text.(cps := text.cps[1..]);
      assert f(cp, state).Cells?;
      GatherForward(f, g, ok, rest, state, done + g(cp));
      assert done + g(cp) + FlatMap(g, rest.cps) == done + (g(cp) + FlatMap(g, rest.cps));
    }
  }

  lemma {:induction false} GatherBackward(f: CharMap, g: int -> seq<int>, ok: int -> bool, cps: seq<int>, state: nat, done: seq<int>)
    requires Stateless(f, g, ok) && AllOk(ok, cps) && |done| + |FlatMap(g, cps)| <= MAX_CELLS
    ensures Gather(f, Decoded(cps, true), state, done) == Text(done + FlatMap(g, cps))
    decreases |cps|
  {
    if cps == [] {
      assert done + FlatMap(g, cps) == done;
    } else {
      var cp := cps[0];
      assert ok(cp) && f(cp, state) == Cells(g(cp), state);
      assert done + g(cp) + FlatMap(g, cps[1..]) == done + (g(cp) + FlatMap(g, cps[1..]));
      GatherBackward(f, g, ok, cps[1..], state, done + g(cp));
    }
  }

  ghost function AcceptFn(t: Tables, o: Options): int -> bool
    requires t.WellFormed()
  {
    (cp: int) => DecomposeChar(t, cp, o, 0).Cells?
  }

  lemma CharMapStateless(t: Tables, o: Options)
    requires t.WellFormed() && !o.charbound
    ensures Stateless(CharMapOf(t, Identity(), o), ImageFn(t, o), AcceptFn(t, o))
  {
    forall cp, state: nat {
      StateCarried(t, cp, o, state);
    }
  }

  // ---------- bytes and codepoints ----------

  lemma {:induction false} DecodeIsDecodeAll(text: seq<Byte>)
    ensures Decode(text).valid <==> DecodeAll(text).Some?
    ensures Decode(text).valid ==> DecodeAll(text) == Some(Decode(text).cps)
    decreases |text|
  {
    IterateResult(text);
    FetchTextResult(text);
    var next := FetchText(text);
    if next.Char? {
      DecodeIsDecodeAll(text[next.len..]);
    }
  }

  lemma DecodeEncodedText(cps: seq<int>)
    requires AllScalar(cps)
    ensures Decode(EncodeAll(cps)) == Decoded(cps, true)
  {
    DecodeEncodeAll(cps);
    DecodeIsDecodeAll(EncodeAll(cps));
  }

  // ---------- decomposing a text, in terms of codepoints ----------

  /** The cells in the order in which `utf8proc_decompose` leaves them. */
  ghost function Arranged(t: Tables, o: Options, cells: seq<int>): seq<int> {
    if Normalizing(o) then Order(t.Class(), cells) else cells
  }

  /** A text decomposes exactly if it is valid, nothing in it is rejected and the result is not too long. */
  lemma DecomposeTextForward(t: Tables, o: Options, text: seq<Byte>)
    requires t.WellFormed() && !o.charbound && DecomposeText(t, text, Identity(), o).Text?
    ensures !BadOptions(o)
    ensures var cps := Decode(text).cps;
      && Decode(text).valid && AllOk(AcceptFn(t, o), cps) && |Expanded(t, o, cps)| <= MAX_CELLS
      && DecomposeText(t, text, Identity(), o) == Text(Arranged(t, o, Expanded(t, o, cps)))
  {
    CharMapStateless(t, o);
    GatherForward(CharMapOf(t, Identity(), o), ImageFn(t, o), AcceptFn(t, o), Decode(text), 0, []);
    assert [] + Expanded(t, o, Decode(text).cps) == Expanded(t, o, Decode(text).cps);
  }

  lemma DecomposeTextBackward(t: Tables, o: Options, cps: seq<int>)
    requires t.WellFormed() && !o.charbound && !BadOptions(o)
    requires AllScalar(cps) && AllOk(AcceptFn(t, o), cps) && |Expanded(t, o, cps)| <= MAX_CELLS
    ensures DecomposeText(t, EncodeAll(cps), Identity(), o) == Text(Arranged(t, o, Expanded(t, o, cps)))
  {
    CharMapStateless(t, o);
    DecodeEncodedText(cps);
    GatherBackward(CharMapOf(t, Identity(), o), ImageFn(t, o), AcceptFn(t, o), cps, 0, []);
    assert [] + Expanded(t, o, cps) == Expanded(t, o, cps);
  }

  // ---------- what decomposition leaves ----------

  /** Scalar values that the options leave as they are. */
  ghost predicate Settled(t: Tables, o: Options, cells: seq<int>)
    requires t.WellFormed()
  {
    AllScalar(cells) && forall i :: 0 <= i < |cells| ==> Fixed(t, o, cells[i])
  }

  lemma ExpandedSettled(t: Tables, o: Options, cps: seq<int>)
    requires t.WellFormed() && !o.charbound && AllScalar(cps)
    ensures Settled(t, o, Expanded(t, o, cps))
  {
    var cells := Expanded(t, o, cps);
    forall i | 0 <= i < |cells|
      ensures IsScalar(cells[i]) && Fixed(t, o, cells[i])
    {
      var cp := FlatMapMember(ImageFn(t, o), cps, cells[i]);
      var k :| 0 <= k < |cps| && cps[k] == cp;
      OutputScalar(t, cp, o, cells[i]);
      OutputFixed(t, cp, o, cells[i]);
    }
  }

  lemma ArrangedSettled(t: Tables, o: Options, cells: seq<int>)
    requires t.WellFormed() && Settled(t, o, cells)
    ensures Settled(t, o, Arranged(t, o, cells))
    ensures |Arranged(t, o, cells)| == |cells|
    ensures Arranged(t, o, Arranged(t, o, cells)) == Arranged(t, o, cells)
  {
    if Normalizing(o) {
      OrderPermutes(t.Class(), cells);
      OrderIdempotent(t.Class(), cells);
      var r := Order(t.Class(), cells);
      forall i | 0 <= i < |r|
        ensures IsScalar(r[i]) && Fixed(t, o, r[i])
      {
        assert r[i] in multiset(r);
        assert r[i] in cells;
      }
    }
  }

  lemma SettledExpanded(t: Tables, o: Options, cells: seq<int>)
    requires t.WellFormed() && Settled(t, o, cells)
    ensures Expanded(t, o, cells) == cells && AllOk(AcceptFn(t, o), cells)
  {
    FlatMapFixed(ImageFn(t, o), cells);
  }

  // ---------- idempotence ----------

  /** What mapping made of a text: settled, arranged cells, normalized and encoded. */
  lemma MapFacts(t: Tables, o: Options, text: seq<Byte>) returns (x: seq<int>)
    requires t.WellFormed() && !o.charbound && Map(t, text, o).Ok?
    ensures !BadOptions(o) && Settled(t, o, x) && |x| <= MAX_CELLS && Arranged(t, o, x) == x
    ensures DecomposeText(t, text, Identity(), o) == Text(x)
    ensures Map(t, text, o) == Ok(EncodeAll(Normalized(t, x, o)))
  {
    DecomposeTextForward(t, o, text);
    var cps := Decode(text).cps;
    DecodeIsDecodeAll(text);
    EncodeDecodeAll(text);
    ExpandedSettled(t, o, cps);
    ArrangedSettled(t, o, Expanded(t, o, cps));
    x := Arranged(t, o, Expanded(t, o, cps));
  }

  /** Mapping the encoding of scalar values that expand to `x`. */
  lemma MapEncoded(t: Tables, o: Options, cps: seq<int>, x: seq<int>)
    requires t.WellFormed() && !o.charbound && !BadOptions(o)
    requires AllScalar(cps) && AllOk(AcceptFn(t, o), cps) && |x| <= MAX_CELLS
    requires Arranged(t, o, Expanded(t, o, cps)) == x
    ensures Map(t, EncodeAll(cps), o) == Ok(EncodeAll(Normalized(t, x, o)))
  {
    assert |Expanded(t, o, cps)| == |x|;
    DecomposeTextBackward(t, o, cps);
  }

  lemma CompositeAccepted(t: Tables, o: Options, l: int, c: int)
    requires t.WellFormed() && Normalizing(o) && Composite(t, l, c).Some?
    ensures IsScalar(Composite(t, l, c).value) && DecomposeChar(t, Composite(t, l, c).value, o, 0).Cells?
  {
    var p := Composite(t, l, c).value;
    if (IsHangulL(l) && IsHangulV(c)) || (IsHangulSyllable(l) && (l - SBASE) % TCOUNT == 0 && IsHangulT(c)) {
      HangulCompositeImage(l, c, p);
      assert RouteOf(t, p, o) == Syllable;
    } else {
      TableCompositeIs(t, l, c, p);
      assert t.CompositeOk(l, c, p);
      AssignedNeverFails(t, p, o, 0);
    }
  }

  lemma StepAccepted(t: Tables, o: Options, out: seq<int>, c: int)
    requires t.WellFormed() && Normalizing(o)
    requires AllScalar(out) && AllOk(AcceptFn(t, o), out) && IsScalar(c) && AcceptFn(t, o)(c)
    ensures AllScalar(ComposeStep(t, out, c)) && AllOk(AcceptFn(t, o), ComposeStep(t, out, c))
  {
    var i, ok := LastStarter(t.Class(), out), AcceptFn(t, o);
    if i >= 0 && Composite(t, out[i], c).Some? {
      CompositeAccepted(t, o, out[i], c);
      Replaced(ok, out, i, Composite(t, out[i], c).value);
    }
  }

  lemma Replaced(ok: int -> bool, out: seq<int>, i: nat, p: int)
    requires AllScalar(out) && AllOk(ok, out) && i < |out| && IsScalar(p) && ok(p)
    ensures AllScalar(out[i := p]) && AllOk(ok, out[i := p])
  {
  }

  lemma {:induction false} ComposeAccepted(t: Tables, o: Options, x: seq<int>)
    requires t.WellFormed() && Normalizing(o)
    requires AllScalar(x) && AllOk(AcceptFn(t, o), x)
    ensures AllScalar(Compose(t, x)) && AllOk(AcceptFn(t, o), Compose(t, x))
  {
    if x != [] {
      var w, c := x[..|x| - 1], x[|x| - 1];
      ComposeAccepted(t, o, w);
      StepAccepted(t, o, Compose(t, w), c);
    }
  }

  /**
   Mapping its own output returns the same bytes: for every text and every option set without
   CHARBOUND, STRIPCC and the line-break options; with COMPOSE, composites must decompose to their parts.
   */
  lemma MapIdempotent(t: Tables, o: Options, text: seq<Byte>)
    requires t.WellFormed() && Contextless(o) && (o.compose ==> Transparent(t, o))
    requires Map(t, text, o).Ok?
    ensures Map(t, Map(t, text, o).bytes, o) == Map(t, text, o)
  {
    var x := MapFacts(t, o, text);
    if o.compose {
      OrderOrdered(t.Class(), x);
      ComposeUndone(t, o, x);
      SettledExpanded(t, o, x);
      ComposeAccepted(t, o, x);
      MapEncoded(t, o, Compose(t, x), x);
    } else {
      SettledExpanded(t, o, x);
      MapEncoded(t, o, x, x);
    }
  }

  // ---------- the composed and the decomposed form ----------

  /** The options `o` with decomposition as the result instead of composition. */
  function Decomposing(o: Options): Options {
    o.(compose := false, decompose := true)
  }

  /** Option sets that no test of `utf8proc_decompose_char` tells apart. */
  predicate Alike(o: Options, q: Options) {
    && Normalizing(o) == Normalizing(q) && o.compat == q.compat && o.ignore == q.ignore && o.rejectna == q.rejectna
    && o.nlf2ls == q.nlf2ls && o.nlf2ps == q.nlf2ps && o.casefold == q.casefold && o.charbound == q.charbound
    && o.lump == q.lump && o.stripmark == q.stripmark && o.stripna == q.stripna
  }

  lemma SameRoute(t: Tables, uc: int, o: Options, q: Options)
    requires Alike(o, q)
    ensures RouteOf(t, uc, o) == RouteOf(t, uc, q)
  {
    assert t.LumpTarget(uc, o) == t.LumpTarget(uc, q);
  }

  lemma SameLeaf(t: Tables, uc: int, o: Options, q: Options, state: nat)
    requires t.WellFormed() && Alike(o, q) && RouteOf(t, uc, o) == RouteOf(t, uc, q)
    requires !RouteOf(t, uc, o).Lump? && !RouteOf(t, uc, o).Expand?
    ensures DecomposeChar(t, uc, o, state) == DecomposeChar(t, uc, q, state)
  {
  }

  lemma LumpStep(t: Tables, uc: int, o: Options, state: nat, x: int, o': Options)
    requires t.WellFormed() && RouteOf(t, uc, o) == Lump(x) && o' == o.(lump := false)
    ensures o.lump && DecomposeChar(t, uc, o, state) == DecomposeChar(t, x, o', state)
  {
  }

  /** What an expanded character expands to may be decomposed in turn. */
  lemma ExpandBelow(t: Tables, uc: int, o: Options, index: nat)
    requires t.WellFormed() && RouteOf(t, uc, o) == Expand(index)
    ensures IsCodepoint(uc) && SequenceFits(t.sequences, index) && Below(t, SequenceAt(t.sequences, index), t.rank(uc))
  {
    assert t.GoodSequence(uc, t.prop(uc).decompIndex) && t.GoodSequence(uc, t.prop(uc).casefoldIndex);
  }

  lemma SameExpand(t: Tables, uc: int, o: Options, q: Options, state: nat, es: seq<int>, index: nat)
    requires t.WellFormed() && RouteOf(t, uc, o) == RouteOf(t, uc, q) == Expand(index)
    requires SequenceFits(t.sequences, index) && es == SequenceAt(t.sequences, index) && Below(t, es, t.rank(uc))
    requires DecomposeAll(t, es, o, state, t.rank(uc)) == DecomposeAll(t, es, q, state, t.rank(uc))
    ensures DecomposeChar(t, uc, o, state) == DecomposeChar(t, uc, q, state)
  {
  }

  lemma {:induction false} SameImage(t: Tables, uc: int, o: Options, q: Options, state: nat)
    requires t.WellFormed() && Alike(o, q)
    ensures DecomposeChar(t, uc, o, state) == DecomposeChar(t, uc, q, state)
    decreases o.lump, if IsCodepoint(uc) then t.rank(uc) else 0, 2, 0
  {
    SameRoute(t, uc, o, q);
    match RouteOf(t, uc, o)
    case Lump(x) => SameLump(t, uc, o, q, state, x);
    case Expand(index) => SameExpansion(t, uc, o, q, state, index);
    case _ => SameLeaf(t, uc, o, q, state);
  }

  lemma {:induction false} SameLump(t: Tables, uc: int, o: Options, q: Options, state: nat, x: int)
    requires t.WellFormed() && Alike(o, q) && RouteOf(t, uc, o) == Lump(x) && RouteOf(t, uc, q) == Lump(x)
    ensures DecomposeChar(t, uc, o, state) == DecomposeChar(t, uc, q, state)
    decreases o.lump, if IsCodepoint(uc) then t.rank(uc) else 0, 0, 0
  {
    var o', q' := o.(lump := false), q.(lump := false);
    LumpStep(t, uc, o, state, x, o');
    LumpStep(t, uc, q, state, x, q');
    SameImage(t, x, o', q', state);
  }

  lemma {:induction false} SameExpansion(t: Tables, uc: int, o: Options, q: Options, state: nat, index: nat)
    requires t.WellFormed() && Alike(o, q) && RouteOf(t, uc, o) == RouteOf(t, uc, q) == Expand(index)
    ensures DecomposeChar(t, uc, o, state) == DecomposeChar(t, uc, q, state)
    decreases o.lump, if IsCodepoint(uc) then t.rank(uc) else 0, 1, 0
  {
    ExpandBelow(t, uc, o, index);
    var es := SequenceAt(t.sequences, index);
    SameImageAll(t, es, o, q, state, t.rank(uc));
    SameExpand(t, uc, o, q, state, es, index);
  }

  lemma {:induction false} SameImageAll(t: Tables, es: seq<int>, o: Options, q: Options, state: nat, bound: nat)
    requires t.WellFormed() && Alike(o, q) && Below(t, es, bound)
    ensures DecomposeAll(t, es, o, state, bound) == DecomposeAll(t, es, q, state, bound)
    decreases o.lump, bound, 0, |es|
  {
    if es != [] {
      SameImage(t, es[0], o, q, state);
      AssignedNeverFails(t, es[0], o, state);
      SameImageAll(t, es[1..], o, q, DecomposeChar(t, es[0], o, state).state, bound);
    }
  }

  lemma {:induction false} SameExpanded(t: Tables, o: Options, q: Options, cps: seq<int>)
    requires t.WellFormed() && Alike(o, q)
    ensures Expanded(t, o, cps) == Expanded(t, q, cps)
    ensures AllOk(AcceptFn(t, o), cps) <==> AllOk(AcceptFn(t, q), cps)
  {
    forall i | 0 <= i < |cps|
      ensures AcceptFn(t, o)(cps[i]) == AcceptFn(t, q)(cps[i])
    {
      SameImage(t, cps[i], o, q, 0);
    }
    if cps != [] {
      SameImage(t, cps[0], o, q, 0);
      SameExpanded(t, o, q, cps[1..]);
    }
  }

  lemma SameDecomposition(t: Tables, o: Options, text: seq<Byte>)
    requires t.WellFormed() && Contextless(o) && o.compose && !o.decompose
    requires DecomposeText(t, text, Identity(), o).Text?
    ensures DecomposeText(t, text, Identity(), Decomposing(o)) == DecomposeText(t, text, Identity(), o)
  {
    var q, cps := Decomposing(o), Decode(text).cps;
    DecomposeTextForward(t, o, text);
    DecodeIsDecodeAll(text);
    EncodeDecodeAll(text);
    SameExpanded(t, o, q, cps);
    DecomposeTextBackward(t, q, cps);
  }

  /** Decomposing the composed form gives the decomposed form of the original text. */
  lemma DecomposedOfComposed(t: Tables, o: Options, text: seq<Byte>)
    requires t.WellFormed() && Contextless(o) && o.compose && Transparent(t, o)
    requires Map(t, text, o).Ok?
    ensures Map(t, Map(t, text, o).bytes, Decomposing(o)) == Map(t, text, Decomposing(o))
  {
    var q := Decomposing(o);
    var x := MapFacts(t, o, text);
    SameDecomposition(t, o, text);
    var out := Compose(t, x);
    OrderOrdered(t.Class(), x);
    ComposeUndone(t, o, x);
    SettledExpanded(t, o, x);
    ComposeAccepted(t, o, x);
    SameExpanded(t, o, q, out);
    MapEncoded(t, q, out, x);
  }

  /** Composing the decomposed form gives the composed form of the original text. */
  lemma ComposedOfDecomposed(t: Tables, o: Options, text: seq<Byte>)
    requires t.WellFormed() && Contextless(o) && o.compose
    requires Map(t, text, o).Ok?
    ensures Map(t, text, Decomposing(o)).Ok?
    ensures Map(t, Map(t, text, Decomposing(o)).bytes, o) == Map(t, text, o)
  {
    var x := MapFacts(t, o, text);
    SameDecomposition(t, o, text);
    SettledExpanded(t, o, x);
    MapEncoded(t, o, x, x);
  }

  /** Two texts have the same composed form exactly when they have the same decomposed form. */
  lemma SameComposedIffSameDecomposed(t: Tables, o: Options, a: seq<Byte>, b: seq<Byte>)
    requires t.WellFormed() && Contextless(o) && o.compose && Transparent(t, o)
    requires Map(t, a, o).Ok? && Map(t, b, o).Ok?
    ensures Map(t, a, o) == Map(t, b, o) <==> Map(t, a, Decomposing(o)) == Map(t, b, Decomposing(o))
  {
    DecomposedOfComposed(t, o, a);
    DecomposedOfComposed(t, o, b);
    ComposedOfDecomposed(t, o, a);
    ComposedOfDecomposed(t, o, b);
  }

  // ---------- zero-terminated texts ----------

  ghost predicate ZeroFreeText(s: seq<Byte>) {
    forall i :: 0 <= i < |s| ==> s[i] != 0
  }

  /** A terminated text is processed as the same bytes with their length given, whatever lies behind. */
  lemma TerminatedText(s: seq<Byte>, behind: seq<Byte>, strlen: int)
    requires ZeroFreeText(s)
    ensures Readable(s + [0] + behind, strlen, true) && TextOf(s + [0] + behind, strlen, true) == s
    ensures Readable(s, |s|, false) && TextOf(s, |s|, false) == s
  {
    var mem := s + [0] + behind;
    assert mem[|s|] == 0;
    assert Terminated(mem, 0);
    var z := FirstZero(mem, 0);
    assert forall i :: 0 <= i < |s| ==> mem[i] == s[i];
    assert z == |s|;
  }

  lemma {:induction false} EncodedZeroFree(cps: seq<int>)
    requires AllScalar(cps) && 0 !in cps
    ensures ZeroFreeText(EncodeAll(cps))
  {
    forall i | 0 <= i < |EncodeAll(cps)|
      ensures EncodeAll(cps)[i] != 0
    {
      var cp := FlatMapMember(EncodeChar, cps, EncodeAll(cps)[i]);
      var k :| 0 <= k < |cps| && cps[k] == cp;
    }
  }

  lemma {:induction false} DecodedZeroFree(text: seq<Byte>)
    requires ZeroFreeText(text)
    ensures 0 !in Decode(text).cps
    decreases |text|
  {
    FetchTextResult(text);
    var next := FetchText(text);
    ZeroFree(text);
    if next.Char? {
      DecodedZeroFree(text[next.len..]);
    }
  }

  lemma ExpandedZeroFree(t: Tables, o: Options, cps: seq<int>)
    requires t.WellFormed() && !o.charbound && AllScalar(cps) && 0 !in cps
    ensures 0 !in Expanded(t, o, cps)
  {
    if 0 in Expanded(t, o, cps) {
      var cp := FlatMapMember(ImageFn(t, o), cps, 0);
      var k :| 0 <= k < |cps| && cps[k] == cp;
      OutputScalar(t, cp, o, 0);
    }
  }

  lemma {:induction false} ComposeZeroFree(t: Tables, x: seq<int>)
    requires t.WellFormed() && 0 !in x
    ensures 0 !in Compose(t, x)
  {
    if x != [] {
      var w, c := x[..|x| - 1], x[|x| - 1];
      ComposeZeroFree(t, w);
      var out := Compose(t, w);
      var i := LastStarter(t.Class(), out);
      if i >= 0 && Composite(t, out[i], c).Some? {
        CompositeNonzero(t, out[i], c);
      }
    }
  }

  lemma CompositeNonzero(t: Tables, l: int, c: int)
    requires t.WellFormed() && Composite(t, l, c).Some?
    ensures Composite(t, l, c).value != 0
  {
    var p := Composite(t, l, c).value;
    if (IsHangulL(l) && IsHangulV(c)) || (IsHangulSyllable(l) && (l - SBASE) % TCOUNT == 0 && IsHangulT(c)) {
      HangulCompositeImage(l, c, p);
    } else {
      TableCompositeIs(t, l, c, p);
      assert t.CompositeOk(l, c, p);
    }
  }

  /** A text without zero bytes is mapped to one without zero bytes, so the result is again a terminated text. */
  lemma MapZeroFree(t: Tables, o: Options, text: seq<Byte>)
    requires t.WellFormed() && Contextless(o) && ZeroFreeText(text) && Map(t, text, o).Ok?
    ensures ZeroFreeText(Map(t, text, o).bytes)
  {
    var x := MapFacts(t, o, text);
    DecomposeTextForward(t, o, text);
    DecodedZeroFree(text);
    DecodeIsDecodeAll(text);
    EncodeDecodeAll(text);
    ExpandedZeroFree(t, o, Decode(text).cps);
    OrderPermutes(t.Class(), Expanded(t, o, Decode(text).cps));
    assert 0 in x <==> 0 in multiset(x);
    if o.compose {
      ComposeZeroFree(t, x);
      SettledExpanded(t, o, x);
      ComposeAccepted(t, o, x);
      EncodedZeroFree(Compose(t, x));
    } else {
      EncodedZeroFree(x);
    }
  }

  /** The options of `utf8proc_NFD`, `utf8proc_NFC`, `utf8proc_NFKD` and `utf8proc_NFKC`. */
  function FormOptions(compose: bool, compat: bool): Options {
    Options(true, true, compat, compose, !compose, false, false, false, false, false, false, false, false, false, false)
  }

  /**
   The four normal forms of a zero-terminated string are idempotent: the terminated result,
   normalized again, is the same terminated result.
   */
  lemma NormalFormIdempotent(t: Tables, s: seq<Byte>, behind: seq<Byte>, compose: bool, compat: bool)
    requires t.WellFormed() && ZeroFreeText(s)
    requires Map(t, s, FormOptions(compose, compat)).Ok?
    ensures var o := FormOptions(compose, compat);
      var r := Map(t, s, o).bytes;
      && Readable(r + [0] + behind, 0, true)
      && Map(t, TextOf(r + [0] + behind, 0, true), o) == Ok(r)
  {
    var o := FormOptions(compose, compat);
    PlainTransparent(t, o);
    MapIdempotent(t, o, s);
    MapZeroFree(t, o, s);
    TerminatedText(Map(t, s, o).bytes, behind, 0);
  }
}
