/** Mapping with CHARBOUND alone: the text with a 0xFF byte before every grapheme cluster. */
module Clusters {
  import opened Bytes
  import opened Decomposition
  import G = Grapheme
  import opened Mapping
  import opened NormalForms
  import opened Sequences
  import opened TextDecomposition
  import opened UnicodeTables
  import opened Utf8

  predicate CharboundOnly(o: Options) {
    && o.charbound && !o.compose && !o.decompose && !o.ignore && !o.rejectna && !o.nlf2ls && !o.nlf2ps
    && !o.stripcc && !o.casefold && !o.lump && !o.stripmark && !o.stripna
  }

  function CharOf(t: Tables, cp: int): G.Char {
    G.Char(t.prop(cp).boundclass, t.prop(cp).conjunct)
  }

  function CharsOf(t: Tables, cps: seq<int>): (cs: seq<G.Char>)
    ensures |cs| == |cps|
  {
    if cps == [] then [] else CharsOf(t, cps[..|cps| - 1]) + [CharOf(t, cps[|cps| - 1])]
  }

  /** What the rules rely on in the property data. */
  ghost predicate BoundclassesOk(t: Tables) {
    forall cp :: CharOf(t, cp).Ok()
  }

  lemma {:induction false} CharsOk(t: Tables, cps: seq<int>)
    requires BoundclassesOk(t)
    ensures G.AllOk(CharsOf(t, cps))
  {
    if cps != [] {
      CharsOk(t, cps[..|cps| - 1]);
    }
  }

  lemma CharsSnoc(t: Tables, cps: seq<int>, cp: int)
    ensures CharsOf(t, cps + [cp]) == CharsOf(t, cps) + [CharOf(t, cp)]
  {
    assert (cps + [cp])[..|cps|] == cps;
  }

  /** A cluster begins with `cp` when it follows the text `cps`. */
  ghost predicate Begins(t: Tables, cps: seq<int>, cp: int) {
    G.RuleBreak(CharsOf(t, cps), CharOf(t, cp))
  }

  /** `cp` after the text `cps`, behind a sentinel if it begins a cluster. */
  ghost function Mark(t: Tables, cps: seq<int>, cp: int): seq<int> {
    if Begins(t, cps, cp) then [-1, cp] else [cp]
  }

  /** The concatenation of what each element of `rest` becomes after the elements before it. */
  ghost function Fold(mk: (seq<int>, int) -> seq<int>, p: seq<int>, rest: seq<int>): seq<int>
    decreases |rest|
  {
    if rest == [] then [] else mk(p, rest[0]) + Fold(mk, p + [rest[0]], rest[1..])
  }

  lemma {:induction false} FoldSnoc(mk: (seq<int>, int) -> seq<int>, p: seq<int>, rest: seq<int>, c: int)
    ensures Fold(mk, p, rest + [c]) == Fold(mk, p, rest) + mk(p + rest, c)
    decreases |rest|
  {
    if rest == [] {
      assert rest + [c] == [c] && p + rest == p;
      assert Fold(mk, p, [c]) == mk(p, c) + Fold(mk, p + [c], [c][1..]);
    } else {
      var x := rest[0];
      assert (rest + [c])[0] == x && (rest + [c])[1..] == rest[1..] + [c];
      FoldSnoc(mk, p + [x], rest[1..], c);
      assert p + [x] + rest[1..] == p + rest;
    }
  }

  ghost function MarkFn(t: Tables): (seq<int>, int) -> seq<int> {
    (cps: seq<int>, cp: int) => Mark(t, cps, cp)
  }

  /** The codepoints with a sentinel before each one that begins a cluster. */
  ghost function Marked(t: Tables, cps: seq<int>): seq<int> {
    Fold(MarkFn(t), [], cps)
  }

  /** The boundary state after a text. */
  ghost function StateOf(t: Tables, cps: seq<int>): nat {
    if cps == [] then 0 else G.Expected(CharsOf(t, cps))
  }

  lemma KeepsCodepoints(t: Tables, cp: int, o: Options, state: nat)
    requires t.WellFormed() && CharboundOnly(o) && IsCodepoint(cp)
    ensures CharMapOf(t, Identity(), o)(cp, state) == Literal(t, cp, o, state)
  {
    assert RouteOf(t, cp, o) == Keep;
  }

  lemma LiteralMarks(t: Tables, cps: seq<int>, cp: int, o: Options)
    requires BoundclassesOk(t) && o.charbound
    ensures Literal(t, cp, o, StateOf(t, cps)) == Cells(Mark(t, cps, cp), StateOf(t, cps + [cp]))
  {
    var p, c := CharsOf(t, cps), CharOf(t, cp);
    CharsSnoc(t, cps, cp);
    CharsOk(t, cps);
    if cps == [] {
      G.FirstCall(c);
      assert p + [c] == [c];
    } else {
      G.CarriedCall(p, c, G.START, G.ICB_NONE);
    }
  }

  ghost function StateFn(t: Tables): seq<int> -> nat {
    (cps: seq<int>) => StateOf(t, cps)
  }

  /** After any text, `f` turns a scalar value into what `mk` says and passes on the state of the longer text. */
  ghost predicate Follows(f: CharMap, st: seq<int> -> nat, mk: (seq<int>, int) -> seq<int>) {
    forall p, cp :: IsScalar(cp) ==> f(cp, st(p)) == Cells(mk(p, cp), st(p + [cp]))
  }

  lemma CharMapFollows(t: Tables, o: Options)
    requires t.WellFormed() && BoundclassesOk(t) && CharboundOnly(o)
    ensures Follows(CharMapOf(t, Identity(), o), StateFn(t), MarkFn(t))
  {
    forall p, cp | IsScalar(cp)
      ensures CharMapOf(t, Identity(), o)(cp, StateOf(t, p)) == Cells(Mark(t, p, cp), StateOf(t, p + [cp]))
    {
      KeepsCodepoints(t, cp, o, StateOf(t, p));
      LiteralMarks(t, p, cp, o);
    }
  }

  lemma {:induction false} GatherFold(f: CharMap, st: seq<int> -> nat, mk: (seq<int>, int) -> seq<int>,
                                      p: seq<int>, rest: seq<int>, done: seq<int>)
    requires Follows(f, st, mk) && AllScalar(rest) && Gather(f, Decoded(rest, true), st(p), done).Text?
    ensures Gather(f, Decoded(rest, true), st(p), done) == Text(done + Fold(mk, p, rest))
    decreases |rest|
  {
    if rest == [] {
      assert done + Fold(mk, p, rest) == done;
    } else {
      var cp := rest[0];
      assert f(cp, st(p)) == Cells(mk(p, cp), st(p + [cp]));
      GatherStep(f, Decoded(rest, true), st(p), done, cp);
      GatherFold(f, st, mk, p + [cp], rest[1..], done + mk(p, cp));
      assert done + mk(p, cp) + Fold(mk, p + [cp], rest[1..]) == done + (mk(p, cp) + Fold(mk, p + [cp], rest[1..]));
    }
  }

  /** With CHARBOUND alone a text becomes its codepoints, marked where clusters begin. */
  lemma CharboundCells(t: Tables, o: Options, text: seq<Byte>)
    requires t.WellFormed() && BoundclassesOk(t) && CharboundOnly(o) && Map(t, text, o).Ok?
    ensures Decode(text).valid && AllScalar(Decode(text).cps)
    ensures EncodeAll(Decode(text).cps) == text
    ensures Map(t, text, o) == Ok(FlatMap(CharboundEncodeChar, Marked(t, Decode(text).cps)))
  {
    var f, d := CharMapOf(t, Identity(), o), Decode(text);
    GatherValid(f, d, 0, []);
    DecodeIsDecodeAll(text);
    EncodeDecodeAll(text);
    CharMapFollows(t, o);
    GatherFold(f, StateFn(t), MarkFn(t), [], d.cps, []);
    assert [] + Marked(t, d.cps) == Marked(t, d.cps);
  }

  lemma {:induction false} GatherFits(f: CharMap, st: seq<int> -> nat, mk: (seq<int>, int) -> seq<int>,
                                      p: seq<int>, rest: seq<int>, done: seq<int>)
    requires Follows(f, st, mk) && AllScalar(rest) && |done| <= MAX_CELLS
    ensures Gather(f, Decoded(rest, true), st(p), done).Text? <==> |done| + |Fold(mk, p, rest)| <= MAX_CELLS
    decreases |rest|
  {
    if rest != [] {
      var cp := rest[0];
      assert f(cp, st(p)) == Cells(mk(p, cp), st(p + [cp]));
      GatherStep(f, Decoded(rest, true), st(p), done, cp);
      if |done| + |mk(p, cp)| <= MAX_CELLS {
        GatherFits(f, st, mk, p + [cp], rest[1..], done + mk(p, cp));
      }
    }
  }

  /** With CHARBOUND alone exactly the texts are refused that are not UTF-8 or whose result would be too long. */
  lemma CharboundAccepts(t: Tables, o: Options, text: seq<Byte>)
    requires t.WellFormed() && BoundclassesOk(t) && CharboundOnly(o)
    ensures Map(t, text, o).Ok? <==> WellFormedUtf8(text) && |Marked(t, Decode(text).cps)| <= MAX_CELLS
  {
    var f, d := CharMapOf(t, Identity(), o), Decode(text);
    DecodeIsDecodeAll(text);
    DecodableIffWellFormed(text);
    if Map(t, text, o).Ok? {
      GatherValid(f, d, 0, []);
    }
    if d.valid {
      EncodeDecodeAll(text);
      CharMapFollows(t, o);
      GatherFits(f, StateFn(t), MarkFn(t), [], d.cps, []);
    }
  }

  lemma {:induction false} GatherValid(f: CharMap, text: Decoded, state: nat, done: seq<int>)
    requires Gather(f, text, state, done).Text?
    ensures text.valid
    decreases |text.cps|
  {
    if text.cps != [] {
      var d := f(text.cps[0], state);
      GatherValid(f, text.(cps := text.cps[1..]), d.state, done + d.cells);
    }
  }

  // ---------- deleting the marks ----------

  function WithoutMarks(b: seq<Byte>): seq<Byte> {
    if b == [] then [] else WithoutMarks(b[..|b| - 1]) + (if b[|b| - 1] == 0xFF then [] else [b[|b| - 1]])
  }

  lemma {:induction false} WithoutMarksConcat(a: seq<Byte>, b: seq<Byte>)
    ensures WithoutMarks(a + b) == WithoutMarks(a) + WithoutMarks(b)
    decreases |b|
  {
    if b == [] {
      assert a + b == a;
    } else {
      var w := b[..|b| - 1];
      assert (a + b)[..|a + b| - 1] == a + w;
      WithoutMarksConcat(a, w);
    }
  }

  lemma {:induction false} NoMarks(b: seq<Byte>)
    requires 0xFF !in b
    ensures WithoutMarks(b) == b
  {
    if b != [] {
      NoMarks(b[..|b| - 1]);
      assert b == b[..|b| - 1] + [b[|b| - 1]];
    }
  }

  lemma EncodedHasNoMark(cp: int)
    ensures 0xFF !in EncodeChar(cp)
  {
  }

  lemma MarkedSnoc(t: Tables, cps: seq<int>, cp: int)
    ensures Marked(t, cps + [cp]) == Marked(t, cps) + if Begins(t, cps, cp) then [-1, cp] else [cp]
  {
    FoldSnoc(MarkFn(t), [], cps, cp);
    assert [] + cps == cps;
  }

  lemma FlatMapMarked(f: int -> seq<Byte>, m: seq<int>, cp: int, begins: bool)
    ensures FlatMap(f, m + if begins then [-1, cp] else [cp]) == FlatMap(f, m) + (if begins then f(-1) else []) + f(cp)
  {
    if begins {
      assert m + [-1, cp] == m + [-1] + [cp];
      FlatMapSnoc(f, m + [-1], cp);
      FlatMapSnoc(f, m, -1);
    } else {
      FlatMapSnoc(f, m, cp);
      assert FlatMap(f, m) + [] == FlatMap(f, m);
    }
  }

  /** What one codepoint adds to the output. */
  lemma OutputSnoc(t: Tables, cps: seq<int>, cp: int)
    requires IsScalar(cp)
    ensures FlatMap(CharboundEncodeChar, Marked(t, cps + [cp])) ==
      FlatMap(CharboundEncodeChar, Marked(t, cps)) + (if Begins(t, cps, cp) then [0xFF] else []) + EncodeChar(cp)
  {
    MarkedSnoc(t, cps, cp);
    FlatMapMarked(CharboundEncodeChar, Marked(t, cps), cp, Begins(t, cps, cp));
  }

  lemma {:induction false} DeletingMarks(t: Tables, cps: seq<int>)
    requires AllScalar(cps)
    ensures WithoutMarks(FlatMap(CharboundEncodeChar, Marked(t, cps))) == EncodeAll(cps)
  {
    if cps != [] {
      var w, c := cps[..|cps| - 1], cps[|cps| - 1];
      assert cps == w + [c];
      DeletingMarks(t, w);
      OutputSnoc(t, w, c);
      EncodedHasNoMark(c);
      DeletingOne(FlatMap(CharboundEncodeChar, Marked(t, w)), if Begins(t, w, c) then [0xFF] else [], EncodeChar(c));
      FlatMapSnoc(EncodeChar, w, c);
    }
  }

  lemma DeletingOne(out: seq<Byte>, mark: seq<Byte>, e: seq<Byte>)
    requires (mark == [] || mark == [0xFF]) && 0xFF !in e
    ensures WithoutMarks(out + mark + e) == WithoutMarks(out) + e
  {
    WithoutMarksConcat(out + mark, e);
    WithoutMarksConcat(out, mark);
    NoMarks(e);
  }

  /** Deleting the 0xFF bytes from the output gives back the input. */
  lemma CharboundKeepsText(t: Tables, o: Options, text: seq<Byte>)
    requires t.WellFormed() && BoundclassesOk(t) && CharboundOnly(o) && Map(t, text, o).Ok?
    ensures WithoutMarks(Map(t, text, o).bytes) == text
  {
    CharboundCells(t, o, text);
    DeletingMarks(t, Decode(text).cps);
  }

  // ---------- splitting at the marks ----------

  /** `parts` with `w` added to the last part. */
  function Extend<T>(parts: seq<seq<T>>, w: seq<T>): (r: seq<seq<T>>)
    requires parts != []
    ensures |r| == |parts|
  {
    parts[..|parts| - 1] + [parts[|parts| - 1] + w]
  }

  /** The stretches of `b` between 0xFF bytes. */
  function Split(b: seq<Byte>): (parts: seq<seq<Byte>>)
    ensures parts != []
  {
    if b == [] then [[]]
    else if b[|b| - 1] == 0xFF then Split(b[..|b| - 1]) + [[]]
    else Extend(Split(b[..|b| - 1]), [b[|b| - 1]])
  }

  lemma SplitMark(b: seq<Byte>)
    ensures Split(b + [0xFF]) == Split(b) + [[]]
  {
    assert (b + [0xFF])[..|b|] == b;
  }

  lemma {:induction false} SplitAppend(b: seq<Byte>, e: seq<Byte>)
    requires 0xFF !in e
    ensures Split(b + e) == Extend(Split(b), e)
    decreases |e|
  {
    if e == [] {
      assert b + e == b;
      assert Split(b)[|Split(b)| - 1] + e == Split(b)[|Split(b)| - 1];
      assert Extend(Split(b), e) == Split(b);
    } else {
      var w, x := e[..|e| - 1], e[|e| - 1];
      assert (b + e)[..|b + e| - 1] == b + w && (b + e)[|b + e| - 1] == x;
      SplitAppend(b, w);
      assert e == w + [x];
      assert Split(b)[|Split(b)| - 1] + w + [x] == Split(b)[|Split(b)| - 1] + e;
    }
  }

  /** The grapheme clusters of a text, in order. */
  ghost function ClustersOf(t: Tables, cps: seq<int>): (cl: seq<seq<int>>)
    ensures cps == [] <==> cl == []
  {
    if cps == [] then []
    else
      var w, c := cps[..|cps| - 1], cps[|cps| - 1];
      if Begins(t, w, c) then ClustersOf(t, w) + [[c]] else Extend(ClustersOf(t, w), [c])
  }

  function EncodedParts(cl: seq<seq<int>>): (r: seq<seq<Byte>>)
    ensures |r| == |cl|
  {
    if cl == [] then [] else EncodedParts(cl[..|cl| - 1]) + [EncodeAll(cl[|cl| - 1])]
  }

  lemma PartsSnoc(cl: seq<seq<int>>, c: int)
    ensures EncodedParts(cl + [[c]]) == EncodedParts(cl) + [EncodeChar(c)]
    ensures cl != [] ==> EncodedParts(Extend(cl, [c])) == Extend(EncodedParts(cl), EncodeChar(c))
  {
    assert (cl + [[c]])[..|cl|] == cl;
    FlatMapOne(EncodeChar, c);
    if cl != [] {
      var n := |cl| - 1;
      assert Extend(cl, [c])[..n] == cl[..n] && EncodedParts(cl)[..n] == EncodedParts(cl[..n]);
      FlatMapSnoc(EncodeChar, cl[n], c);
    }
  }

  /** A mark and then `e` make `e` a part of its own. */
  lemma SplitBegins(out: seq<Byte>, e: seq<Byte>)
    requires 0xFF !in e
    ensures Split(out + [0xFF] + e) == Split(out) + [e]
  {
    SplitMark(out);
    SplitAppend(out + [0xFF], e);
    var parts := Split(out);
    assert [] + e == e && (parts + [[]])[..|parts|] == parts;
  }

  /** Without a mark `e` joins the last part. */
  lemma SplitContinues(out: seq<Byte>, parts: seq<seq<Byte>>, e: seq<Byte>)
    requires 0xFF !in e && parts != [] && Split(out) == [[]] + parts
    ensures Split(out + [] + e) == [[]] + Extend(parts, e)
  {
    assert out + [] == out;
    SplitAppend(out, e);
    var a: seq<Byte> := [];
    assert Extend([a] + parts, e) == [a] + Extend(parts, e);
  }

  lemma SplitStep(out: seq<Byte>, cl: seq<seq<int>>, c: int, begins: bool)
    requires Split(out) == [[]] + EncodedParts(cl) && (begins || cl != [])
    ensures Split(out + (if begins then [0xFF] else []) + EncodeChar(c)) ==
      [[]] + EncodedParts(if begins then cl + [[c]] else Extend(cl, [c]))
  {
    EncodedHasNoMark(c);
    PartsSnoc(cl, c);
    if begins {
      SplitBegins(out, EncodeChar(c));
      assert [[]] + EncodedParts(cl) + [EncodeChar(c)] == [[]] + (EncodedParts(cl) + [EncodeChar(c)]);
    } else {
      SplitContinues(out, EncodedParts(cl), EncodeChar(c));
    }
  }

  lemma {:induction false} SplitOutput(t: Tables, cps: seq<int>)
    requires AllScalar(cps)
    ensures Split(FlatMap(CharboundEncodeChar, Marked(t, cps))) == [[]] + EncodedParts(ClustersOf(t, cps))
  {
    if cps != [] {
      var w, c := cps[..|cps| - 1], cps[|cps| - 1];
      assert cps == w + [c];
      SplitOutput(t, w);
      OutputSnoc(t, w, c);
      SplitStep(FlatMap(CharboundEncodeChar, Marked(t, w)), ClustersOf(t, w), c, Begins(t, w, c));
    }
  }

  /** Splitting the output at its 0xFF bytes gives the encodings of exactly the grapheme clusters, in order. */
  lemma CharboundSplitsClusters(t: Tables, o: Options, text: seq<Byte>)
    requires t.WellFormed() && BoundclassesOk(t) && CharboundOnly(o) && Map(t, text, o).Ok?
    ensures Split(Map(t, text, o).bytes) == [[]] + EncodedParts(ClustersOf(t, Decode(text).cps))
  {
    CharboundCells(t, o, text);
    SplitOutput(t, Decode(text).cps);
  }

  // ---------- the clusters are the text, cut where the rules break ----------

  function Joined(cl: seq<seq<int>>): seq<int> {
    if cl == [] then [] else Joined(cl[..|cl| - 1]) + cl[|cl| - 1]
  }

  ghost predicate NoneEmpty(cl: seq<seq<int>>) {
    forall k :: 0 <= k < |cl| ==> cl[k] != []
  }

  /** Where cluster `k` starts in the joined text. */
  function Offset(cl: seq<seq<int>>, k: nat): nat
    requires k <= |cl|
  {
    |Joined(cl[..k])|
  }

  /** Some cluster starts at position `i` of the joined text. */
  ghost predicate StartsAt(cl: seq<seq<int>>, i: int) {
    exists k :: 0 <= k < |cl| && Offset(cl, k) == i
  }

  lemma {:induction false} JoinedPrefix(cl: seq<seq<int>>, k: nat)
    requires NoneEmpty(cl) && k < |cl|
    ensures Offset(cl, k) < |Joined(cl)|
    decreases |cl|
  {
    var n := |cl| - 1;
    if k < n {
      assert cl[..n][..k] == cl[..k];
      JoinedPrefix(cl[..n], k);
    }
  }

  /** Clusters that agree before the last one start at the same places. */
  lemma SameOffsets(cl: seq<seq<int>>, r: seq<seq<int>>, n: nat, k: nat)
    requires k <= n <= |cl| && n <= |r| && cl[..n] == r[..n]
    ensures Offset(cl, k) == Offset(r, k)
  {
    assert cl[..k] == cl[..n][..k] && r[..k] == r[..n][..k];
  }

  lemma StartsSnoc(cl: seq<seq<int>>, c: int, i: int)
    ensures StartsAt(cl + [[c]], i) <==> StartsAt(cl, i) || i == |Joined(cl)|
    ensures Joined(cl + [[c]]) == Joined(cl) + [c]
  {
    var r, n := cl + [[c]], |cl|;
    assert r[..n] == cl && cl[..n] == cl;
    assert Offset(r, n) == |Joined(cl)|;
    forall k: nat | k <= n
      ensures Offset(cl, k) == Offset(r, k)
    {
      SameOffsets(cl, r, n, k);
    }
  }

  lemma StartsExtend(cl: seq<seq<int>>, c: int, i: int)
    requires cl != []
    ensures StartsAt(Extend(cl, [c]), i) <==> StartsAt(cl, i)
    ensures Joined(Extend(cl, [c])) == Joined(cl) + [c]
  {
    var r, n := Extend(cl, [c]), |cl| - 1;
    assert r[..n] == cl[..n];
    assert Joined(cl[..n]) + (cl[n] + [c]) == Joined(cl[..n]) + cl[n] + [c];
    forall k: nat | k <= n
      ensures Offset(cl, k) == Offset(r, k)
    {
      SameOffsets(cl, r, n, k);
    }
  }

  /** One more codepoint, in a cluster of its own or in the last one. */
  lemma CutStep(cl: seq<seq<int>>, c: int, begins: bool, r: seq<seq<int>>, i: nat)
    requires NoneEmpty(cl) && (begins || cl != []) && r == if begins then cl + [[c]] else Extend(cl, [c])
    ensures NoneEmpty(r) && Joined(r) == Joined(cl) + [c]
    ensures i < |Joined(cl)| ==> (StartsAt(r, i) <==> StartsAt(cl, i))
    ensures i == |Joined(cl)| ==> (StartsAt(r, i) <==> begins)
  {
    if begins {
      StartsSnoc(cl, c, i);
    } else {
      StartsExtend(cl, c, i);
      if i == |Joined(cl)| {
        NotPastEnd(cl, i);
      }
    }
  }

  /** The clusters joined are the text, none is empty, and one starts exactly where the rules put a break. */
  lemma {:induction false} ClustersCut(t: Tables, cps: seq<int>, i: nat)
    ensures NoneEmpty(ClustersOf(t, cps)) && Joined(ClustersOf(t, cps)) == cps
    ensures i < |cps| ==> (StartsAt(ClustersOf(t, cps), i) <==> Begins(t, cps[..i], cps[i]))
    decreases |cps|
  {
    if cps != [] {
      var w, c := cps[..|cps| - 1], cps[|cps| - 1];
      assert cps == w + [c];
      ClustersCut(t, w, i);
      CutStep(ClustersOf(t, w), c, Begins(t, w, c), ClustersOf(t, cps), i);
      if i < |w| {
        assert w[..i] == cps[..i];
      } else if i == |w| {
        assert cps[..i] == w;
      }
    }
  }

  lemma NotPastEnd(cl: seq<seq<int>>, i: nat)
    requires NoneEmpty(cl) && |Joined(cl)| == i
    ensures !StartsAt(cl, i)
  {
    forall k | 0 <= k < |cl|
      ensures Offset(cl, k) < i
    {
      JoinedPrefix(cl, k);
    }
  }
}
