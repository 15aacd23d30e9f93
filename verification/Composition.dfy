/** Canonical composition (Unicode Standard section 3.11, D115 and D117) and what it preserves. */
module Composition {
  import opened CanonicalOrdering
  import opened Decomposition
  import opened Sequences
  import opened UnicodeTables

  // ---------- primary composites ----------

  ghost function TableComposite(t: Tables, l: int, c: int): Option<int> {
    if exists p :: t.Listed(l, c, p) then
      var p :| t.Listed(l, c, p); Some(p)
    else None
  }

  lemma ListedUnique(t: Tables, l: int, c: int, p: int, q: int)
    requires t.WellFormed() && t.Listed(l, c, p) && t.Listed(l, c, q)
    ensures p == q
  {
    assert t.RowOk(l);
    var j :| t.ListedAt(l, c, p, j);
    var k :| t.ListedAt(l, c, q, k);
  }

  lemma TableCompositeIs(t: Tables, l: int, c: int, p: int)
    requires t.WellFormed()
    ensures TableComposite(t, l, c) == Some(p) <==> t.Listed(l, c, p)
  {
    if t.Listed(l, c, p) {
      var q := TableComposite(t, l, c).value;
      ListedUnique(t, l, c, p, q);
    }
  }

  /** The character that `l` followed by `c` composes to, if there is one. */
  ghost function Composite(t: Tables, l: int, c: int): Option<int> {
    if IsHangulL(l) && IsHangulV(c) then Some(SBASE + ((l - LBASE) * VCOUNT + (c - VBASE)) * TCOUNT)
    else if IsHangulSyllable(l) && (l - SBASE) % TCOUNT == 0 && IsHangulT(c) then Some(l + (c - TBASE))
    else TableComposite(t, l, c)
  }

  /** A character without a row in the pair table composes with nothing, jamo and syllables apart. */
  lemma NoRowNoComposite(t: Tables, l: int, c: int)
    requires !t.HasRow(l) && !IsHangulL(l) && !IsHangulSyllable(l)
    ensures Composite(t, l, c) == None
  {
    assert forall p, k :: !t.ListedAt(l, c, p, k);
  }

  // ---------- the algorithm of D117 ----------

  /** The position of the last starter of `out`, or -1. */
  function LastStarter(ccc: int -> nat, out: seq<int>): (i: int)
    ensures -1 <= i < |out|
    ensures i >= 0 ==> ccc(out[i]) == 0
    ensures forall j :: i < j < |out| ==> ccc(out[j]) > 0
  {
    var n := |out| - 1;
    if n < 0 then -1 else if ccc(out[n]) == 0 then n else LastStarter(ccc, out[..n])
  }

  /** D115: something between position `i` and `c` is a starter or has the class of `c` or a higher one. */
  ghost predicate Blocked(ccc: int -> nat, out: seq<int>, i: int, c: int) {
    exists j :: i < j < |out| && 0 <= j && (ccc(out[j]) == 0 || ccc(out[j]) >= ccc(c))
  }

  /** D117 for one character: compose with the last starter if not blocked from it, else keep. */
  ghost function ComposeStep(t: Tables, out: seq<int>, c: int): (r: seq<int>)
    ensures |out| <= |r| <= |out| + 1
  {
    var i := LastStarter(t.Class(), out);
    if i >= 0 && !Blocked(t.Class(), out, i, c) && Composite(t, out[i], c).Some?
    then out[i := Composite(t, out[i], c).value]
    else out + [c]
  }

  /** The composition of `s`; sentinels are dropped. */
  ghost function Compose(t: Tables, s: seq<int>): (r: seq<int>)
    ensures |r| <= |s|
  {
    if s == [] then []
    else
      var out, c := Compose(t, s[..|s| - 1]), s[|s| - 1];
      if c < 0 then out else ComposeStep(t, out, c)
  }

  /** The highest class behind position `i`, or -1 if nothing is there. */
  function MaxClass(ccc: int -> nat, out: seq<int>, i: int): int
    requires -1 <= i < |out|
    decreases |out|
  {
    var n := |out| - 1;
    if i == n then -1
    else
      var m := MaxClass(ccc, out[..n], i);
      if ccc(out[n]) > m then ccc(out[n]) else m
  }

  lemma {:induction false} MaxClassBounds(ccc: int -> nat, out: seq<int>, i: int)
    requires -1 <= i < |out|
    ensures forall j :: i < j < |out| ==> ccc(out[j]) <= MaxClass(ccc, out, i)
    ensures i == |out| - 1 || exists j :: i < j < |out| && ccc(out[j]) == MaxClass(ccc, out, i)
    decreases |out|
  {
    var n := |out| - 1;
    if i < n {
      MaxClassBounds(ccc, out[..n], i);
      if ccc(out[n]) <= MaxClass(ccc, out[..n], i) && i < n - 1 {
        var j :| i < j < n && ccc(out[..n][j]) == MaxClass(ccc, out[..n], i);
        assert ccc(out[j]) == MaxClass(ccc, out[..n], i);
      }
    }
  }

  /** The one number the pass keeps decides exactly whether `c` is blocked from the last starter. */
  lemma MaxClassDecidesBlocked(ccc: int -> nat, out: seq<int>, c: int)
    requires LastStarter(ccc, out) >= 0
    ensures Blocked(ccc, out, LastStarter(ccc, out), c) <==> ccc(c) <= MaxClass(ccc, out, LastStarter(ccc, out))
  {
    var i := LastStarter(ccc, out);
    MaxClassBounds(ccc, out, i);
    if ccc(c) <= MaxClass(ccc, out, i) {
      var j :| i < j < |out| && ccc(out[j]) == MaxClass(ccc, out, i);
      assert Blocked(ccc, out, i, c);
    }
  }

  // ---------- composition preserves canonical equivalence ----------

  /** Under the options `o` every listed composite decomposes to what its parts decompose to. */
  ghost predicate Transparent(t: Tables, o: Options)
    requires t.WellFormed()
  {
    forall l, c, p :: t.Listed(l, c, p) && Fixed(t, o, c) ==> Image(t, o, p) == Image(t, o, l) + [c]
  }

  /** Options that only choose between canonical and compatibility decomposition, or drop characters. */
  predicate Plain(o: Options) {
    Normalizing(o) && !o.charbound && !o.lump && !o.casefold && !o.stripmark
  }

  lemma ImageOfPair(t: Tables, o: Options, l: int, c: int, bound: nat)
    requires t.WellFormed() && !o.charbound && Below(t, [l, c], bound)
    ensures DecomposeAll(t, [l, c], o, 0, bound) == Cells(Image(t, o, l) + Image(t, o, c), 0)
  {
    ExpansionIsFlatMap(t, [l, c], o, bound);
    FlatMapCons(ImageFn(t, o), l, [c]);
    FlatMapOne(ImageFn(t, o), c);
    assert [l] + [c] == [l, c];
  }

  lemma CompositeRoute(t: Tables, o: Options, l: int, c: int, p: int)
    requires t.WellFormed() && Plain(o) && t.Listed(l, c, p)
    ensures RouteOf(t, p, o) == Expand(t.prop(p).decompIndex)
    ensures SequenceFits(t.sequences, t.prop(p).decompIndex) && SequenceAt(t.sequences, t.prop(p).decompIndex) == [l, c]
    ensures Below(t, [l, c], t.rank(p))
  {
    assert t.CompositeOk(l, c, p);
  }

  lemma PlainTransparent(t: Tables, o: Options)
    requires t.WellFormed() && Plain(o)
    ensures Transparent(t, o)
  {
    forall l, c, p | t.Listed(l, c, p) && Fixed(t, o, c)
      ensures Image(t, o, p) == Image(t, o, l) + [c]
    {
      CompositeRoute(t, o, l, c, p);
      ImageOfPair(t, o, l, c, t.rank(p));
    }
  }

  lemma SyllableArithmetic(l: int, v: int, x: int)
    requires 0 <= l < LCOUNT && 0 <= v < VCOUNT && 0 <= x < TCOUNT
    ensures var s := (l * VCOUNT + v) * TCOUNT + x;
      0 <= s < SCOUNT && s / NCOUNT == l && s % NCOUNT / TCOUNT == v && s % TCOUNT == x
  {
    var s := (l * VCOUNT + v) * TCOUNT + x;
    assert s == l * NCOUNT + (v * TCOUNT + x);
    assert 0 <= v * TCOUNT + x < NCOUNT;
    assert s / NCOUNT == l && s % NCOUNT == v * TCOUNT + x;
  }

  /** Composing a syllable adds one jamo to its decomposition. */
  lemma HangulCompositeImage(l: int, c: int, p: int)
    requires (IsHangulL(l) && IsHangulV(c) && p == SBASE + ((l - LBASE) * VCOUNT + (c - VBASE)) * TCOUNT)
          || (IsHangulSyllable(l) && (l - SBASE) % TCOUNT == 0 && IsHangulT(c) && p == l + (c - TBASE))
    ensures IsHangulSyllable(p)
    ensures HangulDecomposition(p) == (if IsHangulL(l) then [l] else HangulDecomposition(l)) + [c]
  {
    if IsHangulL(l) {
      SyllableArithmetic(l - LBASE, c - VBASE, 0);
    } else {
      var s := l - SBASE;
      var li, vi := s / NCOUNT, s % NCOUNT / TCOUNT;
      assert s == (li * VCOUNT + vi) * TCOUNT;
      SyllableArithmetic(li, vi, c - TBASE);
    }
  }

  lemma CompositeImage(t: Tables, o: Options, l: int, c: int)
    requires t.WellFormed() && Normalizing(o) && !o.charbound && Transparent(t, o)
    requires Fixed(t, o, c) && Composite(t, l, c).Some?
    ensures Image(t, o, Composite(t, l, c).value) == Image(t, o, l) + [c]
    ensures t.Class()(Composite(t, l, c).value) == 0
  {
    var p := Composite(t, l, c).value;
    if (IsHangulL(l) && IsHangulV(c)) || (IsHangulSyllable(l) && (l - SBASE) % TCOUNT == 0 && IsHangulT(c)) {
      HangulCompositeImage(l, c, p);
      assert RouteOf(t, p, o) == Syllable;
      if IsHangulL(l) {
        JamoFixed(t, o, l);
      }
    } else {
      TableCompositeIs(t, l, c, p);
      assert t.CompositeOk(l, c, p);
    }
  }

  /** Whatever is not a starter in `out` is left as it is by the options. */
  ghost predicate MarksFixed(t: Tables, o: Options, out: seq<int>)
    requires t.WellFormed()
  {
    forall j :: 0 <= j < |out| && t.Class()(out[j]) > 0 ==> Fixed(t, o, out[j])
  }

  /** Appending `c` keeps the equivalence. */
  lemma AppendPreserves(ccc: int -> nat, f: int -> seq<int>, out: seq<int>, x: seq<int>, c: int)
    requires Order(ccc, FlatMap(f, out)) == Order(ccc, x) && f(c) == [c]
    ensures Order(ccc, FlatMap(f, out + [c])) == Order(ccc, x + [c])
  {
    FlatMapSnoc(f, out, c);
    OrderPrefix(ccc, FlatMap(f, out), [c]);
    OrderPrefix(ccc, x, [c]);
  }

  lemma FlatMapAround(f: int -> seq<int>, a: seq<int>, l: int, m: seq<int>)
    requires forall j :: 0 <= j < |m| ==> f(m[j]) == [m[j]]
    ensures FlatMap(f, a + [l] + m) == FlatMap(f, a) + f(l) + m
  {
    FlatMapConcat(f, a + [l], m);
    FlatMapSnoc(f, a, l);
    FlatMapFixed(f, m);
  }

  /** A mark that may pass all of `m` may as well stand behind it. */
  lemma MoveBehind(ccc: int -> nat, u: seq<int>, c: int, m: seq<int>, x: seq<int>)
    requires Order(ccc, u + m) == Order(ccc, x) && forall j :: 0 <= j < |m| ==> Reorderable(ccc, c, m[j])
    ensures Order(ccc, u + [c] + m) == Order(ccc, x + [c])
  {
    OrderMoveRight(ccc, u, c, m);
    OrderPrefix(ccc, u + m, [c]);
    OrderPrefix(ccc, x, [c]);
  }

  lemma Regroup(a: seq<int>, b: seq<int>, c: seq<int>, m: seq<int>)
    ensures a + (b + c) + m == (a + b) + c + m
  {
  }

  lemma AbsorbParts(ccc: int -> nat, f: int -> seq<int>, a: seq<int>, l: int, m: seq<int>, p: int, x: seq<int>, c: int)
    requires f(p) == f(l) + [c] && f(c) == [c]
    requires forall j :: 0 <= j < |m| ==> f(m[j]) == [m[j]]
    requires forall j :: 0 <= j < |m| ==> Reorderable(ccc, c, m[j])
    requires Order(ccc, FlatMap(f, a + [l] + m)) == Order(ccc, x)
    ensures Order(ccc, FlatMap(f, a + [p] + m)) == Order(ccc, x + [c])
  {
    FlatMapAround(f, a, l, m);
    FlatMapAround(f, a, p, m);
    Regroup(FlatMap(f, a), f(l), [c], m);
    MoveBehind(ccc, FlatMap(f, a) + f(l), c, m, x);
  }

  /** Composing `c` into the starter at `i`, past marks of lower class, keeps the equivalence. */
  lemma AbsorbPreserves(ccc: int -> nat, f: int -> seq<int>, out: seq<int>, i: nat, p: int, x: seq<int>, c: int)
    requires i < |out| && f(p) == f(out[i]) + [c] && f(c) == [c]
    requires forall j :: i < j < |out| ==> f(out[j]) == [out[j]] && Reorderable(ccc, c, out[j])
    requires Order(ccc, FlatMap(f, out)) == Order(ccc, x)
    ensures Order(ccc, FlatMap(f, out[i := p])) == Order(ccc, x + [c])
  {
    var a, l, m := out[..i], out[i], out[i + 1..];
    assert out == a + [l] + m && out[i := p] == a + [p] + m;
    forall j | 0 <= j < |m|
      ensures f(m[j]) == [m[j]] && Reorderable(ccc, c, m[j])
    {
      assert m[j] == out[i + 1 + j];
    }
    AbsorbParts(ccc, f, a, l, m, p, x, c);
  }

  lemma ComposeSnoc(t: Tables, s: seq<int>, c: int)
    ensures Compose(t, s + [c]) == if c < 0 then Compose(t, s) else ComposeStep(t, Compose(t, s), c)
  {
    assert (s + [c])[..|s|] == s;
  }

  /** The sequence decomposed and ordered. */
  ghost function Redone(t: Tables, o: Options, out: seq<int>): seq<int>
    requires t.WellFormed()
  {
    Order(t.Class(), FlatMap(ImageFn(t, o), out))
  }

  lemma StepAbsorbs(t: Tables, o: Options, out: seq<int>, x: seq<int>, c: int, i: nat)
    requires t.WellFormed() && Normalizing(o) && !o.charbound && Transparent(t, o)
    requires MarksFixed(t, o, out) && Fixed(t, o, c) && Redone(t, o, out) == Order(t.Class(), x)
    requires i == LastStarter(t.Class(), out) && !Blocked(t.Class(), out, i, c) && Composite(t, out[i], c).Some?
    ensures Redone(t, o, out[i := Composite(t, out[i], c).value]) == Order(t.Class(), x + [c])
    ensures MarksFixed(t, o, out[i := Composite(t, out[i], c).value])
  {
    var ccc, f := t.Class(), ImageFn(t, o);
    CompositeImage(t, o, out[i], c);
    forall j | i < j < |out|
      ensures f(out[j]) == [out[j]] && Reorderable(ccc, c, out[j])
    {
      assert Fixed(t, o, out[j]);
    }
    AbsorbPreserves(ccc, f, out, i, Composite(t, out[i], c).value, x, c);
  }

  lemma StepPreserves(t: Tables, o: Options, out: seq<int>, x: seq<int>, c: int)
    requires t.WellFormed() && Normalizing(o) && !o.charbound && Transparent(t, o)
    requires MarksFixed(t, o, out) && Fixed(t, o, c) && Redone(t, o, out) == Order(t.Class(), x)
    ensures Redone(t, o, ComposeStep(t, out, c)) == Order(t.Class(), x + [c])
    ensures MarksFixed(t, o, ComposeStep(t, out, c))
  {
    var i := LastStarter(t.Class(), out);
    if i >= 0 && !Blocked(t.Class(), out, i, c) && Composite(t, out[i], c).Some? {
      StepAbsorbs(t, o, out, x, c, i);
    } else {
      AppendPreserves(t.Class(), ImageFn(t, o), out, x, c);
    }
  }

  lemma FixedIsCodepoint(t: Tables, o: Options, c: int)
    requires t.WellFormed() && Fixed(t, o, c)
    ensures IsCodepoint(c)
  {
  }

  /**
   Composition preserves canonical equivalence: decomposing and ordering the composition of a fully
   decomposed sequence, in whatever order its marks are, gives its canonical order.
   */
  lemma {:induction false} ComposePreserves(t: Tables, o: Options, x: seq<int>)
    requires t.WellFormed() && Normalizing(o) && !o.charbound && Transparent(t, o)
    requires forall i :: 0 <= i < |x| ==> Fixed(t, o, x[i])
    ensures Redone(t, o, Compose(t, x)) == Order(t.Class(), x)
    ensures MarksFixed(t, o, Compose(t, x))
  {
    if x != [] {
      var w, c := x[..|x| - 1], x[|x| - 1];
      assert x == w + [c];
      ComposePreserves(t, o, w);
      FixedIsCodepoint(t, o, c);
      StepPreserves(t, o, Compose(t, w), w, c);
      ComposeSnoc(t, w, c);
    }
  }

  /** So nothing is lost of a sequence in canonical order. */
  lemma ComposeUndone(t: Tables, o: Options, x: seq<int>)
    requires t.WellFormed() && Normalizing(o) && !o.charbound && Transparent(t, o)
    requires Ordered(t.Class(), x) && forall i :: 0 <= i < |x| ==> Fixed(t, o, x[i])
    ensures Redone(t, o, Compose(t, x)) == x
  {
    ComposePreserves(t, o, x);
    OrderedFixed(t.Class(), x);
  }
}
