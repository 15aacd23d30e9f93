/** What composition makes of a text, said of the text and the result alone. */
module ComposedText {
  import opened Composition
  import opened Decomposition
  import opened UnicodeTables

  /** Marks, all of them. */
  ghost predicate Marks(t: Tables, m: seq<int>) {
    forall j :: 0 <= j < |m| ==> m[j] >= 0 && t.prop(m[j]).ccc > 0
  }

  /** Every mark of `m` has a class below that of `c`. */
  ghost predicate AllBelow(t: Tables, m: seq<int>, c: int) {
    forall j :: 0 <= j < |m| ==> t.prop(m[j]).ccc < t.prop(c).ccc
  }

  lemma {:induction false} LastStarterAt(ccc: int -> nat, a: seq<int>, l: int, m: seq<int>)
    requires ccc(l) == 0 && forall j :: 0 <= j < |m| ==> ccc(m[j]) > 0
    ensures LastStarter(ccc, a + [l] + m) == |a|
  {
    var out := a + [l] + m;
    assert out[|a|] == l;
    assert forall j :: 0 <= j < |m| ==> out[|a| + 1 + j] == m[j];
  }

  lemma ReplaceAt(a: seq<int>, l: int, m: seq<int>, p: int)
    ensures (a + [l] + m)[|a|] == l && (a + [l] + m)[|a| := p] == a + [p] + m
  {
  }

  lemma BlockedIff(t: Tables, a: seq<int>, l: int, m: seq<int>, c: int)
    requires Marks(t, m) && c >= 0
    ensures Blocked(t.Class(), a + [l] + m, |a|, c) <==> !AllBelow(t, m, c)
  {
    var ccc, out := t.Class(), a + [l] + m;
    assert forall j :: 0 <= j < |m| ==> out[|a| + 1 + j] == m[j];
    if j: nat :| j < |m| && ccc(m[j]) >= ccc(c) {
      assert ccc(out[|a| + 1 + j]) >= ccc(c);
    }
    if j :| |a| < j < |out| && (ccc(out[j]) == 0 || ccc(out[j]) >= ccc(c)) {
      assert out[j] == m[j - |a| - 1];
    }
  }

  /**
   * The next character is composed with the last starter exactly if the two have a composite and every mark between
   * them has a lower class; otherwise it stands behind what there is.
   */
  lemma ComposeNext(t: Tables, s: seq<int>, a: seq<int>, l: int, m: seq<int>, c: int)
    requires Compose(t, s) == a + [l] + m && l >= 0 && t.prop(l).ccc == 0 && Marks(t, m) && c >= 0
    ensures AllBelow(t, m, c) && Composite(t, l, c).Some? ==> Compose(t, s + [c]) == a + [Composite(t, l, c).value] + m
    ensures !AllBelow(t, m, c) || Composite(t, l, c).None? ==> Compose(t, s + [c]) == a + [l] + m + [c]
  {
    ComposeSnoc(t, s, c);
    LastStarterAt(t.Class(), a, l, m);
    BlockedIff(t, a, l, m, c);
    ReplaceAt(a, l, m, if Composite(t, l, c).Some? then Composite(t, l, c).value else 0);
  }

  /** Sentinels are dropped wherever they stand. */
  lemma ComposeSentinel(t: Tables, s: seq<int>, c: int)
    requires c < 0
    ensures Compose(t, s + [c]) == Compose(t, s)
  {
    assert (s + [c])[..|s|] == s;
  }

  /** Before the first starter every character is kept. */
  lemma ComposeNoStarter(t: Tables, s: seq<int>, c: int)
    requires Marks(t, Compose(t, s)) && c >= 0
    ensures Compose(t, s + [c]) == Compose(t, s) + [c]
  {
    ComposeSnoc(t, s, c);
  }

  /** A starter that composes with none of the marks behind it keeps them all. */
  lemma {:induction false} MarksStay(t: Tables, s: seq<int>, a: seq<int>, l: int, m: seq<int>)
    requires Compose(t, s) == a + [l] && l >= 0 && t.prop(l).ccc == 0 && Marks(t, m)
    requires forall j :: 0 <= j < |m| ==> Composite(t, l, m[j]) == None
    ensures Compose(t, s + m) == a + [l] + m
  {
    if m == [] {
      assert s + m == s && a + [l] + m == a + [l];
    } else {
      var w, c := m[..|m| - 1], m[|m| - 1];
      assert m == w + [c] && s + m == s + w + [c];
      MarksStay(t, s, a, l, w);
      ComposeNext(t, s + w, a, l, w, c);
      assert a + [l] + w + [c] == a + [l] + m;
    }
  }

  /**
   * A starter `l` behind any text, marks that do not compose with it, and a character `c`: `c` is composed with the
   * starter, past all the marks, if they have lower classes; if one has the class of `c` or a higher one, or there is
   * no composite, all stay as they are.
   */
  lemma ComposePastMarks(t: Tables, s: seq<int>, a: seq<int>, l: int, m: seq<int>, c: int)
    requires Compose(t, s) == a + [l] && l >= 0 && t.prop(l).ccc == 0 && Marks(t, m) && c >= 0
    requires forall j :: 0 <= j < |m| ==> Composite(t, l, m[j]) == None
    ensures AllBelow(t, m, c) && Composite(t, l, c).Some? ==> Compose(t, s + m + [c]) == a + [Composite(t, l, c).value] + m
    ensures !AllBelow(t, m, c) || Composite(t, l, c).None? ==> Compose(t, s + m + [c]) == a + [l] + m + [c]
  {
    MarksStay(t, s, a, l, m);
    ComposeNext(t, s + m, a, l, m, c);
  }

  lemma NothingBefore(x: int)
    ensures [] + [x] == [x]
  {
  }

  lemma ComposeFirst(t: Tables, l: int)
    requires l >= 0
    ensures Compose(t, [l]) == [] + [l] == [l]
  {
    ComposeNoStarter(t, [], l);
  }

  /** The same at the start of a text. */
  lemma ComposeStarter(t: Tables, l: int, m: seq<int>, c: int)
    requires l >= 0 && t.prop(l).ccc == 0 && Marks(t, m) && c >= 0
    requires forall j :: 0 <= j < |m| ==> Composite(t, l, m[j]) == None
    ensures AllBelow(t, m, c) && Composite(t, l, c).Some? ==> Compose(t, [l] + m + [c]) == [Composite(t, l, c).value] + m
    ensures !AllBelow(t, m, c) || Composite(t, l, c).None? ==> Compose(t, [l] + m + [c]) == [l] + m + [c]
  {
    ComposeFirst(t, l);
    ComposePastMarks(t, [l], [], l, m, c);
    if Composite(t, l, c).Some? {
      NothingBefore(Composite(t, l, c).value);
    }
  }

  /** Leading consonants are starters. */
  ghost predicate ConsonantsOk(t: Tables) {
    forall c :: IsHangulL(c) ==> t.prop(c).ccc == 0
  }

  lemma ComposeAdjacent(t: Tables, s: seq<int>, a: seq<int>, l: int, c: int)
    requires Compose(t, s) == a + [l] && l >= 0 && t.prop(l).ccc == 0 && c >= 0 && Composite(t, l, c).Some?
    ensures Compose(t, s + [c]) == a + [Composite(t, l, c).value]
  {
    assert a + [l] + [] == a + [l];
    ComposeNext(t, s, a, l, [], c);
    var p := Composite(t, l, c).value;
    assert a + [p] + [] == a + [p];
  }

  /**
   * What has a composite: a leading consonant and a vowel, a syllable of just those and a trailing consonant, and the
   * pairs listed in the tables.
   */
  lemma CompositeIff(t: Tables, l: int, c: int, p: int)
    requires t.WellFormed()
    ensures Composite(t, l, c) == Some(p) <==>
      if 0x1100 <= l <= 0x1112 && 0x1161 <= c <= 0x1175 then p == 0xAC00 + ((l - 0x1100) * 21 + (c - 0x1161)) * 28
      else if 0xAC00 <= l <= 0xD7A3 && (l - 0xAC00) % 28 == 0 && 0x11A8 <= c <= 0x11C2 then p == l + (c - 0x11A7)
      else t.Listed(l, c, p)
  {
    TableCompositeIs(t, l, c, p);
  }

  /** The syllable of the first two jamo. */
  function OpenSyllable(l: int, v: int): int {
    SBASE + ((l - LBASE) * VCOUNT + (v - VBASE)) * TCOUNT
  }

  lemma SyllableComposites(t: Tables, u: int)
    requires t.WellFormed() && IsHangulSyllable(u)
    ensures var r := HangulDecomposition(u);
      2 <= |r| <= 3 && r[0] >= 0 && r[1] >= 0
      && Composite(t, r[0], r[1]) == Some(OpenSyllable(r[0], r[1])) && t.prop(OpenSyllable(r[0], r[1])).ccc == 0 && OpenSyllable(r[0], r[1]) >= 0
    ensures var r := HangulDecomposition(u);
      if |r| == 2 then OpenSyllable(r[0], r[1]) == u
      else r[2] >= 0 && Composite(t, OpenSyllable(r[0], r[1]), r[2]) == Some(u)
  {
    HangulParts(u);
  }

  /** Behind any text, a leading consonant and the rest of the jamo of a syllable are composed to that syllable. */
  lemma ComposeSyllable(t: Tables, s: seq<int>, a: seq<int>, u: int)
    requires t.WellFormed() && ConsonantsOk(t) && IsHangulSyllable(u)
    requires Compose(t, s) == a + [HangulDecomposition(u)[0]]
    ensures Compose(t, s + HangulDecomposition(u)[1..]) == a + [u]
  {
    var r := HangulDecomposition(u);
    HangulParts(u);
    SyllableComposites(t, u);
    var lv := OpenSyllable(r[0], r[1]);
    ComposeAdjacent(t, s, a, r[0], r[1]);
    if |r| == 3 {
      ComposeAdjacent(t, s + [r[1]], a, lv, r[2]);
      assert s + r[1..] == s + [r[1]] + [r[2]];
    } else {
      assert r[1..] == [r[1]];
    }
  }

  /** The decomposition of a syllable is composed to the syllable. */
  lemma ComposeHangul(t: Tables, u: int)
    requires t.WellFormed() && ConsonantsOk(t) && IsHangulSyllable(u)
    ensures Compose(t, HangulDecomposition(u)) == [u]
  {
    var r := HangulDecomposition(u);
    SyllableComposites(t, u);
    ComposeFirst(t, r[0]);
    ComposeSyllable(t, [r[0]], [], u);
    NothingBefore(u);
    HeadAndTail(r);
  }

  lemma HeadAndTail(r: seq<int>)
    requires r != []
    ensures [r[0]] + r[1..] == r
  {
  }
}
