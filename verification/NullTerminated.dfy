/** Zero-terminated and length-bounded processing of the same text have the same outcome. */
module NullTerminated {
  import opened Bytes
  import opened Decomposition
  import opened Mapping
  import opened NormalForms
  import opened Normalization
  import opened Reencoding
  import opened TextDecomposition
  import opened UnicodeTables

  /** Option sets that differ at most in how the end of the text is found. */
  predicate SameButEnd(o: Options, q: Options) {
    o.(nullterm := q.nullterm) == q
  }

  lemma SameCharMap(t: Tables, custom: int -> int, o: Options, q: Options, cp: int, state: nat)
    requires t.WellFormed() && SameButEnd(o, q)
    ensures CharMapOf(t, custom, o)(cp, state) == CharMapOf(t, custom, q)(cp, state)
  {
    var x := custom(cp);
    SameImage(t, x, o, q, state);
    assert CharMapOf(t, custom, o)(cp, state) == DecomposeChar(t, x, o, state);
    assert CharMapOf(t, custom, q)(cp, state) == DecomposeChar(t, x, q, state);
  }

  ghost predicate Agree(f: CharMap, g: CharMap) {
    forall cp: int, st: nat :: f(cp, st) == g(cp, st)
  }

  lemma {:induction false} SameGather(f: CharMap, g: CharMap, text: Decoded, state: nat, done: seq<int>)
    requires Agree(f, g)
    ensures Gather(f, text, state, done) == Gather(g, text, state, done)
    decreases |text.cps|
  {
    if text.cps != [] {
      var cp := text.cps[0];
      var d := f(cp, state);
      assert d == g(cp, state);
      if d.Cells? && |done| + |d.cells| <= MAX_CELLS {
        SameGather(f, g, text.(cps := text.cps[1..]), d.state, done + d.cells);
      }
    }
  }

  lemma SameDecomposeText(t: Tables, text: seq<Byte>, custom: int -> int, o: Options, q: Options)
    requires t.WellFormed() && SameButEnd(o, q)
    ensures DecomposeText(t, text, custom, o) == DecomposeText(t, text, custom, q)
  {
    forall cp, st: nat
      ensures CharMapOf(t, custom, o)(cp, st) == CharMapOf(t, custom, q)(cp, st)
    {
      SameCharMap(t, custom, o, q, cp, st);
    }
    SameGather(CharMapOf(t, custom, o), CharMapOf(t, custom, q), Decode(text), 0, []);
  }

  lemma {:induction false} SameConvertFrom(s: seq<int>, o: Options, q: Options, i: nat)
    requires SameButEnd(o, q) && i <= |s|
    ensures ConvertFrom(s, o, i) == ConvertFrom(s, q, i)
    decreases |s| - i
  {
    if i < |s| {
      SameConvertFrom(s, o, q, i + Width(s, i));
    }
  }

  lemma SameReencoded(t: Tables, cells: seq<int>, o: Options, q: Options)
    requires SameButEnd(o, q)
    ensures Reencoded(t, cells, o) == Reencoded(t, cells, q)
  {
    SameConvertFrom(cells, o, q, 0);
  }

  /** The outcome of mapping a text, error code included, does not depend on the flag. */
  lemma SameMapText(t: Tables, text: seq<Byte>, custom: int -> int, o: Options, q: Options)
    requires t.WellFormed() && SameButEnd(o, q)
    ensures MapText(t, text, custom, o) == MapText(t, text, custom, q)
  {
    SameDecomposeText(t, text, custom, o, q);
    var d := DecomposeText(t, text, custom, o);
    if d.Text? {
      SameReencoded(t, d.cells, o, q);
    }
  }

  /**
   A text without zeros is mapped to the same bytes or refused with the same code, whether a zero ends it or its
   length is given, whatever lies behind it in memory.
   */
  lemma TerminatedAsBounded(t: Tables, s: seq<Byte>, behind: seq<Byte>, after: seq<Byte>, strlen: int, custom: int -> int, o: Options)
    requires t.WellFormed() && ZeroFreeText(s)
    ensures Readable(s + [0] + behind, strlen, true) && Readable(s + after, |s|, false)
    ensures MapText(t, TextOf(s + [0] + behind, strlen, true), custom, o.(nullterm := true))
         == MapText(t, TextOf(s + after, |s|, false), custom, o.(nullterm := false))
  {
    TerminatedText(s, behind, strlen);
    assert (s + after)[..|s|] == s;
    SameMapText(t, s, custom, o.(nullterm := true), o.(nullterm := false));
  }

  /** The two calls of `utf8proc_map_custom` return the same length or error code and the same terminated bytes. */
  method MapBothWays(t: Tables, s: seq<Byte>, behind: seq<Byte>, after: seq<Byte>, strlen: int, o: Options, custom: int -> int)
    returns (terminated: (int, seq<Byte>), bounded: (int, seq<Byte>))
    requires t.WellFormed() && ZeroFreeText(s)
    ensures terminated == bounded
  {
    TerminatedAsBounded(t, s, behind, after, strlen, custom, o);
    var r, dst := MapCustom(t, s + [0] + behind, strlen, o.(nullterm := true), custom);
    terminated := (r, dst);
    r, dst := MapCustom(t, s + after, |s|, o.(nullterm := false), custom);
    bounded := (r, dst);
  }
}
