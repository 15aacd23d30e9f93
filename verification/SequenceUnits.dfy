/** The packing of codepoint sequences: UTF-16 units, one after the other, read back as the codepoints. */
module SequenceUnits {
  import opened UnicodeTables

  /** The units of a codepoint: itself, or a surrogate pair. */
  function UnitsOf(c: int): (u: seq<nat>)
    requires IsScalar(c)
  {
    if c < 0x1_0000 then [c] else [0xD800 + (c - 0x1_0000) / 0x400, 0xDC00 + (c - 0x1_0000) % 0x400]
  }

  function Units(cps: seq<int>): seq<nat>
    requires forall i :: 0 <= i < |cps| ==> IsScalar(cps[i])
  {
    if cps == [] then [] else UnitsOf(cps[0]) + Units(cps[1..])
  }

  /** The units of one codepoint are read as that codepoint, and no more of them. */
  lemma EntryBack(q: seq<nat>, pos: nat, c: int)
    requires IsScalar(c) && pos + |UnitsOf(c)| <= |q| && q[pos..pos + |UnitsOf(c)|] == UnitsOf(c)
    ensures EntryFits(q, pos) && EntryAt(q, pos) == c && EntryWidth(q, pos) == |UnitsOf(c)|
  {
    var u := UnitsOf(c);
    assert q[pos] == q[pos..pos + |u|][0] == u[0];
    if c >= 0x1_0000 {
      assert q[pos + 1] == q[pos..pos + |u|][1] == u[1];
    }
  }

  /** The units of `cps` stand at `pos`. */
  ghost predicate UnitsAt(q: seq<nat>, pos: nat, cps: seq<int>)
    requires forall i :: 0 <= i < |cps| ==> IsScalar(cps[i])
  {
    pos + |Units(cps)| <= |q| && q[pos..pos + |Units(cps)|] == Units(cps)
  }

  lemma SliceParts(q: seq<nat>, pos: nat, u: seq<nat>, r: seq<nat>)
    requires pos + |u| + |r| <= |q| && q[pos..pos + |u| + |r|] == u + r
    ensures q[pos..pos + |u|] == u && q[pos + |u|..pos + |u| + |r|] == r
  {
    var at := q[pos..pos + |u| + |r|];
    assert at[..|u|] == u && at[|u|..] == r;
    assert q[pos..pos + |u|] == at[..|u|];
    assert q[pos + |u|..pos + |u| + |r|] == at[|u|..];
  }

  lemma {:induction false} EntriesBack(q: seq<nat>, pos: nat, cps: seq<int>)
    requires forall i :: 0 <= i < |cps| ==> IsScalar(cps[i])
    requires UnitsAt(q, pos, cps)
    ensures EntriesFit(q, pos, |cps|) && EntriesAt(q, pos, |cps|) == cps
    decreases |cps|
  {
    if cps != [] {
      var u, r := UnitsOf(cps[0]), Units(cps[1..]);
      SliceParts(q, pos, u, r);
      EntryBack(q, pos, cps[0]);
      EntriesBack(q, pos + |u|, cps[1..]);
    }
  }

  /** Up to three codepoints have their number in the index. */
  lemma ShortSequence(q: seq<nat>, pos: nat, cps: seq<int>, index: nat)
    requires (forall i :: 0 <= i < |cps| ==> IsScalar(cps[i])) && UnitsAt(q, pos, cps)
    requires pos < 0x4000 && 0 < |cps| <= 3 && index == 0x4000 * (|cps| - 1) + pos
    ensures SequenceFits(q, index) && SequenceAt(q, index) == cps
  {
    EntriesBack(q, pos, cps);
    assert index % 0x4000 == pos && index / 0x4000 == |cps| - 1;
  }

  /** More of them have it in a unit in front. */
  lemma LongSequence(q: seq<nat>, pos: nat, cps: seq<int>)
    requires (forall i :: 0 <= i < |cps| ==> IsScalar(cps[i])) && UnitsAt(q, pos + 1, cps)
    requires pos < 0x4000 && pos < |q| && cps != [] && q[pos] == |cps| - 1
    ensures SequenceFits(q, 0xC000 + pos) && SequenceAt(q, 0xC000 + pos) == cps
  {
    EntriesBack(q, pos + 1, cps);
    assert (0xC000 + pos) % 0x4000 == pos && (0xC000 + pos) / 0x4000 == 3;
  }
}
