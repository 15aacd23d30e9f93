/** The ordering loop at the end of `utf8proc_decompose_custom`. */
module OrderingLoop {
  import opened CellMemory
  import opened CanonicalOrdering
  import opened UnicodeTables

  ghost predicate OrderedUpTo(ccc: int -> nat, s: seq<int>, pos: nat) {
    forall i :: 0 <= i < pos && i + 1 < |s| ==> !Reorderable(ccc, s[i], s[i + 1])
  }

  /** `s` with the cells at `pos` and `pos + 1` exchanged. */
  function Exchanged(s: seq<int>, pos: nat): (r: seq<int>)
    requires pos + 1 < |s|
    ensures |r| == |s|
  {
    s[pos := s[pos + 1]][pos + 1 := s[pos]]
  }

  lemma ExchangedAsConcat(s: seq<int>, pos: nat)
    requires pos + 1 < |s|
    ensures s == s[..pos] + [s[pos], s[pos + 1]] + s[pos + 2..]
    ensures Exchanged(s, pos) == s[..pos] + [s[pos + 1], s[pos]] + s[pos + 2..]
  {
  }

  /** Exchanging a reorderable pair keeps the canonical order and removes exactly one inversion. */
  lemma SwapStep(ccc: int -> nat, s: seq<int>, pos: nat)
    requires pos + 1 < |s| && Reorderable(ccc, s[pos], s[pos + 1])
    ensures Order(ccc, Exchanged(s, pos)) == Order(ccc, s)
    ensures Inversions(ccc, s) == Inversions(ccc, Exchanged(s, pos)) + 1
  {
    var u, v := s[..pos], s[pos + 2..];
    var a, b := s[pos], s[pos + 1];
    ExchangedAsConcat(s, pos);
    OrderSwap(ccc, u, a, b, v);
    SwapRemovesInversion(ccc, u, a, b, v);
  }

  lemma SwapOrderedUpTo(ccc: int -> nat, s: seq<int>, pos: nat)
    requires pos + 1 < |s| && Reorderable(ccc, s[pos], s[pos + 1]) && OrderedUpTo(ccc, s, pos)
    ensures OrderedUpTo(ccc, Exchanged(s, pos), if pos > 0 then pos - 1 else 1)
  {
  }

  /** Where the loop goes next; the cells change only when the pair is exchanged. */
  ghost predicate LoopStep(ccc: int -> nat, s: seq<int>, pos: nat, s': seq<int>, pos': nat)
    requires pos + 1 < |s|
  {
    if Reorderable(ccc, s[pos], s[pos + 1])
    then s' == Exchanged(s, pos) && pos' == (if pos > 0 then pos - 1 else 1)
    else s' == s && pos < pos' && (pos' == pos + 1 || (pos' == pos + 2 && ccc(s[pos + 1]) == 0))
  }

  /** Each step of the loop keeps the canonical order and comes closer to it. */
  lemma LoopProgress(ccc: int -> nat, s: seq<int>, pos: nat, s': seq<int>, pos': nat)
    requires pos + 1 < |s| && OrderedUpTo(ccc, s, pos) && LoopStep(ccc, s, pos, s', pos')
    ensures |s'| == |s| && Order(ccc, s') == Order(ccc, s) && OrderedUpTo(ccc, s', pos')
    ensures Inversions(ccc, s') < Inversions(ccc, s) || (Inversions(ccc, s') == Inversions(ccc, s) && pos < pos')
  {
    if Reorderable(ccc, s[pos], s[pos + 1]) {
      SwapStep(ccc, s, pos);
      SwapOrderedUpTo(ccc, s, pos);
    }
  }

  /** One turn of the loop at `pos`. */
  method Step(t: Tables, buffer: CellBuffer, wpos: nat, pos: nat) returns (next: nat)
    requires buffer.Valid() && pos + 1 < wpos <= buffer.size
    modifies buffer.mem
    ensures LoopStep(t.Class(), old(buffer.Cells()[..wpos]), pos, buffer.Cells()[..wpos], next)
    ensures buffer.Cells()[wpos..] == old(buffer.Cells()[wpos..])
  {
    ghost var s := buffer.Cells()[..wpos];
    var uc1 := buffer.Get(pos);
    assert uc1 == s[pos];
    if uc1 < 0 { return pos + 1; }
    var uc2 := buffer.Get(pos + 1);
    assert uc2 == s[pos + 1];
    if uc2 < 0 { return pos + 2; }
    var class1, class2 := t.prop(uc1).ccc, t.prop(uc2).ccc;
    if class1 > class2 && class2 > 0 {
      buffer.Set(pos, uc2);
      buffer.Set(pos + 1, uc1);
      assert buffer.Cells()[..wpos] == Exchanged(s, pos);
      next := if pos > 0 then pos - 1 else pos + 1;
    } else {
      next := pos + 1;
    }
  }

  /** Leaves the first `wpos` cells in canonical order, whatever they were, and always ends. */
  method Reorder(t: Tables, buffer: CellBuffer, wpos: nat)
    requires buffer.Valid() && wpos <= buffer.size
    modifies buffer.mem
    ensures buffer.Cells()[..wpos] == Order(t.Class(), old(buffer.Cells()[..wpos]))
    ensures buffer.Cells()[wpos..] == old(buffer.Cells()[wpos..])
  {
    ghost var ccc := t.Class();
    ghost var s: seq<int> := buffer.Cells()[..wpos];
    ghost var goal := Order(ccc, s);
    var pos := 0;
    while pos < wpos - 1
      invariant 0 <= pos
      invariant buffer.Cells()[wpos..] == old(buffer.Cells()[wpos..])
      invariant buffer.Cells()[..wpos] == s && Order(ccc, s) == goal && OrderedUpTo(ccc, s, pos)
      decreases Inversions(ccc, s), wpos - pos
    {
      var next := Step(t, buffer, wpos, pos);
      ghost var s' := buffer.Cells()[..wpos];
      LoopProgress(ccc, s, pos, s', next);
      s, pos := s', next;
    }
    OrderedFixed(ccc, s);
  }
}
