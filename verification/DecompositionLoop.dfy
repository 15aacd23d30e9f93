/** The recursion of `utf8proc_decompose_char` writing into a buffer that may be too small. */
module DecompositionLoop {
  import opened CellMemory
  import opened Decomposition
  import opened Grapheme
  import opened UnicodeTables

  /** `s` after the leading `cells` that fit into `bufsize` places were stored from `base` on. */
  ghost function Stored(s: seq<int>, base: nat, cells: seq<int>, bufsize: nat): (r: seq<int>)
    requires bufsize > 0 ==> base + bufsize <= |s|
    ensures |r| == |s|
  {
    if cells == [] then s
    else
      var k := |cells| - 1;
      var r := Stored(s, base, cells[..k], bufsize);
      if k < bufsize then r[base + k := cells[k]] else r
  }

  /** What is left of `bufsize` places after `used` of them. */
  function Left(bufsize: nat, used: nat): nat {
    if bufsize > used then bufsize - used else 0
  }

  lemma StoredSnoc(s: seq<int>, base: nat, cells: seq<int>, v: int, bufsize: nat)
    requires bufsize > 0 ==> base + bufsize <= |s|
    ensures var r := Stored(s, base, cells, bufsize);
      Stored(s, base, cells + [v], bufsize) == if |cells| < bufsize then r[base + |cells| := v] else r
  {
    assert (cells + [v])[..|cells|] == cells;
  }

  /** With room for all cells, they are what the buffer holds from `base` on, and nothing else changed. */
  lemma {:induction false} StoredAll(s: seq<int>, base: nat, cells: seq<int>, bufsize: nat)
    requires |cells| <= bufsize && base + bufsize <= |s|
    ensures Stored(s, base, cells, bufsize) == s[..base] + cells + s[base + |cells|..]
  {
    if cells == [] {
      assert s == s[..base] + cells + s[base..];
    } else {
      var k := |cells| - 1;
      StoredAll(s, base, cells[..k], bufsize);
      var r := s[..base] + cells[..k] + s[base + k..];
      assert r[base + k := cells[k]] == s[..base] + cells + s[base + |cells|..];
    }
  }

  lemma {:induction false} StoredConcat(s: seq<int>, base: nat, a: seq<int>, b: seq<int>, bufsize: nat)
    requires bufsize > 0 ==> base + bufsize <= |s|
    ensures Stored(Stored(s, base, a, bufsize), base + |a|, b, Left(bufsize, |a|)) == Stored(s, base, a + b, bufsize)
    decreases |b|
  {
    if b == [] {
      assert a + b == a;
    } else {
      var w, x := b[..|b| - 1], b[|b| - 1];
      assert b == w + [x] && a + b == (a + w) + [x];
      StoredConcat(s, base, a, w, bufsize);
      StoredSnoc(s, base, a + w, x, bufsize);
      StoredSnoc(Stored(s, base, a, bufsize), base + |a|, w, x, Left(bufsize, |a|));
    }
  }

  /** Stores the next cell if there is room for it. */
  method Put(dst: CellBuffer, base: nat, bufsize: nat, k: nat, v: Cell, ghost s: seq<int>, ghost done: seq<int>)
    requires dst.Valid() && |s| == dst.size && (bufsize > 0 ==> base + bufsize <= dst.size)
    requires |done| == k && dst.Cells() == Stored(s, base, done, bufsize)
    modifies dst.mem
    ensures dst.Cells() == Stored(s, base, done + [v], bufsize)
  {
    StoredSnoc(s, base, done, v, bufsize);
    if bufsize >= k + 1 {
      dst.Set(base + k, v);
    }
  }

  ghost function Output(d: Decomposed): seq<int> {
    if d.Cells? then d.cells else []
  }

  /** A call returned what `d` says: the full length needed and the new state, or the error code. */
  predicate Reports(d: Decomposed, r: int, state: nat) {
    match d
    case Failed(code) => r == code
    case Cells(cells, state') => r == |cells| && state == state'
  }

  method WriteSyllable(uc: int, dst: CellBuffer, base: nat, bufsize: nat) returns (r: int)
    requires IsHangulSyllable(uc)
    requires dst.Valid() && (bufsize > 0 ==> base + bufsize <= dst.size)
    modifies dst.mem
    ensures r == |HangulDecomposition(uc)|
    ensures dst.Cells() == Stored(old(dst.Cells()), base, HangulDecomposition(uc), bufsize)
  {
    ghost var s := dst.Cells();
    var sindex := uc - SBASE;
    var l, v := LBASE + sindex / NCOUNT, VBASE + sindex % NCOUNT / TCOUNT;
    Put(dst, base, bufsize, 0, l, s, []);
    Put(dst, base, bufsize, 1, v, s, [l]);
    assert [l] + [v] == [l, v];
    var tindex := sindex % TCOUNT;
    if tindex == 0 { return 2; }
    Put(dst, base, bufsize, 2, TBASE + tindex, s, [l, v]);
    assert [l, v] + [TBASE + tindex] == [l, v, TBASE + tindex];
    return 3;
  }

  method WriteLiteral(t: Tables, uc: int, dst: CellBuffer, base: nat, bufsize: nat, o: Options, state: nat)
    returns (r: int, state': nat)
    requires IsCodepoint(uc)
    requires dst.Valid() && (bufsize > 0 ==> base + bufsize <= dst.size)
    modifies dst.mem
    ensures Reports(Literal(t, uc, o, state), r, state')
    ensures dst.Cells() == Stored(old(dst.Cells()), base, Literal(t, uc, o, state).cells, bufsize)
  {
    ghost var s := dst.Cells();
    state' := state;
    if o.charbound {
      var v := BreakExtended(START, t.prop(uc).boundclass, ICB_NONE, t.prop(uc).conjunct, state);
      state' := v.state;
      if v.breaks {
        Put(dst, base, bufsize, 0, -1, s, []);
        Put(dst, base, bufsize, 1, uc, s, [-1]);
        assert [-1] + [uc] == [-1, uc];
        return 2, state';
      }
    }
    Put(dst, base, bufsize, 0, uc, s, []);
    return 1, state';
  }

  /**
   `utf8proc_decompose_char`.  The length returned and the new state do not depend on the room
   offered, and what fits is stored; with no room nothing is stored.
   */
  method DecomposeCharInto(t: Tables, uc: int, dst: CellBuffer, base: nat, bufsize: nat, o: Options, state: nat)
    returns (r: int, state': nat)
    requires t.WellFormed()
    requires dst.Valid() && (bufsize > 0 ==> base + bufsize <= dst.size)
    modifies dst.mem
    ensures Reports(DecomposeChar(t, uc, o, state), r, state')
    ensures dst.Cells() == Stored(old(dst.Cells()), base, Output(DecomposeChar(t, uc, o, state)), bufsize)
    decreases o.lump, if IsCodepoint(uc) then t.rank(uc) else 0, 1, 0
  {
    match RouteOf(t, uc, o)
    case Reject => return ERROR_NOTASSIGNED, state;
    case Syllable =>
      r := WriteSyllable(uc, dst, base, bufsize);
      state' := state;
    case Drop => return 0, state;
    case Lump(target) =>
      r, state' := DecomposeCharInto(t, target, dst, base, bufsize, o.(lump := false), state);
    case Expand(index) =>
      r, state' := WriteSequence(t, index, dst, base, bufsize, o, state, t.rank(uc));
    case Keep =>
      r, state' := WriteLiteral(t, uc, dst, base, bufsize, o, state);
  }

  /** With `done` written, the `n` entries from position `entry` on still have to be, to reach `goal`. */
  ghost predicate Pending(t: Tables, o: Options, bound: nat, goal: Decomposed, entry: nat, n: nat, state: nat, done: seq<int>)
    requires t.WellFormed()
  {
    && EntriesFit(t.sequences, entry, n)
    && Below(t, EntriesAt(t.sequences, entry, n), bound)
    && goal == Prepend(done, DecomposeAll(t, EntriesAt(t.sequences, entry, n), o, state, bound))
  }

  lemma NextEntry(q: seq<nat>, pos: nat, n: nat)
    requires n > 0 && EntriesFit(q, pos, n)
    ensures EntriesAt(q, pos, n)[0] == EntryAt(q, pos)
    ensures EntriesAt(q, pos, n)[1..] == EntriesAt(q, pos + EntryWidth(q, pos), n - 1)
  {
  }

  lemma PrependConcat(a: seq<int>, b: seq<int>, d: Decomposed)
    ensures Prepend(a, Prepend(b, d)) == Prepend(a + b, d)
  {
    if d.Cells? {
      assert a + (b + d.cells) == a + b + d.cells;
    }
  }

  lemma PendingStep(t: Tables, o: Options, bound: nat, goal: Decomposed, entry: nat, n: nat, state: nat, done: seq<int>)
    requires t.WellFormed() && n > 0 && Pending(t, o, bound, goal, entry, n, state, done)
    ensures EntryFits(t.sequences, entry)
    ensures Below(t, [EntryAt(t.sequences, entry)], bound)
    ensures var d := DecomposeChar(t, EntryAt(t.sequences, entry), o, state);
      d.Cells? && Pending(t, o, bound, goal, entry + EntryWidth(t.sequences, entry), n - 1, d.state, done + d.cells)
  {
    var es := EntriesAt(t.sequences, entry, n);
    NextEntry(t.sequences, entry, n);
    AssignedNeverFails(t, es[0], o, state);
    var d := DecomposeChar(t, es[0], o, state);
    PrependConcat(done, d.cells, DecomposeAll(t, es[1..], o, d.state, bound));
  }

  lemma PendingDone(t: Tables, o: Options, bound: nat, goal: Decomposed, entry: nat, state: nat, done: seq<int>)
    requires t.WellFormed() && Pending(t, o, bound, goal, entry, 0, state, done)
    ensures goal == Cells(done, state)
  {
  }

  /** Writes the expansion of `cp` behind the cells already `done`. */
  method WriteEntry(t: Tables, cp: int, dst: CellBuffer, base: nat, bufsize: nat, o: Options, state: nat, written: nat,
                    ghost s: seq<int>, ghost done: seq<int>, ghost bound: nat)
    returns (r: int, state': nat)
    requires t.WellFormed() && Below(t, [cp], bound)
    requires dst.Valid() && |s| == dst.size && (bufsize > 0 ==> base + bufsize <= dst.size)
    requires written == |done| && dst.Cells() == Stored(s, base, done, bufsize)
    modifies dst.mem
    ensures var d := DecomposeChar(t, cp, o, state);
      d.Cells? && r == |d.cells| && state' == d.state && dst.Cells() == Stored(s, base, done + d.cells, bufsize)
    decreases o.lump, bound, 0, 0
  {
    assert [cp][0] == cp;
    AssignedNeverFails(t, cp, o, state);
    StoredConcat(s, base, done, DecomposeChar(t, cp, o, state).cells, bufsize);
    r, state' := DecomposeCharInto(t, cp, dst, base + written, Left(bufsize, written), o, state);
  }

  /** The loop over `len + 1` entries from position `first` on. */
  method WriteEntries(t: Tables, first: nat, count: nat, dst: CellBuffer, base: nat, bufsize: nat, o: Options,
                      state: nat, ghost goal: Decomposed, ghost bound: nat)
    returns (written: int, state': nat, ghost done: seq<int>)
    requires t.WellFormed() && Pending(t, o, bound, goal, first, count, state, [])
    requires dst.Valid() && (bufsize > 0 ==> base + bufsize <= dst.size)
    modifies dst.mem
    ensures goal == Cells(done, state') && written == |done|
    ensures dst.Cells() == Stored(old(dst.Cells()), base, done, bufsize)
    decreases o.lump, bound, 0, 1
  {
    ghost var s := dst.Cells();
    var entry, len := first, count - 1;
    written, state', done := 0, state, [];
    while len >= 0
      invariant -1 <= len && 0 <= entry && Pending(t, o, bound, goal, entry, len + 1, state', done)
      invariant written == |done| && dst.Cells() == Stored(s, base, done, bufsize)
    {
      PendingStep(t, o, bound, goal, entry, len + 1, state', done);
      var cp := EntryAt(t.sequences, entry);
      ghost var cells := DecomposeChar(t, cp, o, state').cells;
      var r;
      r, state' := WriteEntry(t, cp, dst, base, bufsize, o, state', written, s, done, bound);
      written, done := written + r, done + cells;  // no entry fails, so `written` cannot become negative
      entry, len := entry + EntryWidth(t.sequences, entry), len - 1;
    }
    PendingDone(t, o, bound, goal, entry, state', done);
  }

  /** `seqindex_write_char_decomposed`: decodes the entries one by one and writes each in turn. */
  method WriteSequence(t: Tables, index: nat, dst: CellBuffer, base: nat, bufsize: nat, o: Options, state: nat,
                       ghost bound: nat)
    returns (written: int, state': nat)
    requires t.WellFormed() && SequenceFits(t.sequences, index) && Below(t, SequenceAt(t.sequences, index), bound)
    requires dst.Valid() && (bufsize > 0 ==> base + bufsize <= dst.size)
    modifies dst.mem
    ensures Reports(DecomposeAll(t, SequenceAt(t.sequences, index), o, state, bound), written, state')
    ensures dst.Cells() ==
      Stored(old(dst.Cells()), base, Output(DecomposeAll(t, SequenceAt(t.sequences, index), o, state, bound)), bufsize)
    decreases o.lump, bound, 0, 2
  {
    ghost var goal := DecomposeAll(t, SequenceAt(t.sequences, index), o, state, bound);
    ExpansionNeverFails(t, SequenceAt(t.sequences, index), o, state, bound);
    var entry, len := index % 0x4000, index / 0x4000;
    if len >= 3 {
      len := t.sequences[entry];
      entry := entry + 1;
    }
    assert [] + goal.cells == goal.cells;
    ghost var done;
    written, state', done := WriteEntries(t, entry, len + 1, dst, base, bufsize, o, state, goal, bound);
  }
}
