/** The composition pass of `utf8proc_normalize_utf32`, which rewrites the buffer in place. */
module CompositionLoop {
  import opened CellMemory
  import opened Composition
  import opened UnicodeTables

  // ---------- looking up a pair ----------

  /** The linear search of a row, with its early exits, finds exactly the listed pairs. */
  method LookupPair(t: Tables, starterProperty: Property, c: int, ghost l: int) returns (r: Option<int>)
    requires t.WellFormed() && starterProperty == t.prop(l)
    ensures r == TableComposite(t, l, c)
  {
    assert t.RowOk(l);
    var idx := starterProperty.combIndex;
    ghost var goal := TableComposite(t, l, c);
    r := None;
    if idx < NO_COMBINATION && t.prop(c).combIsSecond {
      var len := starterProperty.combLength;
      var maxSecond := t.second[idx + len - 1];
      if c <= maxSecond {
        var off := 0;
        while off < len
          invariant 0 <= off <= len
          invariant forall k :: idx <= k < idx + off ==> t.second[k] < c
        {
          var second := t.second[idx + off];
          if c < second { break; }
          if c == second {
            assert t.ListedAt(l, c, t.combined[idx + off], idx + off);
            TableCompositeIs(t, l, c, t.combined[idx + off]);
            return Some(t.combined[idx + off]);
          }
          off := off + 1;
        }
      }
    }
    forall p
      ensures !t.Listed(l, c, p)
    {
    }
  }

  /** The composite of `l` and `c`, the row properties of `l` being fetched only when they are needed. */
  method FindComposite(t: Tables, l: int, c: int, cached: Option<Property>) returns (r: Option<int>, cached': Option<Property>)
    requires t.WellFormed() && (cached.Some? ==> cached.value == t.prop(l))
    ensures r == Composite(t, l, c)
    ensures cached'.Some? ==> cached'.value == t.prop(l)
  {
    cached' := cached;
    var lindex := l - LBASE;
    if 0 <= lindex < LCOUNT {
      var vindex := c - VBASE;
      if 0 <= vindex < VCOUNT {
        return Some(SBASE + (lindex * VCOUNT + vindex) * TCOUNT), None;
      }
    }
    var sindex := l - SBASE;
    if 0 <= sindex < SCOUNT && sindex % TCOUNT == 0 {
      var tindex := c - TBASE;
      if 0 < tindex < TCOUNT {
        return Some(l + tindex), None;
      }
    }
    if cached'.None? { cached' := Some(t.prop(l)); }
    r := LookupPair(t, cached'.value, c, l);
  }

  // ---------- the composition pass ----------

  /** What the pass carries from one cell to the next, besides the cells written. */
  datatype Pass = Pass(wpos: nat, starter: int, cached: Option<Property>, maxClass: int)

  /** The pass state is right for the cells `out` written so far. */
  ghost predicate PassOk(t: Tables, out: seq<int>, p: Pass) {
    && p.wpos == |out| && p.starter == LastStarter(t.Class(), out)
    && (p.starter >= 0 ==> p.maxClass == MaxClass(t.Class(), out, p.starter))
    && (p.cached.Some? ==> p.starter >= 0 && p.cached.value == t.prop(out[p.starter]))
  }

  lemma PassKeeps(t: Tables, out: seq<int>, p: Pass, c: int)
    requires PassOk(t, out, p) && c >= 0
    ensures PassOk(t, out + [c],
      if t.prop(c).ccc == 0 then Pass(p.wpos + 1, p.wpos, None, -1)
      else p.(wpos := p.wpos + 1, maxClass := if t.prop(c).ccc > p.maxClass then t.prop(c).ccc else p.maxClass))
  {
    assert (out + [c])[..|out|] == out;
  }

  lemma {:induction false} LastStarterReplaced(ccc: int -> nat, out: seq<int>, p: int)
    requires LastStarter(ccc, out) >= 0 && ccc(p) == 0
    ensures LastStarter(ccc, out[LastStarter(ccc, out) := p]) == LastStarter(ccc, out)
  {
    var i := LastStarter(ccc, out);
    var j := LastStarter(ccc, out[i := p]);
    assert ccc(out[i := p][i]) == 0;
  }

  lemma {:induction false} MaxClassReplaced(ccc: int -> nat, out: seq<int>, i: nat, p: int)
    requires i < |out|
    ensures MaxClass(ccc, out[i := p], i) == MaxClass(ccc, out, i)
    decreases |out|
  {
    var n := |out| - 1;
    if i < n {
      assert out[i := p][..n] == out[..n][i := p];
      MaxClassReplaced(ccc, out[..n], i, p);
    }
  }

  lemma CompositeIsStarter(t: Tables, l: int, c: int)
    requires t.WellFormed() && Composite(t, l, c).Some?
    ensures var p := Composite(t, l, c).value; IsCodepoint(p) && t.Class()(p) == 0
  {
    var p := Composite(t, l, c).value;
    if (IsHangulL(l) && IsHangulV(c)) || (IsHangulSyllable(l) && (l - SBASE) % TCOUNT == 0 && IsHangulT(c)) {
      HangulCompositeImage(l, c, p);
    } else {
      TableCompositeIs(t, l, c, p);
      assert t.CompositeOk(l, c, p);
    }
  }

  lemma PassAbsorbs(t: Tables, out: seq<int>, p: Pass, c: int)
    requires t.WellFormed() && PassOk(t, out, p) && p.starter >= 0 && Composite(t, out[p.starter], c).Some?
    ensures PassOk(t, out[p.starter := Composite(t, out[p.starter], c).value], p.(cached := None))
  {
    CompositeIsStarter(t, out[p.starter], c);
    LastStarterReplaced(t.Class(), out, Composite(t, out[p.starter], c).value);
    MaxClassReplaced(t.Class(), out, p.starter, Composite(t, out[p.starter], c).value);
  }

  /** The part of a turn that tries to compose: stores the composite over the starter if there is one. */
  method TryCompose(t: Tables, buffer: CellBuffer, c: Cell, p: Pass, ghost out: seq<int>) returns (composed: bool, p': Pass)
    requires t.WellFormed() && buffer.Valid() && c >= 0
    requires PassOk(t, out, p) && p.wpos <= buffer.size && buffer.Cells()[..p.wpos] == out
    modifies buffer.mem
    ensures composed ==> ComposeStep(t, out, c) == buffer.Cells()[..p.wpos]
    ensures p'.wpos == p.wpos && buffer.Cells()[p.wpos..] == old(buffer.Cells()[p.wpos..])
    ensures !composed ==> ComposeStep(t, out, c) == out + [c] && buffer.Cells() == old(buffer.Cells()) && PassOk(t, out, p')
    ensures composed ==> PassOk(t, buffer.Cells()[..p.wpos], p')
  {
    composed, p' := false, p;
    if p.starter >= 0 {
      MaxClassDecidesBlocked(t.Class(), out, c);
      if t.prop(c).ccc > p.maxClass {
        var l := buffer.Get(p.starter);
        assert l == out[p.starter];
        var r, cached := FindComposite(t, l, c, p.cached);
        p' := p.(cached := cached);
        if r.Some? {
          PassAbsorbs(t, out, p, c);
          CompositeIsStarter(t, l, c);
          buffer.Set(p.starter, r.value);
          assert buffer.Cells()[..p.wpos] == out[p.starter := r.value];
          composed, p' := true, p.(cached := None);
        }
      }
    }
  }

  /** One turn of the pass: the cell at `rpos` is composed or moved down. */
  method ComposeTurn(t: Tables, buffer: CellBuffer, rpos: nat, c: Cell, p: Pass, ghost out: seq<int>) returns (p': Pass)
    requires t.WellFormed() && buffer.Valid() && c >= 0
    requires PassOk(t, out, p) && p.wpos <= rpos < buffer.size && buffer.Cells()[..p.wpos] == out
    modifies buffer.mem
    ensures p'.wpos <= rpos + 1 && buffer.Cells()[..p'.wpos] == ComposeStep(t, out, c)
    ensures PassOk(t, ComposeStep(t, out, c), p')
    ensures buffer.Cells()[rpos + 1..] == old(buffer.Cells()[rpos + 1..])
  {
    var composed;
    composed, p' := TryCompose(t, buffer, c, p, out);
    if composed {
      assert buffer.Cells()[rpos + 1..] == buffer.Cells()[p.wpos..][rpos + 1 - p.wpos..];
      return;
    }
    PassKeeps(t, out, p', c);
    buffer.Set(p'.wpos, c);
    assert buffer.Cells()[..p'.wpos + 1] == out + [c];
    if t.prop(c).ccc != 0 {
      p' := p'.(wpos := p'.wpos + 1, maxClass := if t.prop(c).ccc > p'.maxClass then t.prop(c).ccc else p'.maxClass);
    } else {
      p' := Pass(p'.wpos + 1, p'.wpos, None, -1);
    }
  }

  /** The cells from `rpos` on are still those of `s`, and those before are composed into `out`. */
  ghost predicate Composed(t: Tables, cells: seq<int>, s: seq<int>, rpos: nat, p: Pass) {
    && p.wpos <= rpos <= |s| == |cells| && cells[rpos..] == s[rpos..]
    && cells[..p.wpos] == Compose(t, s[..rpos]) && PassOk(t, cells[..p.wpos], p)
  }

  method ComposeCell(t: Tables, buffer: CellBuffer, rpos: nat, p: Pass, ghost s: seq<int>) returns (p': Pass)
    requires t.WellFormed() && buffer.Valid() && rpos < buffer.size
    requires Composed(t, buffer.Cells(), s, rpos, p)
    modifies buffer.mem
    ensures Composed(t, buffer.Cells(), s, rpos + 1, p')
  {
    var c := buffer.Get(rpos);
    assert c == buffer.Cells()[rpos..][0] == s[rpos..][0];
    assert s[..rpos + 1] == s[..rpos] + [c];
    assert buffer.Cells()[rpos + 1..] == buffer.Cells()[rpos..][1..] == s[rpos + 1..];
    ComposeSnoc(t, s[..rpos], c);
    p' := p;
    if c >= 0 {
      p' := ComposeTurn(t, buffer, rpos, c, p, Compose(t, s[..rpos]));
    }
  }

  /** The composition pass: the cells left in the buffer are the composition of those it held. */
  method ComposeInPlace(t: Tables, buffer: CellBuffer, length: nat) returns (wpos: nat)
    requires t.WellFormed() && buffer.Valid() && length <= buffer.size
    modifies buffer.mem
    ensures wpos <= length && buffer.Cells()[..wpos] == Compose(t, old(buffer.Cells()[..length]))
  {
    ghost var s: seq<int> := buffer.Cells();
    var p := Pass(0, -1, None, -1);
    for rpos := 0 to length
      invariant Composed(t, buffer.Cells(), s, rpos, p)
    {
      p := ComposeCell(t, buffer, rpos, p, s);
    }
    wpos := p.wpos;
  }
}
