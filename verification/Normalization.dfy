/** `utf8proc_normalize_utf32`: line-break conversion and control stripping, then composition, all in place. */
module Normalization {
  import opened CellMemory
  import opened Composition
  import opened CompositionLoop
  import opened UnicodeTables

  predicate ConvertsLines(o: Options) { o.nlf2ls || o.nlf2ps || o.stripcc }

  /** What a line break becomes. */
  function LineBreak(o: Options): int {
    if o.nlf2ls then (if o.nlf2ps then 0x0A else 0x2028) else (if o.nlf2ps then 0x2029 else 0x20)
  }

  predicate IsLineBreak(uc: int, o: Options) {
    uc == 0x0A || uc == 0x0D || uc == 0x85 || (o.stripcc && (uc == 0x0B || uc == 0x0C))
  }

  /** What one cell becomes: nothing or one cell. */
  function Converted(uc: int, o: Options): (r: seq<int>)
    ensures |r| <= 1
  {
    if IsLineBreak(uc, o) then [LineBreak(o)]
    else if o.stripcc && (uc < 0x20 || 0x7F <= uc < 0xA0) then (if uc == 0x09 then [0x20] else [])
    else [uc]
  }

  /** How many cells the one at `i` stands for: CR LF counts as one line break. */
  function Width(s: seq<int>, i: nat): (w: nat)
    requires i < |s|
    ensures i + w <= |s| && w > 0
  {
    if s[i] == 0x0D && i + 1 < |s| && s[i + 1] == 0x0A then 2 else 1
  }

  function ConvertFrom(s: seq<int>, o: Options, i: nat): seq<int>
    requires i <= |s|
    decreases |s| - i
  {
    if i == |s| then [] else Converted(s[i], o) + ConvertFrom(s, o, i + Width(s, i))
  }

  /** The cells after line-break conversion and control stripping. */
  function Convert(s: seq<int>, o: Options): seq<int> {
    if ConvertsLines(o) then ConvertFrom(s, o, 0) else s
  }

  /** What `utf8proc_normalize_utf32` leaves of `s`. */
  ghost function Normalized(t: Tables, s: seq<int>, o: Options): seq<int> {
    var r := Convert(s, o);
    if o.compose then Compose(t, r) else r
  }

  /** `wpos` cells are converted, those from `rpos` on are still those of `s`. */
  ghost predicate Converting(cells: seq<int>, s: seq<int>, o: Options, length: nat, rpos: nat, wpos: nat) {
    && wpos <= rpos <= length <= |s| == |cells| && cells[rpos..] == s[rpos..]
    && cells[..wpos] + ConvertFrom(s[..length], o, rpos) == ConvertFrom(s[..length], o, 0)
  }

  /** Stores what `uc` becomes at `wpos`. */
  method Emit(buffer: CellBuffer, o: Options, wpos: nat, uc: Cell) returns (wpos': nat)
    requires buffer.Valid() && wpos < buffer.size
    modifies buffer.mem
    ensures wpos <= wpos' <= wpos + 1 && buffer.Cells()[..wpos'] == old(buffer.Cells()[..wpos]) + Converted(uc, o)
    ensures buffer.Cells()[wpos + 1..] == old(buffer.Cells()[wpos + 1..])
  {
    wpos' := wpos;
    if uc == 0x0A || uc == 0x0D || uc == 0x85 || (o.stripcc && (uc == 0x0B || uc == 0x0C)) {
      buffer.Set(wpos, LineBreak(o));
      wpos' := wpos + 1;
    } else if o.stripcc && (uc < 0x20 || (uc >= 0x7F && uc < 0xA0)) {
      if uc == 0x09 {
        buffer.Set(wpos, 0x20);
        wpos' := wpos + 1;
      }
    } else {
      buffer.Set(wpos, uc);
      wpos' := wpos + 1;
    }
  }

  lemma SuffixAgrees(a: seq<int>, b: seq<int>, i: nat, j: nat)
    requires i <= j <= |a| == |b| && a[i..] == b[i..]
    ensures a[j..] == b[j..]
  {
    assert a[j..] == a[i..][j - i..] && b[j..] == b[i..][j - i..];
  }

  lemma ConvertingStep(before: seq<int>, after: seq<int>, s: seq<int>, o: Options, length: nat, rpos: nat, wpos: nat, wpos': nat)
    requires rpos < length && Converting(before, s, o, length, rpos, wpos) && |after| == |before|
    requires wpos <= wpos' <= wpos + 1 && after[..wpos'] == before[..wpos] + Converted(s[rpos], o)
    requires after[wpos + 1..] == before[wpos + 1..]
    ensures Converting(after, s, o, length, rpos + Width(s[..length], rpos), wpos')
  {
    var rpos', text := rpos + Width(s[..length], rpos), s[..length];
    SuffixAgrees(after, before, wpos + 1, rpos');
    SuffixAgrees(before, s, rpos, rpos');
    var more, rest := Converted(s[rpos], o), ConvertFrom(text, o, rpos');
    assert ConvertFrom(text, o, rpos) == more + rest;
    assert before[..wpos] + (more + rest) == before[..wpos] + more + rest;
  }

  /** The first loop of `utf8proc_normalize_utf32`. */
  method ConvertInPlace(buffer: CellBuffer, length: nat, o: Options) returns (wpos: nat)
    requires buffer.Valid() && length <= buffer.size
    modifies buffer.mem
    ensures wpos <= length && buffer.Cells()[..wpos] == ConvertFrom(old(buffer.Cells()[..length]), o, 0)
  {
    ghost var s: seq<int> := buffer.Cells();
    var rpos := 0;
    wpos := 0;
    while rpos < length
      invariant 0 <= rpos && Converting(buffer.Cells(), s, o, length, rpos, wpos)
    {
      ghost var before, wpos0 := buffer.Cells(), wpos;
      var uc := buffer.Get(rpos);
      assert uc == before[rpos..][0] == s[rpos..][0];
      var width := 1;
      if uc == 0x0D && rpos < length - 1 {
        var next := buffer.Get(rpos + 1);
        assert next == before[rpos..][1] == s[rpos..][1];
        if next == 0x0A { width := 2; }
      }
      assert width == Width(s[..length], rpos);
      wpos := Emit(buffer, o, wpos, uc);
      ConvertingStep(before, buffer.Cells(), s, o, length, rpos, wpos0, wpos);
      rpos := rpos + width;
    }
  }

  /** Leaves the normalized cells at the start of the buffer and returns how many there are. */
  method NormalizeUtf32(t: Tables, buffer: CellBuffer, length: nat, o: Options) returns (r: nat)
    requires t.WellFormed() && buffer.Valid() && length <= buffer.size
    modifies buffer.mem
    ensures r <= length && buffer.Cells()[..r] == Normalized(t, old(buffer.Cells()[..length]), o)
  {
    r := length;
    if o.nlf2ls || o.nlf2ps || o.stripcc {
      r := ConvertInPlace(buffer, length, o);
    }
    if o.compose {
      r := ComposeInPlace(t, buffer, r);
    }
  }
}
