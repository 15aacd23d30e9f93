/** `utf8proc_decompose_custom`: a whole text, decoded, decomposed and put into canonical order. */
module TextDecomposition {
  import opened Bytes
  import opened CellMemory
  import opened CanonicalOrdering
  import opened Decomposition
  import opened DecompositionLoop
  import opened OrderingLoop
  import opened UnicodeTables
  import opened Utf8

  const ERROR_INVALIDOPTS: int := -5

  /** The longest result that is not refused: SSIZE_MAX / sizeof(utf8proc_int32_t) / 2. */
  const MAX_CELLS: nat := 0x7FFF_FFFF_FFFF_FFFF / 4 / 2

  datatype Text = Text(cells: seq<int>) | TextError(code: int)

  // ---------- where the text ends ----------

  function FirstZero(mem: seq<Byte>, pos: nat): (z: nat)
    requires Terminated(mem, pos)
    ensures pos <= z < |mem| && mem[z] == 0
    ensures forall i :: pos <= i < z ==> mem[i] != 0
    decreases |mem| - pos
  {
    if mem[pos] == 0 then pos else FirstZero(mem, pos + 1)
  }

  ghost predicate Readable(mem: seq<Byte>, strlen: int, nullterm: bool) {
    if nullterm then Terminated(mem, 0) else strlen <= |mem|
  }

  /** The bytes that are processed: those before the first zero, or the first `strlen`. */
  ghost function TextOf(mem: seq<Byte>, strlen: int, nullterm: bool): seq<Byte>
    requires Readable(mem, strlen, nullterm)
  {
    if nullterm then mem[..FirstZero(mem, 0)] else if strlen <= 0 then [] else mem[..strlen]
  }

  datatype Next = End | Bad | Char(len: nat, cp: int)

  /** One decoding step of the loop; with a terminator only the terminator bounds the reading. */
  function Fetch(mem: seq<Byte>, strlen: int, nullterm: bool, rpos: nat): Next
    requires if nullterm then Terminated(mem, rpos) else strlen <= |mem|
  {
    if nullterm then
      var r := Iterate(mem, rpos, -1);
      if r.cp < 0 || r.len < 0 then Bad else if r.cp == 0 then End else Char(r.len, r.cp)
    else if rpos >= strlen then End
    else
      var r := Iterate(mem, rpos, strlen - rpos);
      if r.cp < 0 || r.len < 0 then Bad else Char(r.len, r.cp)
  }

  /** The same step on the text by itself. */
  function FetchText(text: seq<Byte>): Next {
    if text == [] then End
    else
      var r := Iterate(text, 0, |text|);
      if r.cp < 0 || r.len < 0 then Bad else Char(r.len, r.cp)
  }

  lemma FetchTextResult(text: seq<Byte>)
    ensures FetchText(text).End? <==> text == []
    ensures FetchText(text).Char? ==> 0 < FetchText(text).len <= |text| && IsScalar(FetchText(text).cp)
  {
    IterateResult(text);
  }

  /** Decoding up to a terminator refuses and accepts as decoding the bytes before it does. */
  lemma TerminatorEndsText(mem: seq<Byte>, z: nat, pos: nat)
    requires pos <= z < |mem| && mem[z] == 0 && forall i :: pos <= i < z ==> mem[i] != 0
    ensures Iterate(mem, pos, -1) == if pos == z then Step(1, 0) else Iterate(mem[..z], pos, z - pos)
  {
  }

  lemma ZeroFree(text: seq<Byte>)
    requires forall i :: 0 <= i < |text| ==> text[i] != 0
    ensures Iterate(text, 0, |text|).cp != 0
  {
  }

  lemma FetchCorrect(mem: seq<Byte>, strlen: int, nullterm: bool, rpos: nat)
    requires Readable(mem, strlen, nullterm) && rpos <= |TextOf(mem, strlen, nullterm)|
    ensures nullterm ==> Terminated(mem, rpos)
    ensures Fetch(mem, strlen, nullterm, rpos) == FetchText(TextOf(mem, strlen, nullterm)[rpos..])
  {
    var text := TextOf(mem, strlen, nullterm);
    IterateShift(text, rpos);
    if nullterm {
      var z := FirstZero(mem, 0);
      TerminatorEndsText(mem, z, rpos);
      ZeroFree(text[rpos..]);
    } else if rpos < strlen {
      IterateBounded(mem, strlen, rpos);
    }
  }

  lemma IterateBounded(mem: seq<Byte>, end: nat, pos: nat)
    requires pos <= end <= |mem|
    ensures Iterate(mem, pos, end - pos) == Iterate(mem[..end], pos, end - pos)
  {
  }

  // ---------- what the text becomes ----------

  /** What a decoded codepoint becomes, given the boundary state before it. */
  type CharMap = (int, nat) -> Decomposed

  ghost function CharMapOf(t: Tables, custom: int -> int, o: Options): CharMap
    requires t.WellFormed()
  {
    (cp: int, state: nat) => DecomposeChar(t, custom(cp), o, state)
  }

  /** The codepoints before the first refused byte sequence, and whether there is none. */
  datatype Decoded = Decoded(cps: seq<int>, valid: bool)

  function Decode(text: seq<Byte>): Decoded
    decreases |text|
  {
    var next := FetchText(text);
    if next.End? then Decoded([], true)
    else if next.Bad? || !(0 < next.len <= |text|) then Decoded([], false)
    else
      var rest := Decode(text[next.len..]);
      Decoded([next.cp] + rest.cps, rest.valid)
  }

  /** The cells of the codepoints, behind the cells already `done`; the first refusal decides. */
  ghost function Gather(f: CharMap, text: Decoded, state: nat, done: seq<int>): Text
    decreases |text.cps|
  {
    if text.cps == [] then (if text.valid then Text(done) else TextError(ERROR_INVALIDUTF8))
    else
      var d := f(text.cps[0], state);
      if d.Failed? then TextError(d.code)
      else if |done| + |d.cells| > MAX_CELLS then TextError(ERROR_OVERFLOW)
      else Gather(f, text.(cps := text.cps[1..]), d.state, done + d.cells)
  }

  predicate BadOptions(o: Options) {
    (o.compose && o.decompose) || (o.stripmark && !o.compose && !o.decompose)
  }

  ghost function DecomposeText(t: Tables, text: seq<Byte>, custom: int -> int, o: Options): Text
    requires t.WellFormed()
  {
    if BadOptions(o) then TextError(ERROR_INVALIDOPTS)
    else
      match Gather(CharMapOf(t, custom, o), Decode(text), 0, [])
      case TextError(code) => TextError(code)
      case Text(cells) => Text(if Normalizing(o) then Order(t.Class(), cells) else cells)
  }

  // ---------- the loops ----------

  lemma DecodeStep(text: seq<Byte>, rpos: nat)
    requires rpos <= |text|
    ensures var next, d := FetchText(text[rpos..]), Decode(text[rpos..]);
      && (next.End? ==> d == Decoded([], true))
      && (next.Bad? ==> d == Decoded([], false))
      && (next.Char? ==>
            && 0 < next.len <= |text| - rpos
            && d.cps != [] && d.cps[0] == next.cp
            && d.(cps := d.cps[1..]) == Decode(text[rpos + next.len..]))
  {
    var rest := text[rpos..];
    var next := FetchText(rest);
    FetchTextResult(rest);
    if next.Char? {
      assert rest[next.len..] == text[rpos + next.len..];
    }
  }

  lemma CharMapErrors(t: Tables, custom: int -> int, o: Options)
    requires t.WellFormed()
    ensures forall cp, st ::
      CharMapOf(t, custom, o)(cp, st).Failed? ==> CharMapOf(t, custom, o)(cp, st).code == ERROR_NOTASSIGNED
  {
    forall cp, st: nat {
      FailsIffRejected(t, custom(cp), o, st);
    }
  }

  /** The errors a text can be refused with. */
  lemma {:induction false} GatherErrors(f: CharMap, text: Decoded, state: nat, done: seq<int>)
    requires forall cp, st :: f(cp, st).Failed? ==> f(cp, st).code == ERROR_NOTASSIGNED
    ensures var g := Gather(f, text, state, done);
      g.TextError? ==> g.code in {ERROR_INVALIDUTF8, ERROR_NOTASSIGNED, ERROR_OVERFLOW}
    decreases |text.cps|
  {
    if text.cps != [] {
      var cp := text.cps[0];
      var d := f(cp, state);
      if d.Cells? && |done| + |d.cells| <= MAX_CELLS {
        GatherErrors(f, text.(cps := text.cps[1..]), d.state, done + d.cells);
      }
    }
  }

  /** Appends what `f` makes of one codepoint to what has been `done`. */
  method AppendChar(t: Tables, cp: int, buffer: CellBuffer, bufsize: nat, o: Options, custom: int -> int, state: nat,
                    wpos: nat, ghost f: CharMap, ghost s: seq<int>, ghost done: seq<int>)
    returns (r: int, state': nat)
    requires t.WellFormed() && f == CharMapOf(t, custom, o)
    requires buffer.Valid() && bufsize <= buffer.size == |s|
    requires wpos == |done| && buffer.Cells() == Stored(s, 0, done, bufsize)
    modifies buffer.mem
    ensures r < 0 <==> f(cp, state).Failed?
    ensures Reports(f(cp, state), r, state')
    ensures buffer.Cells() == Stored(s, 0, done + Output(f(cp, state)), bufsize)
  {
    var uc := custom(cp);
    assert f(cp, state) == DecomposeChar(t, uc, o, state);
    FailsIffRejected(t, uc, o, state);
    StoredConcat(s, 0, done, Output(DecomposeChar(t, uc, o, state)), bufsize);
    r, state' := DecomposeCharInto(t, uc, buffer, wpos, Left(bufsize, wpos), o, state);
  }

  /** Names a position at which `Ahead` is to be used. */
  ghost predicate Here(rpos: nat) { true }

  /** The codepoints of `text` from `rpos` on are those of `rest`. */
  ghost predicate Ahead(text: seq<Byte>, rpos: nat, rest: Decoded) {
    rpos <= |text| && forall p: nat {:trigger Here(p)} :: Here(p) && p == rpos ==> rest == Decode(text[p..])
  }

  lemma AheadAtStart(text: seq<Byte>)
    ensures Ahead(text, 0, Decode(text))
  {
    assert text[0..] == text;
  }

  /** `next` is the first step into the codepoints of `rest`, which begin at `rpos`. */
  ghost predicate ReadsAs(next: Next, text: seq<Byte>, rpos: nat, rest: Decoded) {
    match next
    case End => rest == Decoded([], true)
    case Bad => rest == Decoded([], false)
    case Char(len, cp) =>
      len > 0 && rest.cps != [] && rest.cps[0] == cp && Ahead(text, rpos + len, Decoded(rest.cps[1..], rest.valid))
  }

  method ReadChar(mem: seq<Byte>, strlen: int, nullterm: bool, rpos: nat, ghost text: seq<Byte>, ghost rest: Decoded)
    returns (next: Next)
    requires Readable(mem, strlen, nullterm) && text == TextOf(mem, strlen, nullterm)
    requires Ahead(text, rpos, rest)
    ensures ReadsAs(next, text, rpos, rest)
  {
    assert Here(rpos);
    FetchCorrect(mem, strlen, nullterm, rpos);
    DecodeStep(text, rpos);
    next := Fetch(mem, strlen, nullterm, rpos);
  }

  /** Where the loop goes next, or that it ends with a result. */
  datatype Turn = Go(rpos: nat, state: nat, wpos: nat) | Stop(result: int)

  lemma GatherStep(f: CharMap, rest: Decoded, state: nat, done: seq<int>, cp: int)
    requires rest.cps != [] && rest.cps[0] == cp
    ensures var d, g := f(cp, state), Gather(f, rest, state, done);
      if d.Failed? then g == TextError(d.code)
      else if |done| + |d.cells| > MAX_CELLS then g == TextError(ERROR_OVERFLOW)
      else g == Gather(f, Decoded(rest.cps[1..], rest.valid), d.state, done + Output(d))
  {
    assert rest.(cps := rest.cps[1..]) == Decoded(rest.cps[1..], rest.valid);
  }

  /** The part of a turn that handles a decoded character. */
  method GatherChar(t: Tables, rpos: nat, len: nat, cp: int, buffer: CellBuffer, bufsize: nat, o: Options, custom: int -> int,
                    state: nat, wpos: nat, ghost f: CharMap, ghost s: seq<int>, ghost rest: Decoded, ghost done: seq<int>)
    returns (turn: Turn)
    requires t.WellFormed() && f == CharMapOf(t, custom, o)
    requires buffer.Valid() && bufsize <= buffer.size == |s|
    requires wpos == |done| && buffer.Cells() == Stored(s, 0, done, bufsize)
    requires rest.cps != [] && rest.cps[0] == cp
    modifies buffer.mem
    ensures turn.Stop? ==> Gather(f, rest, state, done) == TextError(turn.result)
    ensures turn.Go? ==>
      var done' := done + Output(f(cp, state));
      && Gather(f, rest, state, done) == Gather(f, Decoded(rest.cps[1..], rest.valid), turn.state, done')
      && turn.rpos == rpos + len && turn.wpos == |done'| && buffer.Cells() == Stored(s, 0, done', bufsize)
  {
    GatherStep(f, rest, state, done, cp);
    var r, state' := AppendChar(t, cp, buffer, bufsize, o, custom, state, wpos, f, s, done);
    if r < 0 { return Stop(r); }
    if wpos + r > MAX_CELLS { return Stop(ERROR_OVERFLOW); }
    turn := Go(rpos + len, state', wpos + r);
  }

  /** The first loop of `utf8proc_decompose_custom`. */
  method GatherInto(t: Tables, mem: seq<Byte>, strlen: int, buffer: CellBuffer, bufsize: nat, o: Options, custom: int -> int,
                    ghost f: CharMap)
    returns (wpos: int, ghost cells: seq<int>)
    requires t.WellFormed() && f == CharMapOf(t, custom, o) && Readable(mem, strlen, o.nullterm)
    requires buffer.Valid() && bufsize <= buffer.size
    modifies buffer.mem
    ensures match Gather(f, Decode(TextOf(mem, strlen, o.nullterm)), 0, [])
      case TextError(code) => wpos == code
      case Text(all) => cells == all && wpos == |cells| && buffer.Cells() == Stored(old(buffer.Cells()), 0, cells, bufsize)
  {
    ghost var s, text := buffer.Cells(), TextOf(mem, strlen, o.nullterm);
    ghost var rest := Decode(text);
    ghost var goal := Gather(f, rest, 0, []);
    var rpos, state := 0, 0;
    wpos, cells := 0, [];
    AheadAtStart(text);
    while true
      invariant 0 <= rpos && Ahead(text, rpos, rest) && goal == Gather(f, rest, state, cells)
      invariant wpos == |cells| && buffer.Cells() == Stored(s, 0, cells, bufsize)
      decreases |text| - rpos
    {
      var next := ReadChar(mem, strlen, o.nullterm, rpos, text, rest);
      if next.End? { break; }
      if next.Bad? { return ERROR_INVALIDUTF8, cells; }
      ghost var more := Output(f(next.cp, state));
      var turn := GatherChar(t, rpos, next.len, next.cp, buffer, bufsize, o, custom, state, wpos, f, s, rest, cells);
      if turn.Stop? { return turn.result, cells; }
      rpos, state, wpos := turn.rpos, turn.state, turn.wpos;
      cells, rest := cells + more, Decoded(rest.cps[1..], rest.valid);
    }
  }

  /** The buffer begins with `cells` and is otherwise `s`. */
  ghost predicate Begins(after: seq<int>, cells: seq<int>, s: seq<int>) {
    |cells| <= |s| == |after| && after[..|cells|] == cells && after[|cells|..] == s[|cells|..]
  }

  lemma StoredBegins(s: seq<int>, cells: seq<int>, bufsize: nat)
    requires |cells| <= bufsize <= |s|
    ensures Begins(Stored(s, 0, cells, bufsize), cells, s)
  {
    StoredAll(s, 0, cells, bufsize);
  }

  /**
   The length reported is that of the whole result, however small the buffer; with room for it the
   buffer then begins with the result.
   */
  method DecomposeCustom(t: Tables, mem: seq<Byte>, strlen: int, buffer: CellBuffer, bufsize: nat, o: Options, custom: int -> int)
    returns (r: int)
    requires t.WellFormed() && Readable(mem, strlen, o.nullterm)
    requires buffer.Valid() && bufsize <= buffer.size
    modifies buffer.mem
    ensures match DecomposeText(t, TextOf(mem, strlen, o.nullterm), custom, o)
      case TextError(code) => r == code
      case Text(cells) => r == |cells| && (bufsize >= r ==> Begins(buffer.Cells(), cells, old(buffer.Cells())))
  {
    if o.compose && o.decompose { return ERROR_INVALIDOPTS; }
    if o.stripmark && !o.compose && !o.decompose { return ERROR_INVALIDOPTS; }
    ghost var cells;
    r, cells := GatherInto(t, mem, strlen, buffer, bufsize, o, custom, CharMapOf(t, custom, o));
    CharMapErrors(t, custom, o);
    GatherErrors(CharMapOf(t, custom, o), Decode(TextOf(mem, strlen, o.nullterm)), 0, []);
    if r < 0 { return; }
    if bufsize >= r {
      StoredBegins(old(buffer.Cells()), cells, bufsize);
      if o.compose || o.decompose {
        Reorder(t, buffer, r);
      }
    }
  }
}
