/** Any list of fields and alignments, written and then read back by the same steps. */
module BitScripts {
  import opened BitStrings
  import opened BitBuffers

  datatype Op =
    | Field32(value: Word, bits: nat)
    | Field64(wide: nat, bits: nat)
    | Field128(lo: nat, hi: nat, bits: nat)
    | Align(force: bool)
  {
    predicate Ok() {
      match this
      case Field64(v, _) => v < COUNT
      case Field128(l, h, _) => l < COUNT && h < COUNT
      case _ => true
    }
  }

  /** What reading the same step returns. */
  datatype Answer = Number(lo: nat, hi: nat) | Skipped

  /** The bits a step adds at position `pos`. */
  ghost function Added(op: Op, pos: nat): seq<bool> {
    match op
    case Field32(v, bits) => Bits(v, Width(bits, 32))
    case Field64(v, bits) => Bits(v, Width(bits, 64))
    case Field128(lo, hi, bits) => WideBits(lo, hi, Width(bits, 128))
    case Align(force) => Zeros(Padding(pos, force))
  }

  /** What a step should give back: each value modulo 2 to the width. */
  function Expected(op: Op): Answer {
    match op
    case Field32(v, bits) => Number(v % Pow2(Width(bits, 32)), 0)
    case Field64(v, bits) => Number(v % Pow2(Width(bits, 64)), 0)
    case Field128(lo, hi, bits) =>
      Number(lo % Pow2(Width(bits, 64)), if bits <= 64 then 0 else hi % Pow2(Width(bits, 128) - 64))
    case Align(_) => Skipped
  }

  /** The answer of a reader at position `p`. */
  ghost function AnswerAt(w: nat -> seq<bool>, op: Op, p: nat): Answer
    requires Worded(w)
  {
    match op
    case Field32(_, bits) => Number(Value(BitsAt(w, p, Width(bits, 32))), 0)
    case Field64(_, bits) => Number(Value(BitsAt(w, p, Width(bits, 64))), 0)
    case Field128(_, _, bits) =>
      Number(Value(BitsAt(w, p, Width(bits, 64))),
             if bits <= 64 then 0 else Value(BitsAt(w, p + 64, Width(bits, 128) - 64)))
    case Align(_) => Skipped
  }

  /** All bits written, starting behind `s`. */
  ghost function Script(ops: seq<Op>, s: seq<bool>): seq<bool>
    decreases |ops|
  {
    if ops == [] then s else Script(ops[1..], s + Added(ops[0], |s|))
  }

  /** What each step of a script answers, if `width` says how far it moves the reader. */
  ghost function Scan(answer: (Op, nat) -> Answer, width: (Op, nat) -> nat, ops: seq<Op>, p: nat): seq<Answer>
    decreases |ops|
  {
    if ops == [] then [] else [answer(ops[0], p)] + Scan(answer, width, ops[1..], p + width(ops[0], p))
  }

  ghost function AnswerFn(w: nat -> seq<bool>): (Op, nat) -> Answer
    requires Worded(w)
  {
    (op: Op, p: nat) => AnswerAt(w, op, p)
  }

  ghost function WidthFn(): (Op, nat) -> nat {
    (op: Op, p: nat) => |Added(op, p)|
  }

  /** The answers of a reader to a script, from position `p` on. */
  ghost function Answers(w: nat -> seq<bool>, ops: seq<Op>, p: nat): seq<Answer>
    requires Worded(w)
  {
    Scan(AnswerFn(w), WidthFn(), ops, p)
  }

  function ExpectedAll(ops: seq<Op>): seq<Answer> {
    if ops == [] then [] else [Expected(ops[0])] + ExpectedAll(ops[1..])
  }

  // ---------- the reader returns what was written ----------

  /** The words show the bits `s` from the start on. */
  ghost predicate Carries(w: nat -> seq<bool>, s: seq<bool>)
    requires Worded(w)
  {
    forall p: nat, n: nat :: p + n <= |s| ==> BitsAt(w, p, n) == s[p..p + n]
  }

  lemma {:induction false} ScriptExtends(ops: seq<Op>, s: seq<bool>)
    ensures s <= Script(ops, s)
    decreases |ops|
  {
    if ops != [] {
      ScriptExtends(ops[1..], s + Added(ops[0], |s|));
    }
  }

  /** A field, read as a number. */
  lemma FieldBack(w: nat -> seq<bool>, p: nat, v: nat, n: nat)
    requires Worded(w) && BitsAt(w, p, n) == Bits(v, n)
    ensures Value(BitsAt(w, p, n)) == v % Pow2(n)
  {
    ValueOfBits(v, n);
    LowIsMod(v, n);
  }

  lemma WideBack(w: nat -> seq<bool>, p: nat, lo: nat, hi: nat, a: nat, b: nat)
    requires Worded(w) && BitsAt(w, p, a + b) == Bits(lo, a) + Bits(hi, b)
    ensures Value(BitsAt(w, p, a)) == lo % Pow2(a) && Value(BitsAt(w, p + a, b)) == hi % Pow2(b)
  {
    BitsAtConcat(w, p, a, b);
    var all := BitsAt(w, p, a + b);
    assert all[..a] == BitsAt(w, p, a) == Bits(lo, a);
    assert all[a..] == BitsAt(w, p + a, b) == Bits(hi, b);
    FieldBack(w, p, lo, a);
    FieldBack(w, p + a, hi, b);
  }

  lemma SliceAfter(final: seq<bool>, s: seq<bool>, b: seq<bool>)
    requires s + b <= final
    ensures |s| + |b| <= |final| && final[|s|..|s| + |b|] == b
  {
    assert final[..|s| + |b|] == s + b;
    assert final[|s|..|s| + |b|] == final[..|s| + |b|][|s|..];
  }

  lemma StepBack(w: nat -> seq<bool>, p: nat, op: Op)
    requires Worded(w) && BitsAt(w, p, |Added(op, p)|) == Added(op, p)
    ensures AnswerAt(w, op, p) == Expected(op)
  {
    if op.Field32? {
      FieldBack(w, p, op.value, Width(op.bits, 32));
    } else if op.Field64? {
      FieldBack(w, p, op.wide, Width(op.bits, 64));
    } else if op.Field128? {
      WideStepBack(w, p, op);
    }
  }

  lemma WideStepBack(w: nat -> seq<bool>, p: nat, op: Op)
    requires Worded(w) && op.Field128? && BitsAt(w, p, |Added(op, p)|) == Added(op, p)
    ensures AnswerAt(w, op, p) == Expected(op)
  {
    if op.bits <= 64 {
      FieldBack(w, p, op.lo, op.bits);
    } else {
      WideBack(w, p, op.lo, op.hi, 64, Width(op.bits, 128) - 64);
    }
  }

  /** The bits of a step, wherever they stand, give the expected answer. */
  lemma FirstBack(w: nat -> seq<bool>, op: Op, s: seq<bool>, final: seq<bool>)
    requires Worded(w) && Carries(w, final) && s + Added(op, |s|) <= final
    ensures AnswerFn(w)(op, |s|) == Expected(op)
  {
    SliceAfter(final, s, Added(op, |s|));
    StepBack(w, |s|, op);
  }

  lemma ScanCons(answer: (Op, nat) -> Answer, width: (Op, nat) -> nat, ops: seq<Op>, p: nat, r: Answer, q: nat, rest: seq<Answer>)
    requires ops != [] && r == answer(ops[0], p) && q == p + width(ops[0], p) && rest == Scan(answer, width, ops[1..], q)
    ensures [r] + rest == Scan(answer, width, ops, p)
  {
  }

  /** Over words that carry the script, every answer is the expected one. */
  lemma {:induction false} ScriptBack(w: nat -> seq<bool>, ops: seq<Op>, s: seq<bool>, final: seq<bool>)
    requires Worded(w) && Carries(w, final) && Script(ops, s) <= final
    ensures Answers(w, ops, |s|) == ExpectedAll(ops)
    decreases |ops|
  {
    if ops != [] {
      var s' := s + Added(ops[0], |s|);
      ScriptExtends(ops[1..], s');
      assert s' <= final;
      FirstBack(w, ops[0], s, final);
      ScriptBack(w, ops[1..], s', final);
      ScanCons(AnswerFn(w), WidthFn(), ops, |s|, Expected(ops[0]), |s'|, ExpectedAll(ops[1..]));
    }
  }

  // ---------- memory carries what the writer stored ----------

  lemma WordShown(w: nat -> seq<bool>, mem: seq<Word>, swap: bool, k: nat, b: seq<bool>)
    requires Shows(w, mem, swap) && k < |mem| && |b| == 32 && Ordered(mem[k], swap) == Value(b)
    ensures w(k) == b
  {
    assert Fetched(k);
    BitsOfValue(b);
  }

  lemma {:induction false} StreamOfFull(w: nat -> seq<bool>, mem: seq<Word>, swap: bool, full: seq<bool>, n: nat, m: nat)
    requires Worded(w) && Shows(w, mem, swap) && Holds(mem, swap, full, n) && m <= n <= |mem|
    ensures Stream(w, m) == full[..32 * m]
    decreases m
  {
    if m > 0 {
      var k := m - 1;
      StreamOfFull(w, mem, swap, full, n, k);
      var b := full[32 * k..32 * k + 32];
      WordShown(w, mem, swap, k, b);
      assert full[..32 * m] == full[..32 * k] + b;
    }
  }

  lemma MemoryCarries(w: nat -> seq<bool>, mem: seq<Word>, swap: bool, full: seq<bool>, n: nat)
    requires Worded(w) && Shows(w, mem, swap) && Holds(mem, swap, full, n) && n <= |mem|
    ensures Carries(w, full)
  {
    StreamOfFull(w, mem, swap, full, n, n);
    assert full[..32 * n] == full;
    forall p: nat, k: nat | p + k <= |full|
      ensures BitsAt(w, p, k) == full[p..p + k]
    {
      BitsAtStream(w, p, k, n);
    }
  }

  // ---------- running a script ----------

  method WriteStep(b: BitBuffer, op: Op)
    requires b.Writing() && op.Ok()
    modifies b, b.words
    ensures b.Writing() && b.Written() == old(b.Written()) + Added(op, |old(b.Written())|)
  {
    match op
    case Field32(v, bits) => b.Write32(v, bits);
    case Field64(v, bits) => b.Write64(v, bits);
    case Field128(lo, hi, bits) => b.Write128(lo, hi, bits);
    case Align(force) => b.AlignWrite(force);
  }

  method WriteAll(b: BitBuffer, ops: seq<Op>)
    requires b.Writing() && forall i :: 0 <= i < |ops| ==> ops[i].Ok()
    modifies b, b.words
    ensures b.Writing() && b.Written() == Script(ops, old(b.Written()))
  {
    for i := 0 to |ops|
      invariant b.Writing() && Script(ops[i..], b.Written()) == Script(ops, old(b.Written()))
    {
      assert ops[i..][0] == ops[i] && ops[i..][1..] == ops[i + 1..];
      WriteStep(b, ops[i]);
    }
  }

  method ReadStep(b: BitBuffer, op: Op) returns (r: Answer)
    requires b.Reading()
    modifies b
    ensures b.Reading() && b.Position() == old(b.Position()) + |Added(op, old(b.Position()))|
    ensures r == AnswerAt(b.source, op, old(b.Position()))
  {
    if op.Field32? {
      var v := b.Read32(op.bits);
      r := Number(v, 0);
    } else if op.Field64? {
      var v := b.Read64(op.bits);
      r := Number(v, 0);
    } else if op.Field128? {
      var lo, hi := b.Read128(op.bits);
      r := Number(lo, hi);
    } else {
      b.AlignRead(op.force);
      r := Skipped;
    }
  }

  method ReadAll(b: BitBuffer, ops: seq<Op>) returns (out: seq<Answer>)
    requires b.Reading()
    modifies b
    ensures b.Reading() && out == Answers(b.source, ops, old(b.Position()))
    decreases |ops|
  {
    if ops == [] { return []; }
    ghost var p := b.Position();
    var r := ReadStep(b, ops[0]);
    ghost var q := b.Position();
    var rest := ReadAll(b, ops[1..]);
    ScanCons(AnswerFn(b.source), WidthFn(), ops, p, r, q, rest);
    out := [r] + rest;
  }

  /**
   Writing any script, completing the last word, and reading the same script with a fresh reader over
   the same memory gives each value modulo 2 to its width, whenever the memory is large enough.
   */
  method WriteThenRead(ops: seq<Op>, memory: array<Word>, swap: bool) returns (out: seq<Answer>)
    requires forall i :: 0 <= i < |ops| ==> ops[i].Ok()
    modifies memory
    ensures |Script(ops, [])| <= 32 * memory.Length ==> out == ExpectedAll(ops)
  {
    var writer := new BitBuffer(memory, swap);
    WriteAll(writer, ops);
    ghost var s := writer.Written();
    writer.AlignWrite(false);
    assert writer.Written() == writer.full;
    var reader := new BitBuffer(memory, swap);
    if |s| <= 32 * memory.Length {
      PaddingFits(|s|, memory.Length);
      MemoryCarries(reader.source, memory[..], swap, writer.full, writer.completed);
      ScriptBack(reader.source, ops, [], writer.full);
    }
    out := ReadAll(reader, ops);
  }

  lemma PaddingFits(n: nat, words: nat)
    requires n <= 32 * words
    ensures n + Padding(n, false) <= 32 * words
  {
  }
}
