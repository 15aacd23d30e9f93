/** Strict UTF-8: `utf8proc_iterate`, `utf8proc_encode_char` and `charbound_encode_char`. */
module Utf8 {
  import opened Bytes
  import opened Sequences
  import opened UnicodeTables

  const ERROR_INVALIDUTF8: int := -3

  /** What `utf8proc_iterate` reports: the return value and the codepoint stored. */
  datatype Step = Step(len: int, cp: int)

  const INVALID := Step(ERROR_INVALIDUTF8, -1)

  predicate IsContinuation(b: Byte) { b / 0x40 == 2 }

  /** The six payload bits of a continuation byte. */
  function Payload(b: Byte): (d: int)
    ensures 0 <= d < 0x40
  {
    b % 0x40
  }

  /** Some byte of `mem` at or after `pos` is zero. */
  ghost predicate Terminated(mem: seq<Byte>, pos: nat) {
    exists z :: pos <= z < |mem| && mem[z] == 0
  }

  /**
   Decodes one codepoint of `mem` at `pos`.  A negative `strlen` means that the text is
   zero-terminated; then only the terminator bounds what may be examined, and the indexing below is
   in bounds for exactly that reason.
   */
  function Iterate(mem: seq<Byte>, pos: nat, strlen: int): (r: Step)
    requires if strlen < 0 then Terminated(mem, pos) else pos + strlen <= |mem|
  {
    if strlen == 0 then Step(0, -1)
    else
      var end := pos + (if strlen < 0 then 4 else strlen);
      var b0: int := mem[pos];
      if b0 < 0x80 then Step(1, b0)
      else if b0 < 0xC2 || b0 > 0xF4 then INVALID
      else if b0 < 0xE0 then
        if pos + 1 >= end || !IsContinuation(mem[pos + 1]) then INVALID
        else Step(2, b0 % 0x20 * 0x40 + Payload(mem[pos + 1]))
      else if b0 < 0xF0 then
        if pos + 2 >= end || !IsContinuation(mem[pos + 1]) || !IsContinuation(mem[pos + 2]) then INVALID
        else if b0 == 0xED && mem[pos + 1] > 0x9F then INVALID
        else
          var uc := b0 % 0x10 * 0x1000 + Payload(mem[pos + 1]) * 0x40 + Payload(mem[pos + 2]);
          if uc < 0x800 then INVALID else Step(3, uc)
      else if pos + 3 >= end || !IsContinuation(mem[pos + 1]) || !IsContinuation(mem[pos + 2])
              || !IsContinuation(mem[pos + 3]) then INVALID
      else if b0 == 0xF0 && mem[pos + 1] < 0x90 then INVALID
      else if b0 == 0xF4 && mem[pos + 1] > 0x8F then INVALID
      else
        Step(4, b0 % 8 * 0x4_0000 + Payload(mem[pos + 1]) * 0x1000 + Payload(mem[pos + 2]) * 0x40 + Payload(mem[pos + 3]))
  }

  /** The bytes `utf8proc_encode_char` stores; none for a value that is no codepoint. */
  function EncodeChar(uc: int): (r: seq<Byte>)
    ensures |r| <= 4
    ensures IsCodepoint(uc) <==> r != []
  {
    if uc < 0 then []
    else if uc < 0x80 then [uc]
    else if uc < 0x800 then [0xC0 + uc / 0x40, 0x80 + uc % 0x40]
    else if uc < 0x1_0000 then [0xE0 + uc / 0x1000, 0x80 + uc / 0x40 % 0x40, 0x80 + uc % 0x40]
    else if uc < 0x11_0000 then
      [0xF0 + uc / 0x4_0000, 0x80 + uc / 0x1000 % 0x40, 0x80 + uc / 0x40 % 0x40, 0x80 + uc % 0x40]
    else []
  }

  /** `charbound_encode_char`: as above, and 0xFF for the grapheme-break sentinel. */
  function CharboundEncodeChar(uc: int): (r: seq<Byte>)
    ensures |r| <= 4
  {
    if uc == -1 then [0xFF] else EncodeChar(uc)
  }

  // ---------- well-formed UTF-8 (Unicode Standard section 3.9, Table 3-7) ----------

  predicate Between(lo: int, b: Byte, hi: int) { lo <= b <= hi }

  /** The rows of Table 3-7: the byte sequences that stand for one codepoint. */
  predicate TableRow(s: seq<Byte>) {
    match |s|
    case 1 => s[0] <= 0x7F
    case 2 => Between(0xC2, s[0], 0xDF) && Between(0x80, s[1], 0xBF)
    case 3 =>
      && (   (s[0] == 0xE0 && Between(0xA0, s[1], 0xBF))
          || (Between(0xE1, s[0], 0xEC) && Between(0x80, s[1], 0xBF))
          || (s[0] == 0xED && Between(0x80, s[1], 0x9F))
          || (Between(0xEE, s[0], 0xEF) && Between(0x80, s[1], 0xBF)))
      && Between(0x80, s[2], 0xBF)
    case 4 =>
      && (   (s[0] == 0xF0 && Between(0x90, s[1], 0xBF))
          || (Between(0xF1, s[0], 0xF3) && Between(0x80, s[1], 0xBF))
          || (s[0] == 0xF4 && Between(0x80, s[1], 0x8F)))
      && Between(0x80, s[2], 0xBF) && Between(0x80, s[3], 0xBF)
    case _ => false
  }

  /** A concatenation of rows of Table 3-7. */
  ghost predicate WellFormedUtf8(s: seq<Byte>)
    decreases |s|
  {
    s == [] || exists n :: 0 < n <= |s| && TableRow(s[..n]) && WellFormedUtf8(s[n..])
  }

  /** A decoding step succeeds exactly on a row of Table 3-7, and consumes just that row. */
  lemma IterateTableRow(s: seq<Byte>, n: nat)
    requires 0 < n <= |s|
    ensures Iterate(s, 0, |s|).len == n <==> TableRow(s[..n])
  {
  }

  lemma IterateResult(s: seq<Byte>)
    ensures var r := Iterate(s, 0, |s|);
      if s == [] then r == Step(0, -1)
      else r == INVALID || (1 <= r.len <= 4 && r.len <= |s| && IsScalar(r.cp))
  {
  }

  /** Decoding only looks at the bytes it consumes, and refuses for the same reason anywhere. */
  lemma IterateShift(mem: seq<Byte>, pos: nat)
    requires pos <= |mem|
    ensures Iterate(mem, pos, |mem| - pos) == Iterate(mem[pos..], 0, |mem| - pos)
  {
  }

  // ---------- one codepoint there and back ----------

  lemma JoinDigit(h: int, d: int)
    requires 0 <= h && 0 <= d < 0x40
    ensures (h * 0x40 + d) / 0x40 == h && (h * 0x40 + d) % 0x40 == d
  {
  }

  lemma Encode2(h: int, d: int)
    requires 2 <= h < 0x20 && 0 <= d < 0x40
    ensures EncodeChar(h * 0x40 + d) == [0xC0 + h, 0x80 + d]
  {
    JoinDigit(h, d);
  }

  lemma Encode3(h: int, e: int, d: int)
    requires 0 <= h < 0x10 && 0 <= e < 0x40 && 0 <= d < 0x40 && h * 0x40 + e >= 0x20
    ensures EncodeChar((h * 0x40 + e) * 0x40 + d) == [0xE0 + h, 0x80 + e, 0x80 + d]
  {
    JoinDigit(h, e);
    JoinDigit(h * 0x40 + e, d);
    var uc := (h * 0x40 + e) * 0x40 + d;
    assert uc / 0x1000 == h;
  }

  lemma Encode4(h: int, f: int, e: int, d: int)
    requires 0 <= h < 5 && 0 <= f < 0x40 && 0 <= e < 0x40 && 0 <= d < 0x40 && 0x10 <= h * 0x40 + f < 0x110
    ensures EncodeChar(((h * 0x40 + f) * 0x40 + e) * 0x40 + d) == [0xF0 + h, 0x80 + f, 0x80 + e, 0x80 + d]
  {
    JoinDigit(h, f);
    JoinDigit(h * 0x40 + f, e);
    JoinDigit((h * 0x40 + f) * 0x40 + e, d);
    var uc := ((h * 0x40 + f) * 0x40 + e) * 0x40 + d;
    assert uc / 0x1000 == h * 0x40 + f;
    assert uc / 0x4_0000 == h;
  }

  lemma LeadBits(h: int)
    requires 0 <= h
    ensures h < 0x20 ==> (0xC0 + h) % 0x20 == h
    ensures h < 0x10 ==> (0xE0 + h) % 0x10 == h
    ensures h < 8 ==> (0xF0 + h) % 8 == h
    ensures h < 0x40 ==> (0x80 + h) % 0x40 == h && (0x80 + h) / 0x40 == 2
  {
  }

  lemma Decode3(h: int, e: int, d: int, rest: seq<Byte>)
    requires 0 <= h < 0x10 && 0 <= e < 0x40 && 0 <= d < 0x40 && h * 0x40 + e >= 0x20
    requires !(h == 0xD && e >= 0x20)
    ensures var s := [0xE0 + h, 0x80 + e, 0x80 + d] + rest;
      Iterate(s, 0, |s|) == Step(3, (h * 0x40 + e) * 0x40 + d)
  {
    LeadBits(h);
    LeadBits(e);
    LeadBits(d);
  }

  lemma Decode4(h: int, f: int, e: int, d: int, rest: seq<Byte>)
    requires 0 <= h < 5 && 0 <= f < 0x40 && 0 <= e < 0x40 && 0 <= d < 0x40 && 0x10 <= h * 0x40 + f < 0x110
    ensures var s := [0xF0 + h, 0x80 + f, 0x80 + e, 0x80 + d] + rest;
      Iterate(s, 0, |s|) == Step(4, ((h * 0x40 + f) * 0x40 + e) * 0x40 + d)
  {
    LeadBits(h);
    LeadBits(f);
    LeadBits(e);
    LeadBits(d);
  }

  /** Decoding an encoded scalar value returns it and consumes its bytes, whatever follows. */
  lemma DecodeEncoded(uc: int, rest: seq<Byte>)
    requires IsScalar(uc)
    ensures Iterate(EncodeChar(uc) + rest, 0, |EncodeChar(uc) + rest|) == Step(|EncodeChar(uc)|, uc)
  {
    var d, q := uc % 0x40, uc / 0x40;
    var e, r := q % 0x40, q / 0x40;
    var f, h := r % 0x40, r / 0x40;
    assert uc == q * 0x40 + d && q == r * 0x40 + e && r == h * 0x40 + f;
    if uc < 0x80 {
    } else if uc < 0x800 {
      Encode2(q, d);
      LeadBits(q);
      LeadBits(d);
    } else if uc < 0x1_0000 {
      Encode3(r, e, d);
      Decode3(r, e, d, rest);
    } else {
      Encode4(h, f, e, d);
      Decode4(h, f, e, d, rest);
    }
  }

  lemma EncodeDecoded2(s: seq<Byte>)
    requires Iterate(s, 0, |s|).len == 2
    ensures EncodeChar(Iterate(s, 0, |s|).cp) == s[..2]
  {
    Encode2(s[0] % 0x20, Payload(s[1]));
  }

  lemma EncodeDecoded3(s: seq<Byte>)
    requires Iterate(s, 0, |s|).len == 3
    ensures EncodeChar(Iterate(s, 0, |s|).cp) == s[..3]
  {
    Encode3(s[0] % 0x10, Payload(s[1]), Payload(s[2]));
  }

  lemma EncodeDecoded4(s: seq<Byte>)
    requires Iterate(s, 0, |s|).len == 4
    ensures EncodeChar(Iterate(s, 0, |s|).cp) == s[..4]
  {
    Encode4(s[0] % 8, Payload(s[1]), Payload(s[2]), Payload(s[3]));
  }

  /** Re-encoding what was decoded returns the bytes that were consumed. */
  lemma EncodeDecoded(s: seq<Byte>)
    requires Iterate(s, 0, |s|).cp >= 0
    ensures var r := Iterate(s, 0, |s|); 0 < r.len <= |s| && IsScalar(r.cp) && EncodeChar(r.cp) == s[..r.len]
  {
    IterateResult(s);
    var r := Iterate(s, 0, |s|);
    if r.len == 2 {
      EncodeDecoded2(s);
    } else if r.len == 3 {
      EncodeDecoded3(s);
    } else if r.len == 4 {
      EncodeDecoded4(s);
    }
  }

  // ---------- the order of the encodings ----------

  /** Where they first differ, the byte of `s` is the lower one. */
  predicate LowerAt(s: seq<Byte>, r: seq<Byte>, k: nat) {
    k < |s| && k < |r| && s[k] < r[k] && forall j :: 0 <= j < k ==> s[j] == r[j]
  }

  lemma DigitOrder(a: nat, b: nat)
    requires a < b
    ensures a / 0x40 < b / 0x40 || (a / 0x40 == b / 0x40 && a % 0x40 < b % 0x40)
  {
  }

  ghost predicate Lower(s: seq<Byte>, r: seq<Byte>) {
    exists k: nat :: LowerAt(s, r, k)
  }

  lemma Order2(a: int, b: int)
    requires 0x80 <= a < b < 0x800
    ensures Lower(EncodeChar(a), EncodeChar(b))
  {
    DigitOrder(a, b);
    assert LowerAt(EncodeChar(a), EncodeChar(b), if a / 0x40 == b / 0x40 then 1 else 0);
  }

  lemma Order3(a: int, b: int)
    requires 0x800 <= a < b < 0x1_0000
    ensures Lower(EncodeChar(a), EncodeChar(b))
  {
    var p, q := a / 0x40, b / 0x40;
    assert a / 0x1000 == p / 0x40 && b / 0x1000 == q / 0x40;
    DigitOrder(a, b);
    if p < q { DigitOrder(p, q); }
    assert LowerAt(EncodeChar(a), EncodeChar(b), if p == q then 2 else if p / 0x40 == q / 0x40 then 1 else 0);
  }

  lemma Order4(a: int, b: int)
    requires 0x1_0000 <= a < b < 0x11_0000
    ensures Lower(EncodeChar(a), EncodeChar(b))
  {
    var p, q, u, v := a / 0x40, b / 0x40, a / 0x1000, b / 0x1000;
    assert u == p / 0x40 && v == q / 0x40;
    assert a / 0x4_0000 == u / 0x40 && b / 0x4_0000 == v / 0x40;
    DigitOrder(a, b);
    if p < q { DigitOrder(p, q); }
    if u < v { DigitOrder(u, v); }
    assert LowerAt(EncodeChar(a), EncodeChar(b), if p == q then 3 else if u == v then 2 else if u / 0x40 == v / 0x40 then 1 else 0);
  }

  /**
   * Encodings, compared byte by byte, are in the order of the codepoints. There is only one such way to assign the
   * byte sequences of Table 3-7 to the scalar values.
   */
  lemma EncodingOrder(a: int, b: int)
    requires IsCodepoint(a) && IsCodepoint(b) && a < b
    ensures Lower(EncodeChar(a), EncodeChar(b))
  {
    if 0x80 <= a && b < 0x800 {
      Order2(a, b);
    } else if 0x800 <= a && b < 0x1_0000 {
      Order3(a, b);
    } else if 0x1_0000 <= a {
      Order4(a, b);
    } else {
      assert LowerAt(EncodeChar(a), EncodeChar(b), 0);
    }
  }

  // ---------- whole strings ----------

  function EncodeAll(cps: seq<int>): seq<Byte> {
    FlatMap(EncodeChar, cps)
  }

  /** The codepoints of `s`, or nothing when some step refuses. */
  function DecodeAll(s: seq<Byte>): Option<seq<int>>
    decreases |s|
  {
    if s == [] then Some([])
    else
      var r := Iterate(s, 0, |s|);
      if r.cp < 0 || r.len > |s| || r.len <= 0 then None
      else match DecodeAll(s[r.len..])
        case None => None
        case Some(rest) => Some([r.cp] + rest)
  }

  ghost predicate AllScalar(cps: seq<int>) {
    forall i :: 0 <= i < |cps| ==> IsScalar(cps[i])
  }

  lemma {:induction false} DecodeEncodeAll(cps: seq<int>)
    requires AllScalar(cps)
    ensures DecodeAll(EncodeAll(cps)) == Some(cps)
  {
    if cps != [] {
      var head, tail := EncodeChar(cps[0]), EncodeAll(cps[1..]);
      DecodeEncoded(cps[0], tail);
      assert (head + tail)[|head|..] == tail;
      DecodeEncodeAll(cps[1..]);
      assert DecodeAll(head + tail) == Some([cps[0]] + cps[1..]);
      assert cps == [cps[0]] + cps[1..];
    }
  }

  /** The first codepoint of an accepted text, the bytes it takes, and the rest of the text. */
  lemma FirstDecoded(s: seq<Byte>) returns (n: nat, cp: int)
    requires s != [] && DecodeAll(s).Some?
    ensures 0 < n <= |s| && IsScalar(cp) && EncodeChar(cp) == s[..n]
    ensures DecodeAll(s[n..]).Some? && DecodeAll(s).value == [cp] + DecodeAll(s[n..]).value
  {
    var r := Iterate(s, 0, |s|);
    n, cp := r.len, r.cp;
    EncodeDecoded(s);
  }

  lemma PrependScalar(cp: int, rest: seq<int>, s: seq<Byte>, n: nat)
    requires IsScalar(cp) && AllScalar(rest) && n <= |s| && EncodeChar(cp) == s[..n] && EncodeAll(rest) == s[n..]
    ensures AllScalar([cp] + rest) && EncodeAll([cp] + rest) == s
  {
    FlatMapCons(EncodeChar, cp, rest);
    assert s == s[..n] + s[n..];
  }

  lemma {:induction false} EncodeDecodeAll(s: seq<Byte>)
    requires DecodeAll(s).Some?
    ensures AllScalar(DecodeAll(s).value) && EncodeAll(DecodeAll(s).value) == s
    decreases |s|
  {
    if s != [] {
      var n, cp := FirstDecoded(s);
      EncodeDecodeAll(s[n..]);
      PrependScalar(cp, DecodeAll(s[n..]).value, s, n);
    }
  }

  lemma {:induction false} DecodableIffWellFormed(s: seq<Byte>)
    ensures DecodeAll(s).Some? <==> WellFormedUtf8(s)
    decreases |s|
  {
    if s != [] {
      var r := Iterate(s, 0, |s|);
      IterateResult(s);
      if r.cp >= 0 {
        IterateTableRow(s, r.len);
        DecodableIffWellFormed(s[r.len..]);
      }
      forall n | 0 < n <= |s| && TableRow(s[..n])
        ensures n == r.len
      {
        IterateTableRow(s, n);
      }
    }
  }

  /**
   The codec is a bijection between scalar-value sequences and the strings of Table 3-7: decoding
   undoes encoding, and exactly the well-formed strings are encodings, each of what it decodes to.
   */
  lemma CodecBijection(cps: seq<int>, s: seq<Byte>)
    ensures AllScalar(cps) ==> WellFormedUtf8(EncodeAll(cps)) && DecodeAll(EncodeAll(cps)) == Some(cps)
    ensures WellFormedUtf8(s) <==> exists r :: AllScalar(r) && EncodeAll(r) == s
    ensures AllScalar(cps) ==> (EncodeAll(cps) == s <==> DecodeAll(s) == Some(cps))
  {
    if AllScalar(cps) {
      DecodeEncodeAll(cps);
      DecodableIffWellFormed(EncodeAll(cps));
    }
    DecodableIffWellFormed(s);
    if DecodeAll(s).Some? {
      EncodeDecodeAll(s);
    }
    forall r | AllScalar(r) && EncodeAll(r) == s
      ensures DecodeAll(s) == Some(r)
    {
      DecodeEncodeAll(r);
    }
  }
}
