/** `base64.c` (RFC 4648 section 4): encoding, and decoding that drops whatever is not in the alphabet. */
module Base64 {
  import opened Bytes
  import opened Sequences

  type Digit = x: int | 0 <= x < 64

  /** The encode table: A-Z, a-z, 0-9, '+' and '/'. */
  function Letter(d: Digit): Byte {
    if d < 26 then 65 + d else if d < 52 then 97 + (d - 26) else if d < 62 then 48 + (d - 52) else if d == 62 then 43 else 47
  }

  /** The decode table with its range test: the digit plus 62, or 0 for a character outside the alphabet. */
  function Entry(c: Byte): (v: Byte)
    ensures v == 0 || 62 <= v < 126
  {
    if c < 43 || c > 122 then 0
    else if 65 <= c <= 90 then 62 + (c - 65)
    else if 97 <= c then 88 + (c - 97)
    else if 48 <= c <= 57 then 114 + (c - 48)
    else if c == 43 then 124
    else if c == 47 then 125
    else 0
  }

  const PAD: Byte := 61

  // ---------- encoding ----------

  function Letters(b0: Byte, b1: Byte, b2: Byte): (r: seq<Byte>)
    ensures |r| == 4
  {
    [Letter(b0 / 4), Letter(b0 % 4 * 16 + b1 / 16), Letter(b1 % 16 * 4 + b2 / 64), Letter(b2 % 64)]
  }

  /** The padded encoding of `s`. */
  function Encoded(s: seq<Byte>): (r: seq<Byte>)
    ensures |r| == (|s| + 2) / 3 * 4
  {
    if |s| == 0 then []
    else if |s| == 1 then Letters(s[0], 0, 0)[..2] + [PAD, PAD]
    else if |s| == 2 then Letters(s[0], s[1], 0)[..3] + [PAD]
    else Letters(s[0], s[1], s[2]) + Encoded(s[3..])
  }

  /** How many source bytes fit into `capacity` characters with the terminator. */
  function Fitting(size: nat, capacity: nat): nat
    requires capacity > 0
  {
    var m := (capacity - 1) / 4 * 3;
    if m < size then m else size
  }

  // ---------- decoding ----------

  /** The digit of a character, if it has one. */
  function DigitOf(c: int): (r: seq<Digit>) {
    if 0 <= c < 0x100 && Entry(c) != 0 then [Entry(c) - 62] else []
  }

  /** The digits of the characters that are in the alphabet. */
  function Digits(s: seq<Byte>): seq<Digit> {
    FlatMap(DigitOf, s)
  }

  /** Three bytes from four digits. */
  function Triple(d: seq<Digit>): (r: seq<Byte>)
    requires |d| == 4
    ensures |r| == 3
  {
    var d0: int, d1: int, d2: int, d3: int := d[0], d[1], d[2], d[3];
    [d0 * 4 + d1 / 16, d1 % 16 * 16 + d2 / 4, d2 % 4 * 64 + d3]
  }

  /** A group of up to four digits, the missing ones taken as 0, gives one byte fewer than it has digits. */
  function Group(d: seq<Digit>): (r: seq<Byte>)
    requires |d| <= 4
    ensures |r| == if |d| > 1 then |d| - 1 else 0
  {
    if |d| <= 1 then []
    else Triple(d + seq(4 - |d|, _ => 0))[..|d| - 1]
  }

  /** The digits decoded in groups of four. */
  function DecodeDigits(d: seq<Digit>): seq<Byte> {
    if |d| < 4 then Group(d) else Group(d[..4]) + DecodeDigits(d[4..])
  }

  function Take(s: seq<Byte>, n: nat): (r: seq<Byte>) {
    if |s| <= n then s else s[..n]
  }

  /** What decoding `s` into `capacity` bytes gives. */
  function Decoded(s: seq<Byte>, capacity: nat): seq<Byte> {
    Take(DecodeDigits(Digits(s)), capacity)
  }

  // ---------- decoding undoes encoding ----------

  lemma LetterEntry(d: Digit)
    ensures Entry(Letter(d)) == d + 62
  {
  }

  /** The digits of an encoded triple are its letters' digits. */
  lemma DigitsOfLetters(b0: Byte, b1: Byte, b2: Byte, n: nat)
    requires n <= 4
    ensures Digits(Letters(b0, b1, b2)[..n]) == [b0 / 4, b0 % 4 * 16 + b1 / 16, b1 % 16 * 4 + b2 / 64, b2 % 64][..n]
  {
    var l: seq<Byte> := Letters(b0, b1, b2);
    var d: seq<Digit> := [b0 / 4, b0 % 4 * 16 + b1 / 16, b1 % 16 * 4 + b2 / 64, b2 % 64];
    if n > 0 {
      DigitsOfLetters(b0, b1, b2, n - 1);
      assert l[..n] == l[..n - 1] + [l[n - 1]] && d[..n] == d[..n - 1] + [d[n - 1]];
      FlatMapSnoc(DigitOf, l[..n - 1], l[n - 1]);
      assert l[n - 1] == Letter(d[n - 1]);
      LetterEntry(d[n - 1]);
    }
  }

  lemma TripleBack(b0: Byte, b1: Byte, b2: Byte)
    ensures Triple([b0 / 4, b0 % 4 * 16 + b1 / 16, b1 % 16 * 4 + b2 / 64, b2 % 64]) == [b0, b1, b2]
  {
    assert (b0 % 4 * 16 + b1 / 16) / 16 == b0 % 4 && (b0 % 4 * 16 + b1 / 16) % 16 == b1 / 16;
    assert (b1 % 16 * 4 + b2 / 64) / 4 == b1 % 16 && (b1 % 16 * 4 + b2 / 64) % 4 == b2 / 64;
  }

  /** A padded encoding of one byte has two digits. */
  lemma EncodedOne(b0: Byte)
    ensures DecodeDigits(Digits(Encoded([b0]))) == [b0]
  {
    var l := Letters(b0, 0, 0)[..2];
    FlatMapSnoc(DigitOf, l, PAD);
    FlatMapSnoc(DigitOf, l + [PAD], PAD);
    assert l + [PAD] + [PAD] == Encoded([b0]);
    DigitsOfLetters(b0, 0, 0, 2);
    assert Digits(l) + seq(2, _ => 0) == [b0 / 4, b0 % 4 * 16, 0, 0];
    TripleBack(b0, 0, 0);
  }

  /** A padded encoding of two bytes has three digits. */
  lemma EncodedTwo(b0: Byte, b1: Byte)
    ensures DecodeDigits(Digits(Encoded([b0, b1]))) == [b0, b1]
  {
    var l := Letters(b0, b1, 0)[..3];
    FlatMapSnoc(DigitOf, l, PAD);
    assert l + [PAD] == Encoded([b0, b1]);
    DigitsOfLetters(b0, b1, 0, 3);
    assert Digits(l) + seq(1, _ => 0) == [b0 / 4, b0 % 4 * 16 + b1 / 16, b1 % 16 * 4, 0];
    TripleBack(b0, b1, 0);
  }

  /** Four digits in front are decoded by themselves. */
  lemma DecodeFour(d: seq<Digit>, rest: seq<Digit>)
    requires |d| == 4
    ensures DecodeDigits(d + rest) == Triple(d) + DecodeDigits(rest)
  {
    assert (d + rest)[..4] == d && (d + rest)[4..] == rest;
    assert d + seq(0, _ => 0) == d && Triple(d)[..3] == Triple(d);
  }

  lemma EncodedStep(b0: Byte, b1: Byte, b2: Byte, rest: seq<Byte>)
    ensures DecodeDigits(Digits(Letters(b0, b1, b2) + rest)) == [b0, b1, b2] + DecodeDigits(Digits(rest))
  {
    var l := Letters(b0, b1, b2);
    FlatMapConcat(DigitOf, l, rest);
    DigitsOfLetters(b0, b1, b2, 4);
    assert l[..4] == l;
    DecodeFour(Digits(l), Digits(rest));
    TripleBack(b0, b1, b2);
  }

  lemma {:induction false} EncodedDigits(s: seq<Byte>)
    ensures DecodeDigits(Digits(Encoded(s))) == s
  {
    if |s| == 1 {
      EncodedOne(s[0]);
      assert s == [s[0]];
    } else if |s| == 2 {
      EncodedTwo(s[0], s[1]);
      assert s == [s[0], s[1]];
    } else if |s| > 2 {
      EncodedStep(s[0], s[1], s[2], Encoded(s[3..]));
      EncodedDigits(s[3..]);
      assert s == [s[0], s[1], s[2]] + s[3..];
    }
  }

  /** Decoding a terminated encoding into enough room gives back the bytes. */
  lemma RoundTrip(s: seq<Byte>, capacity: nat)
    requires capacity >= |s|
    ensures Decoded(Encoded(s) + [0], capacity) == s
  {
    EncodedDigits(s);
    FlatMapSnoc(DigitOf, Encoded(s), 0);
    assert Digits(Encoded(s)) + [] == Digits(Encoded(s));
  }

  /** A character outside the alphabet changes nothing, wherever it stands. */
  lemma NoiseIgnored(a: seq<Byte>, c: Byte, b: seq<Byte>, capacity: nat)
    requires Entry(c) == 0
    ensures Decoded(a + [c] + b, capacity) == Decoded(a + b, capacity)
  {
    FlatMapConcat(DigitOf, a + [c], b);
    FlatMapSnoc(DigitOf, a, c);
    FlatMapConcat(DigitOf, a, b);
    assert Digits(a) + [] == Digits(a);
  }

  lemma {:induction false} DecodedLength(d: seq<Digit>)
    ensures |DecodeDigits(d)| == |d| * 3 / 4
  {
    if |d| >= 4 {
      DecodedLength(d[4..]);
    }
  }

  /**
   * The whole text is decoded exactly when there is room for three bytes for every four digits, and otherwise as many
   * bytes from its front as there is room for.
   */
  lemma WholeTextIff(s: seq<Byte>, capacity: nat)
    ensures Decoded(s, capacity) == DecodeDigits(Digits(s)) <==> capacity >= |Digits(s)| * 3 / 4
    ensures Decoded(s, capacity) <= DecodeDigits(Digits(s))
    ensures capacity < |Digits(s)| * 3 / 4 ==> |Decoded(s, capacity)| == capacity
  {
    DecodedLength(Digits(s));
  }

  /** The room `base64.h` asks for, ((size - 1) / 4) * 3 bytes, does not suffice: four digits give three bytes. */
  lemma DocumentedRoomFallsShort()
    ensures |Encoded([65, 66, 67])| == 4
    ensures Decoded(Encoded([65, 66, 67]), (4 - 1) / 4 * 3) == []
    ensures DecodeDigits(Digits(Encoded([65, 66, 67]))) == [65, 66, 67]
  {
    EncodedDigits([65, 66, 67]);
  }

  // ---------- the tables and the encoding, by the words of RFC 4648 ----------

  /** The alphabet of section 4, in order. */
  const CAPITALS: string := "ABCDEFGHIJKLMNOPQRSTUVWXYZ"
  const SMALL: string := "abcdefghijklmnopqrstuvwxyz"
  const FIGURES: string := "0123456789"
  const ALPHABET: string := CAPITALS + SMALL + FIGURES + "+/"

  lemma CapitalAt(d: nat)
    requires d < 26
    ensures |CAPITALS| == 26 && CAPITALS[d] as int == 65 + d
  {
    assert d in {0, 1, 2, 3, 4, 5, 6, 7, 8, 9, 10, 11, 12, 13, 14, 15, 16, 17, 18, 19, 20, 21, 22, 23, 24, 25};
  }

  lemma SmallAt(d: nat)
    requires d < 26
    ensures |SMALL| == 26 && SMALL[d] as int == 97 + d
  {
    assert d in {0, 1, 2, 3, 4, 5, 6, 7, 8, 9, 10, 11, 12, 13, 14, 15, 16, 17, 18, 19, 20, 21, 22, 23, 24, 25};
  }

  /** The encode table is the alphabet. */
  lemma LetterIsAlphabet(d: Digit)
    ensures |ALPHABET| == 64 && ALPHABET[d] as int == Letter(d)
  {
    CapitalAt(if d < 26 then d else 0);
    SmallAt(if 26 <= d < 52 then d - 26 else 0);
    assert d >= 52 ==> d - 52 in {0, 1, 2, 3, 4, 5, 6, 7, 8, 9, 10, 11};
  }

  /** The decode table knows exactly the characters of the alphabet, each with its place in it. */
  lemma EntryIsPlace(c: Byte)
    ensures Entry(c) == 0 <==> forall d: Digit :: Letter(d) != c
    ensures forall d: Digit :: Letter(d) == c <==> Entry(c) == d + 62
  {
    if Entry(c) != 0 {
      var d: Digit := Entry(c) - 62;
      assert Letter(d) == c;
    }
  }

  /** A number from the bits of three bytes, or of four digits; missing ones count as 0. */
  function BitsOfBytes(s: seq<Byte>): nat
    requires |s| <= 3
  {
    (if |s| > 0 then 0x1_0000 * s[0] as int else 0) + (if |s| > 1 then 0x100 * s[1] as int else 0) + (if |s| > 2 then s[2] else 0)
  }

  function BitsOfDigits(d: seq<Digit>): nat
    requires |d| <= 4
  {
    (if |d| > 0 then 0x4_0000 * d[0] as int else 0) + (if |d| > 1 then 0x1000 * d[1] as int else 0)
    + (if |d| > 2 then 64 * d[2] as int else 0) + (if |d| > 3 then d[3] else 0)
  }

  /** One to three bytes become the one more digits that have the same bits, filled up to four characters. */
  lemma GroupHasBits(s: seq<Byte>, d: seq<Digit>)
    requires 0 < |s| <= 3 && |d| == |s| + 1 && BitsOfDigits(d) == BitsOfBytes(s)
    ensures Encoded(s) == seq(4, i requires 0 <= i < 4 => if i < |d| then Letter(d[i]) else PAD)
  {
    DigitsOfGroup(if |s| > 0 then s[0] else 0, if |s| > 1 then s[1] else 0, if |s| > 2 then s[2] else 0,
                  if |d| > 0 then d[0] else 0, if |d| > 1 then d[1] else 0, if |d| > 2 then d[2] else 0, if |d| > 3 then d[3] else 0);
    assert |s| == 3 ==> Encoded(s[3..]) == [];
  }

  lemma DigitsOfGroup(b0: Byte, b1: Byte, b2: Byte, d0: Digit, d1: Digit, d2: Digit, d3: Digit)
    requires 0x4_0000 * d0 as int + 0x1000 * d1 as int + 64 * d2 as int + d3 as int == 0x1_0000 * b0 as int + 0x100 * b1 as int + b2
    ensures d0 == b0 / 4 && d1 == b0 % 4 * 16 + b1 / 16 && d2 == b1 % 16 * 4 + b2 / 64 && d3 == b2 % 64
  {
  }

  /** Two to four digits become the one fewer bytes that have the same bits, the surplus bits of the last digit dropped. */
  lemma DigitsHaveBits(d: seq<Digit>)
    requires 2 <= |d| <= 4
    ensures |Group(d)| == |d| - 1
    ensures var unit := if |d| == 2 then 0x1_0000 else if |d| == 3 then 0x100 else 1;
      BitsOfBytes(Group(d)) == BitsOfDigits(d) / unit * unit
  {
    var e := d + seq(4 - |d|, _ => 0);
    BytesOfGroup(e[0], e[1], e[2], e[3]);
  }

  lemma BytesOfGroup(d0: Digit, d1: Digit, d2: Digit, d3: Digit)
    ensures var n := 0x4_0000 * d0 as int + 0x1000 * d1 as int + 64 * d2 as int + d3 as int;
      var b0, b1, b2 := d0 as int * 4 + d1 / 16, d1 as int % 16 * 16 + d2 / 4, d2 as int % 4 * 64 + d3;
      n == 0x1_0000 * b0 + 0x100 * b1 + b2 && n / 0x1_0000 == b0 && n / 0x100 == 0x100 * b0 + b1
  {
  }

  /** The first three bytes are encoded by themselves. */
  lemma EncodedSplit(s: seq<Byte>, pos: nat)
    requires pos + 3 <= |s|
    ensures |Encoded(s[pos..pos + 3])| == 4
    ensures Encoded(s[pos..]) == Encoded(s[pos..pos + 3]) + Encoded(s[pos + 3..])
  {
    assert s[pos..][3..] == s[pos + 3..];
    assert Encoded(s[pos..pos + 3][3..]) == [];
  }

  // ---------- how much is encoded ----------

  /** An encoding and its terminator fit into the capacity. */
  predicate Fits(s: seq<Byte>, capacity: nat) {
    |Encoded(s)| + 1 <= capacity
  }

  /** As much is encoded as fits: all of it, or what leaves no room for the encoding of one byte more. */
  lemma FittingIsMost(s: seq<Byte>, capacity: nat)
    requires capacity > 0
    ensures var k := Fitting(|s|, capacity);
      k <= |s| && Fits(s[..k], capacity) && (k == |s| || !Fits(s[..k + 1], capacity))
  {
  }

  /** All is encoded exactly if the whole encoding fits. */
  lemma EncodesAllIff(s: seq<Byte>, capacity: nat)
    requires capacity > 0
    ensures Fitting(|s|, capacity) == |s| <==> Fits(s, capacity)
    ensures Fits(s, capacity) <==> (|s| + 2) / 3 * 4 < capacity
  {
    assert s[..|s|] == s;
  }

  // ---------- the encoder ----------

  /** `base64_encode`. */
  method Encode(source: array<Byte>, size: nat, destination: array<Byte>, capacity: nat) returns (n: nat)
    requires size <= source.Length && capacity <= destination.Length && source != destination
    modifies destination
    ensures n <= capacity && destination[n..] == old(destination[n..])
    ensures capacity == 0 ==> n == 0
    ensures capacity > 0 ==> destination[..n] == Encoded(source[..Fitting(size, capacity)]) + [0]
    ensures (size + 2) / 3 * 4 < capacity ==> destination[..n] == Encoded(source[..size]) + [0]
  {
    if capacity == 0 {
      return 0;
    }
    EncodesAllIff(source[..size], capacity);
    var max := (capacity - 1) / 4 * 3;
    var end := if max < size then max else size;
    n := EncodeBlocks(source, end, destination, capacity);
    n := Terminate(destination, n);
  }

  method Terminate(destination: array<Byte>, n: nat) returns (end: nat)
    requires n < destination.Length
    modifies destination
    ensures end == n + 1 && destination[..end] == old(destination[..n]) + [0]
    ensures destination[end..] == old(destination[n + 1..])
  {
    destination[n] := 0;
    end := n + 1;
  }

  /** The loop of the encoder and the shorter block after it. */
  method EncodeBlocks(source: array<Byte>, end: nat, destination: array<Byte>, capacity: nat) returns (n: nat)
    requires end <= source.Length && capacity <= destination.Length && source != destination
    requires (end + 2) / 3 * 4 < capacity
    modifies destination
    ensures n < capacity && destination[..n] == Encoded(source[..end])
    ensures destination[n..] == old(destination[n..])
  {
    var pos := 0;
    n := 0;
    assert source[0..end] == source[..end];
    while end - pos > 2
      invariant pos <= end && n + (end - pos + 2) / 3 * 4 < capacity
      invariant destination[..n] + Encoded(source[pos..end]) == Encoded(source[..end])
      invariant destination[n..] == old(destination[n..])
    {
      EncodeTurn(source, pos, end, destination, n);
      pos, n := pos + 3, n + 4;
    }
    if pos < end {
      EncodeTurn(source, pos, end, destination, n);
      n := n + 4;
    }
  }

  /** One turn moves a block of the encoding still to come into the destination. */
  method EncodeTurn(source: array<Byte>, pos: nat, end: nat, destination: array<Byte>, n: nat)
    requires pos < end <= source.Length && n + 4 <= destination.Length && source != destination
    modifies destination
    ensures destination[..n + 4] + Encoded(source[if pos + 3 < end then pos + 3 else end..end])
         == old(destination[..n]) + Encoded(source[pos..end])
    ensures destination[n + 4..] == old(destination[n + 4..])
  {
    WriteTriple(source, pos, destination, n, if pos + 3 < end then 3 else end - pos);
    ghost var s := source[pos..end];
    if pos + 3 < end {
      EncodedSplit(s, 0);
      assert s[0..] == s && s[0..3] == source[pos..pos + 3] && s[3..] == source[pos + 3..end];
    }
  }

  /** One turn of the encoder: four characters for the next `count` bytes. */
  method WriteTriple(source: array<Byte>, pos: nat, destination: array<Byte>, n: nat, count: nat)
    requires 0 < count <= 3 && pos + count <= source.Length && n + 4 <= destination.Length && source != destination
    modifies destination
    ensures destination[..n + 4] == old(destination[..n]) + Encoded(source[pos..pos + count])
    ensures destination[n + 4..] == old(destination[n + 4..])
  {
    var b0 := source[pos];
    var b1 := if count > 1 then source[pos + 1] else 0;
    var b2 := if count > 2 then source[pos + 2] else 0;
    destination[n] := Letter(b0 / 4);
    destination[n + 1] := Letter(b0 % 4 * 16 + b1 / 16);
    destination[n + 2] := if count > 1 then Letter(b1 % 16 * 4 + b2 / 64) else PAD;
    destination[n + 3] := if count > 2 then Letter(b2 % 64) else PAD;
  }

  // ---------- the decoder ----------

  /** The inner loop of `base64_decode`: drops characters until one has a digit. */
  method ReadEntry(src: array<Byte>, size: nat, pos: nat) returns (next: nat, v: Byte)
    requires pos <= size <= src.Length
    ensures pos <= next <= size && (v == 0 || 62 <= v < 126)
    ensures v == 0 ==> next == size && Digits(src[pos..size]) == []
    ensures v != 0 ==> next > pos && Digits(src[pos..size]) == [v - 62] + Digits(src[next..size])
  {
    next, v := pos, 0;
    while next < size && v == 0
      invariant pos <= next <= size && (v == 0 || (62 <= v < 126 && next > pos))
      invariant Digits(src[pos..size]) == (if v == 0 then [] else [v - 62]) + Digits(src[next..size])
    {
      FlatMapCons(DigitOf, src[next], src[next + 1..size]);
      assert src[next..size] == [src[next]] + src[next + 1..size];
      v := Entry(src[next]);
      next := next + 1;
    }
  }

  /** The middle loop of `base64_decode`: a block of four digits, fewer only when the text ends. */
  method ReadBlock(src: array<Byte>, size: nat, pos: nat) returns (next: nat, block: seq<Digit>, count: nat)
    requires pos <= size <= src.Length
    ensures |block| == 4 && count <= 4 && pos + count <= next <= size && (count == 4 || next == size)
    ensures Digits(src[pos..size]) == block[..count] + Digits(src[next..size])
    ensures block == block[..count] + seq(4 - count, _ => 0)
  {
    block, count, next := [0, 0, 0, 0], 0, pos;
    while next < size && count < 4
      invariant |block| == 4 && count <= 4 && pos + count <= next <= size
      invariant Digits(src[pos..size]) == block[..count] + Digits(src[next..size])
      invariant forall k :: count <= k < 4 ==> block[k] == 0
      decreases size - next
    {
      var v;
      ghost var before := block[..count];
      next, v := ReadEntry(src, size, next);
      if v != 0 {
        block := block[count := v - 62];
        count := count + 1;
        assert block[..count] == before + [v - 62];
      }
    }
  }

  /** What the block just read contributes: the text decodes to its group followed by what the rest decodes to. */
  lemma BlockDecodes(block: seq<Digit>, count: nat, rest: seq<Digit>)
    requires |block| == 4 && count <= 4 && (count < 4 ==> rest == [])
    requires block == block[..count] + seq(4 - count, _ => 0)
    ensures DecodeDigits(block[..count] + rest) == (if count > 1 then Triple(block)[..count - 1] else []) + DecodeDigits(rest)
  {
    if count == 4 {
      assert block[..4] == block && Triple(block)[..3] == Triple(block);
      DecodeFour(block, rest);
    } else {
      assert block[..count] + rest == block[..count];
    }
  }

  /** The last loop of `base64_decode`: the bytes of a block, as far as there is room. */
  method WriteBytes(dst: array<Byte>, n: nat, capacity: nat, out: seq<Byte>, count: nat) returns (end: nat)
    requires n <= capacity <= dst.Length && count <= |out|
    modifies dst
    ensures end == if n + count <= capacity then n + count else capacity
    ensures dst[..end] == old(dst[..n]) + out[..end - n]
    ensures dst[end..] == old(dst[end..])
  {
    end := n;
    var i := 0;
    while i < count && end < capacity
      invariant i <= count && end == n + i <= capacity
      invariant dst[..end] == old(dst[..n]) + out[..i]
      invariant dst[end..] == old(dst[end..])
    {
      dst[end] := out[i];
      end, i := end + 1, i + 1;
    }
  }

  function Room(count: nat, room: nat): (k: nat)
    ensures k <= room && (count > 1 ==> k < count) && (count <= 1 ==> k == 0)
  {
    if count <= 1 then 0 else if count - 1 <= room then count - 1 else room
  }

  lemma BlockStep(done: seq<Byte>, block: seq<Digit>, count: nat, rest: seq<Digit>, room: nat)
    requires |block| == 4 && count <= 4 && (count < 4 ==> rest == [])
    requires block == block[..count] + seq(4 - count, _ => 0)
    ensures var k := Room(count, room);
      done + Take(DecodeDigits(block[..count] + rest), room) == done + Triple(block)[..k] + Take(DecodeDigits(rest), room - k)
  {
    BlockDecodes(block, count, rest);
    TakeStep(done, if count > 1 then Triple(block)[..count - 1] else [], DecodeDigits(rest), room);
  }

  /** Writing as much of `a` as fits leaves the same to come as before. */
  lemma TakeStep(done: seq<Byte>, a: seq<Byte>, rest: seq<Byte>, room: nat)
    ensures var k := if |a| <= room then |a| else room;
      done + Take(a + rest, room) == done + a[..k] + Take(rest, room - k)
  {
    if |a| <= room {
      assert Take(a + rest, room) == a + Take(rest, room - |a|);
    } else {
      assert Take(a + rest, room) == a[..room];
    }
  }

  /**
   * `base64_decode`. The destination may be the source buffer itself: the write index never passes the read
   * index, so the unread text stays what it was.
   */
  method Decode(src: array<Byte>, size: nat, dst: array<Byte>, capacity: nat) returns (n: nat)
    requires size <= src.Length && capacity <= dst.Length
    modifies dst
    ensures n <= capacity && dst[..n] == Decoded(old(src[..size]), capacity)
    ensures dst[n..] == old(dst[n..])
  {
    var pos := 0;
    n := 0;
    ghost var s := src[..size];
    assert s[0..] == s;
    while pos < size && n < capacity
      invariant pos <= size && n <= capacity && n <= pos
      invariant src[pos..size] == s[pos..]
      invariant dst[n..] == old(dst[n..])
      invariant dst[..n] + Take(DecodeDigits(Digits(s[pos..])), capacity - n) == Decoded(s, capacity)
      decreases size - pos
    {
      pos, n := DecodeBlock(src, size, pos, dst, n, capacity);
    }
  }

  /** The bytes of a block, as far as there is room, and what is still to come of the decoded text. */
  method WriteBlock(dst: array<Byte>, n: nat, capacity: nat, block: seq<Digit>, count: nat, ghost rest: seq<Digit>) returns (end: nat)
    requires n < capacity <= dst.Length && |block| == 4 && count <= 4 && (count < 4 ==> rest == [])
    requires block == block[..count] + seq(4 - count, _ => 0)
    modifies dst
    ensures n <= end <= capacity && end <= n + count && dst[end..] == old(dst[end..])
    ensures dst[..end] + Take(DecodeDigits(rest), capacity - end) == old(dst[..n]) + Take(DecodeDigits(block[..count] + rest), capacity - n)
  {
    ghost var done, k := dst[..n], Room(count, capacity - n);
    BlockStep(done, block, count, rest, capacity - n);
    end := n;
    if count > 1 {
      end := WriteBytes(dst, n, capacity, Triple(block), count - 1);
    }
    assert end == n + k && dst[..end] == done + Triple(block)[..k];
  }

  /** One turn of the decoder. */
  method DecodeBlock(src: array<Byte>, size: nat, pos: nat, dst: array<Byte>, n: nat, capacity: nat) returns (next: nat, end: nat)
    requires pos < size <= src.Length && n < capacity <= dst.Length && n <= pos
    modifies dst
    ensures pos < next <= size && n <= end <= capacity && end <= next
    ensures src[next..size] == old(src[next..size])
    ensures dst[end..] == old(dst[end..])
    ensures dst[..end] + Take(DecodeDigits(Digits(old(src[next..size]))), capacity - end)
         == old(dst[..n]) + Take(DecodeDigits(Digits(old(src[pos..size]))), capacity - n)
  {
    var block, count;
    next, block, count := ReadBlock(src, size, pos);
    ghost var unread := src[next..size];
    end := WriteBlock(dst, n, capacity, block, count, Digits(unread));
    assert src[next..size] == unread;
  }

  /** What was encoded into enough room is decoded to what it was. */
  method EncodeThenDecode(source: array<Byte>, size: nat, text: array<Byte>, room: nat, dst: array<Byte>, capacity: nat) returns (n: nat)
    requires size <= source.Length && room <= text.Length && capacity <= dst.Length
    requires source != text && (size + 2) / 3 * 4 < room && size <= capacity
    modifies text, dst
    ensures n == size && dst[..n] == old(source[..size])
  {
    var length := Encode(source, size, text, room);
    RoundTrip(source[..size], capacity);
    n := Decode(text, length, dst, capacity);
  }
}
