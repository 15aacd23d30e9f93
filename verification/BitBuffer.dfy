/** `bitbuffer.c` on a memory buffer: fields of 0 to 128 bits packed across 32-bit words. */
module BitBuffers {
  import opened BitStrings
  import opened Bytes

  const WORD: nat := 0x1_0000_0000
  const COUNT: nat := 0x1_0000_0000_0000_0000

  type Word = x: int | 0 <= x < WORD

  lemma WordIsPow2()
    ensures Pow2(32) == WORD
  {
    assert Pow2(8) == 0x100;
    assert Pow2(16) == 0x1_0000 by { assert Pow2(12) == 0x1000; }
    assert Pow2(24) == 0x100_0000 by { assert Pow2(20) == 0x10_0000; }
    assert Pow2(28) == 0x1000_0000;
  }

  /** `byteorder_swap32`. */
  function SwapBytes(w: Word): Word {
    w / 0x100_0000 + 0x100 * (w / 0x1_0000 % 0x100) + 0x1_0000 * (w / 0x100 % 0x100) + 0x100_0000 * (w % 0x100)
  }

  /** A word as it is stored, or as it is read back. */
  function Ordered(w: Word, swap: bool): Word {
    if swap then SwapBytes(w) else w
  }

  lemma AssembledBytes(a: int, b: int, c: int, d: int)
    requires 0 <= a < 0x100 && 0 <= b < 0x100 && 0 <= c < 0x100 && 0 <= d < 0x100
    ensures var s := a + 0x100 * b + 0x1_0000 * c + 0x100_0000 * d;
      s % 0x100 == a && s / 0x100 % 0x100 == b && s / 0x1_0000 % 0x100 == c && s / 0x100_0000 == d
  {
    var s := a + 0x100 * b + 0x1_0000 * c + 0x100_0000 * d;
    assert s / 0x100 == b + 0x100 * c + 0x1_0000 * d;
    assert s / 0x1_0000 == c + 0x100 * d;
  }

  lemma OrderedTwice(w: Word, swap: bool)
    ensures Ordered(Ordered(w, swap), swap) == w
  {
    SplitWord(w);
    AssembledBytes(w / 0x100_0000, w / 0x1_0000 % 0x100, w / 0x100 % 0x100, w % 0x100);
  }

  // ---------- the bytes of a word in memory ----------

  /** The byte of a word that stands for its bits from `8 * i` on. */
  function ByteAt(w: Word, i: nat): (v: Byte)
    requires i < 4
  {
    if i == 0 then w % 0x100 else if i == 1 then w / 0x100 % 0x100 else if i == 2 then w / 0x1_0000 % 0x100 else w / 0x100_0000
  }

  /** Where the byte `i` of a word stands in the word stored: swapping reverses the four. */
  function PlaceOf(i: nat, swap: bool): nat
    requires i < 4
  {
    if swap then 3 - i else i
  }

  /** A swap puts the byte `i` where the byte `3 - i` was; without it all stay. */
  lemma SwappedBytes(w: Word, i: nat)
    requires i < 4
    ensures ByteAt(Ordered(w, true), i) == ByteAt(w, 3 - i)
    ensures Ordered(w, false) == w
  {
    SplitWord(w);
    AssembledBytes(w / 0x100_0000, w / 0x1_0000 % 0x100, w / 0x100 % 0x100, w % 0x100);
  }

  /** Eight of the bits of a text. */
  function Octet(b: seq<bool>, i: nat): (o: seq<bool>)
    requires 8 * i + 8 <= |b|
  {
    b[8 * i..8 * i + 8]
  }

  lemma FourShift(w: nat)
    ensures Shr(w, 4) == w / 0x10
  {
    assert Shr(w, 4) == Shr(w / 2, 3) == Shr(w / 2 / 2, 2) == Shr(w / 2 / 2 / 2, 1) == w / 2 / 2 / 2 / 2;
  }

  lemma {:induction false} ShiftTwice(w: nat, a: nat, b: nat)
    ensures Shr(w, a + b) == Shr(Shr(w, a), b)
    decreases a
  {
    if a > 0 {
      ShiftTwice(w / 2, a - 1, b);
    }
  }

  lemma ByteShift(w: nat)
    ensures Shr(w, 8) == w / 0x100
  {
    ShiftTwice(w, 4, 4);
    FourShift(w);
    FourShift(w / 0x10);
  }

  lemma FirstOctet(w: nat, n: nat)
    ensures Bits(w, 8 + n) == Bits(w % 0x100, 8) + Bits(w / 0x100, n)
  {
    BitsSplit(w, 8, n);
    ByteShift(w);
    BitsOfLow(w, 8);
    LowIsMod(w, 8);
    assert Pow2(4) == 16;
    assert Pow2(8) == 0x100;
  }

  /** The bits of a word, eight by eight, are those of its bytes. */
  lemma OctetIsByte(w: Word, i: nat)
    requires i < 4
    ensures Octet(Bits(w, 32), i) == Bits(ByteAt(w, i), 8)
  {
    BytesOfWord(w);
    OctetOfJoined(Bits(w % 0x100, 8), Bits(w / 0x100 % 0x100, 8), Bits(w / 0x1_0000 % 0x100, 8), Bits(w / 0x100_0000, 8), i);
  }

  lemma BytesOfWord(w: Word)
    ensures Bits(w, 32) == Bits(w % 0x100, 8) + (Bits(w / 0x100 % 0x100, 8) + (Bits(w / 0x1_0000 % 0x100, 8) + Bits(w / 0x100_0000, 8)))
  {
    assert w / 0x100 / 0x100 == w / 0x1_0000 && w / 0x1_0000 / 0x100 == w / 0x100_0000;
    FirstOctet(w, 24);
    FirstOctet(w / 0x100, 16);
    FirstOctet(w / 0x1_0000, 8);
  }

  lemma OctetOfJoined(a: seq<bool>, b: seq<bool>, c: seq<bool>, d: seq<bool>, i: nat)
    requires |a| == |b| == |c| == |d| == 8 && i < 4
    ensures Octet(a + (b + (c + d)), i) == if i == 0 then a else if i == 1 then b else if i == 2 then c else d
  {
  }

  /** The word stored at a place holds 32 bits: which of its bytes holds which eight of them. */
  ghost predicate LaidOut(stored: Word, swap: bool, b: seq<bool>) {
    |b| == 32 && forall i :: 0 <= i < 4 ==> Octet(b, i) == Bits(ByteAt(stored, PlaceOf(i, swap)), 8)
  }

  lemma OrderedLaidOut(w: Word, swap: bool)
    ensures LaidOut(Ordered(w, swap), swap, Bits(w, 32))
    ensures LaidOut(w, swap, Bits(Ordered(w, swap), 32))
  {
    forall i | 0 <= i < 4
      ensures Octet(Bits(w, 32), i) == Bits(ByteAt(Ordered(w, swap), PlaceOf(i, swap)), 8)
      ensures Octet(Bits(Ordered(w, swap), 32), i) == Bits(ByteAt(w, PlaceOf(i, swap)), 8)
    {
      SwappedBytes(w, i);
      SwappedBytes(w, 3 - i);
      OctetIsByte(w, i);
      OctetIsByte(Ordered(w, swap), i);
    }
  }

  /** The bits written stand in the bytes of memory, in the order of the bytes of each word or in the opposite one. */
  lemma WrittenLaidOut(mem: seq<Word>, swap: bool, full: seq<bool>, n: nat, k: nat)
    requires Holds(mem, swap, full, n) && k < n && k < |mem|
    ensures LaidOut(mem[k], swap, full[32 * k..32 * k + 32])
  {
    OrderedLaidOut(mem[k], swap);
    BitsOfValue(full[32 * k..32 * k + 32]);
  }

  /** The reader finds in each word of memory the bits laid out there, and zeros past the end. */
  lemma ShownLaidOut(w: nat -> seq<bool>, mem: seq<Word>, swap: bool, k: nat)
    requires Worded(w) && Shows(w, mem, swap)
    ensures k < |mem| ==> LaidOut(mem[k], swap, BitsAt(w, 32 * k, 32))
    ensures k >= |mem| ==> Value(BitsAt(w, 32 * k, 32)) == 0
  {
    assert Fetched(k);
    BitsAtWord(w, k, 0, 32);
    assert w(k)[0..32] == w(k);
    if k < |mem| {
      OrderedLaidOut(mem[k], swap);
    } else {
      ValueOfBits(0, 32);
      LowFits(0, 32);
    }
  }

  // ---------- what the writer keeps ----------

  /** The first words of `mem` are those that the bits of `full` make up, as far as there is room. */
  ghost predicate Holds(mem: seq<Word>, swap: bool, full: seq<bool>, n: nat) {
    |full| == 32 * n && forall k :: 0 <= k < |mem| && k < n ==> Ordered(mem[k], swap) == Value(full[32 * k..32 * k + 32])
  }

  /** The writer's fields are right: `n` words made of `full` are stored, the bits of `tail` are pending. */
  ghost predicate WriterOk(mem: seq<Word>, swap: bool, cursor: nat, pending: nat, offset: nat,
                           n: nat, full: seq<bool>, tail: seq<bool>) {
    && Holds(mem, swap, full, n) && cursor == (if n < |mem| then n else |mem|)
    && offset == |tail| < 32 && pending == Value(tail)
  }

  /** A completed word is stored if there is room for it. */
  lemma CompleteWord(mem: seq<Word>, swap: bool, cursor: nat, pending: nat, offset: nat,
                     n: nat, full: seq<bool>, tail: seq<bool>, b: seq<bool>, w: Word, mem': seq<Word>)
    requires WriterOk(mem, swap, cursor, pending, offset, n, full, tail) && offset + |b| == 32
    requires w == Value(tail + b)
    requires mem' == if cursor < |mem| then mem[cursor := Ordered(w, swap)] else mem
    ensures WriterOk(mem', swap, if cursor < |mem| then cursor + 1 else cursor, 0, 0, n + 1, full + (tail + b), [])
  {
    var all := full + (tail + b);
    OrderedTwice(w, swap);
    forall k | 0 <= k < |mem'| && k < n + 1
      ensures Ordered(mem'[k], swap) == Value(all[32 * k..32 * k + 32])
    {
      if k == n {
        assert all[32 * k..32 * k + 32] == tail + b;
      } else {
        assert all[32 * k..32 * k + 32] == full[32 * k..32 * k + 32];
      }
    }
  }

  /** The counters are 64 bits wide. */
  function Counted(count: nat, k: nat): nat { (count + k) % COUNT }

  lemma CountAdd(a: nat, k: nat)
    ensures Counted(a % COUNT, k) == (a + k) % COUNT
  {
  }

  lemma CountTwice(count: nat, a: nat, b: nat)
    ensures Counted(Counted(count, a), b) == Counted(count, a + b)
    ensures count < COUNT ==> Counted(count, 0) == count
  {
  }

  lemma ValueIsWord(b: seq<bool>)
    requires |b| <= 32
    ensures Value(b) < WORD
  {
    WordIsPow2();
    ValueBound(b);
    Pow2Monotone(|b|, 32);
  }

  /** `pending |= (field & mask) << offset` appends the low bits of the field. */
  lemma PendingField(tail: seq<bool>, value: Word, cur: nat)
    requires |tail| + cur <= 32
    ensures (if cur == 32 then value else Low(value, cur)) == Value(Bits(value, cur))
    ensures Or(Value(tail), Low(Shl(Value(Bits(value, cur)), |tail|), 32)) == Value(tail + Bits(value, cur)) < WORD
  {
    var b := Bits(value, cur);
    ValueOfBits(value, cur);
    WordIsPow2();
    if cur == 32 {
      LowFits(value, 32);
    }
    ValueBound(b);
    ShlBound(Value(b), cur, |tail|);
    Pow2Monotone(cur + |tail|, 32);
    LowFits(Shl(Value(b), |tail|), 32);
    OrAppends(tail, b);
    ValueIsWord(tail + b);
  }

  /** The two halves of a 64-bit number are words. */
  lemma HalvesAreWords(v: nat)
    requires v < COUNT
    ensures Low(v, 32) < WORD && Shr(v, 32) < WORD
  {
    ValueOfBits(v, 32);
    ValueIsWord(Bits(v, 32));
    CountIsShiftedWord();
    HighHalf(v, 32);
  }

  lemma CountIsShiftedWord()
    ensures Shl(WORD, 32) == COUNT
  {
    assert Shl(WORD, 8) == 0x100 * WORD;
    assert Shl(WORD, 16) == 0x1_0000 * WORD by { assert Shl(WORD, 12) == 0x1000 * WORD; }
    assert Shl(WORD, 24) == 0x100_0000 * WORD by { assert Shl(WORD, 20) == 0x10_0000 * WORD; }
    assert Shl(WORD, 28) == 0x1000_0000 * WORD;
  }

  lemma BitsOfHalves(v: nat, n: nat)
    requires 32 <= n
    ensures Bits(v, n) == Bits(Low(v, 32), 32) + Bits(Shr(v, 32), n - 32)
  {
    BitsOfLow(v, 32);
    BitsSplit(v, 32, n - 32);
  }

  /** A number below 2 to the `n + 32`, shifted by `n`, is a word. */
  lemma {:induction false} HighHalf(v: nat, n: nat)
    requires v < Shl(WORD, n)
    ensures Shr(v, n) < WORD
    decreases n
  {
    if n > 0 {
      HighHalf(v / 2, n - 1);
    }
  }

  lemma BitsOfLowPrefix(v: nat, a: nat, n: nat)
    requires a <= n
    ensures Bits(Low(v, n), a) == Bits(v, a)
  {
    BitsOfLow(v, n);
    BitsSplit(v, a, n - a);
    BitsSplit(Low(v, n), a, n - a);
    assert Bits(v, n)[..a] == Bits(v, a) && Bits(Low(v, n), n)[..a] == Bits(Low(v, n), a);
  }

  /** The bits of a 128-bit number given as two 64-bit halves. */
  function WideBits(lo: nat, hi: nat, n: nat): (b: seq<bool>)
    ensures |b| == n
  {
    if n <= 64 then Bits(lo, n) else Bits(lo, 64) + Bits(hi, n - 64)
  }

  /** How many bits an alignment skips at position `pos`. */
  function Padding(pos: nat, force: bool): nat {
    if pos % 32 != 0 then 32 - pos % 32 else if force then 32 else 0
  }

  /** An alignment skips to the next multiple of 32: nothing if it is there already, or with `force` a whole word. */
  lemma PaddingAligns(pos: nat, force: bool)
    ensures (pos + Padding(pos, force)) % 32 == 0
    ensures if force then 0 < Padding(pos, force) <= 32 else Padding(pos, force) < 32
  {
  }

  lemma LengthSplit(words: nat, offset: nat)
    requires offset < 32
    ensures (32 * words + offset) % 32 == offset
  {
  }

  lemma PositionSplit(fetched: nat, offset: nat)
    requires 0 < offset <= 32 && (fetched == 0 ==> offset == 32)
    ensures (32 * fetched + offset - 32) % 32 == offset % 32
  {
  }

  /** How many bits an operation of at most `limit` bits handles. */
  function Width(bits: nat, limit: nat): (n: nat)
    ensures n <= bits && n <= limit && (n == bits || n == limit)
  {
    if bits > limit then limit else bits
  }

  // ---------- what the reader sees ----------

  /** The word at index `k`; past the end of the buffer it is zero. */
  function MemWord(mem: seq<Word>, swap: bool, k: nat): Word {
    if k < |mem| then Ordered(mem[k], swap) else 0
  }

  /** The bits of each word of memory. */
  function MemFn(mem: seq<Word>, swap: bool): nat -> seq<bool> {
    (k: nat) => Bits(MemWord(mem, swap, k), 32)
  }

  ghost predicate Worded(w: nat -> seq<bool>) {
    forall k: nat :: |w(k)| == 32
  }

  /** The bits of the first `m` words. */
  ghost function Stream(w: nat -> seq<bool>, m: nat): (b: seq<bool>)
    requires Worded(w)
    ensures |b| == 32 * m
  {
    if m == 0 then [] else Stream(w, m - 1) + w(m - 1)
  }

  /** The `n` bits from position `p` on. */
  ghost function BitsAt(w: nat -> seq<bool>, p: nat, n: nat): (b: seq<bool>)
    requires Worded(w)
    ensures |b| == n
  {
    Stream(w, p + n)[p..p + n]
  }

  lemma {:induction false} StreamPrefix(w: nat -> seq<bool>, k: nat, m: nat)
    requires Worded(w) && k <= m
    ensures Stream(w, m)[..32 * k] == Stream(w, k)
    decreases m
  {
    if k < m {
      StreamPrefix(w, k, m - 1);
      assert Stream(w, m)[..32 * k] == Stream(w, m - 1)[..32 * k];
    }
  }

  /** Any number of words that reaches far enough shows the same bits. */
  lemma BitsAtStream(w: nat -> seq<bool>, p: nat, n: nat, m: nat)
    requires Worded(w) && p + n <= 32 * m
    ensures BitsAt(w, p, n) == Stream(w, m)[p..p + n]
  {
    var a, b := if m < p + n then m else p + n, if m < p + n then p + n else m;
    StreamPrefix(w, a, b);
    assert Stream(w, b)[p..p + n] == Stream(w, b)[..32 * a][p..p + n];
  }

  lemma BitsAtConcat(w: nat -> seq<bool>, p: nat, a: nat, b: nat)
    requires Worded(w)
    ensures BitsAt(w, p, a + b) == BitsAt(w, p, a) + BitsAt(w, p + a, b)
  {
    var m := p + a + b;
    var s := Stream(w, m);
    BitsAtStream(w, p, a, m);
    BitsAtStream(w, p + a, b, m);
    BitsAtStream(w, p, a + b, m);
    assert s[p..m] == s[p..p + a] + s[p + a..m];
  }

  lemma BitsJoined(w: nat -> seq<bool>, p: nat, a: nat, q: nat, b: nat, n: nat)
    requires Worded(w) && q == p + a && n == a + b
    ensures BitsAt(w, p, n) == BitsAt(w, p, a) + BitsAt(w, q, b)
  {
    BitsAtConcat(w, p, a, b);
  }

  lemma BitsAtWord(w: nat -> seq<bool>, k: nat, off: nat, n: nat)
    requires Worded(w) && off + n <= 32
    ensures BitsAt(w, 32 * k + off, n) == w(k)[off..off + n]
  {
    var p, s := 32 * k + off, Stream(w, k) + w(k);
    BitsAtStream(w, p, n, k + 1);
    assert Stream(w, k + 1) == s;
    assert s[p..p + n] == w(k)[off..off + n];
  }

  /** Bits in the middle of a number of `size` bits, by shifting and masking. */
  lemma FieldOfWord(w: nat, size: nat, off: nat, n: nat)
    requires off + n <= size && w < Pow2(size)
    ensures (if n == size then w else Low(Shr(w, off), n)) == Value(Bits(w, size)[off..off + n])
  {
    var v, m := Shr(w, off), size - off;
    BitsSplit(w, off, m);
    BitsSplit(v, n, m - n);
    assert Bits(w, size)[off..] == Bits(v, m);
    assert Bits(v, m)[..n] == Bits(v, n);
    assert Bits(w, size)[off..off + n] == Bits(w, size)[off..][..n];
    ValueOfBits(v, n);
    if n == size {
      LowFits(w, size);
    }
  }

  /** Names a word that is looked at. */
  ghost predicate Fetched(k: nat) { true }

  /** `w` gives the bits of each word of memory. */
  ghost predicate Shows(w: nat -> seq<bool>, mem: seq<Word>, swap: bool) {
    forall k: nat {:trigger Fetched(k)} :: Fetched(k) ==> w(k) == Bits(MemWord(mem, swap, k), 32)
  }

  /** The reader's fields are right: `fetched` words were taken and `offset` bits of the last are used. */
  ghost predicate ReaderOk(w: nat -> seq<bool>, size: nat, cursor: nat, pending: nat, offset: nat, fetched: nat) {
    && offset <= 32 && cursor == (if fetched < size then fetched else size)
    && if fetched == 0 then offset == 32 else w(fetched - 1) == Bits(pending, 32)
  }

  lemma PrefixOfBits(v: nat, n: nat, m: nat)
    requires n <= m
    ensures Bits(v, m)[..n] == Bits(v, n)
  {
    BitsSplit(v, n, m - n);
  }

  /** What the reader takes out of the pending word are the bits at its position. */
  lemma PendingBits(w: nat -> seq<bool>, k: nat, pending: Word, offset: nat, cur: nat)
    requires Worded(w) && w(k) == Bits(pending, 32) && offset + cur <= 32
    ensures (if cur == 32 then pending else Low(Shr(pending, offset), cur)) == Value(BitsAt(w, 32 * k + offset, cur)) < WORD
  {
    WordIsPow2();
    FieldOfWord(pending, 32, offset, cur);
    BitsAtWord(w, k, offset, cur);
    ValueIsWord(BitsAt(w, 32 * k + offset, cur));
  }

  /** Bits from the end of one word and the beginning of the next, joined as the reader does it. */
  lemma JoinedBits(w: nat -> seq<bool>, p: nat, cur: nat, n: nat, k: nat, pending: Word)
    requires Worded(w) && p + cur == 32 * k && w(k) == Bits(pending, 32) && cur < n <= 32
    ensures Or(Value(BitsAt(w, p, cur)), Low(Shl(Low(pending, n - cur), cur), 32)) == Value(BitsAt(w, p, n)) < WORD
  {
    var a, m := BitsAt(w, p, cur), n - cur;
    BitsAcross(w, p, cur, n, k, pending);
    ValueOfBits(pending, m);
    PendingField(a, pending, m);
  }

  /** The first bits of a word. */
  lemma BitsAtFront(w: nat -> seq<bool>, k: nat, m: nat, pending: Word)
    requires Worded(w) && w(k) == Bits(pending, 32) && m <= 32
    ensures BitsAt(w, 32 * k, m) == Bits(pending, m)
  {
    BitsAtWord(w, k, 0, m);
    PrefixOfBits(pending, m, 32);
    assert w(k)[0..m] == w(k)[..m];
  }

  lemma BitsAcross(w: nat -> seq<bool>, p: nat, cur: nat, n: nat, k: nat, pending: Word)
    requires Worded(w) && p + cur == 32 * k && w(k) == Bits(pending, 32) && cur < n <= 32
    ensures BitsAt(w, p, n) == BitsAt(w, p, cur) + Bits(pending, n - cur)
  {
    BitsJoined(w, p, cur, 32 * k, n - cur, n);
    BitsAtFront(w, k, n - cur, pending);
  }

  /** Two consecutive fields joined. */
  lemma JoinedFields(w: nat -> seq<bool>, p: nat, a: nat, b: nat)
    requires Worded(w)
    ensures Or(Value(BitsAt(w, p, a)), Shl(Value(BitsAt(w, p + a, b)), a)) == Value(BitsAt(w, p, a + b))
  {
    BitsAtConcat(w, p, a, b);
    OrAppends(BitsAt(w, p, a), BitsAt(w, p + a, b));
  }

  lemma JoinedHalves(w: nat -> seq<bool>, p: nat, n: nat, lo: nat, hi: nat)
    requires Worded(w) && 32 < n && lo == Value(BitsAt(w, p, 32)) && hi == Value(BitsAt(w, p + 32, n - 32))
    ensures Or(lo, Shl(hi, 32)) == Value(BitsAt(w, p, n))
  {
    JoinedFields(w, p, 32, n - 32);
  }

  class BitBuffer {
    const words: array<Word>
    const swap: bool
    var cursor: nat
    var pendingRead: Word
    var pendingWrite: Word
    var offsetRead: nat
    var offsetWrite: nat
    var countRead: nat
    var countWrite: nat
    ghost var completed: nat
    ghost var full: seq<bool>
    ghost var tail: seq<bool>
    ghost var fetched: nat
    ghost const source: nat -> seq<bool>

    /** `bitbuffer_initialize_buffer`: a fresh buffer over given memory, ready for writing or reading. */
    constructor (memory: array<Word>, swapped: bool)
      ensures words == memory && swap == swapped
      ensures Writing() && Written() == [] && Reading() && Position() == 0
      ensures Shows(source, words[..], swap)
    {
      words, swap := memory, swapped;
      cursor, pendingRead, pendingWrite, offsetRead, offsetWrite, countRead, countWrite := 0, 0, 0, 32, 0, 0, 0;
      completed, full, tail, fetched := 0, [], [], 0;
      source := MemFn(memory[..], swapped);
    }

    ghost predicate Packed()
      reads this, words
    {
      WriterOk(words[..], swap, cursor, pendingWrite, offsetWrite, completed, full, tail)
    }

    /** What every operation of the writer keeps. */
    ghost predicate Writing()
      reads this, words
    {
      Packed() && countWrite == (32 * completed + offsetWrite) % COUNT
    }

    /** All bits written so far. */
    ghost function Written(): seq<bool>
      reads this
    {
      full + tail
    }

    /** `bitbuffer_put`, called with a complete pending word. */
    method Put(ghost b: seq<bool>)
      requires WriterOk(words[..], swap, cursor, Value(tail), |tail|, completed, full, tail)
      requires |tail| + |b| == 32 && pendingWrite == Value(tail + b)
      modifies this`cursor, this`offsetWrite, this`pendingWrite, this`completed, this`full, this`tail, words
      ensures Packed()
      ensures full == old(full) + (old(tail) + b) && tail == [] && completed == old(completed) + 1
      ensures old(cursor) < words.Length ==> LaidOut(words[old(cursor)], swap, old(tail) + b)
      ensures forall k :: 0 <= k < words.Length && k != old(cursor) ==> words[k] == old(words[k])
    {
      OrderedLaidOut(pendingWrite, swap);
      BitsOfValue(tail + b);
      CompleteWord(words[..], swap, cursor, Value(tail), |tail|, completed, full, tail, b, pendingWrite,
                   if cursor < words.Length then words[..][cursor := Ordered(pendingWrite, swap)] else words[..]);
      if cursor < words.Length {
        words[cursor] := Ordered(pendingWrite, swap);
        cursor := cursor + 1;
      }
      offsetWrite, pendingWrite := 0, 0;
      completed, full, tail := completed + 1, full + (tail + b), [];
    }

    /** The part of a field that fits into the pending word. */
    method WritePending(value: Word, cur: nat)
      requires Packed() && 0 < cur <= 32 - offsetWrite
      modifies this`cursor, this`offsetWrite, this`pendingWrite, this`completed, this`full, this`tail, words
      ensures Packed() && Written() == old(Written()) + Bits(value, cur)
      ensures 32 * completed + offsetWrite == old(32 * completed + offsetWrite) + cur
      ensures old(offsetWrite) + cur == 32 ==> offsetWrite == 0
    {
      ghost var b := Bits(value, cur);
      PendingField(tail, value, cur);
      var field := if cur == 32 then value else Low(value, cur);
      pendingWrite := Or(pendingWrite, Low(Shl(field, offsetWrite), 32));
      offsetWrite := offsetWrite + cur;
      assert full + (tail + b) == full + tail + b;
      if offsetWrite == 32 {
        Put(b);
        assert full + [] == full;
      } else {
        tail := tail + b;
      }
    }

    /** The part of a field that goes into the next word. */
    method WriteNext(value: Word, cur: nat, rest: nat)
      requires Packed() && offsetWrite == 0 && rest < 32
      modifies this`offsetWrite, this`pendingWrite, this`tail
      ensures Packed() && Written() == old(Written()) + Bits(Shr(value, cur), rest)
      ensures offsetWrite == rest
    {
      ValueOfBits(Shr(value, cur), rest);
      ValueIsWord(Bits(Shr(value, cur), rest));
      assert full + [] == full;
      pendingWrite := Low(Shr(value, cur), rest);
      offsetWrite := rest;
      tail := Bits(Shr(value, cur), rest);
    }

    /** `n` bits, of which `cur` go into the pending word. */
    method WriteField(value: Word, cur: nat, n: nat)
      requires Packed() && 0 < cur <= n <= 32 && cur == (if n < 32 - offsetWrite then n else 32 - offsetWrite)
      modifies this`cursor, this`offsetWrite, this`pendingWrite, this`completed, this`full, this`tail, words
      ensures Packed() && Written() == old(Written()) + Bits(value, n)
      ensures 32 * completed + offsetWrite == old(32 * completed + offsetWrite) + n
    {
      ghost var w, a, b := Written(), Bits(value, cur), Bits(Shr(value, cur), n - cur);
      BitsSplit(value, cur, n - cur);
      assert w + a + b == w + (a + b);
      WritePending(value, cur);
      if cur == n { return; }
      WriteNext(value, cur, n - cur);
    }

    /** `bitbuffer_write32`: appends the low bits of `value`. */
    method Write32(value: Word, bits: nat)
      requires Writing()
      modifies this`cursor, this`offsetWrite, this`pendingWrite, this`countWrite, this`completed, this`full, this`tail, words
      ensures Writing() && Written() == old(Written()) + Bits(value, Width(bits, 32))
    {
      if bits == 0 {
        assert Written() + [] == Written();
        return;
      }
      var n := if bits > 32 then 32 else bits;
      var cur := 32 - offsetWrite;
      if n < cur { cur := n; }
      CountAdd(32 * completed + offsetWrite, n);
      countWrite := Counted(countWrite, n);
      WriteField(value, cur, n);
    }

    /** `bitbuffer_write64`. */
    method Write64(value: nat, bits: nat)
      requires Writing() && value < COUNT
      modifies this`cursor, this`offsetWrite, this`pendingWrite, this`countWrite, this`completed, this`full, this`tail, words
      ensures Writing() && Written() == old(Written()) + Bits(value, Width(bits, 64))
    {
      HalvesAreWords(value);
      if bits <= 32 {
        BitsOfLowPrefix(value, bits, 32);
        Write32(Low(value, 32), bits);
        return;
      }
      var n := if bits > 64 then 64 else bits;
      BitsOfHalves(value, n);
      WriteHalves(Low(value, 32), Shr(value, 32), n);
    }

    method WriteHalves(lo: Word, hi: Word, n: nat)
      requires Writing() && 32 < n <= 64
      modifies this`cursor, this`offsetWrite, this`pendingWrite, this`countWrite, this`completed, this`full, this`tail, words
      ensures Writing() && Written() == old(Written()) + (Bits(lo, 32) + Bits(hi, n - 32))
    {
      ghost var w, a, b := Written(), Bits(lo, 32), Bits(hi, n - 32);
      assert w + a + b == w + (a + b);
      Write32(lo, 32);
      Write32(hi, n - 32);
    }

    /** `bitbuffer_write128`: `lo` and `hi` are the two 64-bit halves. */
    method Write128(lo: nat, hi: nat, bits: nat)
      requires Writing() && lo < COUNT && hi < COUNT
      modifies this`cursor, this`offsetWrite, this`pendingWrite, this`countWrite, this`completed, this`full, this`tail, words
      ensures Writing() && Written() == old(Written()) + WideBits(lo, hi, Width(bits, 128))
    {
      if bits <= 64 {
        Write64(lo, bits);
        return;
      }
      var n := if bits > 128 then 128 else bits;
      ghost var w, a, b := Written(), Bits(lo, 64), Bits(hi, n - 64);
      assert w + a + b == w + (a + b);
      Write64(lo, 64);
      Write64(hi, n - 64);
    }

    /** Zeros up to the end of the pending word. */
    method Pad()
      requires Packed()
      modifies this`cursor, this`offsetWrite, this`pendingWrite, this`completed, this`full, this`tail, words
      ensures Packed() && Written() == old(Written()) + Zeros(32 - old(offsetWrite))
      ensures offsetWrite == 0 && completed == old(completed) + 1
    {
      ghost var z := Zeros(32 - offsetWrite);
      ValueWithZeros(tail, 32 - offsetWrite);
      assert full + tail + z == full + (tail + z) == full + (tail + z) + [];
      Put(z);
    }

    /** `bitbuffer_align_write`: fills the pending word with zeros, or with `force` a whole word. */
    method AlignWrite(force: bool)
      requires Writing()
      modifies this`cursor, this`offsetWrite, this`pendingWrite, this`countWrite, this`completed, this`full, this`tail, words
      ensures Writing() && Written() == old(Written()) + Zeros(Padding(|old(Written())|, force)) && offsetWrite == 0
    {
      LengthSplit(completed, offsetWrite);
      if offsetWrite == 0 && !force {
        assert Written() + [] == Written();
        return;
      }
      CountAdd(32 * completed + offsetWrite, 32 - offsetWrite);
      countWrite := Counted(countWrite, 32 - offsetWrite);
      Pad();
    }

    /** How many bits have been read. */
    ghost function Position(): nat
      reads this
    {
      if 32 * fetched + offsetRead < 32 then 0 else 32 * fetched + offsetRead - 32
    }

    ghost predicate Fetching()
      reads this, words
    {
      Worded(source) && Shows(source, words[..], swap)
      && ReaderOk(source, words.Length, cursor, pendingRead, offsetRead, fetched)
    }

    /** What every operation of the reader keeps. */
    ghost predicate Reading()
      reads this, words
    {
      Fetching() && offsetRead > 0 && countRead == Position() % COUNT
    }

    /** `bitbuffer_get`: the next word, or zero past the end. */
    method Get()
      requires Fetching() && offsetRead == 32
      modifies this`cursor, this`pendingRead, this`offsetRead, this`fetched
      ensures Fetching() && offsetRead == 0 && fetched == old(fetched) + 1
      ensures if old(cursor) < words.Length then LaidOut(words[old(cursor)], swap, Bits(pendingRead, 32)) else pendingRead == 0
    {
      assert Fetched(fetched);
      if cursor < words.Length { OrderedLaidOut(words[cursor], swap); }
      if cursor < words.Length {
        pendingRead := Ordered(words[cursor], swap);
        cursor := cursor + 1;
      } else {
        pendingRead := 0;
      }
      offsetRead := 0;
      fetched := fetched + 1;
    }

    /** Takes `cur` bits of the pending word. */
    method ReadPending(cur: nat) returns (r: Word)
      requires Fetching() && fetched > 0 && offsetRead + cur <= 32
      modifies this`offsetRead, this`countRead
      ensures Fetching() && offsetRead == old(offsetRead) + cur && countRead == Counted(old(countRead), cur)
      ensures r == Value(BitsAt(source, old(Position()), cur))
    {
      PendingBits(source, fetched - 1, pendingRead, offsetRead, cur);
      r := if cur == 32 then pendingRead else Low(Shr(pendingRead, offsetRead), cur);
      offsetRead := offsetRead + cur;
      countRead := Counted(countRead, cur);
    }

    /** `n` bits that begin in the pending word and end in the next one. */
    method ReadAcross(cur: nat, n: nat) returns (r: Word)
      requires Fetching() && fetched > 0 && offsetRead + cur == 32 && cur < n <= 32
      modifies this`cursor, this`pendingRead, this`offsetRead, this`countRead, this`fetched
      ensures Fetching() && offsetRead == n - cur && fetched == old(fetched) + 1
      ensures countRead == Counted(Counted(old(countRead), cur), n - cur)
      ensures r == Value(BitsAt(source, old(Position()), n))
    {
      ghost var p := Position();
      r := ReadPending(cur);
      Get();
      JoinedBits(source, p, cur, n, fetched - 1, pendingRead);
      r := Or(r, Low(Shl(Low(pendingRead, n - cur), cur), 32));
      offsetRead := n - cur;
      countRead := Counted(countRead, n - cur);
    }

    /** `n` bits from wherever the reader stands. */
    method ReadField(n: nat) returns (r: Word)
      requires Fetching() && offsetRead > 0 && 0 < n <= 32
      modifies this`cursor, this`pendingRead, this`offsetRead, this`countRead, this`fetched
      ensures Fetching() && offsetRead > 0 && Position() == old(Position()) + n
      ensures r == Value(BitsAt(source, old(Position()), n)) && countRead == Counted(old(countRead), n)
    {
      if offsetRead >= 32 { Get(); }
      var cur := 32 - offsetRead;
      if n < cur { cur := n; }
      CountTwice(countRead, cur, n - cur);
      if cur == n {
        r := ReadPending(cur);
      } else {
        r := ReadAcross(cur, n);
      }
    }

    /** `bitbuffer_read32`: the next bits as a number; past the end of the buffer they are zero. */
    method Read32(bits: nat) returns (r: Word)
      requires Reading()
      modifies this`cursor, this`pendingRead, this`offsetRead, this`countRead, this`fetched
      ensures Reading() && Position() == old(Position()) + Width(bits, 32)
      ensures r == Value(BitsAt(source, old(Position()), Width(bits, 32)))
    {
      if bits == 0 { return 0; }
      CountAdd(Position(), Width(bits, 32));
      r := ReadField(if bits > 32 then 32 else bits);
    }

    /** `bitbuffer_read64`. */
    method Read64(bits: nat) returns (r: nat)
      requires Reading()
      modifies this`cursor, this`pendingRead, this`offsetRead, this`countRead, this`fetched
      ensures Reading() && Position() == old(Position()) + Width(bits, 64)
      ensures r == Value(BitsAt(source, old(Position()), Width(bits, 64)))
    {
      if bits <= 32 {
        r := Read32(bits);
      } else {
        var n := if bits > 64 then 64 else bits;
        r := ReadHalves(n);
      }
    }

    method ReadHalves(n: nat) returns (r: nat)
      requires Reading() && 32 < n <= 64
      modifies this`cursor, this`pendingRead, this`offsetRead, this`countRead, this`fetched
      ensures Reading() && Position() == old(Position()) + n
      ensures r == Value(BitsAt(source, old(Position()), n))
    {
      ghost var p := Position();
      var val0 := Read32(32);
      var val1 := Read32(n - 32);
      r := Or(val0, Shl(val1, 32));
      JoinedHalves(source, p, n, val0, val1);
    }

    /** `bitbuffer_read128`: the two 64-bit halves. */
    method Read128(bits: nat) returns (lo: nat, hi: nat)
      requires Reading()
      modifies this`cursor, this`pendingRead, this`offsetRead, this`countRead, this`fetched
      ensures Reading() && Position() == old(Position()) + Width(bits, 128)
      ensures lo == Value(BitsAt(source, old(Position()), Width(bits, 64)))
      ensures hi == if bits <= 64 then 0 else Value(BitsAt(source, old(Position()) + 64, Width(bits, 128) - 64))
    {
      if bits <= 64 {
        lo := Read64(bits);
        hi := 0;
        return;
      }
      var n := if bits > 128 then 128 else bits;
      lo := Read64(64);
      hi := Read64(n - 64);
    }

    /** `bitbuffer_align_read`: skips what `AlignWrite` filled at the same position. */
    method AlignRead(force: bool)
      requires Reading()
      modifies this`cursor, this`pendingRead, this`offsetRead, this`countRead, this`fetched
      ensures Reading() && Position() == old(Position()) + Padding(old(Position()), force)
    {
      ghost var p := Position();
      PositionSplit(fetched, offsetRead);
      if offsetRead % 32 == 0 {
        if !force { return; }
        if offsetRead != 0 { Get(); }
      }
      assert 32 - offsetRead == Padding(p, force);
      CountAdd(p, Padding(p, force));
      countRead := Counted(countRead, 32 - offsetRead);
      offsetRead := 32;
    }
  }
}
