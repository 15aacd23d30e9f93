/**
 * `blowfish_encrypt` and `blowfish_decrypt`: the four modes of NIST SP 800-38A, sections 6.1 to 6.4, in place on
 * the words of a buffer. Each is proved against the equations of its mode, and the equations of encryption and
 * of decryption turn out to say the same of a plaintext and a ciphertext.
 */
module BlockModes {
  import opened Blowfish

  datatype Mode = ECB | CBC | CFB | OFB

  function Xor<W(!new)>(c: Cipher<W>, a: Block<W>, b: Block<W>): Block<W> {
    Block(c.xor(a.l, b.l), c.xor(a.h, b.h))
  }

  lemma XorBack<W(!new)>(c: Cipher<W>, a: Block<W>, b: Block<W>)
    requires c.Ok()
    ensures Xor(c, Xor(c, a, b), b) == a
  {
    XorTwice(c, a.l, b.l);
    XorTwice(c, a.h, b.h);
  }

  // ---------- the equations of the modes ----------

  /** The `j`-th output block of OFB: the vector enciphered `j` times. */
  function Output<W(!new)>(c: Cipher<W>, iv: Block<W>, j: nat): Block<W>
    requires |c.p| == 18
  {
    if j == 0 then iv else Enc(c, Output(c, iv, j - 1))
  }

  /** What block `j` is chained to: the ciphertext before it, or in OFB the output block before it. */
  function ChainAt<W(!new)>(c: Cipher<W>, m: Mode, iv: Block<W>, s: seq<Block<W>>, j: nat): Block<W>
    requires |c.p| == 18 && j <= |s|
  {
    match m
    case ECB => iv
    case OFB => Output(c, iv, j)
    case _ => if j == 0 then iv else s[j - 1]
  }

  function CipherOf<W(!new)>(c: Cipher<W>, m: Mode, chain: Block<W>, x: Block<W>): Block<W>
    requires |c.p| == 18
  {
    match m
    case ECB => Enc(c, x)
    case CBC => Enc(c, Xor(c, x, chain))
    case _ => Xor(c, x, Enc(c, chain))
  }

  function PlainOf<W(!new)>(c: Cipher<W>, m: Mode, chain: Block<W>, y: Block<W>): Block<W>
    requires |c.p| == 18
  {
    match m
    case ECB => Dec(c, y)
    case CBC => Xor(c, Dec(c, y), chain)
    case _ => Xor(c, y, Enc(c, chain))
  }

  /** `s` is the ciphertext of `p`. */
  ghost predicate Encrypted<W(!new)>(c: Cipher<W>, m: Mode, iv: Block<W>, p: seq<Block<W>>, s: seq<Block<W>>)
    requires |c.p| == 18
  {
    |p| == |s| && forall j :: 0 <= j < |s| ==> s[j] == CipherOf(c, m, ChainAt(c, m, iv, s, j), p[j])
  }

  /** `p` is what `s` decrypts to. */
  ghost predicate Decrypted<W(!new)>(c: Cipher<W>, m: Mode, iv: Block<W>, s: seq<Block<W>>, p: seq<Block<W>>)
    requires |c.p| == 18
  {
    |p| == |s| && forall j :: 0 <= j < |s| ==> p[j] == PlainOf(c, m, ChainAt(c, m, iv, s, j), s[j])
  }

  lemma BlockInverse<W(!new)>(c: Cipher<W>, m: Mode, chain: Block<W>, x: Block<W>)
    requires c.Ok()
    ensures PlainOf(c, m, chain, CipherOf(c, m, chain, x)) == x
    ensures CipherOf(c, m, chain, PlainOf(c, m, chain, x)) == x
  {
    WordsInverse(c, x);
    XorBack(c, x, Enc(c, chain));
    WordsInverse(c, Xor(c, x, chain));
    XorBack(c, x, chain);
    XorBack(c, Dec(c, x), chain);
  }

  /** A ciphertext decrypts to its plaintext and to nothing else, in every mode. */
  lemma EncryptedIffDecrypted<W(!new)>(c: Cipher<W>, m: Mode, iv: Block<W>, p: seq<Block<W>>, s: seq<Block<W>>)
    requires c.Ok()
    ensures Encrypted(c, m, iv, p, s) <==> Decrypted(c, m, iv, s, p)
  {
    if |p| == |s| {
      forall j | 0 <= j < |s|
        ensures s[j] == CipherOf(c, m, ChainAt(c, m, iv, s, j), p[j]) <==> p[j] == PlainOf(c, m, ChainAt(c, m, iv, s, j), s[j])
      {
        BlockInverse(c, m, ChainAt(c, m, iv, s, j), p[j]);
        BlockInverse(c, m, ChainAt(c, m, iv, s, j), s[j]);
      }
    }
  }

  /** What each mode makes of block `j`, as the standard writes it. In OFB `o` are the output blocks. */
  function BlockOf<W(!new)>(c: Cipher<W>, m: Mode, iv: Block<W>, p: seq<Block<W>>, s: seq<Block<W>>, o: seq<Block<W>>, j: nat): Block<W>
    requires |c.p| == 18 && j < |p| == |s| == |o|
  {
    match m
    case ECB => Enc(c, p[j])
    case CBC => if j == 0 then Enc(c, Xor(c, p[0], iv)) else Enc(c, Xor(c, p[j], s[j - 1]))
    case CFB => if j == 0 then Xor(c, p[0], Enc(c, iv)) else Xor(c, p[j], Enc(c, s[j - 1]))
    case OFB => Xor(c, p[j], o[j])
  }

  /** Each output block is the one before it enciphered, the first one the vector enciphered. */
  ghost predicate Outputs<W(!new)>(c: Cipher<W>, iv: Block<W>, o: seq<Block<W>>)
    requires |c.p| == 18
  {
    (o != [] ==> o[0] == Enc(c, iv)) && forall j :: 0 < j < |o| ==> o[j] == Enc(c, o[j - 1])
  }

  lemma {:induction false} OutputsAre<W(!new)>(c: Cipher<W>, iv: Block<W>, o: seq<Block<W>>, j: nat)
    requires |c.p| == 18 && Outputs(c, iv, o) && j < |o|
    ensures o[j] == Enc(c, Output(c, iv, j))
  {
    if j == 0 {
      assert o[0] == Enc(c, iv);
    } else {
      OutputsAre(c, iv, o, j - 1);
      assert o[j] == Enc(c, o[j - 1]) && Output(c, iv, j) == Enc(c, Output(c, iv, j - 1));
    }
  }

  /** The ciphertext is the one sequence of blocks that meets the equations of its mode. */
  lemma EncryptedIffEquations<W(!new)>(c: Cipher<W>, m: Mode, iv: Block<W>, p: seq<Block<W>>, s: seq<Block<W>>, o: seq<Block<W>>)
    requires |c.p| == 18 && |p| == |s| == |o| && Outputs(c, iv, o)
    ensures Encrypted(c, m, iv, p, s) <==> forall j :: 0 <= j < |s| ==> s[j] == BlockOf(c, m, iv, p, s, o, j)
  {
    forall j | 0 <= j < |s|
      ensures CipherOf(c, m, ChainAt(c, m, iv, s, j), p[j]) == BlockOf(c, m, iv, p, s, o, j)
    {
      OutputsAre(c, iv, o, j);
    }
  }

  // ---------- in place ----------

  /** The block at word `2 * j`. */
  function BlockAt<W>(w: seq<W>, j: nat): Block<W>
    requires 2 * j + 2 <= |w|
  {
    Block(w[2 * j], w[2 * j + 1])
  }

  /** The first `n` blocks of a buffer. */
  function Blocks<W>(w: seq<W>, n: nat): (r: seq<Block<W>>)
    requires 2 * n <= |w|
    ensures |r| == n && forall j :: 0 <= j < n ==> r[j] == BlockAt(w, j)
  {
    seq(n, j requires 0 <= j < n => BlockAt(w, j))
  }

  /** What a turn may change: block `i` of the data. */
  ghost predicate OnlyBlock<W(!new)>(before: seq<W>, after: seq<W>, i: nat) {
    |after| == |before| && forall k :: 0 <= k < |before| && k != 2 * i && k != 2 * i + 1 ==> after[k] == before[k]
  }

  function NextChain<W(!new)>(c: Cipher<W>, m: Mode, chain: Block<W>, y: Block<W>): Block<W>
    requires |c.p| == 18
  {
    match m
    case ECB => chain
    case OFB => Enc(c, chain)
    case _ => y
  }

  method MixIn<W(!new)>(c: Cipher<W>, data: array<W>, i: nat, chain: array<W>)
    requires 2 * i + 2 <= data.Length && chain.Length == 2 && chain != data
    modifies data
    ensures OnlyBlock(old(data[..]), data[..], i)
    ensures BlockAt(data[..], i) == Xor(c, BlockAt(old(data[..]), i), BlockAt(chain[..], 0))
    ensures data[2 * i] == c.xor(old(data[2 * i]), chain[0]) && data[2 * i + 1] == c.xor(old(data[2 * i + 1]), chain[1])
  {
    data[2 * i] := c.xor(data[2 * i], chain[0]);
    data[2 * i + 1] := c.xor(data[2 * i + 1], chain[1]);
  }

  /** A turn of the encryption loop of mode `m`, at block `i`. */
  method EncryptTurn<W(!new)>(c: Cipher<W>, m: Mode, data: array<W>, i: nat, chain: array<W>)
    requires c.Ok() && 2 * i + 2 <= data.Length && chain.Length == 2 && chain != data
    modifies data, chain
    ensures OnlyBlock(old(data[..]), data[..], i)
    ensures BlockAt(data[..], i) == CipherOf(c, m, old(BlockAt(chain[..], 0)), old(BlockAt(data[..], i)))
    ensures BlockAt(chain[..], 0) == NextChain(c, m, old(BlockAt(chain[..], 0)), BlockAt(data[..], i))
  {
    match m
    case ECB =>
      EncryptWords(c, data, 2 * i);
    case CBC =>
      MixIn(c, data, i, chain);
      EncryptWords(c, data, 2 * i);
      chain[0] := data[2 * i];
      chain[1] := data[2 * i + 1];
    case CFB =>
      EncryptWords(c, chain, 0);
      MixIn(c, data, i, chain);
      chain[0] := data[2 * i];
      chain[1] := data[2 * i + 1];
    case OFB =>
      EncryptWords(c, chain, 0);
      MixIn(c, data, i, chain);
  }

  /** A turn of the decryption loop of mode `m`, at block `i`. */
  method DecryptTurn<W(!new)>(c: Cipher<W>, m: Mode, data: array<W>, i: nat, chain: array<W>)
    requires c.Ok() && 2 * i + 2 <= data.Length && chain.Length == 2 && chain != data
    modifies data, chain
    ensures OnlyBlock(old(data[..]), data[..], i)
    ensures BlockAt(data[..], i) == PlainOf(c, m, old(BlockAt(chain[..], 0)), old(BlockAt(data[..], i)))
    ensures BlockAt(chain[..], 0) == NextChain(c, m, old(BlockAt(chain[..], 0)), old(BlockAt(data[..], i)))
  {
    var prev0, prev1 := data[2 * i], data[2 * i + 1];
    match m
    case ECB =>
      DecryptWords(c, data, 2 * i);
    case CBC =>
      DecryptWords(c, data, 2 * i);
      MixIn(c, data, i, chain);
      chain[0], chain[1] := prev0, prev1;
    case CFB =>
      EncryptWords(c, chain, 0);
      MixIn(c, data, i, chain);
      chain[0], chain[1] := prev0, prev1;
    case OFB =>
      EncryptWords(c, chain, 0);
      MixIn(c, data, i, chain);
  }

  /** Block `j` of `w` is the ciphertext of block `j` of `start`. */
  ghost predicate CipherAt<W(!new)>(c: Cipher<W>, m: Mode, iv: Block<W>, start: seq<W>, w: seq<W>, n: nat, j: nat)
    requires |c.p| == 18 && 2 * n <= |start| == |w| && j < n
  {
    BlockAt(w, j) == CipherOf(c, m, ChainAt(c, m, iv, Blocks(w, n), j), BlockAt(start, j))
  }

  /** The first `i` blocks of `w` are enciphered, the rest are still those of `start`, and `chain` is next. */
  ghost predicate EncryptedTo<W(!new)>(c: Cipher<W>, m: Mode, iv: Block<W>, start: seq<W>, w: seq<W>, chain: Block<W>, n: nat, i: nat)
    requires |c.p| == 18 && 2 * n <= |start|
  {
    |w| == |start| && i <= n
    && chain == ChainAt(c, m, iv, Blocks(w, n), i)
    && (forall j {:trigger CipherAt(c, m, iv, start, w, n, j)} :: 0 <= j < i ==> CipherAt(c, m, iv, start, w, n, j))
    && forall k :: 2 * i <= k < |w| ==> w[k] == start[k]
  }

  lemma EncryptStep<W(!new)>(c: Cipher<W>, m: Mode, iv: Block<W>, start: seq<W>, w: seq<W>, w': seq<W>, chain: Block<W>, n: nat, i: nat)
    requires |c.p| == 18 && 2 * n <= |start| && i < n
    requires EncryptedTo(c, m, iv, start, w, chain, n, i)
    requires OnlyBlock(w, w', i) && BlockAt(w', i) == CipherOf(c, m, chain, BlockAt(w, i))
    ensures EncryptedTo(c, m, iv, start, w', NextChain(c, m, chain, BlockAt(w', i)), n, i + 1)
  {
    forall j | 0 <= j < i + 1
      ensures CipherAt(c, m, iv, start, w', n, j)
    {
      assert j < i ==> CipherAt(c, m, iv, start, w, n, j) && BlockAt(w', j) == BlockAt(w, j);
      assert j > 0 ==> BlockAt(w', j - 1) == BlockAt(w, j - 1);
      assert BlockAt(w, i) == BlockAt(start, i);
    }
  }

  lemma EncryptDone<W(!new)>(c: Cipher<W>, m: Mode, iv: Block<W>, start: seq<W>, w: seq<W>, chain: Block<W>, n: nat)
    requires |c.p| == 18 && 2 * n <= |start| && EncryptedTo(c, m, iv, start, w, chain, n, n)
    ensures Encrypted(c, m, iv, Blocks(start, n), Blocks(w, n)) && w[2 * n..] == start[2 * n..]
  {
    var s, p := Blocks(w, n), Blocks(start, n);
    forall j | 0 <= j < n
      ensures s[j] == CipherOf(c, m, ChainAt(c, m, iv, s, j), p[j])
    {
      assert CipherAt(c, m, iv, start, w, n, j);
    }
  }

  /** `blowfish_encrypt`: whole blocks only, whatever is beyond them stays. */
  method Encrypt<W(!new)>(c: Cipher<W>, data: array?<W>, length: nat, m: Mode, iv: Block<W>)
    requires c.Ok() && (data != null ==> length <= 4 * data.Length)
    modifies data
    ensures data != null ==> Encrypted(c, m, iv, Blocks(old(data[..]), length / 8), Blocks(data[..], length / 8))
    ensures data != null ==> data[length / 8 * 2..] == old(data[length / 8 * 2..])
  {
    var whole := length - length % 8;
    if data == null || whole == 0 {
      return;
    }
    EncryptBlocks(c, data, whole / 8, m, iv);
  }

  /** The loops of the modes; the choice of mode is made in each turn. */
  method EncryptBlocks<W(!new)>(c: Cipher<W>, data: array<W>, n: nat, m: Mode, iv: Block<W>)
    requires c.Ok() && 2 * n <= data.Length
    modifies data
    ensures Encrypted(c, m, iv, Blocks(old(data[..]), n), Blocks(data[..], n))
    ensures data[2 * n..] == old(data[2 * n..])
  {
    var chain := new W[2](i => if i == 0 then iv.l else iv.h);
    var i := 0;
    while i < n
      invariant EncryptedTo(c, m, iv, old(data[..]), data[..], BlockAt(chain[..], 0), n, i)
    {
      ghost var w, next := data[..], BlockAt(chain[..], 0);
      EncryptTurn(c, m, data, i, chain);
      EncryptStep(c, m, iv, old(data[..]), w, data[..], next, n, i);
      i := i + 1;
    }
    EncryptDone(c, m, iv, old(data[..]), data[..], BlockAt(chain[..], 0), n);
  }

  /** Block `j` of `w` is what block `j` of `start` decrypts to. */
  ghost predicate PlainAt<W(!new)>(c: Cipher<W>, m: Mode, iv: Block<W>, start: seq<W>, w: seq<W>, n: nat, j: nat)
    requires |c.p| == 18 && 2 * n <= |start| == |w| && j < n
  {
    BlockAt(w, j) == PlainOf(c, m, ChainAt(c, m, iv, Blocks(start, n), j), BlockAt(start, j))
  }

  /** The first `i` blocks of `w` are deciphered, the rest are still those of `start`, and `chain` is next. */
  ghost predicate DecryptedTo<W(!new)>(c: Cipher<W>, m: Mode, iv: Block<W>, start: seq<W>, w: seq<W>, chain: Block<W>, n: nat, i: nat)
    requires |c.p| == 18 && 2 * n <= |start|
  {
    |w| == |start| && i <= n
    && chain == ChainAt(c, m, iv, Blocks(start, n), i)
    && (forall j {:trigger PlainAt(c, m, iv, start, w, n, j)} :: 0 <= j < i ==> PlainAt(c, m, iv, start, w, n, j))
    && forall k :: 2 * i <= k < |w| ==> w[k] == start[k]
  }

  lemma DecryptStep<W(!new)>(c: Cipher<W>, m: Mode, iv: Block<W>, start: seq<W>, w: seq<W>, w': seq<W>, chain: Block<W>, n: nat, i: nat)
    requires |c.p| == 18 && 2 * n <= |start| && i < n
    requires DecryptedTo(c, m, iv, start, w, chain, n, i)
    requires OnlyBlock(w, w', i) && BlockAt(w', i) == PlainOf(c, m, chain, BlockAt(w, i))
    ensures DecryptedTo(c, m, iv, start, w', NextChain(c, m, chain, BlockAt(w, i)), n, i + 1)
  {
    assert BlockAt(w, i) == BlockAt(start, i);
    forall j | 0 <= j < i + 1
      ensures PlainAt(c, m, iv, start, w', n, j)
    {
      assert j < i ==> PlainAt(c, m, iv, start, w, n, j) && BlockAt(w', j) == BlockAt(w, j);
    }
  }

  lemma DecryptDone<W(!new)>(c: Cipher<W>, m: Mode, iv: Block<W>, start: seq<W>, w: seq<W>, chain: Block<W>, n: nat)
    requires |c.p| == 18 && 2 * n <= |start| && DecryptedTo(c, m, iv, start, w, chain, n, n)
    ensures Decrypted(c, m, iv, Blocks(start, n), Blocks(w, n)) && w[2 * n..] == start[2 * n..]
  {
    var s, p := Blocks(start, n), Blocks(w, n);
    forall j | 0 <= j < n
      ensures p[j] == PlainOf(c, m, ChainAt(c, m, iv, s, j), s[j])
    {
      assert PlainAt(c, m, iv, start, w, n, j);
    }
  }

  /** `blowfish_decrypt`: each block is read for the chain before it is overwritten. */
  method Decrypt<W(!new)>(c: Cipher<W>, data: array?<W>, length: nat, m: Mode, iv: Block<W>)
    requires c.Ok() && (data != null ==> length <= 4 * data.Length)
    modifies data
    ensures data != null ==> Decrypted(c, m, iv, Blocks(old(data[..]), length / 8), Blocks(data[..], length / 8))
    ensures data != null ==> data[length / 8 * 2..] == old(data[length / 8 * 2..])
  {
    var whole := length - length % 8;
    if data == null || whole == 0 {
      return;
    }
    DecryptBlocks(c, data, whole / 8, m, iv);
  }

  /** The loops of the modes; the choice of mode is made in each turn. */
  method DecryptBlocks<W(!new)>(c: Cipher<W>, data: array<W>, n: nat, m: Mode, iv: Block<W>)
    requires c.Ok() && 2 * n <= data.Length
    modifies data
    ensures Decrypted(c, m, iv, Blocks(old(data[..]), n), Blocks(data[..], n))
    ensures data[2 * n..] == old(data[2 * n..])
  {
    var chain := new W[2](i => if i == 0 then iv.l else iv.h);
    var i := 0;
    while i < n
      invariant DecryptedTo(c, m, iv, old(data[..]), data[..], BlockAt(chain[..], 0), n, i)
    {
      ghost var w, next := data[..], BlockAt(chain[..], 0);
      DecryptTurn(c, m, data, i, chain);
      DecryptStep(c, m, iv, old(data[..]), w, data[..], next, n, i);
      i := i + 1;
    }
    DecryptDone(c, m, iv, old(data[..]), data[..], BlockAt(chain[..], 0), n);
  }

  /** The same blocks and the same words beyond them are the same buffer. */
  lemma BlocksDecide<W(!new)>(a: seq<W>, b: seq<W>, n: nat)
    requires |a| == |b| && 2 * n <= |a| && Blocks(a, n) == Blocks(b, n) && a[2 * n..] == b[2 * n..]
    ensures a == b
  {
    forall k | 0 <= k < |a|
      ensures a[k] == b[k]
    {
      if k < 2 * n {
        assert BlockAt(a, k / 2) == Blocks(a, n)[k / 2] == BlockAt(b, k / 2);
        assert k == 2 * (k / 2) || k == 2 * (k / 2) + 1;
      } else {
        assert a[k] == a[2 * n..][k - 2 * n];
      }
    }
  }

  /** Decryption undoes encryption of a buffer, for every mode, length and vector. */
  method EncryptDecrypt<W(!new)>(c: Cipher<W>, data: array<W>, length: nat, m: Mode, iv: Block<W>)
    requires c.Ok() && length <= 4 * data.Length
    modifies data
    ensures data[..] == old(data[..])
  {
    ghost var n := length / 8;
    Encrypt(c, data, length, m, iv);
    ghost var s := data[..];
    Decrypt(c, data, length, m, iv);
    Unique(c, m, iv, Blocks(s, n), Blocks(old(data[..]), n), Blocks(data[..], n));
    BlocksDecide(old(data[..]), data[..], n);
  }

  lemma Unique<W(!new)>(c: Cipher<W>, m: Mode, iv: Block<W>, s: seq<Block<W>>, p: seq<Block<W>>, q: seq<Block<W>>)
    requires c.Ok() && Encrypted(c, m, iv, p, s) && Decrypted(c, m, iv, s, q)
    ensures p == q
  {
    EncryptedIffDecrypted(c, m, iv, p, s);
  }

  // ---------- 32-bit words ----------

  /** The keyed state: 18 subkeys and four boxes of 256 entries. */
  datatype Key = Key(p: seq<bv32>, s0: bv8 -> bv32, s1: bv8 -> bv32, s2: bv8 -> bv32, s3: bv8 -> bv32)

  /** The byte of a word that is shifted down by `n` bits. */
  function ByteOf(x: bv32, n: nat): bv8
    requires n <= 24
  {
    ((x >> n) & 0xFF) as bv8
  }

  /** The bytes of a word, the highest first. */
  lemma BytesOfWord(a: bv8, b: bv8, c: bv8, d: bv8)
    ensures var x := (a as bv32 << 24) | (b as bv32 << 16) | (c as bv32 << 8) | d as bv32;
      ByteOf(x, 24) == a && ByteOf(x, 16) == b && ByteOf(x, 8) == c && ByteOf(x, 0) == d
  {
    var x := (a as bv32 << 24) | (b as bv32 << 16) | (c as bv32 << 8) | d as bv32;
    assert ((x >> 24) & 0xFF) as bv8 == a && ((x >> 16) & 0xFF) as bv8 == b && ((x >> 8) & 0xFF) as bv8 == c && (x & 0xFF) as bv8 == d;
  }

  /** How the four entries are put together; addition is modulo 2^32. */
  function Joined(e0: bv32, e1: bv32, e2: bv32, e3: bv32): bv32 {
    ((e0 + e1) ^ e2) + e3
  }

  /** An input on which any other mixture of sums and exclusive ors gives another word. */
  lemma JoinedSample()
    ensures Joined(0xFFFF_FFFF, 3, 6, 0xFFFF_FFFF) == 3
  {
  }

  /** The `FEISTEL` macro. */
  function Feistel(k: Key, x: bv32): bv32 {
    Joined(k.s0(ByteOf(x, 24)), k.s1(ByteOf(x, 16)), k.s2(ByteOf(x, 8)), k.s3(ByteOf(x, 0)))
  }

  /** Each byte of a word chooses an entry of a box of its own. */
  lemma FeistelOfBytes(k: Key, x: bv32, a: bv8, b: bv8, c: bv8, d: bv8)
    requires ByteOf(x, 24) == a && ByteOf(x, 16) == b && ByteOf(x, 8) == c && ByteOf(x, 0) == d
    ensures Feistel(k, x) == Joined(k.s0(a), k.s1(b), k.s2(c), k.s3(d))
  {
  }

  function Keyed(k: Key): (c: Cipher<bv32>) {
    Cipher((x: bv32, y: bv32) => x ^ y, (x: bv32) => Feistel(k, x), k.p)
  }

  /** The words the chain starts with. */
  function HighWord(vec: bv64): bv32 {
    ((vec >> 32) & 0xFFFFFFFF) as bv32
  }

  function LowWord(vec: bv64): bv32 {
    (vec & 0xFFFFFFFF) as bv32
  }

  /** Put together they are the vector. */
  lemma WordsOfVector(vec: bv64)
    ensures ((HighWord(vec) as bv64) << 32) | (LowWord(vec) as bv64) == vec
  {
    assert HighWord(vec) as bv64 == (vec >> 32) & 0xFFFFFFFF;
    assert LowWord(vec) as bv64 == vec & 0xFFFFFFFF;
  }

  lemma KeyedBack(k: Key, x: bv32, y: bv32)
    ensures Keyed(k).xor(Keyed(k).xor(x, y), y) == x
  {
    assert (x ^ y) ^ y == x;
  }

  lemma KeyedAssociates(k: Key, x: bv32, y: bv32, z: bv32)
    ensures Keyed(k).xor(Keyed(k).xor(x, y), z) == Keyed(k).xor(x, Keyed(k).xor(y, z))
  {
    assert (x ^ y) ^ z == x ^ (y ^ z);
  }

  /** Exclusive or of 32-bit words has the laws the proofs use, so all of the above holds of Blowfish. */
  lemma KeyedOk(k: Key)
    requires |k.p| == 18
    ensures Keyed(k).Ok()
  {
    forall x: bv32, y: bv32, z: bv32 | Words(x, y, z)
      ensures Keyed(k).xor(Keyed(k).xor(x, y), y) == x
      ensures Keyed(k).xor(Keyed(k).xor(x, y), z) == Keyed(k).xor(x, Keyed(k).xor(y, z))
      ensures Keyed(k).xor(x, y) == Keyed(k).xor(y, x)
    {
      KeyedBack(k, x, y);
      KeyedAssociates(k, x, y, z);
    }
  }

  /** `blowfish_encrypt` on 32-bit words. */
  method EncryptWith(k: Key, data: array<bv32>, length: nat, m: Mode, vec: bv64)
    requires |k.p| == 18 && length <= 4 * data.Length
    modifies data
    ensures Encrypted(Keyed(k), m, Block(HighWord(vec), LowWord(vec)), Blocks(old(data[..]), length / 8), Blocks(data[..], length / 8))
    ensures data[length / 8 * 2..] == old(data[length / 8 * 2..])
  {
    KeyedOk(k);
    Encrypt(Keyed(k), data, length, m, Block(HighWord(vec), LowWord(vec)));
  }

  /** `blowfish_decrypt` on 32-bit words. */
  method DecryptWith(k: Key, data: array<bv32>, length: nat, m: Mode, vec: bv64)
    requires |k.p| == 18 && length <= 4 * data.Length
    modifies data
    ensures Decrypted(Keyed(k), m, Block(HighWord(vec), LowWord(vec)), Blocks(old(data[..]), length / 8), Blocks(data[..], length / 8))
    ensures data[length / 8 * 2..] == old(data[length / 8 * 2..])
  {
    KeyedOk(k);
    Decrypt(Keyed(k), data, length, m, Block(HighWord(vec), LowWord(vec)));
  }

  /** Decryption undoes encryption of 32-bit words. */
  method RoundTrip(k: Key, data: array<bv32>, length: nat, m: Mode, vec: bv64)
    requires |k.p| == 18 && length <= 4 * data.Length
    modifies data
    ensures data[..] == old(data[..])
  {
    KeyedOk(k);
    ghost var n, iv := length / 8, Block(HighWord(vec), LowWord(vec));
    EncryptWith(k, data, length, m, vec);
    ghost var s := data[..];
    DecryptWith(k, data, length, m, vec);
    Unique(Keyed(k), m, iv, Blocks(s, n), Blocks(old(data[..]), n), Blocks(data[..], n));
    BlocksDecide(old(data[..]), data[..], n);
  }
}
