/**
 * `blowfish.c` for arbitrary subkeys and S-boxes: the unrolled word routines follow the textbook Feistel network,
 * and the two routines are inverse to each other. The proofs use of exclusive or only that it is associative,
 * commutative and its own inverse; `Keyed` supplies the 32-bit words.
 */
module Blowfish {

  datatype Block<W> = Block(l: W, h: W)

  /** What the network is built from: exclusive or, the round function and 18 subkeys. */
  datatype Cipher<!W(!new)> = Cipher(xor: (W, W) -> W, f: W -> W, p: seq<W>) {
    ghost predicate Ok() {
      |p| == 18 && forall a, b, c {:trigger Words(a, b, c)} :: Words(a, b, c) ==>
        xor(xor(a, b), b) == a && xor(xor(a, b), c) == xor(a, xor(b, c)) && xor(a, b) == xor(b, a)
    }
  }

  /** Marks the words for which a law of exclusive or is wanted. */
  ghost predicate Words<W(!new)>(a: W, b: W, c: W) {
    true
  }

  lemma XorTwice<W(!new)>(c: Cipher<W>, x: W, y: W)
    requires c.Ok()
    ensures c.xor(c.xor(x, y), y) == x
  {
    assert Words(x, y, y);
  }

  // ---------- the network ----------

  /** One textbook round: mix in the subkey, apply the round function, swap the halves. */
  function Round<W(!new)>(c: Cipher<W>, p: W, b: Block<W>): Block<W> {
    Block(c.xor(b.h, c.f(c.xor(b.l, p))), c.xor(b.l, p))
  }

  /** The first `n` rounds with subkeys `p`. */
  function Rounds<W(!new)>(c: Cipher<W>, p: seq<W>, b: Block<W>, n: nat): Block<W>
    requires n <= |p|
    decreases n, p
  {
    if n == 0 then b else Round(c, p[n - 1], Rounds(c, p, b, n - 1))
  }

  /** Sixteen rounds, the last swap undone, and the last two subkeys mixed in. */
  function Network<W(!new)>(c: Cipher<W>, p: seq<W>, b: Block<W>): Block<W>
    requires |p| == 18
  {
    var r := Rounds(c, p, b, 16);
    Block(c.xor(r.h, p[17]), c.xor(r.l, p[16]))
  }

  function Backward<W(!new)>(p: seq<W>): (q: seq<W>)
    requires |p| == 18
    ensures |q| == 18 && forall i :: 0 <= i < 18 ==> q[i] == p[17 - i]
  {
    seq(18, i requires 0 <= i < 18 => p[17 - i])
  }

  function Enc<W(!new)>(c: Cipher<W>, b: Block<W>): Block<W>
    requires |c.p| == 18
  {
    Network(c, c.p, b)
  }

  /** Decryption is the same network with the subkeys in reverse. */
  function Dec<W(!new)>(c: Cipher<W>, b: Block<W>): Block<W>
    requires |c.p| == 18
  {
    Network(c, Backward(c.p), b)
  }

  /**
   * A round of decrypting takes a round of encrypting away: `r` is the state a round after `b`, held with its
   * halves exchanged and the subkeys on either side mixed in.
   */
  lemma UndoRound<W(!new)>(c: Cipher<W>, b: Block<W>, p: W, next: W, last: W)
    requires c.Ok()
    ensures var r := Round(c, p, b);
      Round(c, last, Block(c.xor(r.h, last), c.xor(r.l, next))) == Block(c.xor(b.h, next), c.xor(b.l, p))
  {
    var r := Round(c, p, b);
    var y := c.f(r.h);
    XorTwice(c, r.h, last);
    XorTwice(c, b.h, y);
    assert Words(r.l, next, y);
    assert Words(r.l, y, next);
    assert Words(next, y, y);
  }

  /** After `j` rounds of decrypting, what is left is the state of the encryption `16 - j` rounds in. */
  lemma {:induction false} Unwinding<W(!new)>(c: Cipher<W>, p: seq<W>, b: Block<W>, j: nat)
    requires c.Ok() && |p| == 18 && j <= 16
    ensures var r := Rounds(c, p, b, 16 - j);
      Rounds(c, Backward(p), Network(c, p, b), j) == Block(c.xor(r.h, p[17 - j]), c.xor(r.l, p[16 - j]))
  {
    if j > 0 {
      Unwinding(c, p, b, j - 1);
      var before := Rounds(c, p, b, 16 - j);
      assert Rounds(c, p, b, 17 - j) == Round(c, p[16 - j], before);
      UndoRound(c, before, p[16 - j], p[17 - j], p[18 - j]);
    }
  }

  lemma NetworkUndone<W(!new)>(c: Cipher<W>, p: seq<W>, b: Block<W>)
    requires c.Ok() && |p| == 18
    ensures Network(c, Backward(p), Network(c, p, b)) == b
  {
    Unwinding(c, p, b, 16);
    XorTwice(c, b.l, p[0]);
    XorTwice(c, b.h, p[1]);
  }

  /** The word routines are inverse to each other, both ways round. */
  lemma WordsInverse<W(!new)>(c: Cipher<W>, b: Block<W>)
    requires c.Ok()
    ensures Dec(c, Enc(c, b)) == b && Enc(c, Dec(c, b)) == b
  {
    NetworkUndone(c, c.p, b);
    NetworkUndone(c, Backward(c.p), b);
    assert Backward(Backward(c.p)) == c.p;
  }

  /**
   * The equations of a Feistel network with whitening, round by round: `l` and `h` are the halves before each round,
   * and `q` is the subkey of each.
   */
  ghost predicate Halves<W(!new)>(c: Cipher<W>, q: seq<W>, l: seq<W>, h: seq<W>) {
    |q| == 18 && |l| == |h| == 17
    && forall i :: 0 <= i < 16 ==> h[i + 1] == c.xor(l[i], q[i]) && l[i + 1] == c.xor(h[i], c.f(h[i + 1]))
  }

  lemma {:induction false} RoundsAreHalves<W(!new)>(c: Cipher<W>, q: seq<W>, l: seq<W>, h: seq<W>, i: nat)
    requires Halves(c, q, l, h) && i <= 16
    ensures Rounds(c, q, Block(l[0], h[0]), i) == Block(l[i], h[i])
  {
    if i > 0 {
      RoundsAreHalves(c, q, l, h, i - 1);
      var j := i - 1;
      assert h[j + 1] == c.xor(l[j], q[j]) && l[j + 1] == c.xor(h[j], c.f(h[j + 1]));
    }
  }

  /** Both routines compute what those equations say: with the subkeys in order, and in reverse. */
  lemma FeistelEquations<W(!new)>(c: Cipher<W>, q: seq<W>, l: seq<W>, h: seq<W>)
    requires |c.p| == 18 && Halves(c, q, l, h)
    ensures q == c.p ==> Enc(c, Block(l[0], h[0])) == Block(c.xor(h[16], c.p[17]), c.xor(l[16], c.p[16]))
    ensures (forall i :: 0 <= i < 18 ==> q[i] == c.p[17 - i]) ==>
      Dec(c, Block(l[0], h[0])) == Block(c.xor(h[16], c.p[0]), c.xor(l[16], c.p[1]))
  {
    RoundsAreHalves(c, q, l, h, 16);
    if forall i :: 0 <= i < 18 ==> q[i] == c.p[17 - i] {
      assert q == Backward(c.p);
    }
  }

  // ---------- the unrolled routines ----------

  /** The textbook state with the next subkey already mixed in, which is what the unrolled code holds. */
  function Mixed<W(!new)>(c: Cipher<W>, p: seq<W>, b: Block<W>, i: nat): Block<W>
    requires i < |p|
  {
    var r := Rounds(c, p, b, i);
    Block(c.xor(r.l, p[i]), r.h)
  }

  /** One line of the unrolled code. */
  function Line<W(!new)>(c: Cipher<W>, p: W, m: Block<W>): Block<W> {
    Block(c.xor(m.h, c.xor(c.f(m.l), p)), m.l)
  }

  /** A line is a round. */
  lemma LineIsRound<W(!new)>(c: Cipher<W>, p: seq<W>, b: Block<W>, i: nat)
    requires c.Ok() && i + 1 < |p|
    ensures Mixed(c, p, b, i + 1) == Line(c, p[i + 1], Mixed(c, p, b, i))
  {
    var r := Rounds(c, p, b, i);
    assert Words(r.h, c.f(c.xor(r.l, p[i])), p[i + 1]);
  }

  /** The lines together are the network. */
  lemma LinesAreNetwork<W(!new)>(c: Cipher<W>, p: seq<W>, b: Block<W>)
    requires c.Ok() && |p| == 18
    ensures Mixed(c, p, b, 0) == Block(c.xor(b.l, p[0]), b.h)
    ensures forall i :: 0 <= i < 16 ==> Mixed(c, p, b, i + 1) == Line(c, p[i + 1], Mixed(c, p, b, i))
    ensures Network(c, p, b) == Block(c.xor(Mixed(c, p, b, 16).h, p[17]), Mixed(c, p, b, 16).l)
  {
    forall i | 0 <= i < 16
      ensures Mixed(c, p, b, i + 1) == Line(c, p[i + 1], Mixed(c, p, b, i))
    {
      LineIsRound(c, p, b, i);
    }
  }

  /** `blowfish_encrypt_words` on the two words at `at`. */
  method EncryptWords<W(!new)>(c: Cipher<W>, words: array<W>, at: nat)
    requires c.Ok() && at + 2 <= words.Length
    modifies words
    ensures Block(words[at], words[at + 1]) == Enc(c, Block(old(words[at]), old(words[at + 1])))
    ensures forall j :: 0 <= j < words.Length && j != at && j != at + 1 ==> words[j] == old(words[j])
  {
    var p := c.p;
    var lval, hval := words[at], words[at + 1];
    LinesAreNetwork(c, p, Block(lval, hval));
    lval := c.xor(lval, p[0]);
    hval := c.xor(hval, c.xor(c.f(lval), p[1]));
    lval := c.xor(lval, c.xor(c.f(hval), p[2]));
    hval := c.xor(hval, c.xor(c.f(lval), p[3]));
    lval := c.xor(lval, c.xor(c.f(hval), p[4]));
    hval := c.xor(hval, c.xor(c.f(lval), p[5]));
    lval := c.xor(lval, c.xor(c.f(hval), p[6]));
    hval := c.xor(hval, c.xor(c.f(lval), p[7]));
    lval := c.xor(lval, c.xor(c.f(hval), p[8]));
    hval := c.xor(hval, c.xor(c.f(lval), p[9]));
    lval := c.xor(lval, c.xor(c.f(hval), p[10]));
    hval := c.xor(hval, c.xor(c.f(lval), p[11]));
    lval := c.xor(lval, c.xor(c.f(hval), p[12]));
    hval := c.xor(hval, c.xor(c.f(lval), p[13]));
    lval := c.xor(lval, c.xor(c.f(hval), p[14]));
    hval := c.xor(hval, c.xor(c.f(lval), p[15]));
    lval := c.xor(lval, c.xor(c.f(hval), p[16]));
    hval := c.xor(hval, p[17]);
    words[at] := hval;
    words[at + 1] := lval;
  }

  /** `blowfish_decrypt_words` on the two words at `at`. */
  method DecryptWords<W(!new)>(c: Cipher<W>, words: array<W>, at: nat)
    requires c.Ok() && at + 2 <= words.Length
    modifies words
    ensures Block(words[at], words[at + 1]) == Dec(c, Block(old(words[at]), old(words[at + 1])))
    ensures forall j :: 0 <= j < words.Length && j != at && j != at + 1 ==> words[j] == old(words[j])
  {
    var p := c.p;
    var lval, hval := words[at], words[at + 1];
    ghost var q := Backward(p);
    assert q[0] == p[17] && q[1] == p[16] && q[2] == p[15] && q[3] == p[14] && q[4] == p[13] && q[5] == p[12];
    assert q[6] == p[11] && q[7] == p[10] && q[8] == p[9] && q[9] == p[8] && q[10] == p[7] && q[11] == p[6];
    assert q[12] == p[5] && q[13] == p[4] && q[14] == p[3] && q[15] == p[2] && q[16] == p[1] && q[17] == p[0];
    LinesAreNetwork(c, q, Block(lval, hval));
    lval := c.xor(lval, p[17]);
    hval := c.xor(hval, c.xor(c.f(lval), p[16]));
    lval := c.xor(lval, c.xor(c.f(hval), p[15]));
    hval := c.xor(hval, c.xor(c.f(lval), p[14]));
    lval := c.xor(lval, c.xor(c.f(hval), p[13]));
    hval := c.xor(hval, c.xor(c.f(lval), p[12]));
    lval := c.xor(lval, c.xor(c.f(hval), p[11]));
    hval := c.xor(hval, c.xor(c.f(lval), p[10]));
    lval := c.xor(lval, c.xor(c.f(hval), p[9]));
    hval := c.xor(hval, c.xor(c.f(lval), p[8]));
    lval := c.xor(lval, c.xor(c.f(hval), p[7]));
    hval := c.xor(hval, c.xor(c.f(lval), p[6]));
    lval := c.xor(lval, c.xor(c.f(hval), p[5]));
    hval := c.xor(hval, c.xor(c.f(lval), p[4]));
    lval := c.xor(lval, c.xor(c.f(hval), p[3]));
    hval := c.xor(hval, c.xor(c.f(lval), p[2]));
    lval := c.xor(lval, c.xor(c.f(hval), p[1]));
    hval := c.xor(hval, p[0]);
    words[at] := hval;
    words[at + 1] := lval;
  }
}
