/** Numbers as strings of bits, least significant first, and the bit operations of C on them. */
module BitStrings {

  function Pow2(n: nat): (p: nat)
    ensures p > 0
  {
    if n == 0 then 1 else 2 * Pow2(n - 1)
  }

  /** `v << n`, before any truncation. */
  function Shl(v: nat, n: nat): nat
    decreases n, v
  {
    if n == 0 then v else 2 * Shl(v, n - 1)
  }

  /** `v >> n`. */
  function Shr(v: nat, n: nat): nat
    decreases n, v
  {
    if n == 0 then v else Shr(v / 2, n - 1)
  }

  /** `v & ((1 << n) - 1)`. */
  function Low(v: nat, n: nat): nat
    decreases n, v
  {
    if n == 0 then 0 else v % 2 + 2 * Low(v / 2, n - 1)
  }

  /** `a | b`. */
  function Or(a: nat, b: nat): nat
    decreases a + b
  {
    if a == 0 then b else if b == 0 then a
    else (if a % 2 == 1 || b % 2 == 1 then 1 else 0) + 2 * Or(a / 2, b / 2)
  }

  /** The low `n` bits of `v`. */
  function Bits(v: nat, n: nat): (b: seq<bool>)
    ensures |b| == n
    decreases n, v
  {
    if n == 0 then [] else [v % 2 == 1] + Bits(v / 2, n - 1)
  }

  function Value(b: seq<bool>): nat {
    if b == [] then 0 else (if b[0] then 1 else 0) + 2 * Value(b[1..])
  }

  lemma DivUnique(v: int, d: int, k: int, r: int)
    requires d > 0 && v == d * k + r && 0 <= r < d
    ensures v % d == r
  {
    assert v == d * (v / d) + v % d;
    var q := v / d - k;
    assert d * q == r - v % d;
    assert (q >= 1 ==> d * q >= d) && (q <= -1 ==> d * q <= -d);
  }

  lemma Regroup(p: int, q: int, r: int, b: int)
    ensures 2 * (p * q + r) + b == (2 * p) * q + (2 * r + b)
  {
    assert 2 * (p * q) == (2 * p) * q;
  }

  /** The remainder by an even number is the last bit and twice the remainder of the rest. */
  lemma ModDouble(v: nat, p: nat)
    requires p > 0
    ensures v % (2 * p) == v % 2 + 2 * (v / 2 % p)
  {
    var h, b := v / 2, v % 2;
    var q, r := h / p, h % p;
    assert h == p * q + r;
    Regroup(p, q, r, b);
    DivUnique(v, 2 * p, q, 2 * r + b);
  }

  /** Masking with `(1 << n) - 1` is taking the number modulo 2 to the `n`. */
  lemma {:induction false} LowIsMod(v: nat, n: nat)
    ensures Low(v, n) == v % Pow2(n)
    decreases n
  {
    if n > 0 {
      LowIsMod(v / 2, n - 1);
      ModDouble(v, Pow2(n - 1));
    }
  }

  lemma {:induction false} ValueBound(b: seq<bool>)
    ensures Value(b) < Pow2(|b|)
  {
    if b != [] {
      ValueBound(b[1..]);
    }
  }

  lemma {:induction false} ValueConcat(a: seq<bool>, b: seq<bool>)
    ensures Value(a + b) == Value(a) + Shl(Value(b), |a|)
  {
    if a == [] {
      assert a + b == b;
    } else {
      ValueConcat(a[1..], b);
      assert (a + b)[0] == a[0] && (a + b)[1..] == a[1..] + b;
    }
  }

  lemma {:induction false} BitsSplit(v: nat, a: nat, b: nat)
    ensures Bits(v, a + b) == Bits(v, a) + Bits(Shr(v, a), b)
    decreases a
  {
    if a == 0 {
      assert [] + Bits(v, b) == Bits(v, b);
    } else {
      BitsSplit(v / 2, a - 1, b);
      var head: seq<bool> := [v % 2 == 1];
      assert Bits(v, a + b) == head + Bits(v / 2, (a - 1) + b);
      assert head + (Bits(v / 2, a - 1) + Bits(Shr(v / 2, a - 1), b)) == head + Bits(v / 2, a - 1) + Bits(Shr(v / 2, a - 1), b);
    }
  }

  lemma {:induction false} ValueOfBits(v: nat, n: nat)
    ensures Value(Bits(v, n)) == Low(v, n)
    decreases n
  {
    if n > 0 {
      ValueOfBits(v / 2, n - 1);
      assert Bits(v, n)[1..] == Bits(v / 2, n - 1);
    }
  }

  lemma {:induction false} BitsOfValue(b: seq<bool>)
    ensures Bits(Value(b), |b|) == b
  {
    if b != [] {
      BitsOfValue(b[1..]);
      assert b == [b[0]] + b[1..];
    }
  }

  /** A number below 2 to the `n` is the value of its `n` bits. */
  lemma {:induction false} LowFits(v: nat, n: nat)
    requires v < Pow2(n)
    ensures Low(v, n) == v
    decreases n
  {
    if n > 0 {
      LowFits(v / 2, n - 1);
    }
  }

  lemma BitsOfLow(v: nat, n: nat)
    ensures Bits(Low(v, n), n) == Bits(v, n)
  {
    ValueOfBits(v, n);
    BitsOfValue(Bits(v, n));
  }

  lemma {:induction false} ShlZero(k: nat)
    ensures Shl(0, k) == 0
  {
    if k > 0 { ShlZero(k - 1); }
  }

  /** Numbers whose bits do not overlap are joined by adding them. */
  lemma {:induction false} OrDisjoint(a: nat, b: nat, k: nat)
    requires a < Pow2(k)
    ensures Or(a, Shl(b, k)) == a + Shl(b, k)
    decreases k
  {
    if k > 0 && a > 0 && Shl(b, k) > 0 {
      OrDisjoint(a / 2, b, k - 1);
    }
  }

  /** Appending a field to the bits already pending, as the writer does it. */
  lemma OrAppends(a: seq<bool>, b: seq<bool>)
    ensures Or(Value(a), Shl(Value(b), |a|)) == Value(a + b)
  {
    ValueBound(a);
    OrDisjoint(Value(a), Value(b), |a|);
    ValueConcat(a, b);
  }

  lemma {:induction false} ShlBound(v: nat, a: nat, k: nat)
    requires v < Pow2(a)
    ensures Shl(v, k) < Pow2(a + k)
    decreases k
  {
    if k > 0 { ShlBound(v, a, k - 1); }
  }

  lemma {:induction false} Pow2Monotone(a: nat, b: nat)
    requires a <= b
    ensures Pow2(a) <= Pow2(b)
    decreases b
  {
    if a < b { Pow2Monotone(a, b - 1); }
  }

  function Zeros(n: nat): (b: seq<bool>)
    ensures |b| == n
    decreases n
  {
    if n == 0 then [] else [false] + Zeros(n - 1)
  }

  lemma {:induction false} ValueOfZeros(n: nat)
    ensures Value(Zeros(n)) == 0
  {
    if n > 0 {
      ValueOfZeros(n - 1);
      assert Zeros(n)[1..] == Zeros(n - 1);
    }
  }

  lemma ValueWithZeros(b: seq<bool>, n: nat)
    ensures Value(b + Zeros(n)) == Value(b)
  {
    ValueConcat(b, Zeros(n));
    ValueOfZeros(n);
    ShlZero(|b|);
  }
}
