/**
 Canonical ordering of combining marks (Unicode Standard section 3.11, D108/D109).

 Everything is parameterised by `ccc`, which gives each cell its combining class.  Class 0 stands
 for a starter or for a grapheme-break sentinel: such a cell never moves and nothing moves across it.
 */
module CanonicalOrdering {

  /** A reorderable pair (D108): adjacent cells the ordering loop exchanges. */
  predicate Reorderable(ccc: int -> nat, a: int, b: int) {
    ccc(a) > ccc(b) > 0
  }

  ghost predicate Ordered(ccc: int -> nat, s: seq<int>) {
    forall i :: 0 <= i < |s| - 1 ==> !Reorderable(ccc, s[i], s[i + 1])
  }

  /** Places `x` after `s`, letting it pass the trailing marks of a strictly higher class. */
  function Insert(ccc: int -> nat, s: seq<int>, x: int): (r: seq<int>)
    ensures |r| == |s| + 1
  {
    var n := |s| - 1;
    if n >= 0 && Reorderable(ccc, s[n], x) then Insert(ccc, s[..n], x) + [s[n]] else s + [x]
  }

  /** The canonical order of `s`, as a stable insertion sort of each run of marks. */
  function Order(ccc: int -> nat, s: seq<int>): (r: seq<int>)
    ensures |r| == |s|
  {
    if s == [] then [] else Insert(ccc, Order(ccc, s[..|s| - 1]), s[|s| - 1])
  }

  // ---------- the order does not depend on how reorderable neighbours stand ----------

  lemma OrderSnoc(ccc: int -> nat, s: seq<int>, x: int)
    ensures Order(ccc, s + [x]) == Insert(ccc, Order(ccc, s), x)
  {
    assert (s + [x])[..|s|] == s;
  }

  lemma {:induction false} InsertCommutes(ccc: int -> nat, s: seq<int>, a: int, b: int)
    requires Reorderable(ccc, a, b)
    ensures Insert(ccc, Insert(ccc, s, a), b) == Insert(ccc, Insert(ccc, s, b), a)
  {
    var n := |s| - 1;
    if n >= 0 && Reorderable(ccc, s[n], a) {
      InsertCommutes(ccc, s[..n], a, b);
      var p, q := Insert(ccc, s[..n], a), Insert(ccc, s[..n], b);
      assert (p + [s[n]])[..|p|] == p && (q + [s[n]])[..|q|] == q;
    } else {
      assert (s + [a])[..|s|] == s;
      assert (s + [b])[..|s|] == s;
    }
  }

  lemma {:induction false} OrderSwap(ccc: int -> nat, u: seq<int>, a: int, b: int, v: seq<int>)
    requires Reorderable(ccc, a, b)
    ensures Order(ccc, u + [a, b] + v) == Order(ccc, u + [b, a] + v)
    decreases |v|
  {
    if v == [] {
      assert u + [a, b] + v == (u + [a]) + [b] && u + [b, a] + v == (u + [b]) + [a];
      OrderSnoc(ccc, u + [a], b);
      OrderSnoc(ccc, u + [b], a);
      OrderSnoc(ccc, u, a);
      OrderSnoc(ccc, u, b);
      InsertCommutes(ccc, Order(ccc, u), a, b);
    } else {
      var w, x := v[..|v| - 1], v[|v| - 1];
      OrderSwap(ccc, u, a, b, w);
      assert u + [a, b] + v == (u + [a, b] + w) + [x] && u + [b, a] + v == (u + [b, a] + w) + [x];
      OrderSnoc(ccc, u + [a, b] + w, x);
      OrderSnoc(ccc, u + [b, a] + w, x);
    }
  }

  /** A mark may be moved right across marks of lower, non-zero class without changing the order. */
  lemma {:induction false} OrderMoveRight(ccc: int -> nat, u: seq<int>, c: int, m: seq<int>)
    requires forall x :: x in m ==> Reorderable(ccc, c, x)
    ensures Order(ccc, u + [c] + m) == Order(ccc, u + m + [c])
    decreases |m|
  {
    if m == [] {
      assert u + [c] + m == u + m + [c];
    } else {
      var x, w := m[0], m[1..];
      OrderSwap(ccc, u, c, x, w);
      assert u + [c] + m == u + [c, x] + w;
      assert u + [x, c] + w == (u + [x]) + [c] + w;
      OrderMoveRight(ccc, u + [x], c, w);
      assert (u + [x]) + w + [c] == u + m + [c];
    }
  }

  // ---------- ordered sequences are exactly the fixed points ----------

  lemma {:induction false} InsertOrdered(ccc: int -> nat, s: seq<int>, x: int)
    requires Ordered(ccc, s)
    ensures Ordered(ccc, Insert(ccc, s, x))
  {
    var n := |s| - 1;
    if n >= 0 && Reorderable(ccc, s[n], x) {
      InsertOrdered(ccc, s[..n], x);
      InsertLast(ccc, s[..n], x);
    }
  }

  lemma {:induction false} InsertLast(ccc: int -> nat, s: seq<int>, x: int)
    ensures Insert(ccc, s, x)[|s|] == x || (s != [] && Insert(ccc, s, x)[|s|] == s[|s| - 1])
  {
  }

  lemma {:induction false} OrderOrdered(ccc: int -> nat, s: seq<int>)
    ensures Ordered(ccc, Order(ccc, s))
  {
    if s != [] {
      OrderOrdered(ccc, s[..|s| - 1]);
      InsertOrdered(ccc, Order(ccc, s[..|s| - 1]), s[|s| - 1]);
    }
  }

  lemma {:induction false} OrderedFixed(ccc: int -> nat, s: seq<int>)
    requires Ordered(ccc, s)
    ensures Order(ccc, s) == s
  {
    if s != [] {
      var n := |s| - 1;
      OrderedFixed(ccc, s[..n]);
      assert n > 0 ==> s[..n][n - 1] == s[n - 1];
      assert n > 0 ==> !Reorderable(ccc, s[n - 1], s[n]);
      assert s[..n] + [s[n]] == s;
    }
  }

  lemma OrderIdempotent(ccc: int -> nat, s: seq<int>)
    ensures Order(ccc, Order(ccc, s)) == Order(ccc, s)
  {
    OrderOrdered(ccc, s);
    OrderedFixed(ccc, Order(ccc, s));
  }

  /** Ordering a prefix first does not change the order of the whole. */
  lemma {:induction false} OrderPrefix(ccc: int -> nat, u: seq<int>, v: seq<int>)
    ensures Order(ccc, Order(ccc, u) + v) == Order(ccc, u + v)
    decreases |v|
  {
    if v == [] {
      assert Order(ccc, u) + v == Order(ccc, u) && u + v == u;
      OrderIdempotent(ccc, u);
    } else {
      var w, x := v[..|v| - 1], v[|v| - 1];
      OrderPrefix(ccc, u, w);
      assert Order(ccc, u) + v == (Order(ccc, u) + w) + [x] && u + v == (u + w) + [x];
      OrderSnoc(ccc, Order(ccc, u) + w, x);
      OrderSnoc(ccc, u + w, x);
    }
  }

  // ---------- the declarative reading: stable, barriers fixed, unique ----------

  /** The members of `s` of class `k`, in order. */
  ghost function Pick(ccc: int -> nat, s: seq<int>, k: nat): seq<int> {
    if s == [] then []
    else Pick(ccc, s[..|s| - 1], k) + (if ccc(s[|s| - 1]) == k then [s[|s| - 1]] else [])
  }

  /** The cells of class 0 stand at the same places in `s` and `r`. */
  ghost predicate SameBarriers(ccc: int -> nat, s: seq<int>, r: seq<int>)
    requires |s| == |r|
  {
    forall i :: 0 <= i < |s| && (ccc(s[i]) == 0 || ccc(r[i]) == 0) ==> s[i] == r[i]
  }

  /** `e` is the end of a run of marks of `s`. */
  predicate RunEnd(ccc: int -> nat, s: seq<int>, e: int) {
    0 <= e <= |s| && (e == |s| || ccc(s[e]) == 0)
  }

  /** Up to the end of every run the marks of each class stand in the same relative order. */
  ghost predicate SameMarks(ccc: int -> nat, s: seq<int>, r: seq<int>)
    requires |s| == |r|
  {
    forall e, k: nat :: RunEnd(ccc, s, e) && k > 0 ==> Pick(ccc, s[..e], k) == Pick(ccc, r[..e], k)
  }

  /** `r` has the runs of `s`, each rearranged without disturbing marks of equal class. */
  ghost predicate StableRearrangement(ccc: int -> nat, s: seq<int>, r: seq<int>) {
    |s| == |r| && SameBarriers(ccc, s, r) && SameMarks(ccc, s, r)
  }

  lemma PickSnoc(ccc: int -> nat, s: seq<int>, x: int, k: nat)
    ensures Pick(ccc, s + [x], k) == Pick(ccc, s, k) + (if ccc(x) == k then [x] else [])
  {
    assert (s + [x])[..|s|] == s;
  }

  lemma {:induction false} PickConcat(ccc: int -> nat, s: seq<int>, r: seq<int>, k: nat)
    ensures Pick(ccc, s + r, k) == Pick(ccc, s, k) + Pick(ccc, r, k)
    decreases |r|
  {
    if r == [] {
      assert s + r == s;
    } else {
      var w, x := r[..|r| - 1], r[|r| - 1];
      assert s + r == (s + w) + [x] && r == w + [x];
      PickConcat(ccc, s, w, k);
      PickSnoc(ccc, s + w, x, k);
      PickSnoc(ccc, w, x, k);
    }
  }

  lemma {:induction false} PickInsert(ccc: int -> nat, s: seq<int>, x: int, k: nat)
    ensures Pick(ccc, Insert(ccc, s, x), k) == Pick(ccc, s + [x], k)
  {
    var n := |s| - 1;
    if n >= 0 && Reorderable(ccc, s[n], x) {
      var w, z := s[..n], s[n];
      assert s == w + [z];
      PickInsert(ccc, w, x, k);
      PickSnoc(ccc, Insert(ccc, w, x), z, k);
      PickSnoc(ccc, w, x, k);
      PickSnoc(ccc, w, z, k);
      PickSnoc(ccc, s, x, k);
    }
  }

  /** Nothing is inserted at or before a cell of class 0. */
  lemma {:induction false} InsertKeepsBarrier(ccc: int -> nat, s: seq<int>, x: int, i: nat)
    requires i < |s| && ccc(s[i]) == 0
    ensures Insert(ccc, s, x)[..i + 1] == s[..i + 1]
  {
    var n := |s| - 1;
    if Reorderable(ccc, s[n], x) {
      InsertKeepsBarrier(ccc, s[..n], x, i);
      var p := Insert(ccc, s[..n], x);
      assert (p + [s[n]])[..i + 1] == p[..i + 1];
      assert s[..n][..i + 1] == s[..i + 1];
    }
  }

  /** Insertion creates no new cell of class 0, except `x` itself at the end. */
  lemma {:induction false} InsertBarrier(ccc: int -> nat, s: seq<int>, x: int, i: nat)
    requires i <= |s| && ccc(Insert(ccc, s, x)[i]) == 0
    ensures (s + [x])[i] == Insert(ccc, s, x)[i]
  {
    var n := |s| - 1;
    if n >= 0 && Reorderable(ccc, s[n], x) && i < |s| {
      InsertBarrier(ccc, s[..n], x, i);
    }
  }

  lemma InsertStable(ccc: int -> nat, s: seq<int>, x: int)
    ensures StableRearrangement(ccc, s + [x], Insert(ccc, s, x))
  {
    var r := Insert(ccc, s, x);
    forall i | 0 <= i < |r| && (ccc((s + [x])[i]) == 0 || ccc(r[i]) == 0)
      ensures (s + [x])[i] == r[i]
    {
      if i < |s| && ccc(s[i]) == 0 {
        InsertKeepsBarrier(ccc, s, x, i);
        assert r[..i + 1][i] == s[..i + 1][i];
      } else if ccc(r[i]) == 0 {
        InsertBarrier(ccc, s, x, i);
      }
    }
    forall e, k: nat | RunEnd(ccc, s + [x], e) && k > 0
      ensures Pick(ccc, (s + [x])[..e], k) == Pick(ccc, r[..e], k)
    {
      if e == |s| + 1 {
        assert (s + [x])[..e] == s + [x] && r[..e] == r;
        PickInsert(ccc, s, x, k);
      } else if e < |s| {
        InsertKeepsBarrier(ccc, s, x, e);
        assert r[..e] == r[..e + 1][..e] == s[..e] == (s + [x])[..e];
      }
    }
  }

  lemma StableSnoc(ccc: int -> nat, s: seq<int>, r: seq<int>, x: int)
    requires StableRearrangement(ccc, s, r)
    ensures StableRearrangement(ccc, s + [x], r + [x])
  {
    forall e, k: nat | RunEnd(ccc, s + [x], e) && k > 0
      ensures Pick(ccc, (s + [x])[..e], k) == Pick(ccc, (r + [x])[..e], k)
    {
      if e == |s| + 1 {
        assert s[..|s|] == s && r[..|r|] == r && RunEnd(ccc, s, |s|);
        assert (s + [x])[..e] == s + [x] && (r + [x])[..e] == r + [x];
        PickSnoc(ccc, s, x, k);
        PickSnoc(ccc, r, x, k);
      } else {
        assert RunEnd(ccc, s, e);
        assert (s + [x])[..e] == s[..e] && (r + [x])[..e] == r[..e];
      }
    }
  }

  lemma StableTransitive(ccc: int -> nat, s: seq<int>, r: seq<int>, q: seq<int>)
    requires StableRearrangement(ccc, s, r) && StableRearrangement(ccc, r, q)
    ensures StableRearrangement(ccc, s, q)
  {
    forall e, k: nat | RunEnd(ccc, s, e) && k > 0
      ensures Pick(ccc, s[..e], k) == Pick(ccc, q[..e], k)
    {
      assert RunEnd(ccc, r, e);
    }
  }

  lemma StableSymmetric(ccc: int -> nat, s: seq<int>, r: seq<int>)
    requires StableRearrangement(ccc, s, r)
    ensures StableRearrangement(ccc, r, s)
  {
    forall e, k: nat | RunEnd(ccc, r, e) && k > 0
      ensures Pick(ccc, r[..e], k) == Pick(ccc, s[..e], k)
    {
      assert RunEnd(ccc, s, e);
    }
  }

  lemma {:induction false} OrderStable(ccc: int -> nat, s: seq<int>)
    ensures StableRearrangement(ccc, s, Order(ccc, s))
  {
    if s != [] {
      var w, x := s[..|s| - 1], s[|s| - 1];
      assert s == w + [x];
      OrderStable(ccc, w);
      StableSnoc(ccc, w, Order(ccc, w), x);
      InsertStable(ccc, Order(ccc, w), x);
      StableTransitive(ccc, s, Order(ccc, w) + [x], Order(ccc, s));
    }
  }

  /** The start of the run of marks that ends at `e`. */
  ghost function RunStart(ccc: int -> nat, s: seq<int>, e: nat): (b: nat)
    requires e <= |s|
    ensures b <= e && (b == 0 || ccc(s[b - 1]) == 0)
    ensures forall i :: b <= i < e ==> ccc(s[i]) > 0
  {
    if e == 0 || ccc(s[e - 1]) == 0 then e else RunStart(ccc, s, e - 1)
  }

  lemma {:induction false} RunSorted(ccc: int -> nat, s: seq<int>, i: nat, j: nat)
    requires Ordered(ccc, s) && i <= j < |s|
    requires forall h :: i <= h <= j ==> ccc(s[h]) > 0
    ensures ccc(s[i]) <= ccc(s[j])
    decreases j - i
  {
    if i < j {
      RunSorted(ccc, s, i, j - 1);
      assert !Reorderable(ccc, s[j - 1], s[j]);
    }
  }

  lemma {:induction false} PickMember(ccc: int -> nat, s: seq<int>, k: nat) returns (i: nat)
    requires Pick(ccc, s, k) != []
    ensures i < |s| && ccc(s[i]) == k
  {
    var n := |s| - 1;
    if ccc(s[n]) == k {
      i := n;
    } else {
      i := PickMember(ccc, s[..n], k);
    }
  }

  lemma CancelRight(a: seq<int>, b: seq<int>, t: seq<int>)
    requires a + t == b + t
    ensures a == b
  {
    assert |a + t| == |b + t|;
    assert a == (a + t)[..|a|] && b == (b + t)[..|b|];
  }

  lemma CancelLeft(t: seq<int>, a: seq<int>, b: seq<int>)
    requires t + a == t + b
    ensures a == b
  {
    assert a == (t + a)[|t|..] && b == (t + b)[|t|..];
  }

  /** Rearranging keeps the marks of each class up to and including a cell of class 0. */
  lemma BarrierSameMarks(ccc: int -> nat, s: seq<int>, r: seq<int>, b: nat, k: nat)
    requires StableRearrangement(ccc, s, r) && k > 0
    requires b <= |s| && (b == 0 || ccc(s[b - 1]) == 0)
    ensures Pick(ccc, s[..b], k) == Pick(ccc, r[..b], k)
  {
    if b > 0 {
      assert RunEnd(ccc, s, b - 1) && s[b - 1] == r[b - 1];
      assert s[..b] == s[..b - 1] + [s[b - 1]] && r[..b] == r[..b - 1] + [r[b - 1]];
      PickSnoc(ccc, s[..b - 1], s[b - 1], k);
      PickSnoc(ccc, r[..b - 1], r[b - 1], k);
    }
  }

  /** Rearranging keeps the marks of each class within the last run. */
  lemma LastRunSameMarks(ccc: int -> nat, s: seq<int>, r: seq<int>, b: nat, k: nat)
    requires StableRearrangement(ccc, s, r) && k > 0
    requires b <= |s| && (b == 0 || ccc(s[b - 1]) == 0)
    ensures Pick(ccc, s[b..], k) == Pick(ccc, r[b..], k)
  {
    assert RunEnd(ccc, s, |s|) && s[..|s|] == s && r[..|r|] == r;
    assert s == s[..b] + s[b..] && r == r[..b] + r[b..];
    BarrierSameMarks(ccc, s, r, b, k);
    PickConcat(ccc, s[..b], s[b..], k);
    PickConcat(ccc, r[..b], r[b..], k);
    CancelLeft(Pick(ccc, s[..b], k), Pick(ccc, s[b..], k), Pick(ccc, r[b..], k));
  }

  /** The last mark of an ordered sequence has the highest class of its run in any rearrangement. */
  lemma LastClassHighest(ccc: int -> nat, s: seq<int>, r: seq<int>)
    requires StableRearrangement(ccc, s, r) && Ordered(ccc, r)
    requires s != [] && ccc(s[|s| - 1]) > 0
    ensures ccc(s[|s| - 1]) <= ccc(r[|r| - 1])
  {
    var n := |s| - 1;
    var k := ccc(s[n]);
    var b := RunStart(ccc, s, |s|);
    LastRunSameMarks(ccc, s, r, b, k);
    assert s[b..][|s[b..]| - 1] == s[n];
    var i := PickMember(ccc, r[b..], k);
    assert forall h :: b <= h < |r| ==> ccc(s[h]) > 0;
    RunSorted(ccc, r, b + i, n);
  }

  lemma StableInit(ccc: int -> nat, s: seq<int>, r: seq<int>)
    requires StableRearrangement(ccc, s, r) && s != [] && s[|s| - 1] == r[|r| - 1]
    ensures StableRearrangement(ccc, s[..|s| - 1], r[..|r| - 1])
  {
    var n := |s| - 1;
    var s', r' := s[..n], r[..n];
    forall e, k: nat | RunEnd(ccc, s', e) && k > 0
      ensures Pick(ccc, s'[..e], k) == Pick(ccc, r'[..e], k)
    {
      assert s'[..e] == s[..e] && r'[..e] == r[..e];
      if e == n {
        assert RunEnd(ccc, s, |s|) && s[..|s|] == s && r[..|r|] == r;
        assert s == s' + [s[n]] && r == r' + [s[n]] && s'[..n] == s' && r'[..n] == r';
        PickSnoc(ccc, s', s[n], k);
        PickSnoc(ccc, r', s[n], k);
        CancelRight(Pick(ccc, s', k), Pick(ccc, r', k), if ccc(s[n]) == k then [s[n]] else []);
      } else {
        assert RunEnd(ccc, s, e);
      }
    }
  }

  /** Two ordered rearrangements of the same cells are equal. */
  lemma {:induction false} OrderedUnique(ccc: int -> nat, s: seq<int>, r: seq<int>)
    requires StableRearrangement(ccc, s, r) && Ordered(ccc, s) && Ordered(ccc, r)
    ensures s == r
    decreases |s|
  {
    if s != [] {
      var n := |s| - 1;
      if ccc(s[n]) > 0 && ccc(r[n]) > 0 {
        LastClassHighest(ccc, s, r);
        StableSymmetric(ccc, s, r);
        LastClassHighest(ccc, r, s);
        var k := ccc(s[n]);
        assert RunEnd(ccc, s, |s|) && s[..|s|] == s && r[..|r|] == r;
        assert Pick(ccc, s, k)[|Pick(ccc, s, k)| - 1] == s[n];
        assert Pick(ccc, r, k)[|Pick(ccc, r, k)| - 1] == r[n];
      }
      StableInit(ccc, s, r);
      OrderedUnique(ccc, s[..n], r[..n]);
      assert s == s[..n] + [s[n]] && r == r[..n] + [r[n]];
    }
  }

  /** `Order` is the one and only canonical order: ordered, stable, with every barrier in place. */
  lemma OrderIsUnique(ccc: int -> nat, s: seq<int>, r: seq<int>)
    ensures r == Order(ccc, s) <==> Ordered(ccc, r) && StableRearrangement(ccc, s, r)
  {
    OrderOrdered(ccc, s);
    OrderStable(ccc, s);
    if Ordered(ccc, r) && StableRearrangement(ccc, s, r) {
      StableSymmetric(ccc, s, r);
      StableTransitive(ccc, r, s, Order(ccc, s));
      OrderedUnique(ccc, r, Order(ccc, s));
    }
  }

  lemma {:induction false} InsertPermutes(ccc: int -> nat, s: seq<int>, x: int)
    ensures multiset(Insert(ccc, s, x)) == multiset(s) + multiset{x}
  {
    var n := |s| - 1;
    if n >= 0 && Reorderable(ccc, s[n], x) {
      InsertPermutes(ccc, s[..n], x);
      assert s == s[..n] + [s[n]];
    }
  }

  lemma {:induction false} OrderPermutes(ccc: int -> nat, s: seq<int>)
    ensures multiset(Order(ccc, s)) == multiset(s)
  {
    if s != [] {
      var w, x := s[..|s| - 1], s[|s| - 1];
      assert s == w + [x];
      OrderPermutes(ccc, w);
      InsertPermutes(ccc, Order(ccc, w), x);
    }
  }

  // ---------- the measure of the back-stepping loop ----------

  ghost function Higher(ccc: int -> nat, s: seq<int>, k: nat): nat {
    if s == [] then 0 else Higher(ccc, s[..|s| - 1], k) + (if ccc(s[|s| - 1]) > k then 1 else 0)
  }

  /** The number of pairs of marks that stand in the wrong order. */
  ghost function Inversions(ccc: int -> nat, s: seq<int>): nat {
    if s == [] then 0
    else
      var w, k := s[..|s| - 1], ccc(s[|s| - 1]);
      Inversions(ccc, w) + (if k > 0 then Higher(ccc, w, k) else 0)
  }

  lemma {:induction false} HigherSwap(ccc: int -> nat, u: seq<int>, a: int, b: int, v: seq<int>, k: nat)
    ensures Higher(ccc, u + [a, b] + v, k) == Higher(ccc, u + [b, a] + v, k)
    decreases |v|
  {
    var s, r := u + [a, b] + v, u + [b, a] + v;
    if v == [] {
      assert s[..|s| - 1] == u + [a] && r[..|r| - 1] == u + [b];
      assert (u + [a])[..|u|] == u && (u + [b])[..|u|] == u;
    } else {
      var w := v[..|v| - 1];
      HigherSwap(ccc, u, a, b, w, k);
      assert s[..|s| - 1] == u + [a, b] + w && r[..|r| - 1] == u + [b, a] + w;
    }
  }

  /** Exchanging a reorderable pair removes exactly one inversion. */
  lemma {:induction false} SwapRemovesInversion(ccc: int -> nat, u: seq<int>, a: int, b: int, v: seq<int>)
    requires Reorderable(ccc, a, b)
    ensures Inversions(ccc, u + [a, b] + v) == Inversions(ccc, u + [b, a] + v) + 1
    decreases |v|
  {
    var s, r := u + [a, b] + v, u + [b, a] + v;
    if v == [] {
      assert s[..|s| - 1] == u + [a] && r[..|r| - 1] == u + [b];
      assert (u + [a])[..|u|] == u && (u + [b])[..|u|] == u;
    } else {
      var w, x := v[..|v| - 1], v[|v| - 1];
      SwapRemovesInversion(ccc, u, a, b, w);
      HigherSwap(ccc, u, a, b, w, ccc(x));
      assert s[..|s| - 1] == u + [a, b] + w && r[..|r| - 1] == u + [b, a] + w;
    }
  }
}
