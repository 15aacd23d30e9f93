/** `bucketarray.c`: an array kept in buckets of a power of two elements each, proved to be one flat sequence. */
module BucketArrays {
  import opened BitStrings
  import opened Bytes

  // ---------- places ----------

  /** `n << bucket_shift`: the elements that `n` buckets of `size` hold. */
  function Slots(n: nat, size: nat): nat {
    if n == 0 then 0 else Slots(n - 1, size) + size
  }

  /** `i >> bucket_shift`: the bucket that element `i` stands in. */
  function BucketOf(i: nat, size: nat): (q: nat)
    requires size > 0
  {
    if i < size then 0 else 1 + BucketOf(i - size, size)
  }

  /** `i & bucket_mask`: the place of element `i` within its bucket. */
  function IndexOf(i: nat, size: nat): (k: nat)
    requires size > 0
    ensures k < size
  {
    if i < size then i else IndexOf(i - size, size)
  }

  lemma {:induction false} SlotsIsTimes(n: nat, size: nat)
    ensures Slots(n, size) == n * size
  {
    if n > 0 {
      SlotsIsTimes(n - 1, size);
      assert n * size == (n - 1) * size + size;
    }
  }

  lemma {:induction false} SlotsNext(n: nat, size: nat)
    ensures Slots(n + 1, size) == size + Slots(n, size)
  {
    if n > 0 {
      SlotsNext(n - 1, size);
    }
  }

  lemma {:induction false} SlotsMonotone(a: nat, b: nat, size: nat)
    requires a <= b
    ensures Slots(a, size) <= Slots(b, size)
    ensures a < b ==> Slots(a, size) + size <= Slots(b, size)
  {
    if a < b {
      SlotsMonotone(a, b - 1, size);
    }
  }

  /** The bucket and the place within it give the element back. */
  lemma {:induction false} PlaceOk(i: nat, size: nat)
    requires size > 0
    ensures i == Slots(BucketOf(i, size), size) + IndexOf(i, size)
  {
    if i >= size {
      PlaceOk(i - size, size);
      SlotsNext(BucketOf(i - size, size), size);
    }
  }

  /** Where an element stands decides its bucket. */
  lemma PlaceUnique(i: nat, size: nat, j: nat, k: nat)
    requires size > 0 && k < size && i == Slots(j, size) + k
    ensures BucketOf(i, size) == j && IndexOf(i, size) == k
  {
    PlaceOk(i, size);
    if BucketOf(i, size) < j {
      SlotsMonotone(BucketOf(i, size), j, size);
    } else if j < BucketOf(i, size) {
      SlotsMonotone(j, BucketOf(i, size), size);
    }
  }

  /** They are the quotient and the remainder, as shifting and masking compute them for a power of two. */
  lemma PlaceIsDivMod(i: nat, size: nat)
    requires size > 0
    ensures BucketOf(i, size) == i / size && IndexOf(i, size) == i % size
  {
    SlotsIsTimes(i / size, size);
    assert i == (i / size) * size + i % size;
    PlaceUnique(i, size, i / size, i % size);
  }

  /** An element stands in a run within one bucket exactly when it is among the elements of that run. */
  lemma InRun(i: nat, size: nat, j: nat, k: nat, n: nat)
    requires size > 0 && k + n <= size
    ensures var p := Slots(j, size) + k;
      (p <= i < p + n <==> BucketOf(i, size) == j && k <= IndexOf(i, size) < k + n)
      && (p <= i < p + n ==> IndexOf(i, size) == k + (i - p))
  {
    PlaceOk(i, size);
    if Slots(j, size) + k <= i < Slots(j, size) + k + n {
      PlaceUnique(i, size, j, i - Slots(j, size));
    }
  }

  /** An element within `n` buckets stands in one of them. */
  lemma PlaceWithin(i: nat, size: nat, n: nat)
    requires size > 0 && i < Slots(n, size)
    ensures BucketOf(i, size) < n
  {
    PlaceOk(i, size);
    if n <= BucketOf(i, size) {
      SlotsMonotone(n, BucketOf(i, size), size);
    }
  }

  /** `(n + bucket_mask) >> bucket_shift` is the least number of buckets that hold `n` elements. */
  lemma CeilingOk(n: nat, size: nat)
    requires size > 0
    ensures var q := BucketOf(n + size - 1, size); Slots(q, size) >= n && (q > 0 ==> Slots(q - 1, size) < n)
  {
    PlaceOk(n + size - 1, size);
  }

  /** The place after the last of `n` full buckets is the only one up to there that is in none of them. */
  lemma FullIff(i: nat, size: nat, n: nat)
    requires size > 0 && i <= Slots(n, size)
    ensures BucketOf(i, size) >= n <==> i == Slots(n, size)
    ensures BucketOf(i, size) <= n
  {
    if i < Slots(n, size) {
      PlaceWithin(i, size, n);
    } else {
      PlaceUnique(i, size, n, 0);
    }
  }

  /** Room for fewer than `size` elements beyond `n` full buckets takes one bucket. */
  lemma OneMore(n: nat, size: nat, m: nat)
    requires m > n ==> Slots(m - 1, size) < Slots(n, size) + size
    ensures m <= n + 1
  {
    if m > n + 1 {
      SlotsMonotone(n, m - 1, size);
    }
  }

  // ---------- sizes of 64 bits ----------

  /** The number of buckets `bucketarray_reserve` leaves of `b` buckets of `size`; the sum wraps around. */
  function Reserved(b: nat, n: nat, size: nat): nat
    requires size > 0
  {
    if Slots(b, size) >= n then b else BucketOf((n + size - 1) % SIZES, size)
  }

  /** Whether there is room for `n` elements, or the buckets needed can be counted. */
  predicate Fits(b: nat, n: nat, size: nat) {
    n <= Slots(b, size) || n + size - 1 < SIZES
  }

  /** Reserving makes the room asked for exactly in that case; otherwise it leaves no bucket at all. */
  lemma ReservedHoldsIff(b: nat, n: Size, size: nat)
    requires 0 < size <= SIZES && Slots(b, size) < SIZES
    ensures Slots(Reserved(b, n, size), size) >= n <==> Fits(b, n, size)
    ensures Fits(b, n, size) ==> b <= Reserved(b, n, size)
    ensures !Fits(b, n, size) ==> Reserved(b, n, size) == 0
    ensures Slots(Reserved(b, n, size), size) < SIZES
    ensures Reserved(b, n, size) > b ==> Slots(Reserved(b, n, size) - 1, size) < n
  {
    var x := (n + size - 1) % SIZES;
    PlaceOk(x, size);
    if Fits(b, n, size) {
      CeilingOk(n, size);
      if Slots(b, size) < n && Reserved(b, n, size) < b {
        SlotsMonotone(Reserved(b, n, size), b, size);
      }
    } else {
      assert x == n + size - 1 - SIZES;
    }
  }

  /** An array of one bucket, asked for 2^64 - 1 elements, is left without a bucket. */
  lemma ReserveLosesBuckets()
    ensures Reserved(1, SIZES - 1, 16) == 0
  {
    assert Slots(1, 16) == 16 + Slots(0, 16);
    assert (SIZES - 1 + 16 - 1) % SIZES == 14;
  }

  /** Pushing onto full buckets makes room for the element exactly if another bucket can be counted. */
  lemma PushFitsIff(b: nat, size: nat)
    requires 2 <= size <= SIZES && Slots(b, size) < SIZES
    ensures var count := Slots(b, size);
      Slots(Reserved(b, (count + size - 1) % SIZES, size), size) > count <==> count + 2 * (size - 1) < SIZES
  {
    var count := Slots(b, size);
    var n := (count + size - 1) % SIZES;
    ReservedHoldsIff(b, n, size);
    if count + size - 1 >= SIZES {
      assert n == count + size - 1 - SIZES;
    }
  }

  /** Appending makes room for all elements exactly if their number fits. */
  lemma AppendFitsIff(b: nat, size: nat, count: nat, more: Size)
    requires 0 < size <= SIZES && count <= Slots(b, size) < SIZES
    ensures Slots(Reserved(b, (count + more) % SIZES, size), size) >= count + more <==> Fits(b, count + more, size)
  {
    ReservedHoldsIff(b, (count + more) % SIZES, size);
  }

  /** The loop of `bucketarray_initialize`: the first of `power`, twice that, and so on that is not below `n`. */
  function SizeFrom(power: nat, n: nat): (size: nat)
    requires power > 0
    ensures size >= n && size >= power
    decreases n - power
  {
    if power >= n then power else SizeFrom(2 * power, n)
  }

  /** Powers below 2^63 may be doubled. */
  lemma Pow2Below(s: nat)
    requires Pow2(s) < 0x8000_0000_0000_0000
    ensures s < 63 && Pow2(s + 1) <= 0x8000_0000_0000_0000
  {
    Pow2Values();
    if s >= 63 {
      Pow2Monotone(63, s);
    } else {
      Pow2Monotone(s + 1, 63);
    }
  }

  /** The value the loop holds after `k` turns. */
  function PowerAfter(k: nat): nat {
    Pow2(k + 4) % SIZES
  }

  lemma Pow2Values()
    ensures Pow2(4) == 16 && Pow2(63) == 0x8000_0000_0000_0000 && Pow2(64) == SIZES
  {
    assert Pow2(8) == 0x100;
    assert Pow2(16) == 0x1_0000 by { assert Pow2(12) == 0x1000; }
    assert Pow2(24) == 0x100_0000 by { assert Pow2(20) == 0x10_0000; }
    assert Pow2(32) == 0x1_0000_0000 by { assert Pow2(28) == 0x1000_0000; }
    assert Pow2(40) == 0x100_0000_0000 by { assert Pow2(36) == 0x10_0000_0000; }
    assert Pow2(48) == 0x1_0000_0000_0000 by { assert Pow2(44) == 0x1000_0000_0000; }
    assert Pow2(56) == 0x100_0000_0000_0000 by { assert Pow2(52) == 0x10_0000_0000_0000; }
    assert Pow2(60) == 0x1000_0000_0000_0000;
  }

  lemma {:induction false} Pow2Wraps(m: nat)
    requires m >= 64
    ensures Pow2(m) % SIZES == 0
  {
    Pow2Values();
    if m > 64 {
      Pow2Wraps(m - 1);
    }
  }

  /** The loop ends exactly if the size asked for is at most 2^63; beyond that the value wraps around to 0 and stays there. */
  lemma InitializeEndsIff(n: Size)
    ensures (exists k :: PowerAfter(k) >= n) <==> n <= 0x8000_0000_0000_0000
  {
    Pow2Values();
    if n <= 0x8000_0000_0000_0000 {
      assert PowerAfter(59) >= n;
    }
    forall k: nat
      ensures PowerAfter(k) <= 0x8000_0000_0000_0000
    {
      if k + 4 <= 63 {
        Pow2Monotone(k + 4, 63);
      } else {
        Pow2Wraps(k + 4);
      }
    }
  }

  /** `count - 1` as `bucketarray_erase` computes it; it is the element copied from and the count left behind. */
  function LastElement(count: nat): nat {
    (count + SIZES - 1) % SIZES
  }

  lemma {:induction false} SlotsEven(n: nat, size: nat)
    requires size % 2 == 0
    ensures Slots(n, size) % 2 == 0
  {
    if n > 0 {
      SlotsEven(n - 1, size);
    }
  }

  /**
   * Erasing stays within the `n` buckets, in what it copies and in the count it leaves, exactly when the array is
   * not empty, whichever element is named.
   */
  lemma EraseInRangeIff(count: nat, element: nat, n: nat, size: nat)
    requires size % 2 == 0 && count <= Slots(n, size) < SIZES
    ensures (element < LastElement(count) ==> LastElement(count) < Slots(n, size)) && LastElement(count) <= Slots(n, size) <==> count > 0
    ensures count > 0 ==> LastElement(count) == count - 1
  {
    SlotsEven(n, size);
    assert count == 0 ==> LastElement(count) == SIZES - 1;
  }

  /** Erasing element 0 of an empty array copies from element 2^64 - 1 and leaves that as the count. */
  lemma EraseFromEmpty()
    ensures 0 < LastElement(0) == SIZES - 1
  {
  }

  // ---------- buckets in memory ----------

  /** Marks the places at which the contents of the buckets are looked up. */
  ghost predicate Here(i: int) {
    true
  }

  /** The buckets are separate, have `size` elements each, and hold `s` end to end. */
  ghost predicate Holds<T>(b: seq<array<T>>, size: nat, s: seq<T>)
    reads b
  {
    size > 0 && (forall i, j :: 0 <= i < j < |b| ==> b[i] != b[j])
    && (forall j :: 0 <= j < |b| ==> b[j].Length == size)
    && |s| == Slots(|b|, size)
    && forall i {:trigger Here(i)} :: Here(i) && 0 <= i < |s| ==>
      BucketOf(i, size) < |b| && s[i] == b[BucketOf(i, size)][IndexOf(i, size)]
  }

  lemma HoldsAt<T>(b: seq<array<T>>, size: nat, s: seq<T>, j: nat, k: nat)
    requires Holds(b, size, s) && j < |b| && k < size
    ensures Slots(j, size) + k < |s| && s[Slots(j, size) + k] == b[j][k]
  {
    SlotsMonotone(j, |b|, size);
    PlaceUnique(Slots(j, size) + k, size, j, k);
    assert Here(Slots(j, size) + k);
  }

  /** A run within one bucket is that run of the elements. */
  lemma ReadRun<T>(b: seq<array<T>>, size: nat, s: seq<T>, j: nat, k: nat, n: nat)
    requires Holds(b, size, s) && j < |b| && k + n <= size
    ensures Slots(j, size) + k + n <= |s|
    ensures b[j][k..k + n] == s[Slots(j, size) + k..Slots(j, size) + k + n]
  {
    SlotsMonotone(j, |b|, size);
    var x, y := b[j][k..k + n], s[Slots(j, size) + k..Slots(j, size) + k + n];
    forall i | 0 <= i < n
      ensures x[i] == y[i]
    {
      HoldsAt(b, size, s, j, k + i);
    }
  }

  /** A further bucket comes after the elements of those before it. */
  lemma Extend<T>(b: seq<array<T>>, size: nat, s: seq<T>, more: array<T>)
    requires Holds(b, size, s) && more.Length == size && forall j :: 0 <= j < |b| ==> b[j] != more
    ensures Holds(b + [more], size, s + more[..])
  {
    var all, t := b + [more], s + more[..];
    forall i | 0 <= i < |t|
      ensures BucketOf(i, size) < |all| && t[i] == all[BucketOf(i, size)][IndexOf(i, size)]
    {
      assert Here(i);
      if i >= |s| {
        PlaceUnique(i, size, |b|, i - |s|);
      }
    }
  }

  /** The buckets with `n` new ones after them. */
  method Grown<T(0)>(b: seq<array<T>>, size: nat, n: nat, ghost s: seq<T>) returns (all: seq<array<T>>, ghost t: seq<T>)
    requires Holds(b, size, s)
    ensures Holds(all, size, t) && s <= t && b <= all && |all| == |b| + n
    ensures forall j :: |b| <= j < |all| ==> fresh(all[j])
  {
    all, t := b, s;
    for i := 0 to n
      invariant Holds(all, size, t) && s <= t && b <= all && |all| == |b| + i
      invariant forall j :: |b| <= j < |all| ==> fresh(all[j])
    {
      var more := new T[size];
      Extend(all, size, t, more);
      all, t := all + [more], t + more[..];
    }
  }

  /** `t` is `s` with `xs` written over it at `p`. */
  ghost predicate Written<T>(s: seq<T>, p: nat, xs: seq<T>, t: seq<T>) {
    p + |xs| <= |s| == |t|
    && forall i {:trigger Here(i)} :: Here(i) && 0 <= i < |t| ==> t[i] == if p <= i < p + |xs| then xs[i - p] else s[i]
  }

  lemma WrittenIs<T>(s: seq<T>, p: nat, xs: seq<T>, t: seq<T>)
    requires Written(s, p, xs, t)
    ensures t == s[..p] + xs + s[p + |xs|..]
  {
    var r := s[..p] + xs + s[p + |xs|..];
    forall i | 0 <= i < |t|
      ensures t[i] == r[i]
    {
      assert Here(i);
    }
  }

  /** What is written behind a part that agrees with `s` agrees with `s` if the elements do. */
  lemma WrittenPrefix<T>(was: seq<T>, p: nat, xs: seq<T>, now: seq<T>, s: seq<T>)
    requires Written(was, p, xs, now) && p + |xs| <= |s| && was[..p] == s[..p] && xs == s[p..p + |xs|]
    ensures now[..p + |xs|] == s[..p + |xs|]
    ensures forall k :: p + |xs| <= k < |now| ==> now[k] == was[k]
  {
    WrittenIs(was, p, xs, now);
    assert now[..p + |xs|] == was[..p] + xs;
    assert s[..p + |xs|] == s[..p] + s[p..p + |xs|];
  }

  /** `memcpy` of elements; within one array the runs do not overlap. */
  method CopyRun<T>(dst: array<T>, di: nat, src: array<T>, si: nat, n: nat)
    requires di + n <= dst.Length && si + n <= src.Length
    requires dst != src || si + n <= di || di + n <= si
    modifies dst
    ensures Written(old(dst[..]), di, old(src[si..si + n]), dst[..])
  {
    forall i | 0 <= i < n {
      dst[di + i] := src[si + i];
    }
  }

  /** Copying a run into a bucket overwrites the elements that stand there and no others. */
  method CopyInto<T>(b: seq<array<T>>, size: nat, j: nat, k: nat, src: array<T>, si: nat, n: nat, ghost s: seq<T>) returns (ghost t: seq<T>)
    requires Holds(b, size, s) && j < |b| && k + n <= size && si + n <= src.Length
    requires b[j] != src || si + n <= k || k + n <= si
    modifies b[j]
    ensures Written(s, Slots(j, size) + k, old(src[si..si + n]), t) && Holds(b, size, t)
  {
    SlotsMonotone(j, |b|, size);
    ghost var p := Slots(j, size) + k;
    t := s[..p] + src[si..si + n] + s[p + n..];
    ghost var was, xs := b[j][..], src[si..si + n];
    CopyRun(b[j], k, src, si, n);
    WrittenIs(was, k, xs, b[j][..]);
    forall i | 0 <= i < |t|
      ensures BucketOf(i, size) < |b| && t[i] == b[BucketOf(i, size)][IndexOf(i, size)]
    {
      assert Here(i);
      InRun(i, size, j, k, n);
    }
  }

  /** Copying one element to place `p`, from elsewhere. */
  method CopyOne<T>(b: seq<array<T>>, size: nat, p: nat, src: array<T>, si: nat, ghost s: seq<T>) returns (ghost t: seq<T>)
    requires Holds(b, size, s) && p < |s| && si < src.Length
    requires forall j :: 0 <= j < |b| && b[j] == src && j == BucketOf(p, size) ==> si != IndexOf(p, size)
    modifies b
    ensures Holds(b, size, t) && t == s[p := old(src[si])]
  {
    assert Here(p);
    PlaceOk(p, size);
    ghost var x := src[si];
    assert src[si..si + 1] == [x];
    t := CopyInto(b, size, BucketOf(p, size), IndexOf(p, size), src, si, 1, s);
    WrittenIs(s, p, [x], t);
  }

  /** The first `n` elements of a bucket go behind those before it. */
  method CopyOut<T>(b: seq<array<T>>, size: nat, j: nat, n: nat, destination: array<T>, at: nat, ghost s: seq<T>)
    requires Holds(b, size, s) && destination !in b && j < |b| && n <= size
    requires at == Slots(j, size) && at + n <= destination.Length && at <= |s| && destination[..at] == s[..at]
    modifies destination
    ensures at + n <= |s| && destination[..at + n] == s[..at + n]
    ensures forall k :: at + n <= k < destination.Length ==> destination[k] == old(destination[k])
  {
    ReadRun(b, size, s, j, 0, n);
    ghost var was := destination[..];
    CopyRun(destination, at, b[j], 0, n);
    WrittenPrefix(was, at, b[j][0..n], destination[..], s);
  }

  method CopyBuckets<T>(b: seq<array<T>>, size: nat, full: nat, destination: array<T>, ghost s: seq<T>)
    requires Holds(b, size, s) && destination !in b && full <= |b| && Slots(full, size) <= destination.Length
    modifies destination
    ensures Slots(full, size) <= |s| && destination[..Slots(full, size)] == s[..Slots(full, size)]
    ensures forall k :: Slots(full, size) <= k < destination.Length ==> destination[k] == old(destination[k])
  {
    SlotsMonotone(full, |b|, size);
    var current := 0;
    for i := 0 to full
      invariant current == Slots(i, size) && current <= |s| && current <= destination.Length && Holds(b, size, s)
      invariant destination[..current] == s[..current]
      invariant forall k :: current <= k < destination.Length ==> destination[k] == old(destination[k])
    {
      SlotsMonotone(i, full, size);
      CopyOut(b, size, i, size, destination, current, s);
      current := current + size;
    }
  }

  method CopyAll<T>(b: seq<array<T>>, size: nat, count: nat, destination: array<T>, ghost s: seq<T>)
    requires Holds(b, size, s) && destination !in b && count <= |s| && count <= destination.Length
    modifies destination
    ensures destination[..count] == s[..count] && destination[count..] == old(destination[count..])
  {
    var full := BucketOf(count, size);
    PlaceOk(count, size);
    FullIff(count, size, |b|);
    CopyBuckets(b, size, full, destination, s);
    var rest := IndexOf(count, size);
    if rest > 0 {
      CopyOut(b, size, full, rest, destination, Slots(full, size), s);
    }
  }

  /** The loop of `bucketarray_initialize_copy`: new buckets, filled as far as there are elements. */
  method Duplicate<T(0)>(b: seq<array<T>>, size: nat, count: nat, ghost s: seq<T>) returns (all: seq<array<T>>, ghost t: seq<T>)
    requires Holds(b, size, s) && count <= |s|
    ensures Holds(all, size, t) && |all| == |b| && t[..count] == s[..count]
    ensures forall j :: 0 <= j < |all| ==> fresh(all[j])
  {
    all, t := [], [];
    var left: nat := count;
    for i := 0 to |b|
      invariant |all| == i && Holds(all, size, t) && Holds(b, size, s)
      invariant forall j :: 0 <= j < |all| ==> fresh(all[j])
      invariant left <= count && |t| <= |s| && (left > 0 ==> count - left == |t|)
      invariant count - left <= |t| && t[..count - left] == s[..count - left]
    {
      SlotsMonotone(i, |b|, size);
      var n := if left > size then size else left;
      var more := DuplicateBucket(b, size, i, n, s);
      Extend(all, size, t, more);
      Longer(s, t, count - left, more[..], n);
      all, t := all + [more], t + more[..];
      left := left - n;
    }
  }

  /** What agrees with the front of `s` still does with a further bucket that agrees as far as it was filled. */
  lemma Longer<T>(s: seq<T>, t: seq<T>, done: nat, more: seq<T>, n: nat)
    requires done <= |t| && n <= |more| && |t| + n <= |s| && t[..done] == s[..done]
    requires (n > 0 ==> done == |t|) && more[..n] == s[|t|..|t| + n]
    ensures (t + more)[..done + n] == s[..done + n]
  {
    if n > 0 {
      assert (t + more)[..done + n] == t + more[..n];
      assert s[..done + n] == s[..done] + s[done..done + n];
    }
  }

  method DuplicateBucket<T(0)>(b: seq<array<T>>, size: nat, j: nat, n: nat, ghost s: seq<T>) returns (more: array<T>)
    requires Holds(b, size, s) && j < |b| && n <= size
    ensures fresh(more) && more.Length == size && Slots(j, size) + n <= |s| && more[..n] == s[Slots(j, size)..Slots(j, size) + n]
  {
    more := new T[size];
    ReadRun(b, size, s, j, 0, n);
    if n > 0 {
      ghost var was := more[..];
      CopyRun(more, 0, b[j], 0, n);
      WrittenIs(was, 0, b[j][0..n], more[..]);
    }
  }

  function Least(a: nat, b: nat, c: nat): (n: nat)
    ensures n <= a && n <= b && n <= c && (a > 0 && b > 0 && c > 0 ==> n > 0)
  {
    var m := if b < a then b else a;
    if c < m then c else m
  }

  /** Element `i` stands at place `k` of bucket `j`. */
  ghost predicate At(size: nat, j: nat, k: nat, i: nat) {
    k < size && i == Slots(j, size) + k
  }

  lemma AtWithin(size: nat, j: nat, k: nat, i: nat, n: nat)
    requires At(size, j, k, i) && i < Slots(n, size)
    ensures j < n
  {
    PlaceUnique(i, size, j, k);
    PlaceWithin(i, size, n);
  }

  /** Moving `n` on from a place in a bucket; the end of a bucket is the start of the next. */
  method Advance(size: nat, j: nat, k: nat, n: nat, ghost i: nat) returns (j': nat, k': nat)
    requires At(size, j, k, i) && k + n <= size
    ensures At(size, j', k', i + n)
  {
    j', k' := j, k + n;
    if k' == size {
      j', k' := j + 1, 0;
    }
  }

  /** Where the elements to append come from: other buckets, or the front of the very same ones. */
  ghost predicate Source<T>(same: bool, a: seq<array<T>>, from: nat, v: seq<T>, b: seq<array<T>>, size: nat, t: seq<T>)
    reads a
  {
    Holds(a, from, v)
    && if same then a == b && from == size && v == t else forall i, j :: 0 <= i < |a| && 0 <= j < |b| ==> a[i] != b[j]
  }

  /** The first `done` elements of `u` have been written into `s` at `pre`, and those to come can still be read. */
  ghost predicate Copying<T>(same: bool, a: seq<array<T>>, from: nat, u: seq<T>, b: seq<array<T>>, size: nat, s: seq<T>, pre: nat, done: nat, t: seq<T>)
    reads a, b
  {
    Holds(b, size, t) && done <= |u| && Written(s, pre, u[..done], t) && (same ==> u == s)
    && Source(same, a, from, if same then t else u, b, size, t)
  }

  /** A turn of the loop of `bucketarray_append` copies `n` elements, from one bucket to one bucket. */
  method AppendTurn<T>(b: seq<array<T>>, size: nat, dj: nat, dk: nat, a: seq<array<T>>, from: nat, sj: nat, sk: nat, n: nat,
                       ghost s: seq<T>, ghost pre: nat, ghost u: seq<T>, ghost done: nat, ghost t: seq<T>, ghost same: bool) returns (ghost t': seq<T>)
    requires Copying(same, a, from, u, b, size, s, pre, done, t)
    requires At(size, dj, dk, pre + done) && At(from, sj, sk, done) && pre + done < |s| && done < |u|
    requires dk + n <= size && sk + n <= from && (same ==> done + n <= pre)
    modifies b
    ensures Copying(same, a, from, u, b, size, s, pre, done + n, t')
  {
    ghost var v := if same then t else u;
    AtWithin(size, dj, dk, pre + done, |b|);
    AtWithin(from, sj, sk, done, |a|);
    ReadRun(a, from, v, sj, sk, n);
    t' := CopyInto(b, size, dj, dk, a[sj], sk, n, t);
    WrittenMore(s, pre, u, done, n, t, v, t');
  }

  /** The loop of `bucketarray_append`, for buckets of different sizes, and for an array appended to itself. */
  method AppendRun<T>(b: seq<array<T>>, size: nat, pre: nat, a: seq<array<T>>, from: nat, total: nat,
                      ghost s: seq<T>, ghost u: seq<T>, ghost same: bool) returns (ghost t: seq<T>)
    requires Holds(b, size, s) && Source(same, a, from, u, b, size, s)
    requires pre + total <= |s| && total <= |u| && (same ==> total <= pre)
    modifies b
    ensures Holds(b, size, t) && Written(s, pre, u[..total], t)
    ensures !same ==> Holds(a, from, u)
  {
    t := s;
    var dj: nat, dk: nat, sj: nat, sk: nat, left: nat := BucketOf(pre, size), IndexOf(pre, size), 0, 0, total;
    PlaceOk(pre, size);
    ghost var done := 0;
    while left > 0
      invariant done + left == total && At(size, dj, dk, pre + done) && At(from, sj, sk, done)
      invariant Copying(same, a, from, u, b, size, s, pre, done, t)
    {
      var n := Least(size - dk, from - sk, left);
      t := AppendTurn(b, size, dj, dk, a, from, sj, sk, n, s, pre, u, done, t, same);
      dj, dk := Advance(size, dj, dk, n, pre + done);
      sj, sk := Advance(from, sj, sk, n, done);
      left, done := left - n, done + n;
    }
  }

  /** A run written behind a run is the longer run written, even when it was read from the array written to. */
  lemma WrittenMore<T>(s: seq<T>, pre: nat, u: seq<T>, done: nat, n: nat, t: seq<T>, v: seq<T>, t': seq<T>)
    requires done + n <= |u| && done + n <= |v| && Written(s, pre, u[..done], t) && Written(t, pre + done, v[done..done + n], t')
    requires v == u || (u == s && done + n <= pre && v == t)
    ensures Written(s, pre, u[..done + n], t')
  {
    assert v[done..done + n] == u[done..done + n] by {
      if v != u {
        WrittenIs(s, pre, u[..done], t);
      }
    }
  }

  lemma Appended<T>(s0: seq<T>, s: seq<T>, pre: nat, u0: seq<T>, u: seq<T>, total: nat, t: seq<T>)
    requires s0 <= s && u0 <= u && pre <= |s0| && total <= |u0| && Written(s, pre, u[..total], t)
    ensures pre + total <= |t| && t[..pre + total] == s0[..pre] + u0[..total]
  {
    WrittenIs(s, pre, u[..total], t);
    assert s[..pre] == s0[..pre] && u[..total] == u0[..total];
  }

  lemma Pushed<T>(room: seq<T>, count: nat, x: T)
    requires count < |room|
    ensures room[count := x][..count + 1] == room[..count] + [x]
  {
  }

  class BucketArray<T(0)> {
    var bucket: seq<array<T>>
    var elementSize: nat
    var mask: nat
    var shift: nat
    var count: nat
    /** Everything the buckets hold, the part beyond `count` included. */
    ghost var store: seq<T>

    ghost predicate Valid()
      reads this, bucket
    {
      StorageOk() && count <= |store|
    }

    /** The buckets are separate and hold `store`, and its places can be counted. */
    ghost predicate StorageOk()
      reads this`bucket, this`mask, this`shift, this`store, bucket
    {
      shift >= 4 && mask + 1 == Pow2(shift) && 15 <= mask < SIZES
      && Holds(bucket, mask + 1, store) && |store| < SIZES
    }

    /** The elements of the array. */
    ghost function Contents(): (r: seq<T>)
      requires count <= |store|
      reads this
    {
      store[..count]
    }

    /**
     * `bucketarray_initialize`: the least power of two that is at least 16 and at least what was asked for. Beyond
     * 2^63 the loop does not end.
     */
    constructor (elementSize: nat, bucketElementCount: nat)
      requires bucketElementCount <= 0x8000_0000_0000_0000
      ensures Valid() && Contents() == [] && bucket == [] && this.elementSize == elementSize
      ensures mask + 1 == SizeFrom(16, bucketElementCount) && mask + 1 >= bucketElementCount
      ensures shift == 4 || Pow2(shift - 1) < bucketElementCount
    {
      var s, power := 4, 16;
      Pow2Values();
      while power < bucketElementCount
        invariant 4 <= s <= 63 && power == Pow2(s) && 16 <= power <= 0x8000_0000_0000_0000
        invariant s == 4 || Pow2(s - 1) < bucketElementCount
        invariant SizeFrom(power, bucketElementCount) == SizeFrom(16, bucketElementCount)
        decreases bucketElementCount - power
      {
        Pow2Below(s);
        power := 2 * power;
        s := s + 1;
      }
      this.bucket := [];
      this.elementSize := elementSize;
      this.mask := power - 1;
      this.shift := s;
      this.count := 0;
      this.store := [];
    }

    /**
     * `bucketarray_reserve`: if the request fits, buckets are only added and no more than needed; if the sum wraps
     * around, none is left.
     */
    method Reserve(n: Size)
      requires Valid()
      modifies this`bucket, this`store
      ensures StorageOk() && |bucket| == Reserved(|old(bucket)|, n, mask + 1)
      ensures Fits(|old(bucket)|, n, mask + 1) ==> Valid() && old(bucket) <= bucket && old(store) <= store && |store| >= n
      ensures |bucket| > |old(bucket)| ==> Slots(|bucket| - 1, mask + 1) < n
      ensures forall j :: |old(bucket)| <= j < |bucket| ==> fresh(bucket[j])
      ensures !Fits(|old(bucket)|, n, mask + 1) ==> bucket == [] && store == []
    {
      ReservedHoldsIff(|bucket|, n, mask + 1);
      if Slots(|bucket|, mask + 1) >= n {
        return;
      }
      var goal := BucketOf((n + mask) % SIZES, mask + 1);
      if goal < |bucket| {
        bucket, store := bucket[..goal], [];
      } else {
        AddBuckets(goal - |bucket|);
      }
    }

    method AddBuckets(n: nat)
      requires Valid() && Slots(|bucket| + n, mask + 1) < SIZES
      modifies this`bucket, this`store
      ensures |bucket| == |old(bucket)| + n && old(bucket) <= bucket
      ensures forall j :: |old(bucket)| <= j < |bucket| ==> fresh(bucket[j])
      ensures Valid() && old(store) <= store
    {
      bucket, store := Grown(bucket, mask + 1, n, store);
    }

    /** `bucketarray_resize`: if the request fits, the storage is kept, so what remains is what was there. */
    method Resize(n: Size)
      requires Valid()
      modifies this`bucket, this`store, this`count
      ensures StorageOk() && count == n && |bucket| == Reserved(|old(bucket)|, n, mask + 1)
      ensures Fits(|old(bucket)|, n, mask + 1) ==> Valid() && old(bucket) <= bucket && old(store) <= store
      ensures forall j :: |old(bucket)| <= j < |bucket| ==> fresh(bucket[j])
      ensures Fits(|old(bucket)|, n, mask + 1) ==> forall i :: 0 <= i < n && i < old(count) ==> Contents()[i] == old(Contents())[i]
      ensures !Fits(|old(bucket)|, n, mask + 1) ==> bucket == [] && store == []
    {
      Reserve(n);
      count := n;
    }

    /** `bucketarray_get`: the bucket and the place in it where an element stands. */
    method Get(index: nat) returns (b: array<T>, k: nat)
      requires Valid() && index < count
      ensures b in bucket && k < b.Length && b[k] == Contents()[index]
      ensures BucketOf(index, mask + 1) < |bucket| && b == bucket[BucketOf(index, mask + 1)] && k == IndexOf(index, mask + 1)
    {
      assert Here(index);
      b, k := bucket[BucketOf(index, mask + 1)], IndexOf(index, mask + 1);
    }

    /** Copying one element to place `p`, from elsewhere. */
    method StoreOne(p: nat, src: array<T>, si: nat)
      requires Valid() && p < |store| && si < src.Length
      requires forall j :: 0 <= j < |bucket| && bucket[j] == src && j == BucketOf(p, mask + 1) ==> si != IndexOf(p, mask + 1)
      modifies this`store, bucket
      ensures Valid() && store == old(store)[p := old(src[si])]
    {
      ghost var t := CopyOne(bucket, mask + 1, p, src, si, store);
      store := t;
    }

    /** `bucketarray_erase`: the last element takes the place of the erased one. */
    method Erase(element: nat)
      requires Valid() && count > 0
      modifies this`count, this`store, bucket
      ensures Valid() && count == old(count) - 1
      ensures Contents() == if element < count then old(Contents())[element := old(Contents())[count]][..count] else old(Contents())[..count]
    {
      var last := count - 1;
      if element < last {
        var from, k := Get(last);
        PlaceOk(element, mask + 1);
        PlaceOk(last, mask + 1);
        StoreOne(element, from, k);
      }
      count := last;
    }

    /** Whether a push finds room, or can count another bucket. */
    predicate RoomToPush()
      reads this
    {
      count < Slots(|bucket|, mask + 1) || count + 2 * mask < SIZES
    }

    /** A bucket more if the storage is full. */
    method MakeRoom()
      requires Valid() && RoomToPush()
      modifies this`bucket, this`store
      ensures Valid() && |store| > count && old(store) <= store
      ensures old(bucket) <= bucket && (forall j :: |old(bucket)| <= j < |bucket| ==> fresh(bucket[j]))
      ensures |bucket| == |old(bucket)| + if count == |old(store)| then 1 else 0
    {
      FullIff(count, mask + 1, |bucket|);
      if BucketOf(count, mask + 1) >= |bucket| {
        ghost var n := |bucket|;
        Reserve(count + mask);
        OneMore(n, mask + 1, |bucket|);
      }
    }

    /** `bucketarray_push`: on full storage exactly one bucket is added, and no bucket is moved. */
    method Push(src: array<T>, si: nat)
      requires Valid() && RoomToPush() && si < src.Length
      requires forall j :: 0 <= j < |bucket| && bucket[j] == src ==> Slots(j, mask + 1) + si != count
      modifies this`bucket, this`store, this`count, bucket
      ensures Valid() && Contents() == old(Contents()) + [old(src[si])]
      ensures old(bucket) <= bucket && (forall j :: |old(bucket)| <= j < |bucket| ==> fresh(bucket[j]))
      ensures |bucket| == |old(bucket)| + if old(count == |store|) then 1 else 0
    {
      MakeRoom();
      AddLast(src, si);
    }

    /** The element goes behind the last one, where there is room. */
    method AddLast(src: array<T>, si: nat)
      requires Valid() && count < |store| && si < src.Length
      requires forall j :: 0 <= j < |bucket| && bucket[j] == src ==> Slots(j, mask + 1) + si != count
      modifies this`store, this`count, bucket
      ensures Valid() && count == old(count) + 1 && store[..count] == old(store[..count]) + [old(src[si])]
    {
      PlaceOk(count, mask + 1);
      ghost var room, x := store, src[si];
      StoreOne(count, src, si);
      Pushed(room, count, x);
      count := count + 1;
    }

    /** `bucketarray_copy`: the elements in a flat buffer. */
    method Copy(destination: array<T>)
      requires Valid() && destination.Length >= count && destination !in bucket
      modifies destination
      ensures Valid() && destination[..count] == Contents() && destination[count..] == old(destination[count..])
    {
      CopyAll(bucket, mask + 1, count, destination, store);
    }

    /** `bucketarray_initialize_copy`. */
    constructor InitializeCopy(source: BucketArray<T>)
      requires source.Valid()
      ensures Valid() && Contents() == source.Contents() && count == source.count
      ensures |bucket| == |source.bucket| && mask == source.mask && shift == source.shift && elementSize == source.elementSize
      ensures forall j :: 0 <= j < |bucket| ==> fresh(bucket[j])
    {
      elementSize := source.elementSize;
      mask := source.mask;
      shift := source.shift;
      count := source.count;
      var all;
      ghost var t;
      all, t := Duplicate(source.bucket, source.mask + 1, source.count, source.store);
      bucket := all;
      store := t;
    }

    /** The first `total` elements of other buckets, or of these, are written behind the first `pre`. */
    method AppendFrom(a: seq<array<T>>, from: nat, pre: nat, total: nat, ghost u: seq<T>, ghost same: bool)
      requires StorageOk() && Source(same, a, from, u, bucket, mask + 1, store)
      requires pre + total <= |store| && total <= |u| && (same ==> total <= pre)
      modifies this`store, bucket
      ensures StorageOk() && Written(old(store), pre, u[..total], store)
      ensures !same ==> Holds(a, from, u)
    {
      ghost var t := AppendRun(bucket, mask + 1, pre, a, from, total, store, u, same);
      store := t;
    }

    /** Room for the elements of another array behind those here, or for as many again. */
    method MakeRoomFor(append: BucketArray<T>) returns (pre: nat, total: nat)
      requires Valid() && append.Valid() && Fits(|bucket|, count + append.count, mask + 1)
      requires append == this || forall i, j :: 0 <= i < |append.bucket| && 0 <= j < |bucket| ==> append.bucket[i] != bucket[j]
      modifies this`bucket, this`store, this`count
      ensures Valid() && append.Valid() && pre == old(count) && total == old(append.count) && count == pre + total
      ensures old(store) <= store && old(append.store) <= append.store
      ensures old(bucket) <= bucket && (forall j :: |old(bucket)| <= j < |bucket| ==> fresh(bucket[j]))
      ensures |bucket| == Reserved(|old(bucket)|, old(count + append.count), mask + 1)
      ensures Source(append == this, append.bucket, append.mask + 1, append.store, bucket, mask + 1, store)
    {
      pre, total := count, append.count;
      Resize(count + append.count);
    }

    /** Whether there is anything to append. */
    predicate Appends(append: BucketArray<T>)
      reads this, append
    {
      append.count > 0 && elementSize == append.elementSize
    }

    /** `bucketarray_append`. */
    method Append(append: BucketArray<T>)
      requires Valid() && append.Valid() && (Appends(append) ==> Fits(|bucket|, count + append.count, mask + 1))
      requires append == this || forall i, j :: 0 <= i < |append.bucket| && 0 <= j < |bucket| ==> append.bucket[i] != bucket[j]
      modifies this`bucket, this`store, this`count, bucket
      ensures Valid() && append.Valid()
      ensures Contents() == old(Contents()) + if elementSize == append.elementSize then old(append.Contents()) else []
      ensures append != this ==> append.Contents() == old(append.Contents())
      ensures old(bucket) <= bucket && (forall j :: |old(bucket)| <= j < |bucket| ==> fresh(bucket[j]))
      ensures |bucket| == if old(Appends(append)) then Reserved(|old(bucket)|, old(count + append.count), mask + 1) else |old(bucket)|
    {
      if append.count == 0 || elementSize != append.elementSize {
        return;
      }
      AppendElements(append);
    }

    method AppendElements(append: BucketArray<T>)
      requires Valid() && append.Valid() && Fits(|bucket|, count + append.count, mask + 1)
      requires append == this || forall i, j :: 0 <= i < |append.bucket| && 0 <= j < |bucket| ==> append.bucket[i] != bucket[j]
      modifies this`bucket, this`store, this`count, bucket
      ensures Valid() && append.Valid() && Contents() == old(Contents()) + old(append.Contents())
      ensures append != this ==> append.Contents() == old(append.Contents())
      ensures old(bucket) <= bucket && (forall j :: |old(bucket)| <= j < |bucket| ==> fresh(bucket[j]))
      ensures |bucket| == Reserved(|old(bucket)|, old(count + append.count), mask + 1)
    {
      var pre, total := MakeRoomFor(append);
      WriteBehind(append, pre, total, old(store), old(append.store));
    }

    /** The elements of `append`, those of `u`, go behind those of this array, which are still those of `s`. */
    method WriteBehind(append: BucketArray<T>, pre: nat, total: nat, ghost s: seq<T>, ghost u: seq<T>)
      requires Valid() && append.Valid() && count == pre + total && pre <= |s| && total <= |u| && s <= store && u <= append.store
      requires Source(append == this, append.bucket, append.mask + 1, append.store, bucket, mask + 1, store)
      requires append == this ==> total <= pre
      modifies this`store, bucket
      ensures Valid() && append.Valid() && Contents() == s[..pre] + u[..total]
    {
      ghost var was, from := store, append.store;
      AppendFrom(append.bucket, append.mask + 1, pre, total, from, append == this);
      Appended(s, was, pre, u, from, total, store);
    }
  }
}
