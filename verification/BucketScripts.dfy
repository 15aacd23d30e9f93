/**
 * Every run of operations on any number of bucket arrays, of any bucket sizes, follows the same run on flat
 * sequences, provided no element is erased from an empty array and no sum of sizes wraps around.
 */
module BucketScripts {
  import opened BucketArrays
  import opened Bytes

  type BucketSize = x: nat | x > 0 witness 1

  /** An array as a value: a flat sequence, and how many buckets of which size hold it. */
  datatype Flat<T> = Flat(elementSize: nat, size: BucketSize, buckets: nat, elements: seq<T>) {
    function Layout(): Shape {
      Shape(elementSize, size, buckets, |elements|)
    }
  }

  /** What decides about safety: everything but the elements themselves. */
  datatype Shape = Shape(elementSize: nat, size: BucketSize, buckets: nat, count: nat)

  /** The operations; arrays are named by their numbers, and created arrays get the next number. */
  datatype Op<T> =
    | Initialize(elementSize: nat, bucketElementCount: Size)
    | InitializeCopy(i: nat)
    | Push(i: nat, x: T)
    | Erase(i: nat, element: Size)
    | Resize(i: nat, n: Size)
    | Reserve(i: nat, n: Size)
    | Append(i: nat, j: nat)
    | Copy(i: nat)
  {
    predicate Names(count: nat) {
      match this
      case Initialize(_, _) => true
      case Append(i, j) => i < count && j < count
      case _ => i < count
    }

    predicate Changes() {
      Push? || Erase? || Resize? || Reserve? || Append?
    }

    /** The other array an operation that changes an array looks at. */
    function Other(): nat
      requires Changes()
    {
      if Append? then j else i
    }
  }

  /** The last element takes the place of the erased one. */
  function Erased<T>(s: seq<T>, k: nat): (r: seq<T>)
    requires s != []
    ensures |r| == |s| - 1
  {
    var last := |s| - 1;
    if k < last then s[k := s[last]][..last] else s[..last]
  }

  /** Every other element stays where it is. */
  lemma ErasedAt<T>(s: seq<T>, k: nat, i: nat)
    requires i < |s| - 1
    ensures Erased(s, k)[i] == if i == k then s[|s| - 1] else s[i]
  {
  }

  /** The number of buckets an operation on an array of shape `f` leaves; `g` is the shape of what is appended. */
  function BucketsAfter<T>(op: Op<T>, f: Shape, g: Shape): nat {
    match op
    case Push(_, _) => if f.count == Slots(f.buckets, f.size) then f.buckets + 1 else f.buckets
    case Resize(_, n) => Reserved(f.buckets, n, f.size)
    case Reserve(_, n) => Reserved(f.buckets, n, f.size)
    case Append(_, _) => if f.elementSize == g.elementSize && g.count > 0 then Reserved(f.buckets, f.count + g.count, f.size) else f.buckets
    case _ => f.buckets
  }

  /** What such an operation makes of `f`, with `g` what is appended; resizing upwards leaves the new elements open. */
  ghost predicate Changed<T(!new)>(op: Op<T>, f: Flat<T>, g: Flat<T>, r: Flat<T>) {
    r.elementSize == f.elementSize && r.size == f.size && r.buckets == BucketsAfter(op, f.Layout(), g.Layout())
    && match op
      case Push(_, x) => r.elements == f.elements + [x]
      case Erase(_, k) => f.elements != [] && r.elements == Erased(f.elements, k)
      case Resize(_, n) => |r.elements| == n && forall k :: 0 <= k < n && k < |f.elements| ==> r.elements[k] == f.elements[k]
      case Append(_, _) => r.elements == f.elements + if f.elementSize == g.elementSize then g.elements else []
      case _ => r.elements == f.elements
  }

  /** What an operation does to flat sequences, and what it gives out. */
  ghost predicate Step<T(!new)>(op: Op<T>, s: seq<Flat<T>>, t: seq<Flat<T>>, out: seq<T>) {
    op.Names(|s|)
    && if op.Changes() then
        |t| == |s| && t == s[op.i := t[op.i]] && out == [] && Changed(op, s[op.i], s[op.Other()], t[op.i])
      else if op.Copy? then t == s && out == s[op.i].elements
      else t == s + [Created(op, s)] && out == []
  }

  /** What a created array holds. */
  ghost function Created<T(!new)>(op: Op<T>, s: seq<Flat<T>>): Flat<T>
    requires op.Initialize? || (op.InitializeCopy? && op.i < |s|)
  {
    if op.Initialize? then Flat(op.elementSize, SizeFrom(16, op.bucketElementCount), 0, []) else s[op.i]
  }

  // ---------- which scripts are safe ----------

  function Shapes<T>(s: seq<Flat<T>>): (r: seq<Shape>)
    ensures |r| == |s| && forall i :: 0 <= i < |s| ==> r[i] == s[i].Layout()
  {
    seq(|s|, i requires 0 <= i < |s| => s[i].Layout())
  }

  /** Nothing is erased from an empty array, and sums of sizes do not wrap around where that would cost buckets. */
  predicate Ready<T>(op: Op<T>, f: Shape, g: Shape) {
    match op
    case Push(_, _) => f.count < Slots(f.buckets, f.size) || f.count + 2 * (f.size - 1) < SIZES
    case Erase(_, _) => f.count > 0
    case Resize(_, n) => Fits(f.buckets, n, f.size)
    case Reserve(_, n) => Fits(f.buckets, n, f.size)
    case Append(_, _) => f.elementSize == g.elementSize && g.count > 0 ==> Fits(f.buckets, f.count + g.count, f.size)
    case _ => true
  }

  /** The arrays named exist, and the operation does what it is for. */
  predicate Allowed<T>(op: Op<T>, shapes: seq<Shape>) {
    op.Names(|shapes|)
    && (op.Initialize? ==> op.bucketElementCount <= 0x8000_0000_0000_0000)
    && (op.Changes() ==> Ready(op, shapes[op.i], shapes[op.Other()]))
  }

  /** The number of elements an operation leaves. */
  function CountAfter<T>(op: Op<T>, f: Shape, g: Shape): nat {
    match op
    case Push(_, _) => f.count + 1
    case Erase(_, _) => if f.count > 0 then f.count - 1 else 0
    case Resize(_, n) => n
    case Append(_, _) => if f.elementSize == g.elementSize then f.count + g.count else f.count
    case _ => f.count
  }

  /** The shapes after an operation, computed from those before it alone. */
  function After<T>(op: Op<T>, s: seq<Shape>): seq<Shape>
    requires Allowed(op, s)
  {
    if op.Changes() then
      var f, g := s[op.i], s[op.Other()];
      s[op.i := Shape(f.elementSize, f.size, BucketsAfter(op, f, g), CountAfter(op, f, g))]
    else if op.Initialize? then s + [Shape(op.elementSize, SizeFrom(16, op.bucketElementCount), 0, 0)]
    else if op.InitializeCopy? then s + [s[op.i]]
    else s
  }

  /** A caller can tell from the script and the shapes alone whether every operation is allowed when it comes. */
  predicate Safe<T>(ops: seq<Op<T>>, shapes: seq<Shape>)
    decreases |ops|
  {
    ops == [] || (Allowed(ops[0], shapes) && Safe(ops[1..], After(ops[0], shapes)))
  }

  lemma ShapesFollow<T(!new)>(op: Op<T>, s: seq<Flat<T>>, t: seq<Flat<T>>, out: seq<T>)
    requires Allowed(op, Shapes(s)) && Step(op, s, t, out)
    ensures Shapes(t) == After(op, Shapes(s))
  {
  }

  /** After pushing one element, reserving 2^64 - 1 would leave the array without a bucket, and is refused. */
  lemma ReserveNotSafe<T>(x: T)
    ensures var ops := [Initialize(4, 16), Push(0, x), Reserve(0, SIZES - 1)];
      Safe(ops[..2], []) && !Safe(ops, [])
  {
    var ops: seq<Op<T>> := [Initialize(4, 16), Push(0, x), Reserve(0, SIZES - 1)];
    var empty, one := Shape(4, 16, 0, 0), Shape(4, 16, 1, 1);
    assert After(ops[0], []) == [empty];
    assert Slots(1, 16) == 16 + Slots(0, 16);
    assert After(ops[1], [empty]) == [one];
    assert !Allowed(ops[2], [one]);
    assert ops[1..][0] == ops[1] && ops[1..][1..] == ops[2..] && ops[2..][0] == ops[2];
    assert !Safe(ops[2..], [one]);
    assert ops[..2][1..] == [ops[1]] && [ops[1]][1..] == [];
  }

  // ---------- arrays in memory ----------

  /** Names an array that is looked at. */
  ghost predicate Member(i: int) {
    true
  }

  /** Names two arrays that are looked at together. */
  ghost predicate Pair(i: int, j: int) {
    true
  }

  /** No bucket is in both lists. */
  ghost predicate NoneShared<T>(b: seq<array<T>>, c: seq<array<T>>) {
    forall p, q :: 0 <= p < |b| && 0 <= q < |c| ==> b[p] != c[q]
  }

  /** The buckets of each array. */
  ghost function BucketLists<T(0)>(arrays: seq<BucketArray<T>>): (b: seq<seq<array<T>>>)
    reads arrays
    ensures |b| == |arrays| && forall k :: 0 <= k < |b| ==> b[k] == arrays[k].bucket
  {
    seq(|arrays|, k requires 0 <= k < |arrays| reads arrays => arrays[k].bucket)
  }

  /** No bucket is in two lists. */
  ghost predicate Disjoint<T>(b: seq<seq<array<T>>>) {
    forall k, l {:trigger Pair(k, l)} :: Pair(k, l) && 0 <= k < |b| && 0 <= l < |b| && k != l ==> NoneShared(b[k], b[l])
  }

  ghost function Buckets<T(0)>(arrays: seq<BucketArray<T>>): set<array<T>>
    reads arrays
  {
    set i, p | 0 <= i < |arrays| && 0 <= p < |arrays[i].bucket| :: arrays[i].bucket[p]
  }

  ghost predicate AllValid<T(0)>(arrays: seq<BucketArray<T>>)
    reads arrays, Buckets(arrays)
  {
    forall i {:trigger Member(i)} :: Member(i) && 0 <= i < |arrays| ==> arrays[i].Valid()
  }

  /** What every operation keeps: valid arrays that share no bucket. */
  ghost predicate Family<T(0)>(arrays: seq<BucketArray<T>>)
    reads arrays, Buckets(arrays)
  {
    AllValid(arrays) && Disjoint(BucketLists(arrays)) && forall i, j :: 0 <= i < j < |arrays| ==> arrays[i] != arrays[j]
  }

  ghost function FlatOf<T(0)>(a: BucketArray<T>): Flat<T>
    reads a
  {
    Flat(a.elementSize, a.mask + 1, |a.bucket|, if a.count <= |a.store| then a.Contents() else [])
  }

  ghost function View<T(0)>(arrays: seq<BucketArray<T>>): (s: seq<Flat<T>>)
    reads arrays
    ensures |s| == |arrays| && forall i :: 0 <= i < |s| ==> s[i] == FlatOf(arrays[i])
  {
    seq(|arrays|, i requires 0 <= i < |arrays| reads arrays => FlatOf(arrays[i]))
  }

  /** Arrays are only created, buckets only added behind those there were, and both are new. */
  twostate predicate OnlyAdded<T(0)>(arrays: seq<BucketArray<T>>, new result: seq<BucketArray<T>>)
    reads arrays, result
  {
    && arrays <= result
    && (forall k :: |arrays| <= k < |result| ==> fresh(result[k]))
    && (forall k :: 0 <= k < |arrays| ==> old(arrays[k].bucket) <= arrays[k].bucket)
    && (forall k, p :: 0 <= k < |arrays| && |old(arrays[k].bucket)| <= p < |arrays[k].bucket| ==> fresh(arrays[k].bucket[p]))
    && (forall k, p :: |arrays| <= k < |result| && 0 <= p < |result[k].bucket| ==> fresh(result[k].bucket[p]))
  }

  // ---------- one operation on one array ----------

  /** Pushing an element. */
  method PushTo<T(0, !new)>(a: BucketArray<T>, op: Op<T>)
    requires a.Valid() && op.Push? && a.RoomToPush()
    modifies a, a.bucket
    ensures a.Valid() && Changed(op, old(FlatOf(a)), old(FlatOf(a)), FlatOf(a))
    ensures old(a.bucket) <= a.bucket && forall p :: |old(a.bucket)| <= p < |a.bucket| ==> fresh(a.bucket[p])
  {
    var element := new T[1](_ => op.x);
    a.Push(element, 0);
  }

  lemma AppendChanges<T(!new)>(op: Op<T>, f: Flat<T>, g: Flat<T>, r: Flat<T>)
    requires op.Append? && r.elementSize == f.elementSize && r.size == f.size
    requires r.elements == f.elements + if f.elementSize == g.elementSize then g.elements else []
    requires r.buckets == if f.elementSize == g.elementSize && |g.elements| > 0 then Reserved(f.buckets, |f.elements| + |g.elements|, f.size) else f.buckets
    ensures Changed(op, f, g, r)
  {
  }

  /** Appending an array that shares no bucket with this one, or this one itself. */
  method AppendTo<T(0, !new)>(a: BucketArray<T>, b: BucketArray<T>, op: Op<T>)
    requires a.Valid() && b.Valid() && (a == b || NoneShared(b.bucket, a.bucket)) && op.Append? && Ready(op, FlatOf(a).Layout(), FlatOf(b).Layout())
    modifies a, a.bucket
    ensures a.Valid() && Changed(op, old(FlatOf(a)), old(FlatOf(b)), FlatOf(a))
    ensures old(a.bucket) <= a.bucket && forall p :: |old(a.bucket)| <= p < |a.bucket| ==> fresh(a.bucket[p])
  {
    ghost var f, g := FlatOf(a), FlatOf(b);
    a.Append(b);
    AppendChanges(op, f, g, FlatOf(a));
  }

  /** Erasing an element, resizing and reserving. */
  method CutOrReserve<T(0, !new)>(a: BucketArray<T>, op: Op<T>)
    requires a.Valid() && (op.Erase? || op.Resize? || op.Reserve?) && Ready(op, FlatOf(a).Layout(), FlatOf(a).Layout())
    modifies a, a.bucket
    ensures a.Valid() && Changed(op, old(FlatOf(a)), old(FlatOf(a)), FlatOf(a))
    ensures old(a.bucket) <= a.bucket && forall p :: |old(a.bucket)| <= p < |a.bucket| ==> fresh(a.bucket[p])
  {
    match op
    case Erase(_, k) => a.Erase(k);
    case Resize(_, n) => a.Resize(n);
    case Reserve(_, n) => a.Reserve(n);
  }

  /** Any of the operations that change an array. */
  method Change<T(0, !new)>(a: BucketArray<T>, b: BucketArray<T>, op: Op<T>)
    requires op.Changes() && a.Valid() && b.Valid() && (a == b || NoneShared(b.bucket, a.bucket))
    requires Ready(op, FlatOf(a).Layout(), FlatOf(b).Layout())
    modifies a, a.bucket
    ensures a.Valid() && Changed(op, old(FlatOf(a)), old(FlatOf(b)), FlatOf(a))
    ensures old(a.bucket) <= a.bucket && forall p :: |old(a.bucket)| <= p < |a.bucket| ==> fresh(a.bucket[p])
  {
    if op.Push? {
      PushTo(a, op);
    } else if op.Append? {
      AppendTo(a, b, op);
    } else {
      CutOrReserve(a, op);
    }
  }

  // ---------- one operation on a family ----------

  /** Each array keeps its buckets in front, array `i` may have more of them, and those belong to no other array. */
  ghost predicate BucketsGrew<T(0)>(arrays: seq<BucketArray<T>>, i: nat, b: seq<seq<array<T>>>)
    requires i < |arrays| == |b|
    reads arrays
  {
    && (forall k :: 0 <= k < |arrays| && k != i ==> arrays[k].bucket == b[k])
    && b[i] <= arrays[i].bucket
    && forall k, p, q :: 0 <= k < |arrays| && k != i && |b[i]| <= p < |arrays[i].bucket| && 0 <= q < |b[k]| ==>
      arrays[i].bucket[p] != b[k][q]
  }

  /** An operation on array `i` leaves the other arrays as they were. */
  method ChangeAt<T(0, !new)>(arrays: seq<BucketArray<T>>, i: nat, j: nat, op: Op<T>)
    requires Family(arrays) && i < |arrays| && j < |arrays| && op.Changes()
    requires Ready(op, FlatOf(arrays[i]).Layout(), FlatOf(arrays[j]).Layout())
    modifies arrays[i], arrays[i].bucket
    ensures AllValid(arrays)
    ensures forall k :: 0 <= k < |arrays| && k != i ==> FlatOf(arrays[k]) == old(FlatOf(arrays[k])) && arrays[k].bucket == old(arrays[k].bucket)
    ensures Changed(op, old(FlatOf(arrays[i])), old(FlatOf(arrays[j])), FlatOf(arrays[i]))
    ensures old(arrays[i].bucket) <= arrays[i].bucket
    ensures forall p :: |old(arrays[i].bucket)| <= p < |arrays[i].bucket| ==> fresh(arrays[i].bucket[p])
  {
    assert Member(i) && Member(j) && Pair(j, i);
    Change(arrays[i], arrays[j], op);
    forall k | Member(k) && 0 <= k < |arrays|
      ensures arrays[k].Valid()
    {
      assert Pair(k, i);
    }
  }

  /** Arrays of which one was changed are still a family. */
  lemma FamilyKept<T(0)>(arrays: seq<BucketArray<T>>, i: nat, b: seq<seq<array<T>>>)
    requires i < |arrays| == |b| && BucketsGrew(arrays, i, b) && Disjoint(b)
    requires AllValid(arrays)
    requires forall k, l :: 0 <= k < l < |arrays| ==> arrays[k] != arrays[l]
    ensures Family(arrays)
  {
    var c := BucketLists(arrays);
    forall k, l | 0 <= k < |c| && 0 <= l < |c| && k != l
      ensures NoneShared(c[k], c[l])
    {
      assert Pair(k, l) && NoneShared(b[k], b[l]);
    }
  }

  /** A change of one flat sequence is a step. */
  lemma ChangeIsStep<T(!new)>(op: Op<T>, s: seq<Flat<T>>, t: seq<Flat<T>>, i: nat, j: nat)
    requires op.Names(|s|) && op.Changes() && op.i == i < |s| == |t| && j == op.Other() < |s|
    requires Changed(op, s[i], s[j], t[i])
    requires forall k :: 0 <= k < |s| && k != i ==> t[k] == s[k]
    ensures Step(op, s, t, [])
  {
    assert t == s[i := t[i]];
  }

  /** An operation that changes an array, on a family. */
  method ChangeFamily<T(0, !new)>(arrays: seq<BucketArray<T>>, op: Op<T>)
    requires Family(arrays) && op.Changes() && Allowed(op, Shapes(View(arrays)))
    modifies arrays[op.i], arrays[op.i].bucket
    ensures Family(arrays) && Step(op, old(View(arrays)), View(arrays), [])
    ensures OnlyAdded(arrays, arrays)
  {
    ghost var s, b := View(arrays), BucketLists(arrays);
    var j := op.Other();
    ChangeAt(arrays, op.i, j, op);
    FamilyKept(arrays, op.i, b);
    ChangeIsStep(op, s, View(arrays), op.i, j);
  }

  lemma ViewSnoc<T(0)>(arrays: seq<BucketArray<T>>, a: BucketArray<T>)
    ensures View(arrays + [a]) == View(arrays) + [FlatOf(a)]
  {
    assert (arrays + [a])[..|arrays|] == arrays;
  }

  lemma ListsSnoc<T(0)>(arrays: seq<BucketArray<T>>, a: BucketArray<T>)
    ensures BucketLists(arrays + [a]) == BucketLists(arrays) + [a.bucket]
  {
    assert (arrays + [a])[..|arrays|] == arrays;
  }

  lemma DisjointSnoc<T>(b: seq<seq<array<T>>>, c: seq<array<T>>)
    requires Disjoint(b) && forall k :: 0 <= k < |b| ==> NoneShared(b[k], c)
    ensures Disjoint(b + [c])
  {
    var d := b + [c];
    forall k, l | 0 <= k < |d| && 0 <= l < |d| && k != l
      ensures NoneShared(d[k], d[l])
    {
      assert Pair(k, l);
      assert k < |b| ==> NoneShared(b[k], c);
      assert l < |b| ==> NoneShared(b[l], c);
    }
  }

  lemma AllValidSnoc<T(0)>(arrays: seq<BucketArray<T>>, a: BucketArray<T>)
    requires AllValid(arrays) && a.Valid()
    ensures AllValid(arrays + [a])
  {
    var all := arrays + [a];
    forall k | Member(k) && 0 <= k < |all|
      ensures all[k].Valid()
    {
      assert k < |arrays| ==> all[k] == arrays[k] && arrays[k].Valid();
    }
  }

  /** A valid array that shares no bucket with a family may join it. */
  lemma FamilyExtended<T(0)>(arrays: seq<BucketArray<T>>, a: BucketArray<T>)
    requires Family(arrays) && a.Valid()
    requires forall k :: 0 <= k < |arrays| ==> arrays[k] != a
    requires forall k :: 0 <= k < |arrays| ==> NoneShared(arrays[k].bucket, a.bucket)
    ensures Family(arrays + [a]) && View(arrays + [a]) == View(arrays) + [FlatOf(a)]
  {
    AllValidSnoc(arrays, a);
    ListsSnoc(arrays, a);
    DisjointSnoc(BucketLists(arrays), a.bucket);
    ViewSnoc(arrays, a);
  }

  /** A new array, empty or as a copy of `source`. */
  method NewArray<T(0, !new)>(op: Op<T>, source: BucketArray?<T>) returns (a: BucketArray<T>)
    requires (op.Initialize? && op.bucketElementCount <= 0x8000_0000_0000_0000) || (op.InitializeCopy? && source != null && source.Valid())
    ensures fresh(a) && (forall p :: 0 <= p < |a.bucket| ==> fresh(a.bucket[p])) && a.Valid()
    ensures FlatOf(a) == if op.Initialize? then Flat(op.elementSize, SizeFrom(16, op.bucketElementCount), 0, []) else FlatOf(source)
  {
    if op.Initialize? {
      a := new BucketArray(op.elementSize, op.bucketElementCount);
    } else {
      a := new BucketArray.InitializeCopy(source);
    }
  }

  /** A new array next to a family, which it leaves as it is. */
  method NewNextTo<T(0, !new)>(arrays: seq<BucketArray<T>>, op: Op<T>) returns (a: BucketArray<T>)
    requires Family(arrays) && (op.Initialize? || op.InitializeCopy?) && Allowed(op, Shapes(View(arrays)))
    ensures fresh(a) && (forall p :: 0 <= p < |a.bucket| ==> fresh(a.bucket[p])) && a.Valid()
    ensures FlatOf(a) == Created(op, View(arrays))
    ensures Family(arrays) && View(arrays) == old(View(arrays))
  {
    if op.Initialize? {
      a := NewArray(op, null);
    } else {
      assert Member(op.i);
      a := NewArray(op, arrays[op.i]);
    }
  }

  lemma CreatedIsStep<T(!new)>(op: Op<T>, s: seq<Flat<T>>)
    requires (op.Initialize? || op.InitializeCopy?) && op.Names(|s|)
    ensures Step(op, s, s + [Created(op, s)], [])
  {
  }

  /** Creating an array that joins the family. */
  method Create<T(0, !new)>(arrays: seq<BucketArray<T>>, op: Op<T>) returns (a: BucketArray<T>)
    requires Family(arrays) && (op.Initialize? || op.InitializeCopy?) && Allowed(op, Shapes(View(arrays)))
    ensures OnlyAdded(arrays, arrays + [a])
    ensures Family(arrays + [a]) && Step(op, old(View(arrays)), View(arrays + [a]), [])
  {
    a := NewNextTo(arrays, op);
    FamilyExtended(arrays, a);
    CreatedIsStep(op, View(arrays));
  }

  /** The elements of an array in a flat buffer. */
  method CopyOf<T(0, !new)>(arrays: seq<BucketArray<T>>, i: nat) returns (out: seq<T>)
    requires Family(arrays) && i < |arrays|
    ensures out == View(arrays)[i].elements
  {
    assert Member(i);
    var a := arrays[i];
    var destination := new T[a.count];
    a.Copy(destination);
    out := destination[..];
    assert destination[..a.count] == destination[..];
  }

  // ---------- whole runs ----------

  /** One operation of a script. */
  method Perform<T(0, !new)>(arrays: seq<BucketArray<T>>, op: Op<T>) returns (result: seq<BucketArray<T>>, out: seq<T>)
    requires Family(arrays) && Allowed(op, Shapes(View(arrays)))
    modifies arrays, Buckets(arrays)
    ensures Family(result) && Step(op, old(View(arrays)), View(result), out)
    ensures OnlyAdded(arrays, result)
  {
    result, out := arrays, [];
    if op.Changes() {
      ChangeFamily(arrays, op);
    } else if op.Copy? {
      out := CopyOf(arrays, op.i);
    } else {
      var a := Create(arrays, op);
      result := arrays + [a];
    }
  }

  /** The script leads from `s` to `t`: `trace` is what there is before, between and after its operations, `outs` what they give out. */
  ghost predicate Leads<T(!new)>(ops: seq<Op<T>>, s: seq<Flat<T>>, t: seq<Flat<T>>, trace: seq<seq<Flat<T>>>, outs: seq<seq<T>>) {
    |trace| == |ops| + 1 && |outs| == |ops| && trace[0] == s && trace[|ops|] == t
    && forall k {:trigger Member(k)} :: Member(k) && 0 <= k < |ops| ==>
      Step(ops[k], trace[k], trace[k + 1], outs[k])
  }

  lemma LeadsCons<T(!new)>(ops: seq<Op<T>>, s: seq<Flat<T>>, m: seq<Flat<T>>, t: seq<Flat<T>>, out: seq<T>, trace: seq<seq<Flat<T>>>, outs: seq<seq<T>>)
    requires ops != [] && Leads([ops[0]], s, m, [s, m], [out]) && Leads(ops[1..], m, t, trace, outs)
    ensures Leads(ops, s, t, [s] + trace, [out] + outs)
  {
    var all, given := [s] + trace, [out] + outs;
    assert Member(0);
    forall k | Member(k) && 0 <= k < |ops|
      ensures Step(ops[k], all[k], all[k + 1], given[k])
    {
      assert Member(k - 1);
      assert k > 0 ==> ops[k] == ops[1..][k - 1] && all[k] == trace[k - 1] && all[k + 1] == trace[k] && given[k] == outs[k - 1];
    }
  }

  /** Each list is still the front of the list with its number. */
  ghost predicate Front<T>(b: seq<seq<array<T>>>, c: seq<seq<array<T>>>) {
    |b| <= |c| && forall k :: 0 <= k < |b| ==> b[k] <= c[k]
  }

  lemma FrontTransitive<T>(b: seq<seq<array<T>>>, c: seq<seq<array<T>>>, d: seq<seq<array<T>>>)
    requires Front(b, c) && Front(c, d)
    ensures Front(b, d)
  {
    forall k | 0 <= k < |b|
      ensures b[k] <= d[k]
    {
      assert b[k] <= c[k] && c[k] <= d[k];
    }
  }

  lemma SafeRest<T(!new)>(ops: seq<Op<T>>, s: seq<Flat<T>>, t: seq<Flat<T>>, out: seq<T>)
    requires ops != [] && Safe(ops, Shapes(s)) && Step(ops[0], s, t, out)
    ensures Safe(ops[1..], Shapes(t)) && Leads([ops[0]], s, t, [s, t], [out])
  {
    ShapesFollow(ops[0], s, t, out);
  }

  /** The first operation of a script, with what a run needs to know of memory. */
  method Next<T(0, !new)>(arrays: seq<BucketArray<T>>, ops: seq<Op<T>>) returns (result: seq<BucketArray<T>>, out: seq<T>)
    requires Family(arrays) && ops != [] && Safe(ops, Shapes(View(arrays)))
    modifies arrays, Buckets(arrays)
    ensures Family(result) && Safe(ops[1..], Shapes(View(result)))
    ensures Leads([ops[0]], old(View(arrays)), View(result), [old(View(arrays)), View(result)], [out])
    ensures arrays <= result && forall k :: |arrays| <= k < |result| ==> fresh(result[k])
    ensures fresh(Buckets(result) - old(Buckets(arrays)))
    ensures Front(old(BucketLists(arrays)), BucketLists(result))
  {
    ghost var s := View(arrays);
    result, out := Perform(arrays, ops[0]);
    SafeRest(ops, s, View(result), out);
  }

  /**
   * Every safe script on a family does to it what it does to flat sequences, and gives out the same; the arrays
   * stay a family, and each keeps its buckets in front.
   */
  method Run<T(0, !new)>(arrays: seq<BucketArray<T>>, ops: seq<Op<T>>)
    returns (result: seq<BucketArray<T>>, outs: seq<seq<T>>, ghost trace: seq<seq<Flat<T>>>)
    requires Family(arrays) && Safe(ops, Shapes(View(arrays)))
    modifies arrays, Buckets(arrays)
    ensures Family(result) && arrays <= result && Front(old(BucketLists(arrays)), BucketLists(result))
    ensures Leads(ops, old(View(arrays)), View(result), trace, outs)
    decreases |ops|
  {
    if ops == [] {
      result, outs, trace := arrays, [], [View(arrays)];
      return;
    }
    ghost var s, b := View(arrays), BucketLists(arrays);
    var mid, out := Next(arrays, ops);
    ghost var m, c := View(mid), BucketLists(mid);
    result, outs, trace := Run(mid, ops[1..]);
    FrontTransitive(b, c, BucketLists(result));
    LeadsCons(ops, s, m, View(result), out, trace, outs);
    outs, trace := [out] + outs, [s] + trace;
  }
}
