/** `bufferstream.c`: a cursor over a buffer, with sizes and offsets in 64-bit arithmetic that wraps around. */
module BufferStreams {
  import opened Bytes

  /** `ssize_t` without its least value, whose negation is not a value. */
  type Offset = x: int | -0x8000_0000_0000_0000 < x < 0x8000_0000_0000_0000

  datatype Origin = Begin | Current | End

  /** What the stream is, as a value: everything the buffer holds, how much of it counts, and the cursor. */
  datatype State = State(data: seq<Byte>, size: nat, current: nat) {
    predicate Ok() {
      current <= size <= |data| < SIZES
    }
  }

  function Plus(a: Size, b: Size): Size {
    (a + b) % SIZES
  }

  function Minus(a: Size, b: Size): Size {
    (a - b) % SIZES
  }

  /** `buffer_stream_seek`, line by line. */
  function SeekTo(current: Size, size: Size, offset: Offset, origin: Origin): Size {
    var distance: Size := if offset < 0 then -offset else offset;
    var target: Size :=
      match origin
      case Current =>
        if offset < 0 then if distance > current then 0 else current - distance
        else Plus(current, distance)
      case Begin => if offset > 0 then distance else 0
      case End => if offset < 0 then Minus(size, distance) else size;
    if target > size then size else target
  }

  /** Where seeking ought to lead: the place asked for, or the nearest end of the stream. */
  function Clamped(current: nat, size: nat, offset: int, origin: Origin): nat {
    var target := offset + match origin case Begin => 0 case Current => current case End => size;
    if target < 0 then 0 else if target > size then size else target
  }

  /**
   * Seeking leads there, except in two cases. Backwards from the end past the start, the difference wraps around
   * and leads to the end of the stream. Forwards past the greatest size, the sum wraps around.
   */
  lemma SeekClampsIff(current: Size, size: Size, offset: Offset, origin: Origin)
    requires current <= size
    ensures SeekTo(current, size, offset, origin) <= size
    ensures SeekTo(current, size, offset, origin) == Clamped(current, size, offset, origin)
      <==> !(origin == End && size > 0 && -offset > size) && !(origin == Current && current + offset >= SIZES)
  {
    if origin == Current && current + offset >= SIZES {
      assert Plus(current, offset) == current + offset - SIZES;
    }
    if origin == End && -offset > size {
      assert Minus(size, -offset) == size + offset + SIZES;
    }
  }

  /** From the end of a stream of four bytes, five back leads to the end. */
  lemma SeekPastStart()
    ensures SeekTo(0, 4, -5, End) == 4 && Clamped(0, 4, -5, End) == 0
  {
  }

  // ---------- the operations on values ----------

  function Min(a: nat, b: nat): nat {
    if a < b then a else b
  }

  datatype Op =
    | Read(n: Size)
    | Write(xs: seq<Byte>)
    | Seek(offset: Offset, origin: Origin)
    | Truncate(n: Size)

  /** The end of a write stays below 2^64, and so does the capacity it grows to. */
  predicate Covered(op: Op, s: State, grow: bool) {
    op.Write? ==> WriteFits(s.current, |op.xs|, |s.data|, grow)
  }

  predicate WriteFits(current: nat, n: nat, capacity: nat, grow: bool) {
    current + n < SIZES && (grow && current + n > capacity ==> current + n + 1024 < SIZES)
  }

  /** How many bytes a write stores: all of them, or what the capacity leaves room for. */
  function Accepted(s: State, n: nat, grow: bool): nat
    requires s.Ok()
  {
    if grow then n else Min(n, |s.data| - s.current)
  }

  /** The capacity after a write of `k` bytes. */
  function Grown(s: State, k: nat): nat {
    if s.current + k <= |s.data| then |s.data|
    else if s.current + k < 1024 then 1024 else s.current + k + 1024
  }

  /** What an operation does. Bytes a reallocation adds beyond those stored are left open. */
  ghost predicate Step(op: Op, grow: bool, s: State, t: State)
    requires s.Ok()
  {
    match op
    case Read(n) => t == s.(current := s.current + Min(n, s.size - s.current))
    case Seek(offset, origin) => t == s.(current := SeekTo(s.current, s.size, offset, origin))
    case Truncate(n) =>
      if grow && n > |s.data| then t.size == n == |t.data| && t.current == s.current && t.data[..s.current] == s.data[..s.current]
      else t == s.(size := Min(n, |s.data|), current := Min(s.current, Min(n, |s.data|)))
    case Write(xs) =>
      var k := Accepted(s, |xs|, grow);
      t.current == s.current + k && t.size == (if s.current + k > s.size then s.current + k else s.size)
      && |t.data| == Grown(s, k) && StoredAt(s.data, s.current, xs[..k], t.data)
  }

  /** `t` is `s` with `xs` stored at `p`. */
  ghost predicate StoredAt(s: seq<Byte>, p: nat, xs: seq<Byte>, t: seq<Byte>) {
    p + |xs| <= |t| && |s| <= |t| && t[p..p + |xs|] == xs
    && forall i :: 0 <= i < |s| && !(p <= i < p + |xs|) ==> t[i] == s[i]
  }

  /** The bytes an operation hands out. */
  function Given(op: Op, s: State): seq<Byte>
    requires s.Ok()
  {
    if op.Read? then s.data[s.current..s.current + Min(op.n, s.size - s.current)] else []
  }

  /**
   * All bytes of a write are stored exactly if the stream grows or they fit into the capacity. If not, those that
   * fit are, and the stream is full. Either way, no other byte changes.
   */
  lemma WritesAllIff(xs: seq<Byte>, grow: bool, s: State, t: State)
    requires s.Ok() && Step(Write(xs), grow, s, t)
    ensures t.current == s.current + |xs| <==> grow || s.current + |xs| <= |s.data|
    ensures grow || s.current + |xs| <= |s.data| ==>
      t.data[s.current..t.current] == xs && t.size == (if t.current > s.size then t.current else s.size)
    ensures !grow && s.current + |xs| > |s.data| ==>
      t.current == t.size == |t.data| == |s.data| && t.data[s.current..] == xs[..|s.data| - s.current]
    ensures forall i :: 0 <= i < |s.data| && !(s.current <= i < t.current) ==> t.data[i] == s.data[i]
  {
    assert xs[..|xs|] == xs;
    if !grow && s.current + |xs| > |s.data| {
      assert t.data[s.current..] == t.data[s.current..t.current];
    }
  }

  /** The capacity after a write: as it was if the bytes fit or the stream does not grow, else at least 1024 bytes. */
  lemma WriteGrows(xs: seq<Byte>, grow: bool, s: State, t: State)
    requires s.Ok() && Step(Write(xs), grow, s, t)
    ensures |t.data| == |s.data| <==> !grow || s.current + |xs| <= |s.data|
    ensures |t.data| > |s.data| ==> |t.data| == if t.size < 1024 then 1024 else t.size + 1024
  {
  }

  /** A read hands out as many bytes as asked for exactly if so many are stored from the cursor on, else all of them. */
  lemma ReadsAllIff(n: Size, grow: bool, s: State, t: State)
    requires s.Ok() && Step(Read(n), grow, s, t)
    ensures |Given(Read(n), s)| == n <==> s.current + n <= s.size
    ensures s.current + n > s.size ==> Given(Read(n), s) == s.data[s.current..s.size]
    ensures Given(Read(n), s) == t.data[s.current..t.current] && t.data == s.data && t.size == s.size
  {
  }

  /** A truncation leaves the size asked for exactly if the stream grows or the capacity allows it, else the capacity. */
  lemma TruncatesIff(n: Size, grow: bool, s: State, t: State)
    requires s.Ok() && Step(Truncate(n), grow, s, t)
    ensures t.size == n <==> grow || n <= |s.data|
    ensures !grow && n > |s.data| ==> t.size == |s.data|
    ensures t.current == if s.current > t.size then t.size else s.current
    ensures t.data[..t.current] == s.data[..t.current]
  {
  }

  // ---------- whole runs ----------

  /** A run: each state is what its operation makes of the one before, and `outs` is what the operations hand out. */
  ghost predicate Follows(ops: seq<Op>, grow: bool, trace: seq<State>, outs: seq<seq<Byte>>) {
    |trace| == |ops| + 1 && |outs| == |ops| && trace[0].Ok()
    && forall k :: 0 <= k < |ops| ==> trace[k].Ok() ==>
      Covered(ops[k], trace[k], grow) && Step(ops[k], grow, trace[k], trace[k + 1]) && outs[k] == Given(ops[k], trace[k])
  }

  lemma StepKeeps(op: Op, grow: bool, s: State, t: State)
    requires s.Ok() && Covered(op, s, grow) && Step(op, grow, s, t)
    ensures t.Ok() && |s.data| <= |t.data|
  {
    if op.Seek? {
      SeekClampsIff(s.current, s.size, op.offset, op.origin);
    }
  }

  /** In every state of every run the cursor is within the size and the size within the capacity. */
  lemma {:induction false} AlwaysOk(ops: seq<Op>, grow: bool, trace: seq<State>, outs: seq<seq<Byte>>, k: nat)
    requires Follows(ops, grow, trace, outs) && k <= |ops|
    ensures trace[k].Ok() && |trace[0].data| <= |trace[k].data|
  {
    if k > 0 {
      AlwaysOk(ops, grow, trace, outs, k - 1);
      StepKeeps(ops[k - 1], grow, trace[k - 1], trace[k]);
    }
  }

  /** Whether an operation stores a byte at `p`. */
  predicate Stores(op: Op, grow: bool, s: State, p: nat) {
    op.Write? && s.Ok() && s.current <= p < s.current + Accepted(s, |op.xs|, grow)
  }

  /** Truncating to more than the capacity asks the allocator to keep only the bytes before the cursor. */
  predicate Abandons(op: Op, grow: bool, s: State, p: nat) {
    op.Truncate? && grow && op.n > |s.data| && p >= s.current
  }

  /** However the operation goes, the byte at `p` is kept. */
  ghost predicate Keeps(op: Op, grow: bool, s: State, p: nat)
    requires s.Ok() && p < |s.data|
  {
    forall t :: Step(op, grow, s, t) ==> p < |t.data| && t.data[p] == s.data[p]
  }

  /** A truncation may lose exactly the bytes it abandons. */
  lemma LosesIffAbandons(n: Size, grow: bool, s: State, p: nat)
    requires s.Ok() && p < |s.data|
    ensures Keeps(Truncate(n), grow, s, p) <==> !Abandons(Truncate(n), grow, s, p)
  {
    if Abandons(Truncate(n), grow, s, p) {
      var other: Byte := if s.data[p] == 0 then 1 else 0;
      var data: seq<Byte> := seq(n, i requires 0 <= i < n => if i < s.current then s.data[i] else other);
      assert data[..s.current] == s.data[..s.current];
      assert Step(Truncate(n), grow, s, State(data, n, s.current)) && data[p] != s.data[p];
    } else {
      forall t | Step(Truncate(n), grow, s, t)
        ensures p < |t.data| && t.data[p] == s.data[p]
      {
        StepStays(Truncate(n), grow, s, t, p);
      }
    }
  }

  /** A byte stays until an operation stores another in its place or abandons it. */
  lemma {:induction false} StaysStored(ops: seq<Op>, grow: bool, trace: seq<State>, outs: seq<seq<Byte>>, i: nat, j: nat, p: nat)
    requires Follows(ops, grow, trace, outs) && i <= j <= |ops| && p < |trace[i].data|
    requires forall k :: i <= k < j ==> !Stores(ops[k], grow, trace[k], p) && !Abandons(ops[k], grow, trace[k], p)
    ensures p < |trace[j].data| && trace[j].data[p] == trace[i].data[p]
  {
    if i < j {
      StaysStored(ops, grow, trace, outs, i, j - 1, p);
      AlwaysOk(ops, grow, trace, outs, j - 1);
      StepStays(ops[j - 1], grow, trace[j - 1], trace[j], p);
    }
  }

  lemma StepStays(op: Op, grow: bool, s: State, t: State, p: nat)
    requires s.Ok() && Covered(op, s, grow) && Step(op, grow, s, t) && p < |s.data|
    requires !Stores(op, grow, s, p) && !Abandons(op, grow, s, p)
    ensures p < |t.data| && t.data[p] == s.data[p]
  {
    StepKeeps(op, grow, s, t);
    if op.Truncate? && grow && op.n > |s.data| {
      assert t.data[..s.current][p] == s.data[..s.current][p];
    }
  }

  lemma StepStores(op: Op, grow: bool, s: State, t: State, p: nat)
    requires s.Ok() && Step(op, grow, s, t) && Stores(op, grow, s, p)
    ensures p < |t.data| && t.data[p] == op.xs[p - s.current]
  {
    var k := Accepted(s, |op.xs|, grow);
    assert t.data[s.current..s.current + k] == op.xs[..k];
    assert t.data[s.current..s.current + k][p - s.current] == op.xs[..k][p - s.current];
  }

  /** So the byte at a position is the one the last write there stored, whatever was done since. */
  lemma LastStored(ops: seq<Op>, grow: bool, trace: seq<State>, outs: seq<seq<Byte>>, i: nat, j: nat, p: nat)
    requires Follows(ops, grow, trace, outs) && i < j <= |ops| && Stores(ops[i], grow, trace[i], p)
    requires forall k :: i < k < j ==> !Stores(ops[k], grow, trace[k], p) && !Abandons(ops[k], grow, trace[k], p)
    ensures p < |trace[j].data| && trace[j].data[p] == ops[i].xs[p - trace[i].current]
  {
    AlwaysOk(ops, grow, trace, outs, i);
    assert Step(ops[i], grow, trace[i], trace[i + 1]);
    StepStores(ops[i], grow, trace[i], trace[i + 1], p);
    StaysStored(ops, grow, trace, outs, i + 1, j, p);
  }

  /** What a read hands out are the bytes last stored at the positions it reads. */
  lemma ReadsLastStored(ops: seq<Op>, grow: bool, trace: seq<State>, outs: seq<seq<Byte>>, i: nat, j: nat, q: nat)
    requires Follows(ops, grow, trace, outs) && i < j < |ops| && ops[j].Read? && q < |outs[j]|
    requires Stores(ops[i], grow, trace[i], trace[j].current + q)
    requires forall k :: i < k < j ==>
      !Stores(ops[k], grow, trace[k], trace[j].current + q) && !Abandons(ops[k], grow, trace[k], trace[j].current + q)
    ensures outs[j][q] == ops[i].xs[trace[j].current + q - trace[i].current]
  {
    AlwaysOk(ops, grow, trace, outs, j);
    var s := trace[j];
    assert s.Ok() && Step(ops[j], grow, s, trace[j + 1]);
    assert outs[j] == Given(ops[j], s);
    assert outs[j][q] == s.data[s.current + q];
    LastStored(ops, grow, trace, outs, i, j, s.current + q);
  }

  /** A bound on the capacity after a script, from the capacity before it. */
  function Reach(ops: seq<Op>, capacity: nat): nat
    decreases |ops|
  {
    if ops == [] then capacity
    else
      Reach(ops[1..],
        match ops[0]
        case Write(xs) => capacity + |xs| + 1024
        case Truncate(n) => if n > capacity then n else capacity
        case _ => capacity)
  }

  lemma {:induction false} ReachMonotone(ops: seq<Op>, a: nat, b: nat)
    requires a <= b
    ensures a <= Reach(ops, a) <= Reach(ops, b)
    decreases |ops|
  {
    if ops != [] {
      match ops[0]
      case Write(xs) => ReachMonotone(ops[1..], a + |xs| + 1024, b + |xs| + 1024);
      case Truncate(n) => ReachMonotone(ops[1..], if n > a then n else a, if n > b then n else b);
      case _ => ReachMonotone(ops[1..], a, b);
    }
  }

  /** Within the bound every operation is covered when it comes, and the bound holds for the rest. */
  lemma ReachCovers(ops: seq<Op>, grow: bool, s: State, t: State)
    requires ops != [] && s.Ok() && Reach(ops, |s.data|) < SIZES
    ensures Covered(ops[0], s, grow)
    ensures Step(ops[0], grow, s, t) ==> Reach(ops[1..], |t.data|) < SIZES
  {
    var c := |s.data|;
    var d := match ops[0] case Write(xs) => c + |xs| + 1024 case Truncate(n) => (if n > c then n else c) case _ => c;
    assert Reach(ops, c) == Reach(ops[1..], d);
    ReachMonotone(ops[1..], d, d);
    if Step(ops[0], grow, s, t) {
      assert |t.data| <= d;
      ReachMonotone(ops[1..], |t.data|, d);
    }
  }

  lemma FollowsCons(ops: seq<Op>, grow: bool, s: State, out: seq<Byte>, trace: seq<State>, outs: seq<seq<Byte>>)
    requires ops != [] && s.Ok() && Follows(ops[1..], grow, trace, outs)
    requires Covered(ops[0], s, grow) && Step(ops[0], grow, s, trace[0]) && out == Given(ops[0], s)
    ensures Follows(ops, grow, [s] + trace, [out] + outs)
  {
    var all, given := [s] + trace, [out] + outs;
    forall k | 0 <= k < |ops| && all[k].Ok()
      ensures Covered(ops[k], all[k], grow) && Step(ops[k], grow, all[k], all[k + 1]) && given[k] == Given(ops[k], all[k])
    {
      assert k > 0 ==> ops[k] == ops[1..][k - 1] && all[k] == trace[k - 1] && all[k + 1] == trace[k] && given[k] == outs[k - 1];
    }
  }

  /** Storing into the buffer, or into a larger one that begins with it. */
  lemma WriteIsStep(s: State, mid: seq<Byte>, t: State, xs: seq<Byte>, k: nat, grow: bool)
    requires s.Ok() && k == Accepted(s, |xs|, grow) && t.current == s.current + k
    requires t.size == (if s.current + k > s.size then s.current + k else s.size) && |t.data| == Grown(s, k)
    requires |s.data| <= |mid| && mid[..|s.data|] == s.data && StoredAt(mid, s.current, xs[..k], t.data)
    ensures Step(Op.Write(xs), grow, s, t)
  {
    forall i | 0 <= i < |s.data|
      ensures mid[i] == s.data[i]
    {
      assert mid[..|s.data|][i] == mid[i];
    }
  }

  /** `memcpy` into a buffer. */
  method StoreBytes(dst: array<Byte>, at: nat, source: array<Byte>, k: nat)
    requires at + k <= dst.Length && k <= source.Length && dst != source
    modifies dst
    ensures StoredAt(old(dst[..]), at, source[..k], dst[..])
  {
    forall i | 0 <= i < k {
      dst[at + i] := source[i];
    }
  }

  class BufferStream {
    var buffer: array<Byte>
    var size: nat
    var capacity: nat
    var current: nat
    var grow: bool

    ghost predicate Valid()
      reads this
    {
      capacity == buffer.Length && current <= size <= capacity < SIZES
    }

    ghost function Value(): (s: State)
      requires Valid()
      reads this, buffer
      ensures s.Ok() && |s.data| == capacity
    {
      State(buffer[..], size, current)
    }

    /** `buffer_stream_initialize`; the flags are those of `mode`. */
    constructor (buffer: array?<Byte>, out: bool, truncate: bool, atEnd: bool, size: Size, capacity: Size, adopt: bool, grow: bool)
      requires buffer != null ==> buffer.Length == capacity
      ensures Valid() && this.grow == (adopt && grow)
      ensures if buffer == null then this.capacity == 0 else this.buffer == buffer && this.capacity == capacity
      ensures this.size == if out && truncate then 0 else Min(size, this.capacity)
      ensures this.current == if atEnd then this.size else 0
    {
      var held: array<Byte>;
      var most := capacity;
      if buffer == null {
        held := new Byte[0];
        most := 0;
      } else {
        held := buffer;
      }
      var length := if out && truncate then 0 else if size > most then most else size;
      this.buffer := held;
      this.capacity := most;
      this.size := length;
      this.current := if atEnd then length else 0;
      this.grow := adopt && grow;
    }

    /** `buffer_stream_read`. */
    method Read(dest: array<Byte>, n: Size) returns (k: nat)
      requires Valid() && n <= dest.Length && dest != buffer
      modifies this`current, dest
      ensures Valid() && Step(Op.Read(n), grow, old(Value()), Value())
      ensures k == (if n <= old(size - current) then n else old(size - current)) && dest[k..] == old(dest[k..])
      ensures dest[..k] == buffer[old(current)..old(current) + k]
    {
      k := if size - current < n then size - current else n;
      var from := current;
      forall i | 0 <= i < k {
        dest[i] := buffer[from + i];
      }
      current := current + k;
    }

    /** `buffer_stream_write`. */
    method Write(source: array<Byte>, n: nat) returns (k: nat)
      requires Valid() && n <= source.Length && source != buffer && WriteFits(current, n, capacity, grow)
      modifies this`buffer, this`size, this`capacity, this`current, buffer
      ensures Valid() && Step(Op.Write(source[..n]), grow, old(Value()), Value())
      ensures k == if grow || old(current) + n <= old(capacity) then n else old(capacity - current)
      ensures current == old(current) + k
      ensures size == if current > old(size) then current else old(size)
      ensures capacity == if current <= old(capacity) then old(capacity) else if size < 1024 then 1024 else size + 1024
      ensures buffer == old(buffer) || fresh(buffer)
      ensures old(current) + n <= old(capacity) || !grow ==> buffer == old(buffer)
    {
      var available := Room(n);
      k := if n < available then n else available;
      assert source[..n][..k] == source[..k];
      ghost var mid := buffer[..];
      StoreBytes(buffer, current, source, k);
      current := current + k;
      WriteIsStep(old(Value()), mid, Value(), source[..n], k, grow);
    }

    /** How much can be written; the size, and if need be the buffer, grow accordingly. */
    method Room(n: nat) returns (available: nat)
      requires Valid() && WriteFits(current, n, capacity, grow)
      modifies this`buffer, this`size, this`capacity
      ensures Valid() && (buffer == old(buffer) || fresh(buffer)) && old(capacity) <= capacity && buffer[..old(capacity)] == old(buffer[..])
      ensures Min(n, available) == Accepted(old(Value()), n, grow)
      ensures capacity == Grown(old(Value()), Min(n, available))
      ensures size == if current + Min(n, available) > old(size) then current + Min(n, available) else old(size)
      ensures current + n <= old(capacity) || !grow ==> buffer == old(buffer)
    {
      available := size - current;
      if n > available {
        if capacity >= current + n {
          available := n;
          size := current + n;
        } else if grow {
          available := n;
          size := current + n;
          Reallocate(if size < 1024 then 1024 else size + 1024, capacity);
        } else {
          available := capacity - current;
          size := capacity;
        }
      }
    }

    /** `memory_reallocate` to a larger size: only the first `keep` bytes are sure to be kept. */
    method Reallocate(most: nat, keep: nat)
      requires keep <= capacity == buffer.Length <= most
      modifies this`buffer, this`capacity
      ensures capacity == buffer.Length == most && fresh(buffer)
      ensures buffer[..keep] == old(buffer[..keep])
    {
      var larger := new Byte[most];
      forall i | 0 <= i < keep {
        larger[i] := buffer[i];
      }
      buffer := larger;
      capacity := most;
    }

    /** `buffer_stream_truncate`; beyond the capacity of a growing stream it reallocates, passing the cursor as the old size. */
    method Truncate(n: Size)
      requires Valid()
      modifies this`buffer, this`size, this`capacity, this`current
      ensures Valid() && Step(Op.Truncate(n), grow, old(Value()), Value())
      ensures size == if grow || n <= old(capacity) then n else old(capacity)
      ensures current == if old(current) > size then size else old(current)
      ensures buffer == old(buffer) || fresh(buffer)
    {
      if capacity >= n {
        size := n;
      } else if grow {
        Reallocate(n, current);
        size := capacity;
      } else {
        size := capacity;
      }
      if current > size {
        current := size;
      }
    }

    /** `buffer_stream_seek`. */
    method Seek(offset: Offset, origin: Origin)
      requires Valid()
      modifies this`current
      ensures Valid() && Step(Op.Seek(offset, origin), grow, old(Value()), Value())
    {
      SeekClampsIff(current, size, offset, origin);
      current := SeekTo(current, size, offset, origin);
    }

    /** `buffer_stream_eos` and `buffer_stream_available_read`: at the end exactly when nothing is left to read. */
    method Eos() returns (eos: bool, available: nat)
      requires Valid()
      ensures eos <==> available == 0
      ensures available == |buffer[current..size]|
    {
      eos, available := current >= size, size - current;
    }
  }

  method PerformRead(b: BufferStream, n: Size) returns (out: seq<Byte>)
    requires b.Valid()
    modifies b`current
    ensures b.Valid() && Step(Op.Read(n), b.grow, old(b.Value()), b.Value()) && out == old(Given(Op.Read(n), b.Value()))
  {
    var dest := new Byte[n];
    var k := b.Read(dest, n);
    out := dest[..k];
  }

  method PerformWrite(b: BufferStream, xs: seq<Byte>)
    requires b.Valid() && WriteFits(b.current, |xs|, b.capacity, b.grow)
    modifies b, b.buffer
    ensures b.Valid() && b.grow == old(b.grow) && (b.buffer == old(b.buffer) || fresh(b.buffer))
    ensures Step(Op.Write(xs), b.grow, old(b.Value()), b.Value())
  {
    var source := new Byte[|xs|](i requires 0 <= i < |xs| => xs[i]);
    assert source[..|xs|] == xs;
    var k := b.Write(source, |xs|);
  }

  /** One operation on a stream. */
  method Perform(b: BufferStream, op: Op) returns (out: seq<Byte>)
    requires b.Valid() && Covered(op, b.Value(), b.grow)
    modifies b, b.buffer
    ensures b.Valid() && b.grow == old(b.grow) && (b.buffer == old(b.buffer) || fresh(b.buffer))
    ensures Step(op, b.grow, old(b.Value()), b.Value()) && out == old(Given(op, b.Value()))
  {
    out := [];
    match op
    case Read(n) => out := PerformRead(b, n);
    case Write(xs) => PerformWrite(b, xs);
    case Seek(offset, origin) => b.Seek(offset, origin);
    case Truncate(n) => b.Truncate(n);
  }

  /** Every script that stays within 64 bits is a run, and hands out what the run says. */
  method Run(b: BufferStream, ops: seq<Op>) returns (outs: seq<seq<Byte>>, ghost trace: seq<State>)
    requires b.Valid() && Reach(ops, b.capacity) < SIZES
    modifies b, b.buffer
    ensures b.Valid() && b.grow == old(b.grow)
    ensures Follows(ops, b.grow, trace, outs) && trace[0] == old(b.Value()) && trace[|ops|] == b.Value()
    decreases |ops|
  {
    if ops == [] {
      outs, trace := [], [b.Value()];
      return;
    }
    ghost var s := b.Value();
    ReachCovers(ops, b.grow, s, s);
    var out := Perform(b, ops[0]);
    ReachCovers(ops, b.grow, s, b.Value());
    outs, trace := Run(b, ops[1..]);
    FollowsCons(ops, b.grow, s, out, trace, outs);
    outs, trace := [out] + outs, [s] + trace;
  }
}
