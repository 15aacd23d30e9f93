/** Concatenating the images of a sequence. */
module Sequences {

  function FlatMap<T>(f: int -> seq<T>, s: seq<int>): seq<T> {
    if s == [] then [] else f(s[0]) + FlatMap(f, s[1..])
  }

  lemma FlatMapOne<T>(f: int -> seq<T>, x: int)
    ensures FlatMap(f, [x]) == f(x)
  {
    assert FlatMap(f, [x]) == f(x) + FlatMap(f, [x][1..]);
  }

  lemma FlatMapCons<T>(f: int -> seq<T>, x: int, s: seq<int>)
    ensures FlatMap(f, [x] + s) == f(x) + FlatMap(f, s)
  {
    assert ([x] + s)[1..] == s;
  }

  lemma {:induction false} FlatMapConcat<T>(f: int -> seq<T>, a: seq<int>, b: seq<int>)
    ensures FlatMap(f, a + b) == FlatMap(f, a) + FlatMap(f, b)
  {
    if a == [] {
      assert a + b == b;
    } else {
      FlatMapConcat(f, a[1..], b);
      assert (a + b)[1..] == a[1..] + b;
    }
  }

  lemma FlatMapSnoc<T>(f: int -> seq<T>, s: seq<int>, x: int)
    ensures FlatMap(f, s + [x]) == FlatMap(f, s) + f(x)
  {
    FlatMapConcat(f, s, [x]);
    FlatMapOne(f, x);
  }

  /** A map that keeps every element of `s` keeps `s`. */
  lemma {:induction false} FlatMapFixed(f: int -> seq<int>, s: seq<int>)
    requires forall i :: 0 <= i < |s| ==> f(s[i]) == [s[i]]
    ensures FlatMap(f, s) == s
  {
    if s != [] {
      FlatMapFixed(f, s[1..]);
      assert s == [s[0]] + s[1..];
    }
  }

  lemma {:induction false} FlatMapMember<T>(f: int -> seq<T>, s: seq<int>, y: T) returns (x: int)
    requires y in FlatMap(f, s)
    ensures x in s && y in f(x)
  {
    if y in f(s[0]) {
      x := s[0];
    } else {
      x := FlatMapMember(f, s[1..], y);
    }
  }
}
