/** Sequence helpers shared by both generators: mapping, the order-preserving
    filter that both member extractions are, and occurrence counting. */
module Seqs {

  import opened Wrappers

  /** Applies `f` to every element, keeping the order. */
  function Map<T, U>(s: seq<T>, f: T -> U): seq<U>
  {
    seq(|s|, k requires 0 <= k < |s| => f(s[k]))
  }

  lemma MapSnoc<T, U>(s: seq<T>, x: T, f: T -> U)
    ensures Map(s + [x], f) == Map(s, f) + [f(x)]
  {
    assert Map(s + [x], f) == Map(s, f) + [f(x)];
  }

  /** Keeps `u` for every element whose `f` is `Some(u)`, in the order of `s`:
      a loop that walks `s` and appends to a list. */
  function FilterMap<T, U>(s: seq<T>, f: T -> Option<U>): (r: seq<U>)
    ensures |r| <= |s|
    decreases |s|
  {
    if s == [] then []
    else
      var kept := FilterMap(s[..|s| - 1], f);
      match f(s[|s| - 1])
      case Some(u) => kept + [u]
      case None => kept
  }

  /** One more element at the end adds its image, if any, at the end. */
  lemma FilterMapSnoc<T, U>(s: seq<T>, x: T, f: T -> Option<U>)
    ensures FilterMap(s + [x], f) == FilterMap(s, f) + (if f(x).Some? then [f(x).value] else [])
  {
    assert (s + [x])[..|s + [x]| - 1] == s;
  }

  /** The positions in `s` that `FilterMap` keeps: they are strictly
      increasing, every one of them is kept with the value `f` gives it, and
      no position whose `f` is `Some` is missing. So `FilterMap(s, f)` is
      exactly the order-preserving subsequence of the kept elements. */
  function KeptIndices<T, U>(s: seq<T>, f: T -> Option<U>): (idx: seq<nat>)
    ensures |idx| == |FilterMap(s, f)|
    ensures forall k :: 0 <= k < |idx| ==> idx[k] < |s| && f(s[idx[k]]) == Some(FilterMap(s, f)[k])
    ensures forall k, l :: 0 <= k < l < |idx| ==> idx[k] < idx[l]
    ensures forall i :: 0 <= i < |s| && f(s[i]).Some? ==> i in idx
    decreases |s|
  {
    if s == [] then []
    else
      var init := s[..|s| - 1];
      assert s == init + [s[|s| - 1]];
      FilterMapSnoc(init, s[|s| - 1], f);
      var idx := KeptIndices(init, f);
      if f(s[|s| - 1]).Some? then idx + [|s| - 1] else idx
  }

  /** Number of occurrences of `x` in `s`. */
  function Count<T(==)>(s: seq<T>, x: T): (n: nat)
    ensures n <= |s|
    ensures n == 0 <==> x !in s
    decreases |s|
  {
    if s == [] then 0
    else
      assert s == s[..|s| - 1] + [s[|s| - 1]];
      Count(s[..|s| - 1], x) + (if s[|s| - 1] == x then 1 else 0)
  }

  lemma {:induction false} CountAppend<T>(a: seq<T>, b: seq<T>, x: T)
    ensures Count(a + b, x) == Count(a, x) + Count(b, x)
    decreases |b|
  {
    if b == [] {
      assert a + b == a;
    } else {
      var init := b[..|b| - 1];
      assert b == init + [b[|b| - 1]];
      assert (a + b)[..|a + b| - 1] == a + init;
      CountAppend(a, init, x);
    }
  }
}
