/** Searching and filling sequences. */
module Sequences {
  /** The first position of `x` at or after `from`, or the length. */
  function Find<T(==)>(s: seq<T>, x: T, from: nat): (i: nat)
    requires from <= |s|
    ensures from <= i <= |s|
    ensures i < |s| ==> s[i] == x
    ensures forall k :: from <= k < i ==> s[k] != x
    decreases |s| - from
  {
    if from == |s| || s[from] == x then from else Find(s, x, from + 1)
  }

  lemma FindAfter<T>(prefix: seq<T>, x: T, rest: seq<T>, from: nat)
    requires from <= |prefix| && x !in prefix[from..]
    ensures Find(prefix + [x] + rest, x, from) == |prefix|
  {
    var s := prefix + [x] + rest;
    assert s[|prefix|] == x;
    assert forall k :: from <= k < |prefix| ==> s[k] == prefix[from..][k - from];
  }

  function Repeat<T>(x: T, n: nat): (r: seq<T>)
    ensures |r| == n && forall i :: 0 <= i < n ==> r[i] == x
  {
    seq(n, i => x)
  }

  lemma Associate<T>(a: seq<T>, b: seq<T>, c: seq<T>)
    ensures a + (b + c) == (a + b) + c
  {
  }
}
