/**
 Notions shared by all models: optional values, sequences without repetition, and a little arithmetic.
 */
module Basics {
  datatype Option<+T> = None | Some(value: T)

  function Max(a: int, b: int): int { if a > b then a else b }

  ghost predicate Distinct(s: seq<int>) {
    forall i, j :: 0 <= i < j < |s| ==> s[i] != s[j]
  }

  /** The sequence without the first occurrence of x. */
  function Without(s: seq<int>, x: int): seq<int> {
    if s == [] then [] else if s[0] == x then s[1..] else [s[0]] + Without(s[1..], x)
  }

  lemma {:induction false} WithoutDistinct(s: seq<int>, x: int)
    requires Distinct(s)
    ensures Distinct(Without(s, x)) && forall y :: y in Without(s, x) <==> y in s && y != x
  {
    if s != [] {
      assert s[0] !in s[1..];
      assert forall y :: y in s <==> y == s[0] || y in s[1..];
      if s[0] != x {
        WithoutDistinct(s[1..], x);
      }
    }
  }

  /** The bytes of `piece` laid over `base` from position p on. */
  function Overlay(base: seq<int>, p: int, piece: seq<int>): (r: seq<int>)
    requires 0 <= p && p + |piece| <= |base|
    ensures |r| == |base|
    ensures forall k :: 0 <= k < |base| ==> r[k] == if p <= k < p + |piece| then piece[k - p] else base[k]
  {
    base[..p] + piece + base[p + |piece|..]
  }

  lemma Scale(i: int, j: int, p: int)
    requires i <= j && p >= 1
    ensures i * p <= j * p
  {
  }

  lemma Quotient(a: int, j: int, p: int)
    requires p >= 1 && j * p <= a < j * p + p
    ensures a / p == j
  {
    assert a == a / p * p + a % p;
    if a / p < j { Scale(a / p + 1, j, p); }
    if a / p > j { Scale(j + 1, a / p, p); }
  }
}
