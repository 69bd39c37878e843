/** Notions about sequences that several modules share. */
module Sequences {

  ghost predicate NoDuplicates<T>(s: seq<T>) {
    forall i, j :: 0 <= i < j < |s| ==> s[i] != s[j]
  }

  /** The first n elements, or as many as there are. */
  function First<T>(s: seq<T>, n: int): (r: seq<T>)
    ensures r <= s && |r| == (if n <= 0 then 0 else if n < |s| then n else |s|)
  {
    if n >= |s| then s else if n <= 0 then [] else s[..n]
  }

  lemma FirstAreSome<T>(s: seq<T>, n: int)
    ensures forall x :: x in First(s, n) ==> x in s
  {
  }

  lemma Glue<T>(a: seq<T>, i: nat, j: nat, k: nat)
    requires i <= j <= k <= |a|
    ensures a[i..k] == a[i..j] + a[j..k]
  {
  }
}
