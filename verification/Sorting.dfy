/** The library sort, seen only through its contract: some permutation in key order. */
module Sorting {

  ghost predicate SortedBy<T>(s: seq<T>, key: T -> int) {
    forall i, j :: 0 <= i < j < |s| ==> key(s[i]) <= key(s[j])
  }

  method Sort<T>(s: seq<T>, key: T -> int) returns (sorted: seq<T>)
    ensures multiset(sorted) == multiset(s) && SortedBy(sorted, key)
  {
    sorted := [];
    for i := 0 to |s|
      invariant multiset(sorted) == multiset(s[..i]) && SortedBy(sorted, key)
    {
      assert s[..i + 1] == s[..i] + [s[i]];
      sorted := Insert(sorted, s[i], key);
    }
    assert s[..|s|] == s;
  }

  method Insert<T>(s: seq<T>, x: T, key: T -> int) returns (r: seq<T>)
    requires SortedBy(s, key)
    ensures multiset(r) == multiset(s) + multiset{x} && SortedBy(r, key)
  {
    var k := |s|;
    while k > 0 && key(s[k - 1]) > key(x)
      invariant 0 <= k <= |s|
      invariant forall j :: k <= j < |s| ==> key(s[j]) > key(x)
    {
      k := k - 1;
    }
    InsertKeepsOrder(s, k, x, key);
    InsertAddsOne(s, k, x);
    r := s[..k] + [x] + s[k..];
  }

  lemma InsertKeepsOrder<T>(s: seq<T>, k: nat, x: T, key: T -> int)
    requires SortedBy(s, key) && k <= |s|
    requires k > 0 ==> key(s[k - 1]) <= key(x)
    requires forall j :: k <= j < |s| ==> key(s[j]) > key(x)
    ensures SortedBy(s[..k] + [x] + s[k..], key)
  {
    var front, back := s[..k], s[k..];
    assert forall i :: 0 <= i < k ==> front[i] == s[i] && key(s[i]) <= key(s[k - 1]);
    assert forall j :: 0 <= j < |back| ==> back[j] == s[k + j];
    Joined(front, x, back, key);
  }

  lemma InsertAddsOne<T>(s: seq<T>, k: nat, x: T)
    requires k <= |s|
    ensures multiset(s[..k] + [x] + s[k..]) == multiset(s) + multiset{x}
  {
    assert s == s[..k] + s[k..];
  }

  lemma Joined<T>(front: seq<T>, x: T, back: seq<T>, key: T -> int)
    requires SortedBy(front, key) && SortedBy(back, key)
    requires forall i :: 0 <= i < |front| ==> key(front[i]) <= key(x)
    requires forall j :: 0 <= j < |back| ==> key(x) <= key(back[j])
    ensures SortedBy(front + [x] + back, key)
  {
  }
}
