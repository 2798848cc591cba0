/** The contract of the library sorts: any arrangement by descending weight, equal weights in any order. */
module Sorting {

  predicate Descending<T>(s: seq<T>, weight: T -> real) {
    forall a, b :: 0 <= a < b < |s| ==> weight(s[a]) >= weight(s[b])
  }

  method Sort<T>(s: seq<T>, weight: T -> real) returns (r: seq<T>)
    ensures Descending(r, weight) && multiset(r) == multiset(s)
  {
    r := [];
    for i := 0 to |s|
      invariant Descending(r, weight) && multiset(r) == multiset(s[..i])
    {
      assert s[..i + 1] == s[..i] + [s[i]];
      r := Insert(r, s[i], weight);
    }
    assert s[..|s|] == s;
  }

  method Insert<T>(r: seq<T>, x: T, weight: T -> real) returns (s: seq<T>)
    requires Descending(r, weight)
    ensures Descending(s, weight) && multiset(s) == multiset(r) + multiset{x}
  {
    var k: nat := |r|;
    while k > 0 && weight(r[k - 1]) < weight(x)
      invariant k <= |r| && forall j :: k <= j < |r| ==> weight(r[j]) < weight(x)
    {
      k := k - 1;
    }
    s := r[..k] + ([x] + r[k..]);
    InsertedDescends(r, k, x, weight);
    InsertedOnce(r, k, x);
  }

  lemma InsertedOnce<T>(r: seq<T>, k: nat, x: T)
    requires k <= |r|
    ensures multiset(r[..k] + ([x] + r[k..])) == multiset(r) + multiset{x}
  {
    assert r == r[..k] + r[k..];
  }

  lemma InsertedDescends<T>(r: seq<T>, k: nat, x: T, weight: T -> real)
    requires Descending(r, weight) && k <= |r|
    requires forall j :: k <= j < |r| ==> weight(r[j]) < weight(x)
    requires k > 0 ==> weight(r[k - 1]) >= weight(x)
    ensures Descending(r[..k] + ([x] + r[k..]), weight)
  {
    var s := r[..k] + ([x] + r[k..]);
    forall a, b | 0 <= a < b < |s|
      ensures weight(s[a]) >= weight(s[b])
    {
      assert s[a] == (if a < k then r[a] else if a == k then x else r[a - 1]);
      assert s[b] == (if b < k then r[b] else if b == k then x else r[b - 1]);
    }
  }
}
