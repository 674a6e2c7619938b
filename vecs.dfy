/** The `Vec` operations the stores rely on, over Dafny sequences. */
module Vecs {

  /** No element occurs twice. */
  predicate Distinct<X(==)>(s: seq<X>)
  {
    forall i, j :: 0 <= i < j < |s| ==> s[i] != s[j]
  }

  /** `Vec::swap_remove(i)`: the last element takes the place of element `i`, and the
      vector shrinks by one. */
  function SwapRemove<X>(s: seq<X>, i: nat): (r: seq<X>)
    requires i < |s|
    ensures |r| == |s| - 1
  {
    s[i := s[|s| - 1]][..|s| - 1]
  }

  /** What swap-remove does, position by position: every position other than `i` keeps its
      element, and position `i` (unless it was the last) receives the old last element. */
  lemma SwapRemoveAt<X>(s: seq<X>, i: nat)
    requires i < |s|
    ensures forall j :: 0 <= j < |s| - 1 && j != i ==> SwapRemove(s, i)[j] == s[j]
    ensures i < |s| - 1 ==> SwapRemove(s, i)[i] == s[|s| - 1]
    ensures i == |s| - 1 ==> SwapRemove(s, i) == s[..i]
  {
  }

  /** Swap-remove drops exactly one occurrence of `s[i]` and keeps every other element. */
  lemma SwapRemoveMultiset<X>(s: seq<X>, i: nat)
    requires i < |s|
    ensures multiset(SwapRemove(s, i)) == multiset(s) - multiset{s[i]}
  {
    var n := |s|;
    var r := SwapRemove(s, i);
    if i == n - 1 {
      assert s == r + [s[i]];
    } else {
      var mid := s[i + 1..n - 1];
      assert s == s[..i] + [s[i]] + mid + [s[n - 1]];
      assert r == s[..i] + [s[n - 1]] + mid;
      assert multiset(s) == multiset(s[..i]) + multiset{s[i]} + multiset(mid) + multiset{s[n - 1]};
      assert multiset(r) == multiset(s[..i]) + multiset{s[n - 1]} + multiset(mid);
    }
  }

  /** Swap-remove of a duplicate-free vector leaves a duplicate-free vector without `s[i]`. */
  lemma SwapRemoveDistinct<X>(s: seq<X>, i: nat)
    requires i < |s| && Distinct(s)
    ensures Distinct(SwapRemove(s, i))
    ensures forall x :: x in SwapRemove(s, i) <==> x in s && x != s[i]
  {
    SwapRemoveAt(s, i);
    var r := SwapRemove(s, i);
    var n := |s|;
    forall x
      ensures x in r <==> x in s && x != s[i]
    {
      if x in r {
        var j :| 0 <= j < |r| && r[j] == x;
        if j == i { assert x == s[n - 1]; } else { assert x == s[j]; }
      }
      if x in s && x != s[i] {
        var j :| 0 <= j < n && s[j] == x;
        if j == n - 1 { assert r[i] == x; } else { assert r[j] == x; }
      }
    }
    forall a, b | 0 <= a < b < |r|
      ensures r[a] != r[b]
    {
      var a', b' := if a == i then n - 1 else a, if b == i then n - 1 else b;
      assert r[a] == s[a'] && r[b] == s[b'];
    }
  }

  /** `a.iter().zip(b.iter())` over two columns of one length. */
  function Zip<A, B>(a: seq<A>, b: seq<B>): (r: seq<(A, B)>)
    requires |a| == |b|
    ensures |r| == |a| && forall i :: 0 <= i < |r| ==> r[i] == (a[i], b[i])
  {
    if a == [] then [] else [(a[0], b[0])] + Zip(a[1..], b[1..])
  }
}
