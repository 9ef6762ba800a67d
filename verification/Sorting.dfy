/** What the program relies on when it calls sort.Slice: the result is an ordered permutation,
  and nothing is promised about elements with equal keys. */
module Sorting {
  import opened Forest

  ghost predicate Ordered(s: seq<Node>, key: Node -> int) {
    forall i, j :: 0 <= i < j < |s| ==> key(s[i]) <= key(s[j])
  }

  ghost predicate StrictlyOrdered(s: seq<Node>, key: Node -> int) {
    forall i, j :: 0 <= i < j < |s| ==> key(s[i]) < key(s[j])
  }

  ghost predicate SortOf(sorted: seq<Node>, s: seq<Node>, key: Node -> int) {
    multiset(sorted) == multiset(s) && Ordered(sorted, key)
  }

  lemma SameElements(s: seq<Node>, t: seq<Node>, x: Node)
    requires multiset(s) == multiset(t) && x in s
    ensures x in t && |s| == |t|
  {
    assert x in multiset(s);
    assert |multiset(s)| == |s| && |multiset(t)| == |t|;
  }

  lemma LastElementsAgree(s: seq<Node>, t: seq<Node>, key: Node -> int)
    requires StrictlyOrdered(s, key) && Ordered(t, key)
    requires multiset(s) == multiset(t) && s != []
    ensures t != [] && s[|s| - 1] == t[|t| - 1]
  {
    SameElements(s, t, s[|s| - 1]);
    SameElements(t, s, t[|t| - 1]);
    var i :| 0 <= i < |t| && t[i] == s[|s| - 1];
    var j :| 0 <= j < |s| && s[j] == t[|t| - 1];
    assert key(t[i]) <= key(t[|t| - 1]);
  }

  lemma WithoutLast(s: seq<Node>)
    requires s != []
    ensures multiset(s[..|s| - 1]) == multiset(s) - multiset{s[|s| - 1]}
  {
    assert s == s[..|s| - 1] + [s[|s| - 1]];
  }

  /** When keys are distinct the sort has only one possible outcome. */
  lemma {:induction false} DistinctKeysSortOneWay(s: seq<Node>, t: seq<Node>, key: Node -> int)
    requires StrictlyOrdered(s, key) && Ordered(t, key)
    requires multiset(s) == multiset(t)
    ensures s == t
    decreases |s|
  {
    if s == [] {
      assert |multiset(t)| == |t|;
    } else {
      LastElementsAgree(s, t, key);
      WithoutLast(s);
      WithoutLast(t);
      DistinctKeysSortOneWay(s[..|s| - 1], t[..|t| - 1], key);
      assert s == s[..|s| - 1] + [s[|s| - 1]] && t == t[..|t| - 1] + [t[|t| - 1]];
    }
  }

  lemma InsertedElements(s: seq<Node>, i: nat, x: Node)
    requires i <= |s|
    ensures multiset(s[..i] + [x] + s[i..]) == multiset(s + [x])
  {
    assert s == s[..i] + s[i..];
  }

  ghost predicate Splits(s: seq<Node>, i: nat, x: Node, key: Node -> int)
    requires i <= |s|
  {
    && (forall k :: 0 <= k < i ==> key(s[k]) <= key(x))
    && forall k :: i <= k < |s| ==> key(x) < key(s[k])
  }

  method InsertionPoint(s: seq<Node>, x: Node, key: Node -> int) returns (i: nat)
    requires Ordered(s, key)
    ensures i <= |s| && Splits(s, i, x, key)
  {
    i := |s|;
    while i > 0 && key(s[i - 1]) > key(x)
      invariant i <= |s|
      invariant forall k :: i <= k < |s| ==> key(x) < key(s[k])
    {
      i := i - 1;
    }
  }

  lemma InsertedInOrder(s: seq<Node>, i: nat, x: Node, key: Node -> int)
    requires i <= |s| && Ordered(s, key) && Splits(s, i, x, key)
    ensures Ordered(s[..i] + [x] + s[i..], key)
  {
    var r := s[..i] + [x] + s[i..];
    forall j, k | 0 <= j < k < |r| ensures key(r[j]) <= key(r[k]) {
      assert r[j] == if j < i then s[j] else if j == i then x else s[j - 1];
      assert r[k] == if k < i then s[k] else if k == i then x else s[k - 1];
    }
  }

  /** Stands for the library sort; callers may use only its contract. */
  method Sort(s: seq<Node>, key: Node -> int) returns (sorted: seq<Node>)
    ensures SortOf(sorted, s, key)
  {
    sorted := [];
    for n := 0 to |s|
      invariant multiset(sorted) == multiset(s[..n])
      invariant Ordered(sorted, key)
    {
      var i := InsertionPoint(sorted, s[n], key);
      InsertedInOrder(sorted, i, s[n], key);
      InsertedElements(sorted, i, s[n]);
      assert s[..n + 1] == s[..n] + [s[n]];
      sorted := sorted[..i] + [s[n]] + sorted[i..];
    }
    assert s[..|s|] == s;
  }
}
