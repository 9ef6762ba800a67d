/** The answer to a request for leaves. The request promises leaves; the answer is selected from all
  descendants. This module says which answers there are and when they keep the promise.
*/
module LeafRequests {
  import opened Sets
  import opened Forest
  import opened Sorting
  import opened Ingestion
  import opened HonestPeer

  // ---------- Answers exist ----------

  lemma {:induction false} NewestExists(candidates: Nodes) returns (x: Node)
    requires candidates != {}
    ensures x in candidates && forall y :: y in candidates ==> CreatedOf(y) <= CreatedOf(x)
    decreases |candidates|
  {
    x :| x in candidates;
    var rest := candidates - {x};
    assert forall y :: y in candidates ==> y == x || y in rest;
    if rest != {} {
      var y := NewestExists(rest);
      if CreatedOf(x) < CreatedOf(y) {
        x := y;
      }
    }
  }

  lemma LatestPlusNewest(older: seq<Node>, candidates: Nodes, max: nat, x: Node)
    requires max > 0 && x in candidates && LatestOf(older, candidates - {x}, max - 1)
    requires forall y :: y in candidates ==> CreatedOf(y) <= CreatedOf(x)
    ensures LatestOf(older + [x], candidates, max)
  {
    assert ToSet(older + [x]) == ToSet(older) + {x};
    AppendNewest(older, x);
  }

  lemma AppendNewest(older: seq<Node>, x: Node)
    requires Ordered(older, CreatedOf) && forall y :: y in ToSet(older) ==> CreatedOf(y) <= CreatedOf(x)
    ensures Ordered(older + [x], CreatedOf)
  {
    assert forall i :: 0 <= i < |older| ==> older[i] in ToSet(older);
  }

  lemma {:induction false} LatestExists(candidates: Nodes, max: nat) returns (ns: seq<Node>)
    ensures LatestOf(ns, candidates, max)
    decreases max
  {
    if max == 0 || candidates == {} {
      ns := [];
    } else {
      var x := NewestExists(candidates);
      var older := LatestExists(candidates - {x}, max - 1);
      LatestPlusNewest(older, candidates, max, x);
      ns := older + [x];
    }
  }

  /** In a closed store the leaves below a node are the stored nodes that have it for an ancestor and
    are themselves nobody's ancestor. */
  lemma LeavesExact(s: Nodes, r: Node, n: Node)
    requires Closed(s)
    ensures n in Leaves(s, HashOf(r))
       <==> n in s && r in Ancestors(n) && forall m :: m in s ==> n !in Ancestors(m)
  {
    DescendantsExact(s, r, n);
    if n in Leaves(s, HashOf(r)) {
      forall m | m in s ensures n !in Ancestors(m) {
        LeafIsNoAncestor(s, n, m);
      }
    } else if n in Descendants(s, HashOf(r)) {
      var m :| m in s && m.ParentId() == HashOf(n);
      assert n in Ancestors(m);
    }
  }

  lemma {:induction false} LeafIsNoAncestor(s: Nodes, n: Node, m: Node)
    requires Closed(s) && m in s && forall x :: x in s ==> x.ParentId() != HashOf(n)
    ensures n !in Ancestors(m)
    decreases m
  {
    if m.ParentId().HashOf? {
      assert m.ParentId() in m.Needs();
      LeafIsNoAncestor(s, n, m.ParentId().node);
    }
  }

  // ---------- Answers that are leaves ----------

  /** The candidates created after `x`. */
  function NewerThan(x: Node, candidates: Nodes): Nodes {
    set y | y in candidates && CreatedOf(y) > CreatedOf(x)
  }

  /** An answer holds everything newer than anything it holds. */
  lemma NewerAreSelected(ns: seq<Node>, candidates: Nodes, max: nat, x: Node)
    requires LatestOf(ns, candidates, max) && x in ns
    ensures |NewerThan(x, candidates)| < max
  {
    var newer := NewerThan(x, candidates);
    forall y | y in newer ensures y in ToSet(ns) - {x} {
      assert y !in ns ==> CreatedOf(y) <= CreatedOf(x);
    }
    assert x in ToSet(ns);
    SubsetSize(newer, ToSet(ns) - {x});
  }

  /** Whatever has fewer than `max` newer candidates is in some answer. */
  lemma {:induction false} AnswerWith(x: Node, candidates: Nodes, max: nat) returns (ns: seq<Node>)
    requires x in candidates && |NewerThan(x, candidates)| < max
    ensures LatestOf(ns, candidates, max) && x in ToSet(ns)
    decreases max
  {
    var newest := NewestExists(candidates);
    if CreatedOf(newest) > CreatedOf(x) {
      var rest := candidates - {newest};
      assert NewerThan(x, candidates) == NewerThan(x, rest) + {newest};
      var older := AnswerWith(x, rest, max - 1);
      LatestPlusNewest(older, candidates, max, newest);
      ns := older + [newest];
    } else {
      var older := LatestExists(candidates - {x}, max - 1);
      LatestPlusNewest(older, candidates, max, x);
      ns := older + [x];
    }
  }

  predicate NewerFill(x: Node, candidates: Nodes, max: nat) {
    |NewerThan(x, candidates)| >= max
  }

  ghost predicate OnlyLeaves(s: Nodes, root: Id, max: nat) {
    forall ns :: LatestOf(ns, Descendants(s, root), max) ==> ToSet(ns) <= Leaves(s, root)
  }

  /** The answer is sure to consist of leaves exactly when each descendant with a child is crowded
    out by newer descendants. */
  lemma LeavesPromiseExact(s: Nodes, root: Id, max: nat)
    ensures OnlyLeaves(s, root, max)
       <==> forall x :: x in Descendants(s, root) && x !in Leaves(s, root) ==> NewerFill(x, Descendants(s, root), max)
  {
    var candidates, leaves := Descendants(s, root), Leaves(s, root);
    if OnlyLeaves(s, root, max) {
      forall x | x in candidates && x !in leaves ensures NewerFill(x, candidates, max) {
        if !NewerFill(x, candidates, max) {
          var ns := AnswerWith(x, candidates, max);
        }
      }
    } else {
      var ns :| LatestOf(ns, candidates, max) && !(ToSet(ns) <= leaves);
      var x :| x in ToSet(ns) && x !in leaves;
      NewerAreSelected(ns, candidates, max, x);
    }
  }

  /** `d` replies to `c`, which replies to the community itself. */
  predicate Thread(author: Node, community: Node, c: Node, d: Node) {
    && author.Identity? && community.Community? && community.author == HashOf(author)
    && c.Reply? && c.author == HashOf(author) && c.parent == c.community == HashOf(community) && c.depth == 1
    && d.Reply? && d.author == HashOf(author) && d.parent == HashOf(c) && d.community == HashOf(community)
    && d.depth == 2
    && c.created <= d.created
  }

  lemma ThreadSound(author: Node, community: Node, c: Node, d: Node)
    requires Thread(author, community, c, d)
    ensures Sound({author, community, c, d})
  {
    assert WellFormed(author) && WellFormed(community);
    assert WellFormed(c) && c.TreeDepth() == 1 && c.CommunityId() == HashOf(community);
    assert WellFormed(d);
  }

  lemma ThreadDescendants(author: Node, community: Node, c: Node, d: Node)
    requires Thread(author, community, c, d)
    ensures var s := {author, community, c, d};
            Descendants(s, HashOf(community)) == {c, d} && c !in Leaves(s, HashOf(community))
  {
    var s, root := {author, community, c, d}, HashOf(community);
    assert Under(s, root, c) && Under(s, root, d) && !Under(s, root, author) && !Under(s, root, community);
    assert d.ParentId() == HashOf(c);
  }

  /** The promise does fail: of a community with a reply `c` that has a reply `d`, two leaves are
    asked for and `c` is in the answer. */
  lemma InnerNodeAnswered(author: Node, community: Node, c: Node, d: Node)
    requires Thread(author, community, c, d)
    ensures var s := {author, community, c, d};
            && Sound(s)
            && LatestOf([c, d], Descendants(s, HashOf(community)), 2)
            && c !in Leaves(s, HashOf(community))
  {
    ThreadSound(author, community, c, d);
    ThreadDescendants(author, community, c, d);
    assert ToSet([c, d]) == {c, d};
    assert c != d;
  }

  lemma PromiseFails()
    ensures exists s, root :: Sound(s) && !OnlyLeaves(s, root, 2)
  {
    var author := Identity("a", 0);
    var community := Community(HashOf(author), "", 1);
    var c := Reply(HashOf(author), HashOf(community), HashOf(community), 1, "c", 2);
    var d := Reply(HashOf(author), HashOf(c), HashOf(community), 2, "d", 3);
    InnerNodeAnswered(author, community, c, d);
    assert c in ToSet([c, d]);
    assert !OnlyLeaves({author, community, c, d}, HashOf(community), 2);
  }
}
