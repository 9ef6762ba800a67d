/** Ingestion fed by a peer that answers with the handlers of this program.

  A program is safe when every instruction finds what it needs either in the store or among
  what the instructions before it promise to store. Safety survives every step, which is why
  no validation fails, and nothing promised is lost, which is why the run ends with it stored.
*/
module HonestPeer {
  import opened Forest
  import opened Ingestion
  import opened Sorting

  function Named(id: Id): Nodes {
    if id.HashOf? then {id.node} else {}
  }

  function AuthorOf(n: Node): Nodes {
    if n.Identity? then {} else Named(n.author)
  }

  function ToSet(ns: seq<Node>): Nodes {
    set n | n in ns
  }

  // ---------- What the handlers answer ----------

  /** OnQuery: the known nodes among those asked for, in the order asked. */
  function Found(ids: seq<Id>, s: Nodes): seq<Node> {
    if ids == [] then [] else
    (if Has(s, ids[0]) then [ids[0].node] else []) + Found(ids[1..], s)
  }

  lemma {:induction false} FoundThen(ids: seq<Id>, more: seq<Id>, s: Nodes)
    ensures Found(ids + more, s) == Found(ids, s) + Found(more, s)
    decreases |ids|
  {
    if ids == [] {
      assert ids + more == more;
    } else {
      var first := if Has(s, ids[0]) then [ids[0].node] else [];
      assert (ids + more)[0] == ids[0] && (ids + more)[1..] == ids[1..] + more;
      FoundThen(ids[1..], more, s);
      assert Found(ids + more, s) == first + (Found(ids[1..], s) + Found(more, s));
    }
  }

  /** How many of the first `k` ids are known. */
  function KnownAmong(ids: seq<Id>, s: Nodes, k: nat): nat
    requires k <= |ids|
  {
    |set i | 0 <= i < k && ids[i].HashOf? && ids[i].node in s|
  }

  lemma KnownNext(ids: seq<Id>, s: Nodes, k: nat)
    requires k < |ids|
    ensures KnownAmong(ids, s, k + 1) == KnownAmong(ids, s, k) + if Has(s, ids[k]) then 1 else 0
  {
    var before := set i | 0 <= i < k && ids[i].HashOf? && ids[i].node in s;
    var now := set i | 0 <= i < k + 1 && ids[i].HashOf? && ids[i].node in s;
    assert now == if Has(s, ids[k]) then before + {k} else before;
  }

  lemma FoundNext(ids: seq<Id>, s: Nodes, k: nat)
    requires k < |ids|
    ensures Found(ids[..k + 1], s) == Found(ids[..k], s) + if Has(s, ids[k]) then [ids[k].node] else []
  {
    assert ids[..k + 1] == ids[..k] + [ids[k]] && [ids[k]][1..] == [];
    FoundThen(ids[..k], [ids[k]], s);
    assert Found([ids[k]], s) == (if Has(s, ids[k]) then [ids[k].node] else []) + Found([], s);
  }

  lemma {:induction false} FoundCount(ids: seq<Id>, s: Nodes, k: nat)
    requires k <= |ids|
    ensures |Found(ids[..k], s)| == KnownAmong(ids, s, k)
    decreases k
  {
    if k == 0 {
      assert ids[..0] == [];
      assert KnownAmong(ids, s, 0) == 0;
    } else {
      FoundCount(ids, s, k - 1);
      FoundNext(ids, s, k - 1);
      KnownNext(ids, s, k - 1);
    }
  }

  /** Every known node asked for is answered, in the place that the order of the ids gives it, and
    nothing else is. */
  lemma {:induction false} FoundExact(ids: seq<Id>, s: Nodes, k: nat, i: nat)
    requires i < k <= |ids| && ids[i].HashOf? && ids[i].node in s
    ensures |Found(ids[..k], s)| == KnownAmong(ids, s, k)
    ensures KnownAmong(ids, s, i) < |Found(ids[..k], s)| && Found(ids[..k], s)[KnownAmong(ids, s, i)] == ids[i].node
    decreases k
  {
    FoundCount(ids, s, k);
    FoundCount(ids, s, k - 1);
    FoundNext(ids, s, k - 1);
    if i < k - 1 {
      FoundExact(ids, s, k - 1, i);
    }
  }

  /** OnLeavesOf: the newest `max` of the candidates, oldest first. */
  ghost predicate LatestOf(ns: seq<Node>, candidates: Nodes, max: nat) {
    && ToSet(ns) <= candidates
    && |ns| == |ToSet(ns)| == Min(max, |candidates|)
    && Ordered(ns, CreatedOf)
    && forall x, y :: x in candidates && x !in ns && y in ns ==> CreatedOf(x) <= CreatedOf(y)
  }

  /** The answers a peer holding `peer` may give to a blocking instruction. The ancestry used
    by a synchronization may arrive in any order, because it is sorted before use. */
  ghost predicate HonestAnswer(i: Instr, peer: Nodes, answer: Answer) {
    && (i.AwaitAuthor? ==> answer == Response(Found([i.author], peer)))
    && (i.AwaitAncestry? ==> i.node in peer && answer == Response(Lineage(peer, i.node, i.node.TreeDepth())))
    && (i.AwaitLineage? ==>
          && i.node in peer && answer.Response?
          && SortOf(answer.nodes, Lineage(peer, i.node, i.node.TreeDepth()), DepthOf))
    && (i.AwaitLeaves? ==> answer.Response? && LeavesAnswered(answer.nodes, i.root, i.max, peer))
  }

  /** The answer was computed when the peer's store was perhaps smaller than it is now. Answers
    about authors and ancestry do not change once the peer knows the node. */
  ghost predicate LeavesAnswered(ns: seq<Node>, root: Node, max: nat, peer: Nodes) {
    exists earlier :: earlier <= peer && Sound(earlier) && LatestOf(ns, Descendants(earlier, HashOf(root)), max)
  }

  // ---------- Orders in which validation succeeds ----------

  /** Each node's dependencies, its author aside, come before it. */
  ghost predicate DependenciesPrecede(ns: seq<Node>) {
    forall k :: 0 <= k < |ns| ==> Placed(ns, k)
  }

  ghost predicate Placed(ns: seq<Node>, k: nat)
    requires k < |ns|
  {
    WellFormed(ns[k]) && ValidDeep(ns[k], ToSet(ns[..k]) + AuthorOf(ns[k]))
  }

  lemma PlacedByPosition(ns: seq<Node>, k: nat)
    requires k < |ns| && WellFormed(ns[k])
    requires ns[k].Reply? ==> k > 0 && ns[k].parent == HashOf(ns[k - 1]) && ns[k].community == HashOf(ns[0])
    ensures Placed(ns, k)
  {
    if ns[k].Reply? {
      assert ns[..k][0] == ns[0] && ns[..k][k - 1] == ns[k - 1];
    }
  }

  lemma AncestryInOrder(n: Node)
    requires WellFormed(n)
    ensures DependenciesPrecede(Ancestors(n)) && DependenciesPrecede(Ancestors(n) + [n])
  {
    AncestorsByDepth(n);
    var up, all, c := Ancestors(n), Ancestors(n) + [n], n.CommunityId();
    assert up != [] ==> InPlace(up, 0, c);
    forall k | 0 <= k < |up| ensures Placed(up, k) && Placed(all, k) {
      assert InPlace(up, k, c);
      PlacedByPosition(up, k);
      PlacedByPosition(all, k);
    }
    PlacedByPosition(all, |up|);
  }

  /** Depth sort enables validation: whatever permutation of a node's complete ancestry arrives,
    sorting it by depth restores root-first order, so that with the node appended every
    dependency comes before its dependents. */
  lemma {:induction false} DepthSortRestoresOrder(n: Node, sorted: seq<Node>, arrived: seq<Node>)
    requires WellFormed(n)
    requires multiset(arrived) == multiset(Ancestors(n)) && SortOf(sorted, arrived, DepthOf)
    ensures sorted == Ancestors(n) && DependenciesPrecede(sorted + [n])
  {
    AncestorsByDepth(n);
    var up := Ancestors(n);
    forall i, j | 0 <= i < j < |up| ensures DepthOf(up[i]) < DepthOf(up[j]) {
      assert InPlace(up, i, n.CommunityId()) && InPlace(up, j, n.CommunityId());
    }
    DistinctKeysSortOneWay(up, sorted, DepthOf);
    AncestryInOrder(n);
  }

  // ---------- Safety of programs ----------

  /** What is in the store once the instruction and its expansion have run. */
  function Promise(i: Instr): Nodes {
    match i
    case EnsureAuthor(n) => AuthorOf(n)
    case AwaitAuthor(a) => Named(a)
    case Add(n) => {n}
    case FetchUnlessValid(n) => if n.Reply? then Named(n.parent) + Named(n.community) else {}
    case Fill(n) => {n}
    case CheckLeaf(n) => {n}
    case AwaitLineage(n) => {n}
    case AwaitAncestry(n) => ToSet(Ancestors(n))
    case _ => {}
  }

  function Promises(p: Program): Nodes {
    if p == [] then {} else Promise(p[0]) + Promises(p[1..])
  }

  /** The instruction cannot fail when these nodes are stored by the time it runs. */
  predicate Ready(i: Instr, s: Nodes) {
    match i
    case EnsureAuthor(n) => n.Identity? || NamesIdentity(n.author)
    case AwaitAuthor(a) => NamesIdentity(a)
    case Validate(n) => ValidDeep(n, s)
    case Add(n) => ValidDeep(n, s)
    case FetchUnlessValid(n) => WellFormed(n) && AuthorOf(n) <= s
    case Fill(n) => WellFormed(n) && ValidDeep(n, s + AuthorOf(n))
    case AwaitAncestry(n) => WellFormed(n)
    case CheckLeaf(n) => WellFormed(n)
    case AwaitLineage(n) => WellFormed(n)
    case _ => true
  }

  predicate Safe(p: Program, s: Nodes) {
    p == [] || (Ready(p[0], s) && Safe(p[1..], s + Promise(p[0])))
  }

  /** The peer holds every node the instruction is about, so it can answer. */
  predicate Known(i: Instr, peer: Nodes) {
    match i
    case EnsureAuthor(n) => AuthorOf(n) <= peer
    case AwaitAuthor(a) => Named(a) <= peer
    case AwaitLeaves(_, _) => true
    case AnnounceLeaves(_) => true
    case _ => i.node in peer
  }

  ghost predicate AllKnown(p: Program, peer: Nodes) {
    forall i :: i in p ==> Known(i, peer)
  }

  lemma {:induction false} SafeGrows(p: Program, s: Nodes, t: Nodes)
    requires s <= t && Safe(p, s)
    ensures Safe(p, t)
    decreases |p|
  {
    if p != [] {
      SafeGrows(p[1..], s + Promise(p[0]), t + Promise(p[0]));
    }
  }

  lemma {:induction false} SafeThen(p: Program, q: Program, s: Nodes)
    requires Safe(p, s) && Safe(q, s + Promises(p))
    ensures Safe(p + q, s) && Promises(p + q) == Promises(p) + Promises(q)
    decreases |p|
  {
    if p == [] {
      assert p + q == q && s + Promises(p) == s;
    } else {
      assert (p + q)[1..] == p[1..] + q;
      assert s + Promises(p) == s + Promise(p[0]) + Promises(p[1..]);
      SafeThen(p[1..], q, s + Promise(p[0]));
    }
  }

  lemma SafeSecure(n: Node, s: Nodes)
    requires WellFormed(n) && ValidDeep(n, s + AuthorOf(n))
    ensures Safe(Secure(n), s) && Promises(Secure(n)) == AuthorOf(n) + {n}
  {
    var p := Secure(n);
    assert p[1..] == [Validate(n), Add(n)] && p[1..][1..] == [Add(n)] && p[1..][1..][1..] == [];
    assert Promise(p[0]) == AuthorOf(n);
    assert Safe([Add(n)], s + AuthorOf(n) + {});
    assert Safe(p[1..], s + AuthorOf(n));
    assert Promises([Add(n)]) == {n};
    assert Promises(p[1..]) == {n};
  }

  lemma {:induction false} SafeSecureAll(ns: seq<Node>, k: nat, s: Nodes)
    requires k <= |ns| && DependenciesPrecede(ns) && ToSet(ns[..k]) <= s
    ensures Safe(SecureAll(ns[k..]), s) && ToSet(ns[k..]) <= Promises(SecureAll(ns[k..]))
    decreases |ns| - k
  {
    if k < |ns| {
      var rest := ns[k..][1..];
      assert rest == ns[k + 1..] && ns[k..][0] == ns[k];
      assert Placed(ns, k);
      SafeSecure(ns[k], s);
      assert ns[..k + 1] == ns[..k] + [ns[k]];
      SafeSecureAll(ns, k + 1, s + Promises(Secure(ns[k])));
      SafeThen(Secure(ns[k]), SecureAll(rest), s);
    }
  }

  lemma {:induction false} SafeFillAll(ns: seq<Node>, k: nat, s: Nodes)
    requires k <= |ns| && DependenciesPrecede(ns) && ToSet(ns[..k]) <= s
    ensures Safe(FillAll(ns[k..]), s) && ToSet(ns[k..]) <= Promises(FillAll(ns[k..]))
    decreases |ns| - k
  {
    if k < |ns| {
      var p := FillAll(ns[k..]);
      assert p[0] == Fill(ns[k]) && p[1..] == FillAll(ns[k + 1..]);
      assert Placed(ns, k);
      assert ns[..k + 1] == ns[..k] + [ns[k]];
      SafeFillAll(ns, k + 1, s + {ns[k]});
      assert ToSet(ns[k..]) == {ns[k]} + ToSet(ns[k + 1..]) by {
        assert ns[k..] == [ns[k]] + ns[k + 1..];
      }
    }
  }

  lemma {:induction false} SafeCheckLeaves(ns: seq<Node>, s: Nodes)
    requires forall n :: n in ns ==> WellFormed(n)
    ensures Safe(CheckLeaves(ns), s) && ToSet(ns) <= Promises(CheckLeaves(ns))
    decreases |ns|
  {
    if ns != [] {
      assert CheckLeaves(ns)[1..] == CheckLeaves(ns[1..]);
      SafeCheckLeaves(ns[1..], s + {ns[0]});
      assert ns == [ns[0]] + ns[1..];
    }
  }

  // ---------- One step against an honest peer ----------

  lemma StoredAuthor(n: Node, peer: Nodes)
    requires Sound(peer) && n in peer
    ensures AuthorOf(n) <= peer && (!n.Identity? ==> NamesIdentity(n.author) && Has(peer, n.author))
  {
    assert !n.Identity? ==> n.author in n.Needs();
  }

  lemma {:induction false} KnownSecureAll(ns: seq<Node>, peer: Nodes)
    requires Sound(peer) && ToSet(ns) <= peer
    ensures AllKnown(SecureAll(ns), peer)
    decreases |ns|
  {
    if ns != [] {
      assert ns[0] in ns && forall n :: n in ns[1..] ==> n in ns;
      StoredAuthor(ns[0], peer);
      KnownSecureAll(ns[1..], peer);
    }
  }

  lemma SingleQuery(a: Id, peer: Nodes)
    requires Has(peer, a)
    ensures Found([a], peer) == [a.node]
  {
    assert [a][1..] == [];
  }

  /** The result of expanding `i` is safe, is known to the peer and keeps the promise of `i`. */
  ghost predicate GoodNext(i: Instr, next: Program, s: Nodes, peer: Nodes) {
    Safe(next, s) && AllKnown(next, peer) && Promise(i) <= s + Promises(next)
  }

  lemma HonestAuthor(a: Id, s: Nodes, peer: Nodes, answer: Answer)
    requires Ready(AwaitAuthor(a), s) && Known(AwaitAuthor(a), peer)
    requires HonestAnswer(AwaitAuthor(a), peer, answer)
    ensures var o := Exec(AwaitAuthor(a), s, answer); o.Continue? && GoodNext(AwaitAuthor(a), o.next, s, peer)
  {
    SingleQuery(a, peer);
    var next := [Validate(a.node), Add(a.node)];
    assert next[1..] == [Add(a.node)] && next[1..][1..] == [];
    assert Promises(next[1..]) == {a.node};
    assert Safe(next[1..], s + {});
  }

  lemma ChainHoldsNeeds(n: Node)
    requires WellFormed(n) && n.Reply?
    ensures {n.parent.node} + Named(n.community) <= ToSet(Ancestors(n))
  {
    AncestorsByDepth(n);
    assert InPlace(Ancestors(n), 0, n.CommunityId());
  }

  lemma HonestFetch(n: Node, s: Nodes, peer: Nodes)
    requires Ready(FetchUnlessValid(n), s) && Known(FetchUnlessValid(n), peer)
    ensures var o := Exec(FetchUnlessValid(n), s, NoAnswer);
            o.Continue? && GoodNext(FetchUnlessValid(n), o.next, s, peer)
  {
    assert n.Reply? ==> n.parent in n.Needs() && n.community in n.Needs();
    if !ValidDeep(n, s) {
      var next := [AwaitAncestry(n), Validate(n)];
      assert next[1..] == [Validate(n)] && next[1..][1..] == [];
      AncestryInOrder(n);
      var up := Ancestors(n);
      assert Placed(up + [n], |up|) && (up + [n])[..|up|] == up;
      assert ValidDeep(n, s + ToSet(up));
      assert Safe(next[1..], s + ToSet(up));
      ChainHoldsNeeds(n);
      assert Promises(next[1..]) == {};
    }
  }

  lemma HonestAncestry(n: Node, s: Nodes, peer: Nodes, answer: Answer)
    requires Sound(peer) && Ready(AwaitAncestry(n), s)
    requires HonestAnswer(AwaitAncestry(n), peer, answer)
    ensures var o := Exec(AwaitAncestry(n), s, answer); o.Continue? && GoodNext(AwaitAncestry(n), o.next, s, peer)
  {
    var up := Ancestors(n);
    FullLineage(peer, n, n.TreeDepth());
    AncestryInOrder(n);
    ClosedHoldsAncestry(peer, n);
    assert up[0..] == up;
    SafeFillAll(up, 0, s);
  }

  lemma HonestLineage(n: Node, s: Nodes, peer: Nodes, answer: Answer)
    requires Sound(peer) && Ready(AwaitLineage(n), s)
    requires HonestAnswer(AwaitLineage(n), peer, answer)
    ensures var o := Exec(AwaitLineage(n), s, answer); o.Continue? && GoodNext(AwaitLineage(n), o.next, s, peer)
  {
    var all := Ancestors(n) + [n];
    FullLineage(peer, n, n.TreeDepth());
    DepthSortRestoresOrder(n, answer.nodes, Ancestors(n));
    ClosedHoldsAncestry(peer, n);
    assert all[0..] == all && n in all;
    SafeSecureAll(all, 0, s);
    KnownSecureAll(all, peer);
  }

  lemma LatestAreStored(ns: seq<Node>, root: Node, max: nat, peer: Nodes)
    requires Sound(peer) && LatestOf(ns, Descendants(peer, HashOf(root)), max)
    ensures forall n :: n in ns ==> n in peer && WellFormed(n)
  {
    assert forall n :: n in ns ==> n in ToSet(ns);
  }

  lemma LeavesAreStored(ns: seq<Node>, root: Node, max: nat, peer: Nodes)
    requires LeavesAnswered(ns, root, max, peer)
    ensures forall n :: n in ns ==> n in peer && WellFormed(n)
  {
    var earlier :| earlier <= peer && Sound(earlier) && LatestOf(ns, Descendants(earlier, HashOf(root)), max);
    LatestAreStored(ns, root, max, earlier);
  }

  lemma KnownCheckLeaves(ns: seq<Node>, root: Node, peer: Nodes)
    requires forall n :: n in ns ==> n in peer
    ensures AllKnown([AnnounceLeaves(root)] + CheckLeaves(ns), peer)
  {
    var p := [AnnounceLeaves(root)] + CheckLeaves(ns);
    forall i | i in p ensures Known(i, peer) {
      assert i == p[0] || i in CheckLeaves(ns);
    }
  }

  lemma GoodAfterLeaves(ns: seq<Node>, root: Node, max: nat, s: Nodes, peer: Nodes)
    requires forall n :: n in ns ==> n in peer && WellFormed(n)
    ensures GoodNext(AwaitLeaves(root, max), [AnnounceLeaves(root)] + CheckLeaves(ns), s, peer)
  {
    var p := [AnnounceLeaves(root)] + CheckLeaves(ns);
    assert p[1..] == CheckLeaves(ns);
    SafeCheckLeaves(ns, s + {});
    KnownCheckLeaves(ns, root, peer);
  }

  lemma HonestLeaves(root: Node, max: nat, s: Nodes, peer: Nodes, answer: Answer)
    requires answer.Response? && LeavesAnswered(answer.nodes, root, max, peer)
    ensures var o := Exec(AwaitLeaves(root, max), s, answer);
            o.Continue? && GoodNext(AwaitLeaves(root, max), o.next, s, peer)
  {
    LeavesAreStored(answer.nodes, root, max, peer);
    GoodAfterLeaves(answer.nodes, root, max, s, peer);
  }

  /** A peer's answer to a request for a known node's ancestry, or for one author, does not depend
    on when it was computed. */
  lemma AnswersStay(n: Node, a: Id, earlier: Nodes, peer: Nodes)
    requires Sound(earlier) && Sound(peer) && earlier <= peer && n in earlier && Has(earlier, a)
    ensures Lineage(earlier, n, n.TreeDepth()) == Lineage(peer, n, n.TreeDepth())
    ensures Found([a], earlier) == Found([a], peer)
  {
    FullLineage(earlier, n, n.TreeDepth());
    FullLineage(peer, n, n.TreeDepth());
  }

  lemma HonestFill(n: Node, s: Nodes, peer: Nodes)
    requires Sound(peer) && Ready(Fill(n), s) && n in peer
    ensures var o := Exec(Fill(n), s, NoAnswer); o.Continue? && GoodNext(Fill(n), o.next, s, peer)
  {
    SafeSecure(n, s);
    StoredAuthor(n, peer);
  }

  lemma HonestExpansion(i: Instr, s: Nodes, peer: Nodes, answer: Answer)
    requires Sound(peer) && Ready(i, s) && Known(i, peer) && HonestAnswer(i, peer, answer)
    ensures var o := Exec(i, s, answer);
            && !o.Abort?
            && (o.Continue? ==> GoodNext(i, o.next, s, peer))
            && (o.Insert? ==> o.node in peer && Promise(i) == {o.node})
            && (o.Announce? ==> Promise(i) == {})
  {
    match i
    case AwaitAuthor(a) => HonestAuthor(a, s, peer, answer);
    case FetchUnlessValid(n) => HonestFetch(n, s, peer);
    case AwaitAncestry(n) => HonestAncestry(n, s, peer, answer);
    case AwaitLineage(n) => HonestLineage(n, s, peer, answer);
    case AwaitLeaves(root, max) => HonestLeaves(root, max, s, peer, answer);
    case Fill(n) => HonestFill(n, s, peer);
    case CheckLeaf(n) => assert [AwaitLineage(n)][1..] == [];
    case EnsureAuthor(n) => assert !n.Identity? ==> [AwaitAuthor(n.author)][1..] == [];
    case _ =>
  }

  /** One step of a run against an honest peer: validation never fails, the run stays safe, and
    everything it promised is either stored by now or still promised. */
  lemma HonestStep(p: Program, s: Nodes, peer: Nodes, answer: Answer)
    requires p != [] && Safe(p, s) && AllKnown(p, peer) && Sound(peer)
    requires HonestAnswer(p[0], peer, answer)
    ensures var o := Exec(p[0], s, answer);
            && !o.Abort?
            && (o.Insert? ==> o.node in peer && ValidDeep(o.node, s))
            && Safe(Remaining(p, o), StoreAfter(s, o))
            && AllKnown(Remaining(p, o), peer)
            && Promises(p) <= StoreAfter(s, o) + Promises(Remaining(p, o))
  {
    var rest := p[1..];
    assert p[0] in p && forall i :: i in rest ==> i in p;
    HonestExpansion(p[0], s, peer, answer);
    match Exec(p[0], s, answer)
    case Continue(next) =>
      SafeGrows(rest, s + Promise(p[0]), s + Promises(next));
      SafeThen(next, rest, s);
    case Insert(n) =>
    case Announce(_) =>
      assert s + Promise(p[0]) == s;
    case Abort(_) =>
  }

  // ---------- What is not asked for ----------

  /** An ingestion of a node that validates already asks for nothing: whatever else is added
    meanwhile, its next step is made without an answer, and the step after follows. */
  lemma ValidNeedsNoPeer(n: Node, k: nat, s: Nodes)
    requires k < |Ingest(n)| && ValidDeep(n, s)
    ensures var o := Exec(Ingest(n)[k], s, NoAnswer);
            !o.Abort? && Remaining(Ingest(n)[k..], o) == Ingest(n)[k + 1..]
  {
    assert !n.Identity? ==> n.author in n.Needs();
    assert Ingest(n)[k..][1..] == Ingest(n)[k + 1..];
    assert [] + Ingest(n)[k + 1..] == Ingest(n)[k + 1..];
  }

  /** The rest of a synchronization all of whose selected leaves are stored. */
  ghost predicate Agreeing(p: Program, s: Nodes) {
    forall i :: i in p ==> i.AnnounceLeaves? || (i.CheckLeaf? && i.node in s)
  }

  /** Peers that agree have nothing to exchange: such a synchronization adds nothing and asks for
    nothing more, whatever else is added meanwhile. */
  lemma AgreeingSyncIsSilent(p: Program, s: Nodes)
    requires p != [] && Agreeing(p, s)
    ensures var o := Exec(p[0], s, NoAnswer);
            !o.Insert? && !o.Abort? && Remaining(p, o) == p[1..] && Agreeing(p[1..], s)
  {
    assert p[0] in p && forall i :: i in p[1..] ==> i in p;
    assert [] + p[1..] == p[1..];
  }

  lemma LeavesAgree(root: Node, max: nat, ns: seq<Node>, s: Nodes)
    requires ToSet(ns) <= s
    ensures var o := Exec(AwaitLeaves(root, max), s, Response(ns));
            o.Continue? && Agreeing(o.next, s)
  {
    forall i | i in CheckLeaves(ns) ensures i.CheckLeaf? && i.node in s {
      var k :| 0 <= k < |ns| && CheckLeaves(ns)[k] == i;
      assert ns[k] in ToSet(ns);
    }
  }
}
