/** The worker at one end of a connection: the handlers that answer its peer, and the procedures
  that fill its own store from the peer's answers.

  Both stores are shared with other goroutines. Others() stands for everything they may do
  between two accesses of ours: its body does nothing, but callers may rely on its contract
  only, so the procedures are proved against any interference that adds valid nodes.
*/
module Workers {
  import opened Wrappers
  import opened Sets
  import opened Forest
  import opened Sorting
  import opened Ingestion
  import opened HonestPeer
  import opened LeafRequests
  import opened SessionState

  class Store {
    var nodes: Nodes
    ghost var own: Nodes  // the nodes that the worker under study has added

    ghost predicate Healthy()
      reads this
    {
      Sound(nodes) && own <= nodes
    }

    constructor ()
      ensures Healthy() && nodes == {} && own == {}
    {
      nodes, own := {}, {};
    }

    method Others()
      requires Healthy()
      modifies this
      ensures Healthy() && old(nodes) <= nodes && own == old(own)
    {}

    method Holds(id: Id) returns (present: bool)
      requires Healthy()
      modifies this
      ensures Healthy() && old(nodes) <= nodes && own == old(own)
      ensures present == Has(nodes, id)
    {
      Others();
      present := Has(nodes, id);
    }

    method Validates(n: Node) returns (valid: bool)
      requires Healthy()
      modifies this
      ensures Healthy() && old(nodes) <= nodes && own == old(own)
      ensures valid == ValidDeep(n, nodes)
    {
      Others();
      valid := true;
      var needs := n.Needs();
      while needs != {}
        invariant needs <= n.Needs()
        invariant forall d :: d in n.Needs() - needs ==> Has(nodes, d)
        decreases needs
      {
        var d :| d in needs;
        if !Has(nodes, d) {
          return false;
        }
        needs := needs - {d};
      }
    }

    /** The caller has validated the node at some earlier time. */
    method Add(n: Node)
      requires Healthy() && WellFormed(n) && ValidDeep(n, nodes)
      modifies this
      ensures Healthy() && old(nodes) + {n} <= nodes && own == old(own) + {n}
    {
      Others();
      nodes, own := nodes + {n}, own + {n};
    }
  }

  /** How a handler ends: with a reply, with an error that closes the connection, or in a crash. */
  datatype Handled = Answered(nodes: seq<Node>) | HandlerError | Crash

  function Reversed(ns: seq<Node>): seq<Node> {
    if ns == [] then [] else Reversed(ns[1..]) + [ns[0]]
  }

  lemma {:induction false} ReversedThen(ns: seq<Node>, n: Node)
    ensures Reversed(ns + [n]) == [n] + Reversed(ns)
    decreases |ns|
  {
    if ns == [] {
      assert [n][1..] == [];
    } else {
      assert (ns + [n])[1..] == ns[1..] + [n];
      ReversedThen(ns[1..], n);
    }
  }

  lemma {:induction false} ReversedElements(ns: seq<Node>)
    ensures multiset(Reversed(ns)) == multiset(ns)
    decreases |ns|
  {
    if ns != [] {
      ReversedElements(ns[1..]);
      assert ns == [ns[0]] + ns[1..];
    }
  }

  lemma LineageStrictlyOrdered(s: Nodes, n: Node, levels: int)
    requires WellFormed(n)
    ensures StrictlyOrdered(Lineage(s, n, levels), DepthOf)
  {
    AncestorsByDepth(n);
    LineageIsChainSuffix(s, n, levels);
    var up, line := Ancestors(n), Lineage(s, n, levels);
    var k := |up| - |line|;
    forall i | 0 <= i < |line| ensures DepthOf(line[i]) == k + i {
      assert line[i] == up[k + i] && InPlace(up, k + i, n.CommunityId());
    }
  }

  /** In a sound store the depth sort of a walk up the tree is its reversal. */
  lemma SortedWalkIsLineage(s: Nodes, n: Node, levels: int, walk: seq<Node>, sorted: seq<Node>)
    requires WellFormed(n) && Reversed(walk) == Lineage(s, n, levels) && SortOf(sorted, walk, DepthOf)
    ensures sorted == Lineage(s, n, levels)
  {
    LineageStrictlyOrdered(s, n, levels);
    ReversedElements(walk);
    DistinctKeysSortOneWay(Lineage(s, n, levels), sorted, DepthOf);
  }

  /** A sequence of all elements of a set, each once. */
  method Enumerate(s: Nodes) returns (ns: seq<Node>)
    ensures ToSet(ns) == s && |ns| == |s|
  {
    ns := [];
    var rest := s;
    while rest != {}
      invariant rest <= s && ToSet(ns) == s - rest && |ns| == |s - rest|
      decreases rest
    {
      var n :| n in rest;
      assert s - (rest - {n}) == (s - rest) + {n};
      ns, rest := ns + [n], rest - {n};
    }
  }

  lemma NewestSuffix(sorted: seq<Node>, all: seq<Node>, candidates: Nodes, max: nat)
    requires SortOf(sorted, all, CreatedOf) && ToSet(all) == candidates && |all| == |candidates|
    requires max < |sorted|
    ensures LatestOf(sorted[|sorted| - max..], candidates, max)
  {
    SortKeepsElements(sorted, all);
    var cut := |sorted| - max;
    var old', new' := sorted[..cut], sorted[cut..];
    assert sorted == old' + new';
    DistinctParts(old', new');
  }

  lemma SortKeepsElements(sorted: seq<Node>, all: seq<Node>)
    requires multiset(sorted) == multiset(all)
    ensures ToSet(sorted) == ToSet(all) && |sorted| == |all|
  {
    assert |multiset(sorted)| == |sorted| && |multiset(all)| == |all|;
    assert forall n :: n in sorted <==> n in multiset(sorted);
    assert forall n :: n in all <==> n in multiset(all);
  }

  lemma {:induction false} SetNoLarger(ns: seq<Node>)
    ensures |ToSet(ns)| <= |ns|
    decreases |ns|
  {
    if ns != [] {
      SetNoLarger(ns[1..]);
      assert ToSet(ns) == {ns[0]} + ToSet(ns[1..]) by {
        assert ns == [ns[0]] + ns[1..];
      }
    }
  }

  lemma DistinctParts(a: seq<Node>, b: seq<Node>)
    requires |ToSet(a + b)| == |a + b|
    ensures |ToSet(b)| == |b|
  {
    SetNoLarger(a);
    SetNoLarger(b);
    assert ToSet(a + b) == ToSet(a) + ToSet(b);
  }

  function Communities(s: Nodes): Nodes {
    set n | n in s && n.Community?
  }

  /** A node, its author, and the same for everything above it. */
  function Kin(n: Node): Nodes
    decreases n
  {
    {n} + AuthorOf(n) + if n.ParentId().HashOf? then Kin(n.ParentId().node) else {}
  }

  function KinOfAll(ns: seq<Node>): Nodes {
    if ns == [] then {} else KinOfAll(ns[..|ns| - 1]) + Kin(ns[|ns| - 1])
  }

  lemma {:induction false} KinOfAncestor(n: Node, a: Node)
    requires a == n || a in Ancestors(n)
    ensures {a} + AuthorOf(a) <= Kin(n)
    decreases n
  {
    if a != n {
      KinOfAncestor(n.ParentId().node, a);
    }
  }

  /** The store `s` has what a successful synchronization below `c` with a peer that had `known`
    leaves it with. */
  ghost predicate Synchronized(s: Nodes, c: Node, max: nat, known: Nodes) {
    exists asked, leaves ::
      known <= asked && LatestOf(leaves, Descendants(asked, HashOf(c)), max) && KinOfAll(leaves) <= s
  }

  /** The node is one of a line, or the author of one. */
  predicate OfTheLine(line: seq<Node>, x: Node) {
    exists a :: a in line && (x == a || x in AuthorOf(a))
  }

  /** Kin are the node, its ancestors and the authors of all of these, and nothing else. */
  lemma {:induction false} KinExact(n: Node, x: Node)
    ensures x in Kin(n) <==> OfTheLine(Ancestors(n) + [n], x)
    decreases n
  {
    var line := Ancestors(n) + [n];
    if n.ParentId().HashOf? {
      var above := Ancestors(n.ParentId().node) + [n.ParentId().node];
      KinExact(n.ParentId().node, x);
      assert above == Ancestors(n);
      if a :| a in above && (x == a || x in AuthorOf(a)) {
        assert a in line;
      }
    }
    if a :| a in line && (x == a || x in AuthorOf(a)) {
      KinOfAncestor(n, a);
    }
    assert n in line;
  }

  /** An announcement, and what the worker had added by then. */
  datatype Announcement = Announcement(nodes: seq<Node>, own: Nodes)

  class Worker {
    const store: Store
    const session: Session
    const reliable: bool                   // whether every request is answered in time
    ghost var announced: seq<Announcement> // the announcements made so far

    constructor (store: Store, reliable: bool)
      ensures this.store == store && this.reliable == reliable && fresh(session) && announced == []
      ensures forall id :: session.Count(id) == 0
    {
      this.store, this.reliable, announced := store, reliable, [];
      session := new Session();
      new;
      assert forall id :: Entries(session.communities, id) == {};
    }

    // ---------- Handlers ----------

    method OnQuery(ids: seq<Id>) returns (results: seq<Node>)
      ensures results == Found(ids, store.nodes)
    {
      results := [];
      for i := 0 to |ids|
        invariant results == Found(ids[..i], store.nodes)
      {
        assert ids[..i + 1] == ids[..i] + [ids[i]];
        FoundThen(ids[..i], [ids[i]], store.nodes);
        assert [ids[i]][1..] == [];
        if Has(store.nodes, ids[i]) {
          results := results + [ids[i].node];
        }
      }
      assert ids[..|ids|] == ids;
    }

    /** The store need not be closed: where a parent is unknown the answer simply starts. */
    method OnAncestry(id: Id, levels: int) returns (r: Handled)
      requires forall n :: n in store.nodes ==> WellFormed(n)
      ensures !Has(store.nodes, id) ==> r == HandlerError
      ensures Has(store.nodes, id) ==> r == Answered(Lineage(store.nodes, id.node, levels))
    {
      if !Has(store.nodes, id) {
        return HandlerError;
      }
      var ancestors := [];
      var current := id.node;
      var i := 0;
      while i < levels
        invariant Lineage(store.nodes, id.node, levels)
               == Lineage(store.nodes, current, levels - i) + Reversed(ancestors)
      {
        if current.ParentId() == NullHash || !Has(store.nodes, current.ParentId()) {
          break;
        }
        ReversedThen(ancestors, current.ParentId().node);
        ancestors := ancestors + [current.ParentId().node];
        current := current.ParentId().node;
        i := i + 1;
      }
      var sorted := Sort(ancestors, DepthOf);
      SortedWalkIsLineage(store.nodes, id.node, levels, ancestors, sorted);
      return Answered(sorted);
    }

    /** Slicing off the newest `quantity` candidates crashes when the quantity is negative. For when
      the answer consists of leaves see LeavesPromiseExact. */
    method OnLeavesOf(id: Id, quantity: int) returns (r: Handled)
      ensures r.Crash? <==> quantity < 0
      ensures quantity >= 0 ==> r.Answered? && LatestOf(r.nodes, Descendants(store.nodes, id), quantity)
      ensures quantity >= 0 && OnlyLeaves(store.nodes, id, quantity) ==> ToSet(r.nodes) <= Leaves(store.nodes, id)
    {
      var candidates := Descendants(store.nodes, id);
      var leaves := Enumerate(candidates);
      var sorted := Sort(leaves, CreatedOf);
      SortKeepsElements(sorted, leaves);
      if |sorted| > quantity {
        if quantity < 0 {
          return Crash;
        }
        NewestSuffix(sorted, leaves, candidates, quantity);
        sorted := sorted[|sorted| - quantity..];
      }
      return Answered(sorted);
    }

    method OnSubscribe(id: Id)
      modifies session
      ensures session.Count(id) == old(session.Count(id)) + 1
      ensures forall other :: other != id ==> session.Count(other) == old(session.Count(other))
    {
      var ref := new HashRef(id);
      session.Subscribe(ref);
    }

    method OnUnsubscribe(id: Id)
      modifies session
      ensures session.Count(id) == if old(session.Count(id)) == 0 then 0 else old(session.Count(id)) - 1
      ensures forall other :: other != id ==> session.Count(other) == old(session.Count(other))
    {
      session.Unsubscribe(id);
    }

    /** Whether a node may pass this connection: replies only in subscribed communities. */
    predicate Passes(n: Node)
      reads session
    {
      n.Reply? ==> session.Count(n.community) > 0
    }

    method HandleNewNode(n: Node) returns (announce: bool)
      ensures n.Identity? ==> announce
      ensures n.Community? ==> announce
      ensures n.Reply? ==> (announce <==> session.Count(n.community) > 0)
    {
      announce := true;
      if n.Reply? {
        announce := session.IsSubscribed(n.community);
      }
    }

    /** Which announced nodes are handed to ingestion, in order. */
    function Accepted(nodes: seq<Node>, expired: Nodes): seq<Node>
      reads store, session
    {
      if nodes == [] then [] else
      Accepted(nodes[..|nodes| - 1], expired) +
      var n := nodes[|nodes| - 1];
      if n !in expired && n !in store.nodes && Passes(n) then [n] else []
    }

    method OnAnnounce(nodes: seq<Node>, expired: Nodes) returns (ingest: seq<Node>)
      ensures ingest == Accepted(nodes, expired)
      ensures forall n :: n in ingest && n.Reply? ==> session.Count(n.community) > 0
      ensures forall n :: n in ingest ==> n in nodes && n !in expired && n !in store.nodes
      ensures forall n :: n in nodes && n !in expired && n !in store.nodes && n.Identity? ==> n in ingest
      ensures forall n :: n in nodes && n !in expired && n !in store.nodes && n.Community? ==> n in ingest
      ensures forall n :: n in nodes && n !in expired && n !in store.nodes && n.Reply? && session.Count(n.community) > 0
                          ==> n in ingest
    {
      ingest := [];
      for i := 0 to |nodes|
        invariant ingest == Accepted(nodes[..i], expired)
        invariant forall n :: n in ingest ==> n in nodes[..i] && n !in expired && n !in store.nodes && Passes(n)
        invariant forall n :: n in nodes[..i] && n !in expired && n !in store.nodes && Passes(n) ==> n in ingest
      {
        var n := nodes[i];
        assert nodes[..i + 1][..i] == nodes[..i];
        if n in expired || Has(store.nodes, HashOf(n)) {
          continue;
        }
        if n.Reply? {
          var subscribed := session.IsSubscribed(n.community);
          if !subscribed {
            continue;
          }
        }
        ingest := ingest + [n];
      }
      assert nodes[..|nodes|] == nodes;
    }

    // ---------- Requests to the worker at the other end ----------

    method SendQuery(remote: Worker, ids: seq<Id>) returns (a: Answer)
      requires store.Healthy() && remote.store.Healthy() && store != remote.store
      modifies store, remote.store
      ensures store.Healthy() && old(store.nodes) <= store.nodes && store.own == old(store.own)
      ensures remote.store.Healthy() && old(remote.store.nodes) <= remote.store.nodes
      ensures a.Response? ==> a.nodes == Found(ids, remote.store.nodes)
      ensures reliable ==> a.Response?
    {
      store.Others();
      remote.store.Others();
      if !reliable {
        if * {
          return NoAnswer;
        }
      }
      var results := remote.OnQuery(ids);
      return Response(results);
    }

    method SendAncestry(remote: Worker, n: Node, levels: int) returns (a: Answer)
      requires store.Healthy() && remote.store.Healthy() && store != remote.store
      modifies store, remote.store
      ensures store.Healthy() && old(store.nodes) <= store.nodes && store.own == old(store.own)
      ensures remote.store.Healthy() && old(remote.store.nodes) <= remote.store.nodes
      ensures a.Response? ==> n in remote.store.nodes && a.nodes == Lineage(remote.store.nodes, n, levels)
      ensures reliable && n in old(remote.store.nodes) ==> a.Response?
    {
      store.Others();
      remote.store.Others();
      if !reliable {
        if * {
          return NoAnswer;
        }
      }
      var r := remote.OnAncestry(HashOf(n), levels);
      return if r.Answered? then Response(r.nodes) else NoAnswer;
    }

    method SendLeavesOf(remote: Worker, root: Node, quantity: int) returns (a: Answer)
      requires store.Healthy() && remote.store.Healthy() && store != remote.store
      modifies store, remote.store
      ensures store.Healthy() && old(store.nodes) <= store.nodes && store.own == old(store.own)
      ensures remote.store.Healthy() && old(remote.store.nodes) <= remote.store.nodes
      ensures a.Response? ==>
                quantity >= 0 && LatestOf(a.nodes, Descendants(remote.store.nodes, HashOf(root)), quantity)
      ensures reliable && quantity >= 0 ==> a.Response?
    {
      store.Others();
      remote.store.Others();
      if !reliable {
        if * {
          return NoAnswer;
        }
      }
      var r := remote.OnLeavesOf(HashOf(root), quantity);
      return if r.Answered? then Response(r.nodes) else NoAnswer;
    }

    /** The peer starts ingesting in goroutines of its own before it reports its status. */
    method SendAnnounce(remote: Worker, nodes: seq<Node>) returns (ok: bool)
      requires store.Healthy() && remote.store.Healthy() && store != remote.store
      modifies store, remote.store, `announced
      ensures store.Healthy() && old(store.nodes) <= store.nodes && store.own == old(store.own)
      ensures remote.store.Healthy() && old(remote.store.nodes) <= remote.store.nodes
      ensures announced == old(announced) + [Announcement(nodes, old(store.own))]
      ensures reliable ==> ok
    {
      announced := announced + [Announcement(nodes, store.own)];
      store.Others();
      remote.store.Others();
      if !reliable {
        if * {
          return false;
        }
      }
      var ingest := remote.OnAnnounce(nodes, {});
      remote.store.Others();
      return true;
    }

    // ---------- Ingestion ----------

    method EnsureAuthorAvailable(remote: Worker, n: Node) returns (err: Option<Failure>)
      requires store.Healthy() && remote.store.Healthy() && store != remote.store
      requires WellFormed(n)
      modifies store, remote.store
      ensures store.Healthy() && old(store.nodes) <= store.nodes
      ensures remote.store.Healthy() && old(remote.store.nodes) <= remote.store.nodes
      ensures old(store.own) <= store.own <= old(store.own) + AuthorOf(n)
      ensures store.own * old(store.nodes) <= old(store.own)
      ensures err.None? ==> AuthorOf(n) <= store.nodes
      ensures reliable && AuthorOf(n) <= old(remote.store.nodes) ==> err.None?
      ensures AuthorOf(n) <= old(store.nodes) ==> err.None? && store.own == old(store.own)
      ensures err.Some? && AuthorOf(n) <= old(remote.store.nodes) ==> err.value == RequestFailed
      ensures err.Some? ==> err.value == RequestFailed || err.value == WrongAuthorCount(0)
    {
      if n.Identity? {
        return None;
      }
      var inStore := store.Holds(n.author);
      if inStore {
        return None;
      }
      var response := SendQuery(remote, [n.author]);
      if response.NoAnswer? {
        return Some(RequestFailed);
      }
      assert [n.author][1..] == [];
      if |response.nodes| != 1 {
        return Some(WrongAuthorCount(|response.nodes|));
      }
      var author := response.nodes[0];
      var valid := store.Validates(author);
      if !valid {
        return Some(Invalid(author));
      }
      store.Add(author);
      return None;
    }

    /** End-to-end ingestion. If the peer holds the node, the only thing that can go wrong is a
      request; otherwise validation succeeds at every ancestor, and the node, its ancestors
      and all their authors end up stored, whatever the two stores started from. Nothing but
      these nodes is added, and of what was there before nothing but the node itself again. If all
      the node needs is stored already, the peer is not needed. */
    method IngestNode(remote: Worker, n: Node) returns (err: Option<Failure>)
      requires store.Healthy() && remote.store.Healthy() && store != remote.store
      requires WellFormed(n)
      modifies store, remote.store
      ensures store.Healthy() && old(store.nodes) <= store.nodes
      ensures remote.store.Healthy() && old(remote.store.nodes) <= remote.store.nodes
      ensures old(store.own) <= store.own <= old(store.own) + Kin(n)
      ensures store.own * old(store.nodes) <= old(store.own) + {n}
      ensures err.None? ==> n in store.own && Kin(n) <= store.nodes
      ensures reliable && n in old(remote.store.nodes) ==> err.None?
      ensures ValidDeep(n, old(store.nodes)) ==> err.None? && store.own == old(store.own) + {n}
      ensures err.Some? && n in old(remote.store.nodes) ==> err.value == RequestFailed
      ensures err.Some? ==> !err.value.Invalid?
    {
      KinOfAncestor(n, n);
      assert !n.Identity? ==> n.author in n.Needs();
      if n in remote.store.nodes {
        StoredAuthor(n, remote.store.nodes);
      }
      err := EnsureAuthorAvailable(remote, n);
      if err.Some? {
        return;
      }
      var valid := store.Validates(n);
      if !valid {
        var ancestry := SendAncestry(remote, n, n.TreeDepth());
        if ancestry.NoAnswer? {
          return Some(RequestFailed);
        }
        FullLineage(remote.store.nodes, n, n.TreeDepth());
        AncestryInOrder(n);
        err := FillIn(remote, n, ancestry.nodes);
        if err.Some? {
          return;
        }
        assert Placed(Ancestors(n) + [n], |Ancestors(n)|);
        assert (Ancestors(n) + [n])[..|Ancestors(n)|] == Ancestors(n);
        valid := store.Validates(n);
        if !valid {
          return Some(Invalid(n));
        }
      }
      store.Add(n);
      KinIsStored(store.nodes, n);
      return None;
    }

    /** The loop over a fetched ancestry. */
    method FillIn(remote: Worker, n: Node, ancestry: seq<Node>) returns (err: Option<Failure>)
      requires store.Healthy() && remote.store.Healthy() && store != remote.store
      requires WellFormed(n) && n in remote.store.nodes && ancestry == Ancestors(n)
      requires DependenciesPrecede(ancestry)
      modifies store, remote.store
      ensures store.Healthy() && old(store.nodes) <= store.nodes
      ensures remote.store.Healthy() && old(remote.store.nodes) <= remote.store.nodes
      ensures old(store.own) <= store.own <= old(store.own) + Kin(n)
      ensures store.own * old(store.nodes) <= old(store.own)
      ensures err.None? ==> ToSet(ancestry) <= store.nodes
      ensures err.Some? ==> err.value == RequestFailed && !reliable
    {
      for i := 0 to |ancestry|
        invariant store.Healthy() && old(store.nodes) <= store.nodes
        invariant remote.store.Healthy() && old(remote.store.nodes) <= remote.store.nodes
        invariant old(store.own) <= store.own <= old(store.own) + Kin(n)
        invariant store.own * old(store.nodes) <= old(store.own)
        invariant ToSet(ancestry[..i]) <= store.nodes
      {
        var ancestor := ancestry[i];
        assert ancestry[..i + 1] == ancestry[..i] + [ancestor];
        var alreadyHas := store.Holds(HashOf(ancestor));
        if alreadyHas {
          continue;
        }
        assert Placed(ancestry, i);
        KinOfAncestor(n, ancestor);
        ClosedHoldsAncestry(remote.store.nodes, n);
        StoredAuthor(ancestor, remote.store.nodes);
        err := EnsureAuthorAvailable(remote, ancestor);
        if err.Some? {
          return;
        }
        var valid := store.Validates(ancestor);
        if !valid {
          return Some(Invalid(ancestor));
        }
        store.Add(ancestor);
      }
      assert ancestry[..|ancestry|] == ancestry;
      return None;
    }

    // ---------- Synchronization ----------

    method LocalLeaves(root: Node) returns (leaves: seq<Node>)
      requires store.Healthy()
      modifies store
      ensures store.Healthy() && old(store.nodes) <= store.nodes && store.own == old(store.own)
      ensures ToSet(leaves) == Leaves(store.nodes, HashOf(root)) && |leaves| == |ToSet(leaves)|
    {
      store.Others();
      leaves := Enumerate(Leaves(store.nodes, HashOf(root)));
    }

    /** One announcement was made: of all leaves below `root` that our store had at some moment
      between two of its states, when `own` was all that we had added. */
    ghost predicate LeavesAnnounced(before: seq<Announcement>, after: seq<Announcement>, root: Node,
                                    s: Nodes, t: Nodes, own: Nodes) {
      exists u, leaves :: s <= u <= t && ToSet(leaves) == Leaves(u, HashOf(root))
                          && after == before + [Announcement(leaves, own)]
    }

    method AnnounceLocalLeaves(remote: Worker, root: Node) returns (ok: bool)
      requires store.Healthy() && remote.store.Healthy() && store != remote.store
      modifies store, remote.store, `announced
      ensures store.Healthy() && old(store.nodes) <= store.nodes && store.own == old(store.own)
      ensures remote.store.Healthy() && old(remote.store.nodes) <= remote.store.nodes
      ensures LeavesAnnounced(old(announced), announced, root, old(store.nodes), store.nodes, old(store.own))
      ensures reliable ==> ok
    {
      var localLeaves := LocalLeaves(root);
      ghost var mine := store.nodes;
      ok := SendAnnounce(remote, localLeaves);
      assert old(store.nodes) <= mine <= store.nodes;
      assert announced == old(announced) + [Announcement(localLeaves, old(store.own))];
    }

    /** Sync completeness. A successful synchronization has stored, with all their kin, the newest
      `maxNodes` of the descendants the peer had when it was asked; all of them when there are
      no more. Against such a peer only requests can fail, and nothing else is added. */
    method SynchronizeFullTree(remote: Worker, root: Node, maxNodes: int)
      returns (err: Option<Failure>, leaves: seq<Node>, ghost asked: Nodes)
      requires store.Healthy() && remote.store.Healthy() && store != remote.store
      modifies store, remote.store, `announced
      ensures store.Healthy() && old(store.nodes) <= store.nodes
      ensures remote.store.Healthy() && old(remote.store.nodes) <= asked <= remote.store.nodes
      ensures old(store.own) <= store.own <= old(store.own) + KinOfAll(leaves)
      ensures err.Some? ==> err.value == RequestFailed
      ensures reliable && maxNodes >= 0 ==> err.None?
      ensures err.None? ==>
                LeavesAnnounced(old(announced), announced, root, old(store.nodes), store.nodes, old(store.own))
      ensures err.None? ==> maxNodes >= 0 && LatestOf(leaves, Descendants(asked, HashOf(root)), maxNodes)
      ensures err.None? ==> KinOfAll(leaves) <= store.nodes
      ensures ToSet(leaves) <= old(store.nodes) ==> store.own == old(store.own)
    {
      leaves, asked := [], remote.store.nodes;
      var leafList := SendLeavesOf(remote, root, maxNodes);
      if leafList.NoAnswer? {
        return Some(RequestFailed), [], asked;
      }
      asked, leaves := remote.store.nodes, leafList.nodes;
      LatestAreStored(leaves, root, maxNodes, asked);
      var sent := AnnounceLocalLeaves(remote, root);
      ghost var mine := store.nodes;
      if !sent {
        return Some(RequestFailed), leaves, asked;
      }
      err := SynchronizeLeaves(remote, leaves);
      assert LeavesAnnounced(old(announced), announced, root, old(store.nodes), mine, old(store.own));
    }

    /** The loop over the fetched leaves. */
    method SynchronizeLeaves(remote: Worker, leaves: seq<Node>) returns (err: Option<Failure>)
      requires store.Healthy() && remote.store.Healthy() && store != remote.store
      requires forall n :: n in leaves ==> n in remote.store.nodes
      modifies store, remote.store
      ensures store.Healthy() && old(store.nodes) <= store.nodes
      ensures remote.store.Healthy() && old(remote.store.nodes) <= remote.store.nodes
      ensures old(store.own) <= store.own <= old(store.own) + KinOfAll(leaves)
      ensures err.None? ==> KinOfAll(leaves) <= store.nodes
      ensures ToSet(leaves) <= old(store.nodes) ==> err.None? && store.own == old(store.own)
      ensures err.Some? ==> err.value == RequestFailed && !reliable
    {
      for i := 0 to |leaves|
        invariant store.Healthy() && old(store.nodes) <= store.nodes
        invariant ToSet(leaves) <= old(store.nodes) ==> store.own == old(store.own)
        invariant remote.store.Healthy() && old(remote.store.nodes) <= remote.store.nodes
        invariant old(store.own) <= store.own <= old(store.own) + KinOfAll(leaves[..i])
        invariant KinOfAll(leaves[..i]) <= store.nodes
      {
        KinOfNext(leaves, i);
        assert leaves[i] in ToSet(leaves);
        err := SynchronizeLeaf(remote, leaves[i]);
        if err.Some? {
          KinOfPart(leaves, i + 1);
          return;
        }
      }
      assert leaves[..|leaves|] == leaves;
      return None;
    }

    /** One turn of the loop over the leaves. */
    method SynchronizeLeaf(remote: Worker, leaf: Node) returns (err: Option<Failure>)
      requires store.Healthy() && remote.store.Healthy() && store != remote.store
      requires leaf in remote.store.nodes
      modifies store, remote.store
      ensures store.Healthy() && old(store.nodes) <= store.nodes
      ensures remote.store.Healthy() && old(remote.store.nodes) <= remote.store.nodes
      ensures old(store.own) <= store.own <= old(store.own) + Kin(leaf)
      ensures err.None? ==> Kin(leaf) <= store.nodes
      ensures leaf in old(store.nodes) ==> err.None? && store.own == old(store.own)
      ensures err.Some? ==> err.value == RequestFailed && !reliable
    {
      assert WellFormed(leaf);
      var alreadyInStore := store.Holds(HashOf(leaf));
      if alreadyInStore {
        KinIsStored(store.nodes, leaf);
        return None;
      }
      var ancestry := SendAncestry(remote, leaf, leaf.TreeDepth());
      if ancestry.NoAnswer? {
        return Some(RequestFailed);
      }
      var sorted := Sort(ancestry.nodes, DepthOf);
      FullLineage(remote.store.nodes, leaf, leaf.TreeDepth());
      DepthSortRestoresOrder(leaf, sorted, ancestry.nodes);
      ClosedHoldsAncestry(remote.store.nodes, leaf);
      err := SecureChain(remote, leaf, sorted + [leaf]);
      if err.None? {
        assert (sorted + [leaf])[|sorted|] == leaf;
        KinIsStored(store.nodes, leaf);
      }
    }

    /** The loop over a sorted ancestry and its leaf. */
    method SecureChain(remote: Worker, leaf: Node, chain: seq<Node>) returns (err: Option<Failure>)
      requires store.Healthy() && remote.store.Healthy() && store != remote.store
      requires DependenciesPrecede(chain) && chain == Ancestors(leaf) + [leaf] && ToSet(chain) <= remote.store.nodes
      modifies store, remote.store
      ensures store.Healthy() && old(store.nodes) <= store.nodes
      ensures remote.store.Healthy() && old(remote.store.nodes) <= remote.store.nodes
      ensures old(store.own) <= store.own <= old(store.own) + Kin(leaf)
      ensures err.None? ==> ToSet(chain) <= store.own
      ensures err.Some? ==> err.value == RequestFailed && !reliable
    {
      for i := 0 to |chain|
        invariant store.Healthy() && old(store.nodes) <= store.nodes
        invariant remote.store.Healthy() && old(remote.store.nodes) <= remote.store.nodes
        invariant old(store.own) <= store.own <= old(store.own) + Kin(leaf)
        invariant ToSet(chain[..i]) <= store.own
      {
        var n := chain[i];
        assert chain[..i + 1] == chain[..i] + [n] && n in ToSet(chain);
        assert Placed(chain, i);
        KinOfAncestor(leaf, n);
        StoredAuthor(n, remote.store.nodes);
        err := EnsureAuthorAvailable(remote, n);
        if err.Some? {
          return;
        }
        var valid := store.Validates(n);
        if !valid {
          return Some(Invalid(n));
        }
        store.Add(n);
      }
      assert chain[..|chain|] == chain;
      return None;
    }

    // ---------- Bootstrap ----------

    /** The store's listing of recent communities. Which of them it lists is left open when there
      are more than asked for. */
    method OnListCommunities(quantity: nat) returns (communities: seq<Node>)
      ensures forall c :: c in communities ==> c in Communities(store.nodes)
      ensures |Communities(store.nodes)| <= quantity ==> ToSet(communities) == Communities(store.nodes)
    {
      var all := Enumerate(Communities(store.nodes));
      assert forall c :: c in all ==> c in ToSet(all);
      communities := if quantity < |all| then all[..quantity] else all;
      assert forall c :: c in communities ==> c in all;
    }

    method SendListCommunities(remote: Worker, quantity: nat) returns (a: Answer)
      requires store.Healthy() && remote.store.Healthy() && store != remote.store
      modifies store, remote.store
      ensures store.Healthy() && old(store.nodes) <= store.nodes && store.own == old(store.own)
      ensures remote.store.Healthy() && old(remote.store.nodes) <= remote.store.nodes
      ensures a.Response? ==> forall c :: c in a.nodes ==> c in Communities(remote.store.nodes)
      ensures a.Response? && |Communities(remote.store.nodes)| <= quantity ==>
                ToSet(a.nodes) == Communities(remote.store.nodes)
      ensures reliable ==> a.Response?
    {
      store.Others();
      remote.store.Others();
      if !reliable {
        if * {
          return NoAnswer;
        }
      }
      var communities := remote.OnListCommunities(quantity);
      return Response(communities);
    }

    method SendSubscribe(remote: Worker, community: Node) returns (ok: bool)
      requires store.Healthy() && remote.store.Healthy() && store != remote.store
      modifies store, remote.store, remote.session
      ensures store.Healthy() && old(store.nodes) <= store.nodes && store.own == old(store.own)
      ensures remote.store.Healthy() && old(remote.store.nodes) <= remote.store.nodes
      ensures forall id :: remote.session.Count(id) >= old(remote.session.Count(id))
      ensures forall id :: id != HashOf(community) ==> remote.session.Count(id) == old(remote.session.Count(id))
      ensures ok ==> remote.session.Count(HashOf(community)) > 0
      ensures reliable ==> ok
    {
      store.Others();
      remote.store.Others();
      if !reliable {
        if * {
          return false;
        }
      }
      remote.OnSubscribe(HashOf(community));
      ok := true;
      if !reliable {
        ok := *;
      }
    }

    /** The peer's community `c` has been joined: stored here, subscribed at both ends, and every
      node the peer had below it is stored, unless there were more than `max`. */
    ghost predicate Joined(remote: Worker, c: Node, max: nat, known: Nodes)
      reads store, session, remote.session
    {
      && c in store.nodes
      && session.Count(HashOf(c)) > 0 && remote.session.Count(HashOf(c)) > 0
      && Synchronized(store.nodes, c, max, known)
    }

    /** Communities are added without validation; the store stays closed nevertheless, because the
      peer's answer to the author query was the author. Every community listed is joined unless
      a request fails, and all the peer had are listed unless there are too many. A community
      that fails does not keep the others from being stored. */
    method BootstrapLocalStore(remote: Worker, maxCommunities: nat)
      returns (joined: seq<Node>, ghost listed: seq<Node>)
      requires store.Healthy() && remote.store.Healthy() && store != remote.store
      requires session != remote.session
      modifies store, remote.store, session, remote.session, `announced
      ensures store.Healthy() && old(store.nodes) <= store.nodes
      ensures remote.store.Healthy() && old(remote.store.nodes) <= remote.store.nodes
      ensures forall c :: c in joined ==> c in listed
      ensures forall c :: c in joined ==> Joined(remote, c, maxCommunities, old(remote.store.nodes))
      ensures forall c :: c in listed && AuthorOf(c) <= old(store.nodes) ==> c in store.nodes
      ensures reliable && |Communities(remote.store.nodes)| <= maxCommunities ==>
                forall c :: c in Communities(old(remote.store.nodes)) ==> c in joined
    {
      joined, listed := [], [];
      var communities := SendListCommunities(remote, maxCommunities);
      if communities.NoAnswer? {
        return;
      }
      listed := communities.nodes;
      ghost var asked := remote.store.nodes;
      for i := 0 to |communities.nodes|
        invariant store.Healthy() && old(store.nodes) <= store.nodes
        invariant remote.store.Healthy() && old(remote.store.nodes) <= remote.store.nodes && asked <= remote.store.nodes
        invariant forall c :: c in joined ==> c in listed
        invariant forall c :: c in joined ==> Joined(remote, c, maxCommunities, old(remote.store.nodes))
        invariant forall c :: c in listed[..i] && AuthorOf(c) <= old(store.nodes) ==> c in store.nodes
        invariant reliable ==> joined == communities.nodes[..i]
      {
        var community := communities.nodes[i];
        assert community in Communities(asked) && communities.nodes[..i + 1] == communities.nodes[..i] + [community];
        if !community.Community? {
          continue;
        }
        var ok := JoinCommunity(remote, community, maxCommunities);
        if ok {
          joined := joined + [community];
        }
      }
      FewerCommunities(asked, remote.store.nodes);
      FewerCommunities(old(remote.store.nodes), asked);
      assert communities.nodes[..|communities.nodes|] == communities.nodes;
      assert forall c :: c in communities.nodes <==> c in ToSet(communities.nodes);
    }

    /** One turn of the loop over the communities. */
    method JoinCommunity(remote: Worker, community: Node, max: nat) returns (ok: bool)
      requires store.Healthy() && remote.store.Healthy() && store != remote.store && session != remote.session
      requires community in remote.store.nodes && community.Community?
      modifies store, remote.store, session, remote.session, `announced
      ensures store.Healthy() && old(store.nodes) <= store.nodes
      ensures remote.store.Healthy() && old(remote.store.nodes) <= remote.store.nodes
      ensures forall id :: session.Count(id) >= old(session.Count(id))
      ensures forall id :: remote.session.Count(id) >= old(remote.session.Count(id))
      ensures ok ==> Joined(remote, community, max, old(remote.store.nodes))
      ensures ok || AuthorOf(community) <= old(store.nodes) ==> community in store.nodes
      ensures reliable ==> ok
    {
      ok := EnterCommunity(remote, community);
      if ok {
        ghost var leaves, asked;
        var err;
        err, leaves, asked := SynchronizeFullTree(remote, community, max);
        assert err.None? ==> Synchronized(store.nodes, community, max, old(remote.store.nodes));
        ok := err.None?;
      }
    }

    /** The part of that turn before the synchronization. */
    method EnterCommunity(remote: Worker, community: Node) returns (ok: bool)
      requires store.Healthy() && remote.store.Healthy() && store != remote.store && session != remote.session
      requires community in remote.store.nodes && community.Community?
      modifies store, remote.store, session, remote.session
      ensures store.Healthy() && old(store.nodes) <= store.nodes
      ensures remote.store.Healthy() && old(remote.store.nodes) <= remote.store.nodes
      ensures forall id :: session.Count(id) >= old(session.Count(id))
      ensures forall id :: remote.session.Count(id) >= old(remote.session.Count(id))
      ensures ok || AuthorOf(community) <= old(store.nodes) ==> community in store.own
      ensures forall id :: session.Count(id) == old(session.Count(id)) + if ok && id == HashOf(community) then 1 else 0
      ensures ok ==> session.Count(HashOf(community)) > 0 && remote.session.Count(HashOf(community)) > 0
      ensures reliable ==> ok
    {
      StoredAuthor(community, remote.store.nodes);
      var err := EnsureAuthorAvailable(remote, community);
      if err.Some? {
        return false;
      }
      store.Add(community);
      ok := SendSubscribe(remote, community);
      if ok {
        var ref := new HashRef(HashOf(community));
        session.Subscribe(ref);
      }
    }
  }

  lemma {:induction false} KinOfMember(ns: seq<Node>, n: Node)
    requires n in ns
    ensures Kin(n) <= KinOfAll(ns)
    decreases |ns|
  {
    if n != ns[|ns| - 1] {
      assert n in ns[..|ns| - 1];
      KinOfMember(ns[..|ns| - 1], n);
    }
  }

  lemma KinOfLeavesStored(s: Nodes, leaves: seq<Node>)
    requires KinOfAll(leaves) <= s
    ensures ToSet(leaves) <= s
    ensures forall l, a :: l in leaves && a in Ancestors(l) ==> a in s && AuthorOf(a) <= s
  {
    forall l | l in leaves ensures l in s && forall a :: a in Ancestors(l) ==> a in s && AuthorOf(a) <= s {
      KinOfMember(leaves, l);
      KinOfAncestor(l, l);
      forall a | a in Ancestors(l) ensures a in s && AuthorOf(a) <= s {
        KinOfAncestor(l, a);
      }
    }
  }

  lemma SyncedEnough(s: Nodes, known: Nodes, asked: Nodes, root: Id, leaves: seq<Node>, max: nat)
    requires known <= asked && LatestOf(leaves, Descendants(asked, root), max) && ToSet(leaves) <= s
    ensures |Descendants(asked, root)| <= max ==> Descendants(known, root) <= s
    ensures |Descendants(asked, root)| > max ==> |Descendants(asked, root) * s| >= max
  {
    DescendantsGrow(known, asked, root);
    SelectionWithin(leaves, Descendants(asked, root), s, max);
  }

  lemma LackingAreOlder(s: Nodes, known: Nodes, asked: Nodes, root: Id, leaves: seq<Node>, max: nat, x: Node, l: Node)
    requires known <= asked && LatestOf(leaves, Descendants(asked, root), max) && ToSet(leaves) <= s
    requires x in Descendants(known, root) && x !in s && l in leaves
    ensures x.created <= l.created
  {
    DescendantsGrow(known, asked, root);
    assert x in leaves ==> x in ToSet(leaves);
  }

  lemma LineStored(s: Nodes, leaves: seq<Node>, l: Node, a: Node)
    requires KinOfAll(leaves) <= s && l in leaves && (a == l || a in Ancestors(l))
    ensures a in s
  {
    KinOfLeavesStored(s, leaves);
    assert l in ToSet(leaves);
  }

  /** What a successful synchronization means: a store that keeps the kin of the selected leaves
    has every descendant the peer is known to have had, or else `max` of them, and then nothing
    it lacks is newer than anything selected. */
  lemma SyncCompleteness(s: Nodes, known: Nodes, asked: Nodes, root: Id, leaves: seq<Node>, max: nat)
    requires known <= asked && LatestOf(leaves, Descendants(asked, root), max) && KinOfAll(leaves) <= s
    ensures |Descendants(asked, root)| <= max ==> Descendants(known, root) <= s
    ensures |Descendants(asked, root)| > max ==> |Descendants(asked, root) * s| >= max
    ensures forall x, l :: x in Descendants(known, root) && x !in s && l in leaves ==> x.created <= l.created
    ensures forall l, a :: l in leaves && (a == l || a in Ancestors(l)) ==> a in s
  {
    KinOfLeavesStored(s, leaves);
    SyncedEnough(s, known, asked, root, leaves, max);
    forall x, l | x in Descendants(known, root) && x !in s && l in leaves ensures x.created <= l.created {
      LackingAreOlder(s, known, asked, root, leaves, max, x, l);
    }
    forall l, a | l in leaves && (a == l || a in Ancestors(l)) ensures a in s {
      LineStored(s, leaves, l, a);
    }
  }

  lemma SelectionWithin(ns: seq<Node>, candidates: Nodes, s: Nodes, max: nat)
    requires LatestOf(ns, candidates, max) && ToSet(ns) <= s
    ensures |candidates| <= max ==> candidates <= s
    ensures |candidates| > max ==> |candidates * s| >= max
  {
    SubsetSize(ToSet(ns), candidates * s);
    if |candidates| <= max {
      SameSizeSubset(ToSet(ns), candidates);
    }
  }

  lemma FewerCommunities(s: Nodes, t: Nodes)
    requires s <= t
    ensures Communities(s) <= Communities(t) && |Communities(s)| <= |Communities(t)|
  {
    SubsetSize(Communities(s), Communities(t));
  }

  lemma KinOfNext(ns: seq<Node>, k: nat)
    requires k < |ns|
    ensures KinOfAll(ns[..k + 1]) == KinOfAll(ns[..k]) + Kin(ns[k])
  {
    assert ns[..k + 1][..k] == ns[..k];
  }

  lemma {:induction false} KinOfPart(ns: seq<Node>, k: nat)
    requires k <= |ns|
    ensures KinOfAll(ns[..k]) <= KinOfAll(ns)
    decreases |ns| - k
  {
    if k == |ns| {
      assert ns[..k] == ns;
    } else {
      assert ns[..k + 1][..k] == ns[..k];
      KinOfPart(ns, k + 1);
    }
  }

  lemma {:induction false} KinIsStored(s: Nodes, n: Node)
    requires Closed(s) && n in s && WellFormed(n)
    ensures Kin(n) <= s
    decreases n
  {
    assert ValidDeep(n, s);
    assert !n.Identity? ==> n.author in n.Needs();
    if n.ParentId().HashOf? {
      assert n.ParentId() in n.Needs();
      KinIsStored(s, n.ParentId().node);
    }
  }
}
