/** The content-addressed forest that relays exchange: identities, communities and replies.

  A hash is modelled as a free constructor over the node it identifies. Equal ids therefore
  mean equal nodes, and a node's dependencies are structurally smaller than the node itself,
  which is what a collision-free hash gives the program.
*/
module Forest {

  datatype Id = NullHash | HashOf(node: Node)

  datatype Node =
    | Identity(content: string, created: int)
    | Community(author: Id, content: string, created: int)
    | Reply(author: Id, parent: Id, community: Id, depth: nat, content: string, created: int)
  {
    function ParentId(): Id {
      if Reply? then parent else NullHash
    }

    function TreeDepth(): nat {
      if Reply? then depth else 0
    }

    /** The ids that must be stored before this node validates. */
    function Needs(): set<Id> {
      match this
      case Identity(_, _) => {}
      case Community(a, _, _) => {a}
      case Reply(a, p, c, _, _, _) => {a, p, c}
    }

    /** The community whose subscribers want this node; roots are wanted by everyone. */
    function CommunityId(): Id {
      match this
      case Identity(_, _) => NullHash
      case Community(_, _, _) => HashOf(this)
      case Reply(_, _, c, _, _, _) => c
    }
  }

  type Nodes = set<Node>

  predicate Has(s: Nodes, id: Id) {
    id.HashOf? && id.node in s
  }

  /** Deep validation: exactly the node's dependencies are looked up in the store. */
  predicate ValidDeep(n: Node, s: Nodes) {
    forall d :: d in n.Needs() ==> Has(s, d)
  }

  /** Every stored node keeps its author, its parent and its community in the store. */
  ghost predicate Closed(s: Nodes) {
    forall n :: n in s ==> ValidDeep(n, s)
  }

  predicate NamesIdentity(id: Id) {
    id.HashOf? && id.node.Identity?
  }

  /** What the node format promises and deep validation does not look at. */
  predicate WellFormed(n: Node)
    decreases n
  {
    match n
    case Identity(_, _) => true
    case Community(a, _, _) => NamesIdentity(a)
    case Reply(a, p, c, d, _, _) =>
      && NamesIdentity(a)
      && p.HashOf?
      && !p.node.Identity?
      && WellFormed(p.node)
      && d == p.node.TreeDepth() + 1
      && c == p.node.CommunityId()
  }

  ghost predicate Sound(s: Nodes) {
    Closed(s) && forall n :: n in s ==> WellFormed(n)
  }

  /** The parent chain of a node, root first, whether or not anybody stores it. */
  function Ancestors(n: Node): seq<Node>
    decreases n
  {
    if n.ParentId().HashOf? then Ancestors(n.ParentId().node) + [n.ParentId().node] else []
  }

  lemma {:induction false} ClosedHoldsAncestry(s: Nodes, n: Node)
    requires Closed(s) && n in s
    ensures forall a :: a in Ancestors(n) ==> a in s && ValidDeep(a, s)
    decreases n
  {
    if n.ParentId().HashOf? {
      assert n.ParentId() in n.Needs();
      ClosedHoldsAncestry(s, n.ParentId().node);
    }
  }

  /** The element at position `i` of a root-first chain below `community` is where it belongs. */
  ghost predicate InPlace(chain: seq<Node>, i: nat, community: Id)
    requires i < |chain|
  {
    var a := chain[i];
    && WellFormed(a)
    && a.TreeDepth() == i
    && a.CommunityId() == community
    && (if i == 0 then a.Community? && HashOf(a) == community
        else a.Reply? && a.parent == HashOf(chain[i - 1]))
  }

  /** In a well-formed chain position is depth, each element is the parent of the next, and
    the root is the community that every element of the chain belongs to. */
  lemma {:induction false} AncestorsByDepth(n: Node)
    requires WellFormed(n)
    ensures |Ancestors(n)| == n.TreeDepth()
    ensures forall i :: 0 <= i < |Ancestors(n)| ==> InPlace(Ancestors(n), i, n.CommunityId())
    ensures n.Reply? ==> Ancestors(n) != [] && n.parent == HashOf(Ancestors(n)[|Ancestors(n)| - 1])
    decreases n
  {
    if n.Reply? {
      var p := n.parent.node;
      AncestorsByDepth(p);
      var up, chain := Ancestors(p), Ancestors(n);
      assert chain == up + [p];
      forall i | 0 <= i < |chain| ensures InPlace(chain, i, n.CommunityId()) {
        assert i < |up| ==> InPlace(up, i, p.CommunityId());
      }
    }
  }

  /** The answer to an ancestry request: the parent chain, root first, as far up as the store
    and the requested number of levels reach. */
  function Lineage(s: Nodes, n: Node, levels: int): seq<Node>
    decreases n
  {
    if levels <= 0 || !Has(s, n.ParentId()) then [] else
    Lineage(s, n.ParentId().node, levels - 1) + [n.ParentId().node]
  }

  /** How many generations above the node the store knows without a gap. */
  function KnownGenerations(s: Nodes, n: Node): nat
    decreases n
  {
    if Has(s, n.ParentId()) then 1 + KnownGenerations(s, n.ParentId().node) else 0
  }

  function DepthOf(n: Node): int {
    n.TreeDepth()
  }

  function CreatedOf(n: Node): int {
    n.created
  }

  function Min(a: int, b: int): int {
    if a <= b then a else b
  }

  lemma {:induction false} LineageIsChainSuffix(s: Nodes, n: Node, levels: int)
    ensures KnownGenerations(s, n) <= |Ancestors(n)|
    ensures Lineage(s, n, levels)
         == Ancestors(n)[|Ancestors(n)| - (if levels <= 0 then 0 else Min(levels, KnownGenerations(s, n)))..]
    decreases n
  {
    if Has(s, n.ParentId()) {
      LineageIsChainSuffix(s, n.ParentId().node, levels - 1);
    }
  }

  lemma {:induction false} ClosedKnowsAllGenerations(s: Nodes, n: Node)
    requires Closed(s) && n in s && WellFormed(n)
    ensures KnownGenerations(s, n) == n.TreeDepth() == |Ancestors(n)|
    decreases n
  {
    if n.Reply? {
      assert n.parent in n.Needs();
      ClosedKnowsAllGenerations(s, n.parent.node);
    }
  }

  lemma {:induction false} FullLineage(s: Nodes, n: Node, levels: int)
    requires Closed(s) && n in s && WellFormed(n) && levels >= n.TreeDepth()
    ensures Lineage(s, n, levels) == Ancestors(n)
  {
    ClosedKnowsAllGenerations(s, n);
    LineageIsChainSuffix(s, n, levels);
  }

  /** The walk up from `n` through stored nodes meets `root`. */
  predicate Under(s: Nodes, root: Id, n: Node)
    decreases n
  {
    n.ParentId() == root || (Has(s, n.ParentId()) && Under(s, root, n.ParentId().node))
  }

  /** The stored nodes below `root`, leaves or not. */
  function Descendants(s: Nodes, root: Id): Nodes {
    set n | n in s && root.HashOf? && Under(s, root, n)
  }

  lemma {:induction false} UnderGrows(s: Nodes, t: Nodes, root: Id, n: Node)
    requires s <= t && Under(s, root, n)
    ensures Under(t, root, n)
    decreases n
  {
    if n.ParentId() != root {
      UnderGrows(s, t, root, n.ParentId().node);
    }
  }

  lemma DescendantsGrow(s: Nodes, t: Nodes, root: Id)
    requires s <= t
    ensures Descendants(s, root) <= Descendants(t, root)
  {
    forall n | n in Descendants(s, root) ensures n in Descendants(t, root) {
      UnderGrows(s, t, root, n);
    }
  }

  /** In a closed store the descendants of a node are the stored nodes that have it for an ancestor. */
  lemma {:induction false} UnderIsAncestry(s: Nodes, r: Node, n: Node)
    requires Closed(s) && n in s
    ensures Under(s, HashOf(r), n) <==> r in Ancestors(n)
    decreases n
  {
    if n.ParentId().HashOf? {
      assert n.ParentId() in n.Needs();
      UnderIsAncestry(s, r, n.ParentId().node);
    }
  }

  lemma DescendantsExact(s: Nodes, r: Node, n: Node)
    requires Closed(s)
    ensures n in Descendants(s, HashOf(r)) <==> n in s && r in Ancestors(n)
  {
    if n in s {
      UnderIsAncestry(s, r, n);
    }
  }

  /** Any identity may found a community and reply to any well-formed community or reply. */
  lemma NodesGrow(a: Node, p: Node, content: string, created: int)
    requires a.Identity? && WellFormed(p) && !p.Identity?
    ensures WellFormed(a) && WellFormed(Community(HashOf(a), content, created))
    ensures WellFormed(Reply(HashOf(a), HashOf(p), p.CommunityId(), p.TreeDepth() + 1, content, created))
  {}
}
