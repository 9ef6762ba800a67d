/** Announcing leaves brings whole trees: a synchronization announces only its own leaves below a
  root, and still the peer ends up with everything it has there, whatever the stores were.
*/
module LeafFlood {
  import opened Sets
  import opened Forest
  import opened Ingestion
  import opened HonestPeer
  import opened Network
  import opened Coverage

  // ---------- Every descendant is a leaf or above one ----------

  lemma {:induction false} AncestorsOfAncestor(n: Node, m: Node, a: Node)
    requires m in Ancestors(n) && a in Ancestors(m)
    ensures a in Ancestors(n)
    decreases n
  {
    var p := n.ParentId().node;
    if m != p {
      AncestorsOfAncestor(p, m, a);
    }
  }

  function Deeper(s: Nodes, d: Node): Nodes {
    set n | n in s && n.TreeDepth() > d.TreeDepth()
  }

  lemma DeeperShrinks(s: Nodes, d: Node, child: Node)
    requires child in s && child.TreeDepth() > d.TreeDepth()
    ensures |Deeper(s, child)| < |Deeper(s, d)|
  {
    SubsetSize(Deeper(s, child), Deeper(s, d) - {child});
  }

  lemma {:induction false} LeafBelow(s: Nodes, root: Id, d: Node) returns (leaf: Node)
    requires Sound(s) && d in Descendants(s, root)
    ensures leaf in Leaves(s, root) && (leaf == d || d in Ancestors(leaf))
    decreases |Deeper(s, d)|
  {
    if d in Leaves(s, root) {
      leaf := d;
    } else {
      var child :| child in s && child.ParentId() == HashOf(d);
      assert WellFormed(child) && Under(s, root, child);
      DeeperShrinks(s, d, child);
      leaf := LeafBelow(s, root, child);
      assert d in Ancestors(child);
      if leaf != child {
        AncestorsOfAncestor(leaf, child, d);
      }
    }
  }

  lemma {:induction false} DescendantsCommunity(s: Nodes, root: Node, d: Node)
    requires WellFormed(d) && Under(s, HashOf(root), d)
    ensures d.Reply? && d.community == root.CommunityId()
    decreases d
  {
    if d.ParentId() != HashOf(root) {
      DescendantsCommunity(s, root, d.ParentId().node);
    }
  }

  // ---------- From the announcement to the end ----------

  ghost predicate LinkKept(st: Net, l: Link, n: Node) {
    HeldAt(st, l.at, n) && l.peer in st.stores && LinkCovered(st, l, n)
  }

  lemma StepKeepsNet(c: Config, st: Net, st': Net)
    requires ValidConfig(c) && NetInv(c, st) && LosslessStep(c, st, st')
    ensures NetInv(c, st')
  {
    var m :| Lossless(m) && Enabled(c, st, m) && st' == Next(c, st, m);
    MoveKeepsInv(c, st, m);
  }

  lemma {:induction false} RunKeepsInv(c: Config, trace: seq<Net>, i: nat)
    requires ValidConfig(c) && LosslessRun(c, trace) && NetInv(c, trace[0]) && i < |trace|
    ensures NetInv(c, trace[i])
  {
    if i > 0 {
      RunKeepsInv(c, trace, i - 1);
      assert StepsTo(c, trace, i);
      StepKeepsNet(c, trace[i - 1], trace[i]);
    }
  }

  lemma StepKeepsLink(c: Config, st: Net, st': Net, l: Link, n: Node)
    requires ValidConfig(c) && NetInv(c, st) && LosslessStep(c, st, st') && Carries(c, l, n) && LinkKept(st, l, n)
    ensures LinkKept(st', l, n)
  {
    var m :| Lossless(m) && Enabled(c, st, m) && st' == Next(c, st, m);
    MoveGrowsStores(c, st, m);
    MoveKeepsLinkCovered(c, st, m, l, n);
  }

  lemma {:induction false} LinkStaysKept(c: Config, trace: seq<Net>, i: nat, j: nat, l: Link, n: Node)
    requires ValidConfig(c) && LosslessRun(c, trace) && NetInv(c, trace[0])
    requires i <= j < |trace| && Carries(c, l, n) && LinkKept(trace[i], l, n)
    ensures LinkKept(trace[j], l, n)
    decreases j
  {
    if i < j {
      LinkStaysKept(c, trace, i, j - 1, l, n);
      RunKeepsInv(c, trace, j - 1);
      assert StepsTo(c, trace, j);
      StepKeepsLink(c, trace[j - 1], trace[j], l, n);
    }
  }

  /** At this point of the run, its run `k` announces the leaves below `root` to its peer. */
  ghost predicate AnnouncesLeaves(c: Config, trace: seq<Net>, i: nat, k: nat, root: Node) {
    && i + 1 < |trace| && k < |trace[i].runs|
    && trace[i].runs[k].program != [] && trace[i].runs[k].program[0] == AnnounceLeaves(root)
    && trace[i].runs[k].link.at in trace[i].stores
    && trace[i + 1] == Advanced(c, trace[i], k, NoAnswer)
  }

  lemma LeafAnnounced(c: Config, st: Net, k: nat, root: Node, leaf: Node)
    requires ValidConfig(c) && NetInv(c, st) && k < |st.runs|
    requires st.runs[k].program != [] && st.runs[k].program[0] == AnnounceLeaves(root)
    requires st.runs[k].link.at in st.stores
    requires leaf in Leaves(st.stores[st.runs[k].link.at], HashOf(root))
    ensures LinkKept(Advanced(c, st, k, NoAnswer), st.runs[k].link, leaf)
  {
    var next := Advanced(c, st, k, NoAnswer);
    assert GoodRun(c, st.stores, st.runs[k]);
    assert next.stores == st.stores;
    assert Notice(st.runs[k].link, leaf) in next.flying;
  }

  lemma LeafArrives(c: Config, trace: seq<Net>, i: nat, k: nat, root: Node, leaf: Node)
    requires ValidConfig(c) && LosslessRun(c, trace) && NetInv(c, trace[0]) && Quiet(trace[|trace| - 1])
    requires AnnouncesLeaves(c, trace, i, k, root) && NetInv(c, trace[i])
    requires Carries(c, trace[i].runs[k].link, leaf)
    requires leaf in Leaves(trace[i].stores[trace[i].runs[k].link.at], HashOf(root))
    ensures HeldAt(trace[|trace| - 1], trace[i].runs[k].link.peer, leaf)
  {
    LeafAnnounced(c, trace[i], k, root, leaf);
    LinkStaysKept(c, trace, i + 1, |trace| - 1, trace[i].runs[k].link, leaf);
  }

  /** In a lossless run that ends quiet, an announcement of the leaves below a root, to a peer with
    which its community is shared, brings that peer everything stored below the root at the
    time, leaves or not. */
  lemma AnnouncedLeavesBringTree(c: Config, trace: seq<Net>, i: nat, k: nat, root: Node)
    requires ValidConfig(c) && LosslessRun(c, trace) && NetInv(c, trace[0]) && Quiet(trace[|trace| - 1])
    requires AnnouncesLeaves(c, trace, i, k, root)
    requires Subscribed(c, trace[i].runs[k].link, root.CommunityId())
    ensures var l := trace[i].runs[k].link;
            && l.peer in trace[|trace| - 1].stores
            && Descendants(trace[i].stores[l.at], HashOf(root)) <= trace[|trace| - 1].stores[l.peer]
  {
    var l, end := trace[i].runs[k].link, trace[|trace| - 1];
    RunKeepsInv(c, trace, i);
    RunKeepsInv(c, trace, |trace| - 1);
    assert GoodRun(c, trace[i].stores, trace[i].runs[k]);
    var s := trace[i].stores[l.at];
    forall d | d in Descendants(s, HashOf(root)) ensures d in end.stores[l.peer] {
      var leaf := LeafBelow(s, HashOf(root), d);
      DescendantsCommunity(s, root, leaf);
      LeafArrives(c, trace, i, k, root, leaf);
      ClosedHoldsAncestry(end.stores[l.peer], leaf);
    }
  }
}
