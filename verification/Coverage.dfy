/** Flood coverage: when nothing is lost and no relay is left with work to do, every flooded node
  has reached every relay that subscribed links connect to a relay holding it. */
module Coverage {
  import opened Forest
  import opened Ingestion
  import opened HonestPeer
  import opened Network

  /** Both ends of the link let this node pass. */
  ghost predicate Carries(c: Config, l: Link, n: Node) {
    l in c.links && Wanted(c, l, n) && Wanted(c, Flip(l), n)
  }

  ghost predicate PromisedAt(runs: seq<Run>, r: Relay, n: Node) {
    exists k :: 0 <= k < |runs| && runs[k].link.at == r && n in Promises(runs[k].program)
  }

  ghost predicate OnItsWay(st: Net, l: Link, n: Node) {
    || Notice(l, n) in st.queued
    || Notice(l, n) in st.flying
    || PromisedAt(st.runs, l.peer, n)
  }

  /** If this end of the link holds the node, the other end holds it too or will. */
  ghost predicate LinkCovered(st: Net, l: Link, n: Node)
    requires l.at in st.stores && l.peer in st.stores
  {
    n in st.stores[l.at] ==> n in st.stores[l.peer] || OnItsWay(st, l, n)
  }

  ghost predicate Covered(c: Config, st: Net, n: Node) {
    forall l :: Carries(c, l, n) && l.at in st.stores && l.peer in st.stores ==> LinkCovered(st, l, n)
  }

  lemma StillPromised(runs: seq<Run>, runs': seq<Run>, r: Relay, n: Node)
    requires PromisedAt(runs, r, n) && runs <= runs'
    ensures PromisedAt(runs', r, n)
  {
    var k :| 0 <= k < |runs| && runs[k].link.at == r && n in Promises(runs[k].program);
    assert runs'[k] == runs[k];
  }

  lemma ForwardCovers(c: Config, st: Net, a: Notice, l: Link, n: Node)
    requires ValidConfig(c) && NetInv(c, st) && Enabled(c, st, Forward(a))
    requires Carries(c, l, n) && LinkCovered(st, l, n)
    ensures LinkCovered(Next(c, st, Forward(a)), l, n)
  {}

  lemma DeliverCovers(c: Config, st: Net, a: Notice, l: Link, n: Node)
    requires ValidConfig(c) && NetInv(c, st) && Enabled(c, st, Deliver(a))
    requires Carries(c, l, n) && LinkCovered(st, l, n)
    ensures LinkCovered(Next(c, st, Deliver(a)), l, n)
  {
    var st' := Next(c, st, Deliver(a));
    if PromisedAt(st.runs, l.peer, n) {
      StillPromised(st.runs, st'.runs, l.peer, n);
    } else if a == Notice(l, n) && n !in st.stores[l.peer] {
      assert GoodNotice(c, st.stores, a);
      FreshRun(c, st.stores, Flip(l), n);
      assert st'.runs[|st.runs|] == Run(Flip(l), Ingest(n));
    }
  }

  lemma PublishCovers(c: Config, st: Net, r: Relay, m: Node, l: Link, n: Node)
    requires ValidConfig(c) && NetInv(c, st) && Enabled(c, st, Publish(r, m))
    requires Carries(c, l, n) && LinkCovered(st, l, n)
    ensures LinkCovered(Next(c, st, Publish(r, m)), l, n)
  {
    var st' := Next(c, st, Publish(r, m));
    assert n == m && l.at == r ==> Notice(l, n) in Notices(c, r, m, {});
  }

  lemma AdvanceKeepsPromises(c: Config, st: Net, k: nat, answer: Answer, r: Relay, n: Node)
    requires ValidConfig(c) && NetInv(c, st) && Enabled(c, st, Advance(k, answer))
    requires r in st.stores && PromisedAt(st.runs, r, n)
    ensures var st' := Advanced(c, st, k, answer); n in st'.stores[r] || PromisedAt(st'.runs, r, n)
  {
    var st' := Advanced(c, st, k, answer);
    var j :| 0 <= j < |st.runs| && st.runs[j].link.at == r && n in Promises(st.runs[j].program);
    RunStep(c, st.stores, st.runs[k], answer);
    assert st'.runs[j].link == st.runs[j].link;
    if n !in st'.stores[r] {
      assert n in Promises(st'.runs[j].program);
    }
  }

  lemma AdvanceCoversHeld(c: Config, st: Net, k: nat, answer: Answer, l: Link, n: Node)
    requires ValidConfig(c) && NetInv(c, st) && Enabled(c, st, Advance(k, answer))
    requires Carries(c, l, n) && LinkCovered(st, l, n) && HeldAt(st, l.at, n)
    ensures LinkCovered(Advanced(c, st, k, answer), l, n)
  {
    AdvanceKeepsInv(c, st, k, answer);
    if PromisedAt(st.runs, l.peer, n) {
      AdvanceKeepsPromises(c, st, k, answer, l.peer, n);
    }
  }

  lemma InsertedBy(c: Config, st: Net, k: nat, answer: Answer, at: Relay, n: Node)
    requires Enabled(c, st, Advance(k, answer)) && at in st.stores
    requires n !in st.stores[at] && n in Advanced(c, st, k, answer).stores[at]
    ensures st.runs[k].link.at == at && OutcomeOf(st.stores, st.runs[k], answer) == Insert(n)
  {}

  lemma AdvanceCoversInserted(c: Config, st: Net, k: nat, answer: Answer, l: Link, n: Node)
    requires ValidConfig(c) && NetInv(c, st) && Enabled(c, st, Advance(k, answer))
    requires Carries(c, l, n) && !HeldAt(st, l.at, n)
    ensures LinkCovered(Advanced(c, st, k, answer), l, n)
  {
    var st', r := Advanced(c, st, k, answer), st.runs[k];
    if n in st'.stores[l.at] {
      InsertedBy(c, st, k, answer, l.at, n);
      if l == r.link {
        RunStep(c, st.stores, r, answer);
      } else {
        assert Notice(l, n) in Notices(c, l.at, n, {r.link});
      }
    }
  }

  lemma MoveKeepsLinkCovered(c: Config, st: Net, m: Move, l: Link, n: Node)
    requires ValidConfig(c) && NetInv(c, st) && Enabled(c, st, m) && Lossless(m)
    requires Carries(c, l, n) && l.at in st.stores && l.peer in st.stores && LinkCovered(st, l, n)
    ensures var st' := Next(c, st, m);
            l.at in st'.stores && l.peer in st'.stores && LinkCovered(st', l, n)
  {
    match m
    case Forward(a) => ForwardCovers(c, st, a, l, n);
    case Deliver(a) => DeliverCovers(c, st, a, l, n);
    case Publish(r, p) => PublishCovers(c, st, r, p, l, n);
    case Advance(k, answer) =>
      if HeldAt(st, l.at, n) {
        AdvanceCoversHeld(c, st, k, answer, l, n);
      } else {
        AdvanceCoversInserted(c, st, k, answer, l, n);
      }
  }

  lemma {:induction false} MoveKeepsCovered(c: Config, st: Net, m: Move, n: Node)
    requires ValidConfig(c) && NetInv(c, st) && Enabled(c, st, m) && Lossless(m)
    requires Covered(c, st, n)
    ensures Covered(c, Next(c, st, m), n)
  {
    var st' := Next(c, st, m);
    MoveKeepsInv(c, st, m);
    forall l | Carries(c, l, n) && l.at in st'.stores && l.peer in st'.stores ensures LinkCovered(st', l, n) {
      assert LinkCovered(st, l, n);
      MoveKeepsLinkCovered(c, st, m, l, n);
    }
  }

  ghost predicate Quiet(st: Net) {
    && st.queued == multiset{} && st.flying == multiset{}
    && forall k :: 0 <= k < |st.runs| ==> st.runs[k].program == []
  }

  ghost predicate LosslessStep(c: Config, st: Net, st': Net) {
    exists m :: Lossless(m) && Enabled(c, st, m) && st' == Next(c, st, m)
  }

  ghost predicate LosslessRun(c: Config, trace: seq<Net>) {
    trace != [] && forall i :: 0 < i < |trace| ==> StepsTo(c, trace, i)
  }

  ghost predicate StepsTo(c: Config, trace: seq<Net>, i: nat)
    requires 0 < i < |trace|
  {
    LosslessStep(c, trace[i - 1], trace[i])
  }

  /** A node no relay holds yet, in a network that may be busy with other nodes. */
  ghost predicate NewIn(st: Net, n: Node) {
    forall r :: r in st.stores ==> n !in st.stores[r]
  }

  /** Both ends of every carrying link hold the node, or neither does. */
  ghost predicate LevelIn(c: Config, st: Net, n: Node) {
    forall l :: Carries(c, l, n) ==> (HeldAt(st, l.at, n) <==> HeldAt(st, l.peer, n))
  }

  /** Where a flood may start: with nodes that are new, or already where they belong. By
    MoveKeepsCovered every later moment of the flood is such a start as well. */
  lemma StartsCovered(c: Config, st: Net, n: Node)
    requires NewIn(st, n) || LevelIn(c, st, n)
    ensures Covered(c, st, n)
  {}

  lemma StepKeepsCovered(c: Config, st: Net, st': Net, n: Node)
    requires ValidConfig(c) && NetInv(c, st) && Covered(c, st, n) && LosslessStep(c, st, st')
    ensures NetInv(c, st') && Covered(c, st', n) && Grown(st.stores, st'.stores)
  {
    var m :| Lossless(m) && Enabled(c, st, m) && st' == Next(c, st, m);
    MoveKeepsInv(c, st, m);
    MoveKeepsCovered(c, st, m, n);
    MoveGrowsStores(c, st, m);
  }

  lemma {:induction false} RunKeepsCovered(c: Config, trace: seq<Net>, i: nat, n: Node)
    requires ValidConfig(c) && LosslessRun(c, trace) && i < |trace|
    requires NetInv(c, trace[0]) && Covered(c, trace[0], n)
    ensures NetInv(c, trace[i]) && Covered(c, trace[i], n)
  {
    if i > 0 {
      RunKeepsCovered(c, trace, i - 1, n);
      assert StepsTo(c, trace, i);
      StepKeepsCovered(c, trace[i - 1], trace[i], n);
    }
  }

  predicate HeldAt(st: Net, r: Relay, n: Node) {
    r in st.stores && n in st.stores[r]
  }

  ghost predicate CarryingPath(c: Config, path: seq<Relay>, n: Node) {
    path != [] && forall i :: 0 < i < |path| ==> HopCarries(c, path, n, i)
  }

  ghost predicate HopCarries(c: Config, path: seq<Relay>, n: Node, i: nat)
    requires 0 < i < |path|
  {
    Carries(c, Link(path[i - 1], path[i]), n)
  }

  lemma {:induction false} HeldAlongPath(c: Config, st: Net, path: seq<Relay>, n: Node, i: nat)
    requires ValidConfig(c) && NetInv(c, st) && Covered(c, st, n) && Quiet(st)
    requires CarryingPath(c, path, n) && HeldAt(st, path[0], n) && i < |path|
    ensures HeldAt(st, path[i], n)
  {
    if i > 0 {
      HeldAlongPath(c, st, path, n, i - 1);
      var l := Link(path[i - 1], path[i]);
      assert HopCarries(c, path, n, i) && LinkCovered(st, l, n);
    }
  }

  lemma {:induction false} StaysHeld(c: Config, trace: seq<Net>, i: nat, j: nat, r: Relay, n: Node)
    requires ValidConfig(c) && LosslessRun(c, trace) && NetInv(c, trace[0]) && Covered(c, trace[0], n)
    requires i <= j < |trace| && HeldAt(trace[i], r, n)
    ensures HeldAt(trace[j], r, n)
    decreases j
  {
    if i < j {
      StaysHeld(c, trace, i, j - 1, r, n);
      RunKeepsCovered(c, trace, j - 1, n);
      assert StepsTo(c, trace, j);
      StepKeepsCovered(c, trace[j - 1], trace[j], n);
    }
  }

  /** Flood coverage: a relay that holds a node at any point of a lossless run, its origin for one,
    has passed it to every relay at the end of a path of carrying links by the time the network
    is quiet. At the start the node may be new, or on its way already. */
  lemma FloodCoverage(c: Config, trace: seq<Net>, i: nat, n: Node, path: seq<Relay>)
    requires ValidConfig(c) && LosslessRun(c, trace) && NetInv(c, trace[0]) && Covered(c, trace[0], n)
    requires Quiet(trace[|trace| - 1])
    requires CarryingPath(c, path, n) && i < |trace| && HeldAt(trace[i], path[0], n)
    ensures HeldAt(trace[|trace| - 1], path[|path| - 1], n)
  {
    RunKeepsCovered(c, trace, |trace| - 1, n);
    StaysHeld(c, trace, i, |trace| - 1, path[0], n);
    HeldAlongPath(c, trace[|trace| - 1], path, n, |path| - 1);
  }
}
