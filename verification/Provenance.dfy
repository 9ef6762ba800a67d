/** What a flood reaches and nothing else, in terms of links and subscriptions alone: identities and
  communities go over every link, replies over the links whose two ends are subscribed to their
  community.
*/
module Provenance {
  import opened Forest
  import opened Ingestion
  import opened HonestPeer
  import opened Network
  import opened Coverage
  import opened Termination
  import opened Convergence

  /** The nodes that may pass a link. */
  predicate MayPass(c: Config, l: Link, n: Node) {
    l in c.links && (n.Reply? ==> Subscribed(c, l, n.community))
  }

  ghost predicate OpenPath(c: Config, path: seq<Relay>, n: Node) {
    path != [] && forall i :: 0 < i < |path| ==> OpenHop(c, path, n, i)
  }

  ghost predicate OpenHop(c: Config, path: seq<Relay>, n: Node, i: nat)
    requires 0 < i < |path|
  {
    MayPass(c, Link(path[i - 1], path[i]), n)
  }

  // ---------- Everything that may be reached is reached ----------

  lemma OpenIsCarrying(c: Config, path: seq<Relay>, n: Node)
    requires ValidConfig(c) && OpenPath(c, path, n)
    ensures CarryingPath(c, path, n)
  {
    forall i | 0 < i < |path| ensures HopCarries(c, path, n, i) {
      assert OpenHop(c, path, n, i);
    }
  }

  /** By the time a lossless run is quiet, a relay that has held a node at any point has passed it to
    the end of every open path: of links alone for identities and communities, of links with both
    ends subscribed for replies. */
  lemma FloodReaches(c: Config, trace: seq<Net>, i: nat, n: Node, path: seq<Relay>)
    requires ValidConfig(c) && LosslessRun(c, trace) && NetInv(c, trace[0]) && Covered(c, trace[0], n)
    requires Quiet(trace[|trace| - 1]) && OpenPath(c, path, n) && i < |trace| && HeldAt(trace[i], path[0], n)
    ensures HeldAt(trace[|trace| - 1], path[|path| - 1], n)
  {
    OpenIsCarrying(c, path, n);
    FloodCoverage(c, trace, i, n, path);
  }

  /** The node is held at the end of every open path from the relay. */
  ghost predicate HeldWhereOpen(c: Config, st: Net, r: Relay, n: Node) {
    forall path :: OpenPath(c, path, n) && path[0] == r ==> HeldAt(st, path[|path| - 1], n)
  }

  lemma {:induction false} ScheduleKeepsHeld(c: Config, run: nat -> Net, k: nat, r: Relay, n: Node)
    requires ValidConfig(c) && BusySchedule(c, run)
    requires NetInv(c, run(0)) && Covered(c, run(0), n) && HeldAt(run(0), r, n)
    ensures HeldAt(run(k), r, n)
    decreases k
  {
    if k > 0 {
      ScheduleKeepsHeld(c, run, k - 1, r, n);
      ScheduleCovers(c, run, k - 1, n);
      assert MovesOrRests(c, run, k - 1);
      if LosslessStep(c, run(k - 1), run(k)) {
        StepKeepsCovered(c, run(k - 1), run(k), n);
      }
    }
  }

  /** Any valid node may be published at a relay that lacks it, and if nobody held it, then every
    busy schedule from there brings it to the end of every open path. */
  lemma PublicationReaches(c: Config, st: Net, r: Relay, n: Node, run: nat -> Net)
    requires ValidConfig(c) && NetInv(c, st) && NewIn(st, n)
    requires r in c.relays && n in c.universe && ValidDeep(n, st.stores[r])
    ensures Enabled(c, st, Publish(r, n))
    ensures run(0) == Next(c, st, Publish(r, n)) && BusySchedule(c, run) ==>
              exists k: nat :: Quiet(run(k)) && HeldWhereOpen(c, run(k), r, n)
  {
    if run(0) == Next(c, st, Publish(r, n)) && BusySchedule(c, run) {
      MoveKeepsInv(c, st, Publish(r, n));
      MoveKeepsCovered(c, st, Publish(r, n), n);
      FloodConverges(c, run, n);
      var k: nat :| Quiet(run(k)) && EvenlyHeld(c, run(k), n);
      ScheduleKeepsHeld(c, run, k, r, n);
      forall path | OpenPath(c, path, n) && path[0] == r ensures HeldAt(run(k), path[|path| - 1], n) {
        OpenIsCarrying(c, path, n);
      }
    }
  }

  // ---------- Nothing else is reached ----------

  /** An instruction of an ingestion, about nodes that may pass the link. */
  predicate Brings(c: Config, l: Link, i: Instr) {
    match i
    case AwaitAuthor(a) => l in c.links && NamesIdentity(a)
    case AwaitLineage(_) => false
    case CheckLeaf(_) => false
    case AwaitLeaves(_, _) => false
    case AnnounceLeaves(_) => false
    case _ => WellFormed(i.node) && MayPass(c, l, i.node)
  }

  ghost predicate BringsAll(c: Config, l: Link, p: Program) {
    forall i :: i in p ==> Brings(c, l, i)
  }

  lemma AncestorsMayPass(c: Config, l: Link, n: Node)
    requires WellFormed(n) && MayPass(c, l, n)
    ensures forall a :: a in Ancestors(n) ==> WellFormed(a) && MayPass(c, l, a)
  {
    AncestorsByDepth(n);
    var up := Ancestors(n);
    forall a | a in up ensures WellFormed(a) && MayPass(c, l, a) {
      var i :| 0 <= i < |up| && up[i] == a;
      assert InPlace(up, i, n.CommunityId());
    }
  }

  lemma FillAllBrings(c: Config, l: Link, ns: seq<Node>)
    requires forall n :: n in ns ==> WellFormed(n) && MayPass(c, l, n)
    ensures BringsAll(c, l, FillAll(ns))
  {}

  lemma AuthorMayPass(c: Config, l: Link, a: Id, peer: Nodes)
    requires l in c.links && NamesIdentity(a)
    ensures forall x :: x in Found([a], peer) ==> WellFormed(x) && MayPass(c, l, x)
  {
    assert [a][1..] == [] && Found([], peer) == [];
  }

  lemma ExpansionBrings(c: Config, l: Link, i: Instr, s: Nodes, peer: Nodes, answer: Answer)
    requires Brings(c, l, i) && Sound(peer) && HonestAnswer(i, peer, answer)
    ensures var o := Exec(i, s, answer);
            && (o.Continue? ==> BringsAll(c, l, o.next))
            && !o.Announce?
            && (o.Insert? ==> MayPass(c, l, o.node))
  {
    if i.AwaitAncestry? {
      FullLineage(peer, i.node, i.node.TreeDepth());
      AncestorsMayPass(c, l, i.node);
      FillAllBrings(c, l, answer.nodes);
    } else if i.AwaitAuthor? {
      AuthorMayPass(c, l, i.author, peer);
    }
  }

  /** A step of an ingestion inserts what may pass its link, and goes on with such nodes only. */
  lemma StepBrings(c: Config, l: Link, p: Program, s: Nodes, peer: Nodes, answer: Answer)
    requires p != [] && BringsAll(c, l, p) && Sound(peer) && HonestAnswer(p[0], peer, answer)
    ensures var o := Exec(p[0], s, answer);
            && BringsAll(c, l, Remaining(p, o))
            && !o.Announce?
            && (o.Insert? ==> MayPass(c, l, o.node))
  {
    assert p[0] in p && forall j :: j in p[1..] ==> j in p;
    ExpansionBrings(c, l, p[0], s, peer, answer);
  }

  /** What is under way may pass where it is going; what has been sent, the sender may send. */
  ghost predicate Clean(c: Config, st: Net) {
    && (forall k :: 0 <= k < |st.runs| ==> BringsAll(c, st.runs[k].link, st.runs[k].program))
    && forall a :: a in st.flying ==> Sendable(c, a)
  }

  predicate Sendable(c: Config, a: Notice) {
    a.node.Reply? ==> a.link in c.sessions && a.node.community in c.sessions[a.link]
  }

  lemma AdvanceKeepsClean(c: Config, st: Net, k: nat, answer: Answer)
    requires ValidConfig(c) && NetInv(c, st) && Clean(c, st) && Enabled(c, st, Advance(k, answer))
    ensures Clean(c, Advanced(c, st, k, answer))
    ensures var o := OutcomeOf(st.stores, st.runs[k], answer); o.Insert? ==> MayPass(c, st.runs[k].link, o.node)
  {
    var r := st.runs[k];
    assert GoodRun(c, st.stores, r);
    StepBrings(c, r.link, r.program, st.stores[r.link.at], st.stores[r.link.peer], answer);
  }

  lemma DeliverKeepsClean(c: Config, st: Net, a: Notice)
    requires ValidConfig(c) && NetInv(c, st) && Clean(c, st) && Enabled(c, st, Deliver(a))
    ensures Clean(c, Next(c, st, Deliver(a)))
  {
    assert GoodNotice(c, st.stores, a) && Sendable(c, a);
    var here := Flip(a.link);
    assert WellFormed(a.node) && Flip(here) == a.link && here in c.links;
    if Wanted(c, here, a.node) {
      assert MayPass(c, here, a.node);
      assert BringsAll(c, here, Ingest(a.node));
    }
  }

  lemma ForwardKeepsClean(c: Config, st: Net, a: Notice)
    requires Clean(c, st) && Enabled(c, st, Forward(a))
    ensures Clean(c, Next(c, st, Forward(a)))
  {}

  lemma OthersKeepClean(c: Config, st: Net, m: Move)
    requires Clean(c, st) && Enabled(c, st, m) && (m.Publish? || m.Lose? || m.Fail?)
    ensures Clean(c, Next(c, st, m))
  {}

  lemma MoveKeepsClean(c: Config, st: Net, m: Move)
    requires ValidConfig(c) && NetInv(c, st) && Clean(c, st) && Enabled(c, st, m)
    ensures Clean(c, Next(c, st, m))
  {
    match m
    case Forward(a) => ForwardKeepsClean(c, st, a);
    case Deliver(a) => DeliverKeepsClean(c, st, a);
    case Advance(k, answer) => AdvanceKeepsClean(c, st, k, answer);
    case _ => OthersKeepClean(c, st, m);
  }

  /** At step `k` of the run a local process has published the node at the relay. */
  ghost predicate PublishedAt(c: Config, trace: seq<Net>, k: nat, r: Relay, n: Node) {
    && 0 < k < |trace|
    && Enabled(c, trace[k - 1], Publish(r, n)) && trace[k] == Next(c, trace[k - 1], Publish(r, n))
  }

  ghost predicate Originates(c: Config, trace: seq<Net>, j: nat, path: seq<Relay>, k: nat, n: Node) {
    k <= j && OpenPath(c, path, n) && PublishedAt(c, trace, k, path[0], n)
  }

  /** By step `j` the node has been published at a relay that an open path connects to this one. */
  ghost predicate HasOrigin(c: Config, trace: seq<Net>, j: nat, r: Relay, n: Node) {
    exists path, k :: Originates(c, trace, j, path, k, n) && path[|path| - 1] == r
  }

  lemma OriginLater(c: Config, trace: seq<Net>, j: nat, r: Relay, n: Node)
    requires HasOrigin(c, trace, j, r, n)
    ensures HasOrigin(c, trace, j + 1, r, n)
  {
    var path, k :| Originates(c, trace, j, path, k, n) && path[|path| - 1] == r;
    assert Originates(c, trace, j + 1, path, k, n);
  }

  /** Whoever gets the node from a relay with an origin has that origin. */
  lemma OriginOver(c: Config, trace: seq<Net>, j: nat, l: Link, n: Node)
    requires ValidConfig(c) && MayPass(c, l, n) && HasOrigin(c, trace, j, l.peer, n)
    ensures HasOrigin(c, trace, j, l.at, n)
  {
    var path, k :| Originates(c, trace, j, path, k, n) && path[|path| - 1] == l.peer;
    var all := path + [l.at];
    assert Flip(Flip(l)) == l && MayPass(c, Flip(l), n);
    forall i | 0 < i < |all| ensures OpenHop(c, all, n, i) {
      if i < |path| {
        assert OpenHop(c, path, n, i);
      }
    }
    assert Originates(c, trace, j, all, k, n);
  }

  lemma NewHolder(c: Config, st: Net, m: Move, r: Relay, n: Node)
    requires ValidConfig(c) && NetInv(c, st) && Clean(c, st) && Enabled(c, st, m)
    requires !HeldAt(st, r, n) && HeldAt(Next(c, st, m), r, n)
    ensures m.Publish? || m.Advance?
    ensures m.Publish? ==> m.relay == r && m.node == n
    ensures m.Advance? ==> st.runs[m.k].link.at == r && HeldAt(st, st.runs[m.k].link.peer, n)
                           && MayPass(c, st.runs[m.k].link, n)
  {
    if m.Advance? {
      RunStep(c, st.stores, st.runs[m.k], m.answer);
      AdvanceKeepsClean(c, st, m.k, m.answer);
    }
  }

  ghost predicate AllHaveOrigins(c: Config, trace: seq<Net>, j: nat, n: Node)
    requires j < |trace|
  {
    forall r :: HeldAt(trace[j], r, n) ==> HasOrigin(c, trace, j, r, n)
  }

  lemma HolderHasOrigin(c: Config, trace: seq<Net>, j: nat, m: Move, r: Relay, n: Node)
    requires ValidConfig(c) && j + 1 < |trace| && NetInv(c, trace[j]) && Clean(c, trace[j])
    requires Enabled(c, trace[j], m) && trace[j + 1] == Next(c, trace[j], m)
    requires AllHaveOrigins(c, trace, j, n) && HeldAt(trace[j + 1], r, n)
    ensures HasOrigin(c, trace, j + 1, r, n)
  {
    if HeldAt(trace[j], r, n) {
      OriginLater(c, trace, j, r, n);
    } else {
      NewHolder(c, trace[j], m, r, n);
      if m.Publish? {
        assert Originates(c, trace, j + 1, [r], j + 1, n);
      } else {
        OriginLater(c, trace, j, trace[j].runs[m.k].link.peer, n);
        OriginOver(c, trace, j + 1, trace[j].runs[m.k].link, n);
      }
    }
  }

  lemma StepKeepsOrigins(c: Config, trace: seq<Net>, j: nat, n: Node)
    requires ValidConfig(c) && j + 1 < |trace| && NetInv(c, trace[j]) && Clean(c, trace[j])
    requires NetStep(c, trace[j], trace[j + 1]) && AllHaveOrigins(c, trace, j, n)
    ensures NetInv(c, trace[j + 1]) && Clean(c, trace[j + 1]) && AllHaveOrigins(c, trace, j + 1, n)
  {
    var m :| Enabled(c, trace[j], m) && trace[j + 1] == Next(c, trace[j], m);
    MoveKeepsInv(c, trace[j], m);
    MoveKeepsClean(c, trace[j], m);
    var next := j + 1;
    forall r | HeldAt(trace[next], r, n) ensures HasOrigin(c, trace, next, r, n) {
      HolderHasOrigin(c, trace, j, m, r, n);
    }
  }

  ghost predicate Sourced(c: Config, trace: seq<Net>, j: nat, n: Node)
    requires j < |trace|
  {
    NetInv(c, trace[j]) && Clean(c, trace[j]) && AllHaveOrigins(c, trace, j, n)
  }

  lemma QuietIsSourced(c: Config, trace: seq<Net>, n: Node)
    requires trace != [] && NetInv(c, trace[0]) && Quiet(trace[0]) && NewIn(trace[0], n)
    ensures Sourced(c, trace, 0, n)
  {}

  lemma {:induction false} EveryHolderHasOrigin(c: Config, trace: seq<Net>, j: nat, n: Node)
    requires ValidConfig(c) && NetRun(c, trace) && j < |trace| && Sourced(c, trace, 0, n)
    ensures Sourced(c, trace, j, n)
    decreases j
  {
    if j > 0 {
      EveryHolderHasOrigin(c, trace, j - 1, n);
      assert NetStepsTo(c, trace, j);
      StepKeepsOrigins(c, trace, j - 1, n);
    }
  }

  /** A flood spreads along open paths only: in any run of publications, announcements and
    ingestions from a quiet network, with any losses, a relay that holds a node new at the start
    is at the end of an open path from a relay where the node was published. */
  lemma OnlyOpenPathsCarry(c: Config, trace: seq<Net>, j: nat, r: Relay, n: Node)
    requires ValidConfig(c) && NetRun(c, trace) && Quiet(trace[0]) && NewIn(trace[0], n)
    requires j < |trace| && HeldAt(trace[j], r, n)
    ensures HasOrigin(c, trace, j, r, n)
  {
    QuietIsSourced(c, trace, n);
    EveryHolderHasOrigin(c, trace, j, n);
  }

  // ---------- Losses matter ----------

  /** Two relays with a link between them, and one identity in the world. */
  function Couple(n: Node): Config {
    Config({0, 1}, {Link(0, 1), Link(1, 0)}, map[], {n}, 0)
  }

  function Empty(): Net {
    Net(map[0 := {}, 1 := {}], [], multiset{}, multiset{})
  }

  lemma CoupleIsValid(n: Node)
    requires n.Identity?
    ensures ValidConfig(Couple(n)) && NetInv(Couple(n), Empty()) && Quiet(Empty()) && NewIn(Empty(), n)
    ensures OpenPath(Couple(n), [0, 1], n)
  {}

  lemma Moved(c: Config, trace: seq<Net>, m: Move) returns (all: seq<Net>)
    requires NetRun(c, trace) && Enabled(c, trace[|trace| - 1], m)
    ensures NetRun(c, all) && all == trace + [Next(c, trace[|trace| - 1], m)]
  {
    all := trace + [Next(c, trace[|trace| - 1], m)];
    forall i | 0 < i < |all| ensures NetStepsTo(c, all, i) {
      assert i < |trace| ==> NetStepsTo(c, trace, i);
    }
  }

  /** The identity is published at the first relay; `queued`, `flying` and `runs` are on their way. */
  function Published(n: Node, runs: seq<Run>, queued: multiset<Notice>, flying: multiset<Notice>): Net {
    Net(map[0 := {n}, 1 := {}], runs, queued, flying)
  }

  lemma PublishFirst(n: Node) returns (trace: seq<Net>)
    requires n.Identity?
    ensures NetRun(Couple(n), trace)
    ensures trace[|trace| - 1] == Published(n, [], multiset{Notice(Link(0, 1), n)}, multiset{})
  {
    var c, a := Couple(n), Notice(Link(0, 1), n);
    CoupleIsValid(n);
    trace := Moved(c, [Empty()], Publish(0, n));
    assert (set l | l in c.links && l.at == 0 && l !in {} :: Notice(l, n)) == {a};
    assert Notices(c, 0, n, {}) == multiset{a};
    assert Empty().stores[0] + {n} == {n};
    assert Empty().stores[0 := {n}] == map[0 := {n}, 1 := {}];
  }

  /** A lost notice can keep a node from ever reaching the end of an open path. */
  lemma LossBreaksCoverage(n: Node) returns (trace: seq<Net>)
    requires n.Identity?
    ensures NetRun(Couple(n), trace) && Quiet(trace[|trace| - 1]) && OpenPath(Couple(n), [0, 1], n)
    ensures HeldAt(trace[|trace| - 1], 0, n) && !HeldAt(trace[|trace| - 1], 1, n)
  {
    CoupleIsValid(n);
    trace := PublishFirst(n);
    trace := Moved(Couple(n), trace, Lose(Notice(Link(0, 1), n)));
    assert trace[|trace| - 1] == Published(n, [], multiset{}, multiset{});
  }

  /** So can an ingestion whose request fails. */
  lemma FailureBreaksCoverage(n: Node) returns (trace: seq<Net>)
    requires n.Identity?
    ensures NetRun(Couple(n), trace) && Quiet(trace[|trace| - 1]) && OpenPath(Couple(n), [0, 1], n)
    ensures HeldAt(trace[|trace| - 1], 0, n) && !HeldAt(trace[|trace| - 1], 1, n)
  {
    var c, a := Couple(n), Notice(Link(0, 1), n);
    CoupleIsValid(n);
    trace := PublishFirst(n);
    trace := Moved(c, trace, Forward(a));
    assert trace[|trace| - 1] == Published(n, [], multiset{}, multiset{a});
    trace := Moved(c, trace, Deliver(a));
    assert trace[|trace| - 1] == Published(n, [Run(Link(1, 0), Ingest(n))], multiset{}, multiset{});
    trace := Moved(c, trace, Fail(0));
    assert trace[|trace| - 1] == Published(n, [Run(Link(1, 0), [])], multiset{}, multiset{});
  }
}
