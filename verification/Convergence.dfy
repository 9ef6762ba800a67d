/** Convergence: termination and coverage together. A network that is not quiet can always move,
  and a run that moves whenever it can falls quiet with every flooded node everywhere it is wanted. */
module Convergence {
  import opened Forest
  import opened Sorting
  import opened Ingestion
  import opened HonestPeer
  import opened LeafRequests
  import opened Network
  import opened Coverage
  import opened Termination

  // ---------- Reachable networks ----------

  /** What a worker may be doing: synchronizing any tree, or joining a community or ingesting a
    node that the peer holds. */
  ghost predicate Starting(c: Config, stores: map<Relay, Nodes>, r: Run) {
    && r.link in c.links && r.link.peer in stores
    && (|| (exists root, max: nat :: r.program == Synchronize(root, max))
        || (exists n: Node, max: nat :: n.Community? && n in stores[r.link.peer] && r.program == Join(n, max))
        || (exists n :: n in stores[r.link.peer] && r.program == Ingest(n)))
  }

  lemma JoiningRun(c: Config, stores: map<Relay, Nodes>, l: Link, n: Node, max: nat)
    requires ValidConfig(c) && GoodStores(c, stores) && l in c.links && n in stores[l.peer] && n.Community?
    ensures GoodRun(c, stores, Run(l, Join(n, max)))
  {
    var p, s := Join(n, max), stores[l.at];
    StoredAuthor(n, stores[l.peer]);
    assert p[1..] == [Add(n), AwaitLeaves(n, max)] && p[1..][1..] == [AwaitLeaves(n, max)] && p[1..][1..][1..] == [];
    assert Promise(p[0]) == AuthorOf(n);
    assert Safe(p[1..][1..], s + AuthorOf(n) + {n});
    assert Safe(p[1..], s + AuthorOf(n));
  }

  /** A network may start from any closed stores with any work under way. */
  lemma GoodStart(c: Config, stores: map<Relay, Nodes>, runs: seq<Run>)
    requires ValidConfig(c) && GoodStores(c, stores)
    requires forall k :: 0 <= k < |runs| ==> Starting(c, stores, runs[k])
    ensures NetInv(c, Net(stores, runs, multiset{}, multiset{}))
  {
    forall k | 0 <= k < |runs| ensures GoodRun(c, stores, runs[k]) {
      var r := runs[k];
      assert Starting(c, stores, r);
      if root, max: nat :| r.program == Synchronize(root, max) {
        assert r.program[1..] == [];
      } else if n: Node, max: nat :| n.Community? && n in stores[r.link.peer] && r.program == Join(n, max) {
        JoiningRun(c, stores, r.link, n, max);
      } else {
        var n :| n in stores[r.link.peer] && r.program == Ingest(n);
        FreshRun(c, stores, r.link, n);
      }
    }
  }

  /** Any such work may be under way on any link. */
  lemma AnyMayStart(c: Config, stores: map<Relay, Nodes>, l: Link, n: Node, max: nat)
    requires ValidConfig(c) && GoodStores(c, stores) && l in c.links
    ensures Starting(c, stores, Run(l, Synchronize(n, max)))
    ensures n in stores[l.peer] ==> Starting(c, stores, Run(l, Ingest(n)))
    ensures n in stores[l.peer] && n.Community? ==> Starting(c, stores, Run(l, Join(n, max)))
  {}

  ghost predicate NetRun(c: Config, trace: seq<Net>) {
    trace != [] && NetInv(c, trace[0]) && forall i :: 0 < i < |trace| ==> NetStepsTo(c, trace, i)
  }

  ghost predicate NetStepsTo(c: Config, trace: seq<Net>, i: nat)
    requires 0 < i < |trace|
  {
    NetStep(c, trace[i - 1], trace[i])
  }

  lemma {:induction false} RunKeepsNet(c: Config, trace: seq<Net>, i: nat)
    requires ValidConfig(c) && NetRun(c, trace) && i < |trace|
    ensures NetInv(c, trace[i])
  {
    if i > 0 {
      RunKeepsNet(c, trace, i - 1);
      assert NetStepsTo(c, trace, i);
      var m :| Enabled(c, trace[i - 1], m) && trace[i] == Next(c, trace[i - 1], m);
      MoveKeepsInv(c, trace[i - 1], m);
    }
  }

  /** Ingestion among honest relays never fails validation: at any point of any run, with any
    number of ingestions and synchronizations racing on each store and any losses, a node about
    to be validated has all its dependencies stored, and every store is closed. */
  lemma NothingRejected(c: Config, trace: seq<Net>, i: nat, k: nat)
    requires ValidConfig(c) && NetRun(c, trace) && i < |trace|
    requires k < |trace[i].runs| && trace[i].runs[k].program != []
    ensures var r := trace[i].runs[k];
            && r.link.at in trace[i].stores
            && Closed(trace[i].stores[r.link.at])
            && (r.program[0].Validate? || r.program[0].Add? ==>
                  ValidDeep(r.program[0].node, trace[i].stores[r.link.at]))
  {
    RunKeepsNet(c, trace, i);
    assert GoodRun(c, trace[i].stores, trace[i].runs[k]);
  }

  // ---------- Progress ----------

  lemma AncestorsOrdered(n: Node)
    requires WellFormed(n)
    ensures Ordered(Ancestors(n), DepthOf)
  {
    AncestorsByDepth(n);
    var up := Ancestors(n);
    forall i, j | 0 <= i < j < |up| ensures DepthOf(up[i]) <= DepthOf(up[j]) {
      assert InPlace(up, i, n.CommunityId()) && InPlace(up, j, n.CommunityId());
    }
  }

  /** A peer that holds what a request is about can answer it. */
  lemma AnswerExists(i: Instr, peer: Nodes) returns (answer: Answer)
    requires Sound(peer) && Known(i, peer)
    ensures HonestAnswer(i, peer, answer)
  {
    match i
    case AwaitAuthor(a) =>
      answer := Response(Found([a], peer));
    case AwaitAncestry(n) =>
      answer := Response(Lineage(peer, n, n.TreeDepth()));
    case AwaitLineage(n) =>
      FullLineage(peer, n, n.TreeDepth());
      AncestorsOrdered(n);
      answer := Response(Ancestors(n));
    case AwaitLeaves(root, max) =>
      var ns := LatestExists(Descendants(peer, HashOf(root)), max);
      assert LatestOf(ns, Descendants(peer, HashOf(root)), max);
      answer := Response(ns);
    case _ =>
      answer := NoAnswer;
  }

  /** A step of the relays themselves: nothing is lost and nobody publishes. */
  ghost predicate FloodStep(c: Config, st: Net, st': Net) {
    exists m :: Lossless(m) && !m.Publish? && Enabled(c, st, m) && st' == Next(c, st, m)
  }

  lemma MoveIsStep(c: Config, st: Net, m: Move)
    requires Enabled(c, st, m) && Lossless(m) && !m.Publish?
    ensures FloodStep(c, st, Next(c, st, m))
  {}

  /** Deadlock freedom: only a quiet network has nothing to do. */
  lemma Progress(c: Config, st: Net)
    requires ValidConfig(c) && NetInv(c, st) && !Quiet(st)
    ensures exists st' :: FloodStep(c, st, st')
  {
    if st.queued != multiset{} {
      var a :| a in st.queued;
      MoveIsStep(c, st, Forward(a));
    } else if st.flying != multiset{} {
      var a :| a in st.flying;
      assert GoodNotice(c, st.stores, a);
      MoveIsStep(c, st, Deliver(a));
    } else {
      var k :| 0 <= k < |st.runs| && st.runs[k].program != [];
      var r := st.runs[k];
      assert GoodRun(c, st.stores, r) && r.program[0] in r.program;
      assert Sound(st.stores[r.link.peer]);
      var answer := AnswerExists(r.program[0], st.stores[r.link.peer]);
      MoveIsStep(c, st, Advance(k, answer));
    }
  }

  /** A schedule that makes lossless steps, and rests only when the relays have nothing to do. */
  ghost predicate BusySchedule(c: Config, run: nat -> Net) {
    forall k: nat :: MovesOrRests(c, run, k)
  }

  ghost predicate MovesOrRests(c: Config, run: nat -> Net, k: nat) {
    || LosslessStep(c, run(k), run(k + 1))
    || (run(k + 1) == run(k) && forall t :: !FloodStep(c, run(k), t))
  }

  lemma {:induction false} ScheduleCovers(c: Config, run: nat -> Net, k: nat, n: Node)
    requires ValidConfig(c) && BusySchedule(c, run)
    requires NetInv(c, run(0)) && Covered(c, run(0), n)
    ensures NetInv(c, run(k)) && Covered(c, run(k), n)
  {
    if k > 0 {
      ScheduleCovers(c, run, k - 1, n);
      var before := run(k - 1);
      assert MovesOrRests(c, run, k - 1);
      if LosslessStep(c, before, run(k)) {
        StepKeepsCovered(c, before, run(k), n);
      }
    }
  }

  /** Along every path of carrying links, if the first relay holds the node then so does the last. */
  ghost predicate EvenlyHeld(c: Config, st: Net, n: Node) {
    forall path :: CarryingPath(c, path, n) && HeldAt(st, path[0], n) ==> HeldAt(st, path[|path| - 1], n)
  }

  /** Every busy schedule falls quiet, and then a node that was new or on its way at the start is
    held by all or none of the relays that carrying links connect. */
  lemma FloodConverges(c: Config, run: nat -> Net, n: Node)
    requires ValidConfig(c) && BusySchedule(c, run)
    requires NetInv(c, run(0)) && Covered(c, run(0), n)
    ensures exists k: nat :: Quiet(run(k)) && EvenlyHeld(c, run(k), n)
  {
    FloodTerminates(c, run);
    var k: nat :| !StepsAt(c, run, k);
    assert MovesOrRests(c, run, k);
    ScheduleCovers(c, run, k, n);
    if !Quiet(run(k)) {
      Progress(c, run(k));
    }
    forall path | CarryingPath(c, path, n) && HeldAt(run(k), path[0], n)
      ensures HeldAt(run(k), path[|path| - 1], n)
    {
      HeldAlongPath(c, run(k), path, n, |path| - 1);
    }
  }
}
