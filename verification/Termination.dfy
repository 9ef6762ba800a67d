/** Flood termination: in a finite graph every run stops, although the test for absence and the
  insertion are separate steps, answers may get lost, and synchronizations may be under way.

  The measure compares, in this order: the (relay, node) pairs still missing; the insertions
  pending for nodes already held; notices queued or flying; the ingestion work left.
*/
module Termination {
  import opened Sets
  import opened Forest
  import opened Sorting
  import opened Ingestion
  import opened HonestPeer
  import opened Network

  /** How many insertions of already held nodes the instruction may lead to. Insertions of
    missing nodes do not count: they pay with the pairs they fill in. */
  function Repeats(i: Instr, s: Nodes, d: nat): nat {
    match i
    case Add(n) => if n in s then 1 else 0
    case AwaitAuthor(a) => if Has(s, a) then 1 else 0
    case CheckLeaf(_) => d + 2
    case AwaitLineage(_) => d + 2
    case AwaitLeaves(_, max) => max * (d + 2) + 2
    case AnnounceLeaves(_) => 1
    case _ => 0
  }

  function Work(i: Instr, d: nat): nat {
    match i
    case EnsureAuthor(_) => 4
    case AwaitAuthor(_) => 3
    case FetchUnlessValid(_) => 7 * d + 3
    case AwaitAncestry(_) => 7 * d + 1
    case Fill(_) => 7
    case CheckLeaf(_) => 2
    case _ => 1
  }

  function ProgramRepeats(p: Program, s: Nodes, d: nat): nat {
    if p == [] then 0 else Repeats(p[0], s, d) + ProgramRepeats(p[1..], s, d)
  }

  function ProgramWork(p: Program, d: nat): nat {
    if p == [] then 0 else Work(p[0], d) + ProgramWork(p[1..], d)
  }

  function RunRepeats(stores: map<Relay, Nodes>, r: Run, d: nat): nat {
    if r.link.at in stores then ProgramRepeats(r.program, stores[r.link.at], d) else 0
  }

  function AllRepeats(stores: map<Relay, Nodes>, runs: seq<Run>, d: nat): nat {
    if runs == [] then 0 else RunRepeats(stores, runs[0], d) + AllRepeats(stores, runs[1..], d)
  }

  function AllWork(runs: seq<Run>, d: nat): nat {
    if runs == [] then 0 else ProgramWork(runs[0].program, d) + AllWork(runs[1..], d)
  }

  function Missing(c: Config, stores: map<Relay, Nodes>): set<(Relay, Node)> {
    set r, n | r in stores.Keys && n in c.universe && n !in stores[r] :: (r, n)
  }

  datatype Measure = Measure(missing: nat, repeats: nat, notices: nat, work: nat)

  function MeasureOf(c: Config, st: Net): Measure {
    Measure(|Missing(c, st.stores)|, AllRepeats(st.stores, st.runs, c.maxDepth),
            2 * |st.queued| + |st.flying|, AllWork(st.runs, c.maxDepth))
  }

  predicate Below(a: Measure, b: Measure) {
    || a.missing < b.missing
    || (a.missing == b.missing && a.repeats < b.repeats)
    || (a.missing == b.missing && a.repeats == b.repeats && a.notices < b.notices)
    || (a.missing == b.missing && a.repeats == b.repeats && a.notices == b.notices && a.work < b.work)
  }

  // ---------- Sums ----------

  lemma {:induction false} ProgramThen(p: Program, q: Program, s: Nodes, d: nat)
    ensures ProgramRepeats(p + q, s, d) == ProgramRepeats(p, s, d) + ProgramRepeats(q, s, d)
    ensures ProgramWork(p + q, d) == ProgramWork(p, d) + ProgramWork(q, d)
    decreases |p|
  {
    if p == [] {
      assert p + q == q;
    } else {
      assert (p + q)[1..] == p[1..] + q;
      ProgramThen(p[1..], q, s, d);
    }
  }

  lemma {:induction false} ReplaceRun(stores: map<Relay, Nodes>, runs: seq<Run>, k: nat, r: Run, d: nat)
    requires k < |runs|
    ensures AllRepeats(stores, runs[k := r], d) + RunRepeats(stores, runs[k], d)
         == AllRepeats(stores, runs, d) + RunRepeats(stores, r, d)
    ensures AllWork(runs[k := r], d) + ProgramWork(runs[k].program, d)
         == AllWork(runs, d) + ProgramWork(r.program, d)
    decreases |runs|
  {
    if k == 0 {
      assert runs[0 := r][1..] == runs[1..];
    } else {
      assert runs[k := r][1..] == runs[1..][k - 1 := r];
      ReplaceRun(stores, runs[1..], k - 1, r, d);
    }
  }

  lemma {:induction false} AppendRun(stores: map<Relay, Nodes>, runs: seq<Run>, r: Run, d: nat)
    ensures AllRepeats(stores, runs + [r], d) == AllRepeats(stores, runs, d) + RunRepeats(stores, r, d)
    decreases |runs|
  {
    if runs == [] {
      assert [r][1..] == [] && runs + [r] == [r];
    } else {
      assert (runs + [r])[1..] == runs[1..] + [r];
      AppendRun(stores, runs[1..], r, d);
    }
  }

  lemma Short(p: Program, s: Nodes, d: nat)
    requires 1 <= |p| <= 3
    ensures ProgramRepeats(p, s, d)
         == Repeats(p[0], s, d) + (if |p| > 1 then Repeats(p[1], s, d) else 0)
                                + (if |p| > 2 then Repeats(p[2], s, d) else 0)
    ensures ProgramWork(p, d)
         == Work(p[0], d) + (if |p| > 1 then Work(p[1], d) else 0) + (if |p| > 2 then Work(p[2], d) else 0)
  {
    assert |p| == 1 ==> p[1..] == [];
    assert |p| == 2 ==> p[1..] == [p[1]] && p[1..][1..] == [];
    assert |p| == 3 ==> p[1..] == [p[1], p[2]] && p[1..][1..] == [p[2]] && p[1..][1..][1..] == [];
  }

  lemma {:induction false} SecureAllRepeats(ns: seq<Node>, s: Nodes, d: nat)
    ensures ProgramRepeats(SecureAll(ns), s, d) <= |ns|
    decreases |ns|
  {
    if ns != [] {
      SecureAllRepeats(ns[1..], s, d);
      ProgramThen(Secure(ns[0]), SecureAll(ns[1..]), s, d);
      Short(Secure(ns[0]), s, d);
    }
  }

  lemma {:induction false} FillAllCosts(ns: seq<Node>, s: Nodes, d: nat)
    ensures ProgramRepeats(FillAll(ns), s, d) == 0 && ProgramWork(FillAll(ns), d) == 7 * |ns|
    decreases |ns|
  {
    if ns != [] {
      assert FillAll(ns)[1..] == FillAll(ns[1..]);
      FillAllCosts(ns[1..], s, d);
    }
  }

  lemma {:induction false} CheckLeavesRepeats(ns: seq<Node>, s: Nodes, d: nat)
    ensures ProgramRepeats(CheckLeaves(ns), s, d) == |ns| * (d + 2)
    decreases |ns|
  {
    if ns != [] {
      assert CheckLeaves(ns)[1..] == CheckLeaves(ns[1..]);
      CheckLeavesRepeats(ns[1..], s, d);
    }
  }

  // ---------- Each instruction pays ----------

  /** Replacing `i` by `next` lowers the pending repeats, or keeps them and lowers the work. */
  ghost predicate Pays(i: Instr, next: Program, s: Nodes, d: nat) {
    || ProgramRepeats(next, s, d) < Repeats(i, s, d)
    || (ProgramRepeats(next, s, d) == Repeats(i, s, d) && ProgramWork(next, d) < Work(i, d))
  }

  lemma AncestryPays(n: Node, s: Nodes, peer: Nodes, answer: Answer, d: nat)
    requires Sound(peer) && n.TreeDepth() <= d && WellFormed(n)
    requires HonestAnswer(AwaitAncestry(n), peer, answer)
    ensures Pays(AwaitAncestry(n), FillAll(answer.nodes), s, d)
  {
    FullLineage(peer, n, n.TreeDepth());
    AncestorsByDepth(n);
    FillAllCosts(answer.nodes, s, d);
  }

  lemma LineageLength(n: Node, peer: Nodes, arrived: seq<Node>)
    requires Sound(peer) && WellFormed(n) && n in peer
    requires SortOf(arrived, Lineage(peer, n, n.TreeDepth()), DepthOf)
    ensures |arrived| == n.TreeDepth()
  {
    FullLineage(peer, n, n.TreeDepth());
    AncestorsByDepth(n);
    assert |multiset(arrived)| == |arrived| && |multiset(Ancestors(n))| == |Ancestors(n)|;
  }

  lemma LineagePays(n: Node, s: Nodes, ns: seq<Node>, d: nat)
    requires |ns| <= d
    ensures Pays(AwaitLineage(n), SecureAll(ns + [n]), s, d)
  {
    SecureAllRepeats(ns + [n], s, d);
  }

  lemma LeavesPay(root: Node, max: nat, s: Nodes, ns: seq<Node>, d: nat)
    requires |ns| <= max
    ensures Pays(AwaitLeaves(root, max), [AnnounceLeaves(root)] + CheckLeaves(ns), s, d)
  {
    CheckLeavesRepeats(ns, s, d);
    ProgramThen([AnnounceLeaves(root)], CheckLeaves(ns), s, d);
    Short([AnnounceLeaves(root)], s, d);
    assert |ns| * (d + 2) <= max * (d + 2);
  }

  lemma ShortPays(i: Instr, s: Nodes, peer: Nodes, answer: Answer, d: nat)
    requires !i.AwaitAncestry? && !i.AwaitLineage? && !i.AwaitLeaves?
    requires Ready(i, s) && Known(i, peer) && HonestAnswer(i, peer, answer) && Exec(i, s, answer).Continue?
    ensures Pays(i, Exec(i, s, answer).next, s, d)
  {
    var next := Exec(i, s, answer).next;
    if next != [] {
      Short(next, s, d);
    }
    if i.AwaitAuthor? {
      SingleQuery(i.author, peer);
    }
  }

  lemma Expansion(c: Config, i: Instr, s: Nodes, peer: Nodes, answer: Answer)
    requires ValidConfig(c) && Sound(peer) && peer <= c.universe
    requires Ready(i, s) && Known(i, peer) && HonestAnswer(i, peer, answer) && Exec(i, s, answer).Continue?
    ensures Pays(i, Exec(i, s, answer).next, s, c.maxDepth)
  {
    match i
    case AwaitAncestry(n) => AncestryPays(n, s, peer, answer, c.maxDepth);
    case AwaitLineage(n) =>
      LineageLength(n, peer, answer.nodes);
      LineagePays(n, s, answer.nodes, c.maxDepth);
    case AwaitLeaves(root, max) => LeavesPay(root, max, s, answer.nodes, c.maxDepth);
    case _ => ShortPays(i, s, peer, answer, c.maxDepth);
  }

  lemma NothingMissingAnew(c: Config, s: map<Relay, Nodes>, t: map<Relay, Nodes>)
    requires Grown(s, t)
    ensures Missing(c, t) <= Missing(c, s)
  {}

  lemma FillsIn(c: Config, s: map<Relay, Nodes>, t: map<Relay, Nodes>, r: Relay, n: Node)
    requires Grown(s, t) && r in s && n in c.universe && n !in s[r] && n in t[r]
    ensures |Missing(c, t)| < |Missing(c, s)|
  {
    NothingMissingAnew(c, s, t);
    var rest := Missing(c, s) - {(r, n)};
    assert (r, n) in Missing(c, s) && Missing(c, t) <= rest;
    SubsetSize(Missing(c, t), rest);
  }

  /** A step that fills in nothing lowers the run's share of the measure. */
  lemma RunDescends(c: Config, stores: map<Relay, Nodes>, r: Run, answer: Answer)
    requires ValidConfig(c) && GoodStores(c, stores) && GoodRun(c, stores, r) && r.program != []
    requires HonestAnswer(r.program[0], stores[r.link.peer], answer)
    ensures var p, s, d, o := r.program, stores[r.link.at], c.maxDepth, OutcomeOf(stores, r, answer);
            var q := Remaining(p, o);
            || (o.Insert? && o.node !in s)
            || ProgramRepeats(q, s, d) < ProgramRepeats(p, s, d)
            || (o.Continue? && ProgramRepeats(q, s, d) == ProgramRepeats(p, s, d)
                            && ProgramWork(q, d) < ProgramWork(p, d))
  {
    var p, s, d, o := r.program, stores[r.link.at], c.maxDepth, OutcomeOf(stores, r, answer);
    RunStep(c, stores, r, answer);
    assert p[0] in p;
    if o.Continue? {
      Expansion(c, p[0], s, stores[r.link.peer], answer);
      ProgramThen(o.next, p[1..], s, d);
    }
  }

  lemma AdvanceDescends(c: Config, st: Net, k: nat, answer: Answer)
    requires ValidConfig(c) && NetInv(c, st) && Enabled(c, st, Advance(k, answer))
    ensures Below(MeasureOf(c, Advanced(c, st, k, answer)), MeasureOf(c, st))
  {
    var r, st' := st.runs[k], Advanced(c, st, k, answer);
    var o := OutcomeOf(st.stores, r, answer);
    RunStep(c, st.stores, r, answer);
    if o.Insert? && o.node !in st.stores[r.link.at] {
      FillsIn(c, st.stores, st'.stores, r.link.at, o.node);
    } else {
      RunDescends(c, st.stores, r, answer);
      assert StoreAfter(st.stores[r.link.at], o) == st.stores[r.link.at];
      assert st'.stores == st.stores;
      ReplaceRun(st.stores, st.runs, k, RunAfter(r, o), c.maxDepth);
    }
  }

  lemma DeliverDescends(c: Config, st: Net, a: Notice)
    requires ValidConfig(c) && NetInv(c, st) && Enabled(c, st, Deliver(a))
    ensures Below(MeasureOf(c, Next(c, st, Deliver(a))), MeasureOf(c, st))
  {
    var here := Flip(a.link);
    AppendRun(st.stores, st.runs, Run(here, Ingest(a.node)), c.maxDepth);
    Short(Ingest(a.node), st.stores[here.at], c.maxDepth);
  }

  lemma FailDescends(c: Config, st: Net, k: nat)
    requires Enabled(c, st, Fail(k))
    ensures Below(MeasureOf(c, Next(c, st, Fail(k))), MeasureOf(c, st))
  {
    var r := st.runs[k];
    ReplaceRun(st.stores, st.runs, k, Run(r.link, []), c.maxDepth);
    assert ProgramWork(r.program, c.maxDepth) >= Work(r.program[0], c.maxDepth) >= 1;
  }

  lemma PublishDescends(c: Config, st: Net, r: Relay, n: Node)
    requires Enabled(c, st, Publish(r, n))
    ensures Below(MeasureOf(c, Next(c, st, Publish(r, n))), MeasureOf(c, st))
  {
    FillsIn(c, st.stores, Next(c, st, Publish(r, n)).stores, r, n);
  }

  lemma NoticeDescends(c: Config, st: Net, a: Notice)
    ensures Enabled(c, st, Forward(a)) ==> Below(MeasureOf(c, Next(c, st, Forward(a))), MeasureOf(c, st))
    ensures Enabled(c, st, Lose(a)) ==> Below(MeasureOf(c, Next(c, st, Lose(a))), MeasureOf(c, st))
  {}

  /** Every move, lossless or not, lowers the measure. */
  lemma {:induction false} MoveDescends(c: Config, st: Net, m: Move)
    requires ValidConfig(c) && NetInv(c, st) && Enabled(c, st, m)
    ensures Below(MeasureOf(c, Next(c, st, m)), MeasureOf(c, st))
  {
    match m
    case Forward(a) => NoticeDescends(c, st, a);
    case Deliver(a) => DeliverDescends(c, st, a);
    case Advance(k, answer) => AdvanceDescends(c, st, k, answer);
    case Publish(r, n) => PublishDescends(c, st, r, n);
    case Lose(a) => NoticeDescends(c, st, a);
    case Fail(k) => FailDescends(c, st, k);
  }

  ghost predicate NetStep(c: Config, st: Net, st': Net) {
    exists m :: Enabled(c, st, m) && st' == Next(c, st, m)
  }

  lemma StepDescends(c: Config, st: Net, st': Net)
    requires ValidConfig(c) && NetInv(c, st) && NetStep(c, st, st')
    ensures NetInv(c, st') && Below(MeasureOf(c, st'), MeasureOf(c, st))
  {
    var m :| Enabled(c, st, m) && st' == Next(c, st, m);
    MoveDescends(c, st, m);
    MoveKeepsInv(c, st, m);
  }

  /** The schedule makes a step at position `k`. */
  ghost predicate StepsAt(c: Config, run: nat -> Net, k: nat) {
    NetStep(c, run(k), run(k + 1))
  }

  lemma {:induction false} NoEndlessSuffix(c: Config, run: nat -> Net, i: nat, m: Measure)
    requires ValidConfig(c) && NetInv(c, run(i)) && m == MeasureOf(c, run(i))
    requires forall k: nat :: StepsAt(c, run, k)
    ensures false
    decreases m.missing, m.repeats, m.notices, m.work
  {
    assert StepsAt(c, run, i);
    StepDescends(c, run(i), run(i + 1));
    NoEndlessSuffix(c, run, i + 1, MeasureOf(c, run(i + 1)));
  }

  /** Flood termination: no schedule keeps a finite network busy forever. */
  lemma FloodTerminates(c: Config, run: nat -> Net)
    requires ValidConfig(c) && NetInv(c, run(0))
    ensures exists k: nat :: !StepsAt(c, run, k)
  {
    if forall k: nat :: StepsAt(c, run, k) {
      NoEndlessSuffix(c, run, 0, MeasureOf(c, run(0)));
    }
  }
}
