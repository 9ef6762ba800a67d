/** A graph of relays flooding announcements to each other.

  Every link end is a worker with its own session. Stores only grow. Announcement delivery,
  ingestion steps and the goroutines that forward a new node interleave in any order.
*/
module Network {
  import opened Forest
  import opened Ingestion
  import opened HonestPeer

  type Relay = nat

  /** The worker at relay `at` whose connection leads to relay `peer`. */
  datatype Link = Link(at: Relay, peer: Relay)

  datatype Notice = Notice(link: Link, node: Node)

  datatype Run = Run(link: Link, program: Program)

  /** `universe` bounds the nodes that exist, `maxDepth` the depth of their trees. */
  datatype Config = Config(relays: set<Relay>, links: set<Link>, sessions: map<Link, set<Id>>,
                           universe: Nodes, maxDepth: nat)

  /** `queued` are nodes whose forwarding goroutine has not run, `flying` announcements sent
    and not yet handled. */
  datatype Net = Net(stores: map<Relay, Nodes>, runs: seq<Run>,
                         queued: multiset<Notice>, flying: multiset<Notice>)

  function Flip(l: Link): Link {
    Link(l.peer, l.at)
  }

  ghost predicate ValidConfig(c: Config) {
    && (forall l :: l in c.links ==> l.at in c.relays && l.peer in c.relays && Flip(l) in c.links && l.at != l.peer)
    && Sound(c.universe)
    && forall n :: n in c.universe ==> n.TreeDepth() <= c.maxDepth
  }

  /** The test made before announcing a node to a peer and before ingesting one from a peer. */
  predicate Wanted(c: Config, l: Link, n: Node) {
    n.Reply? ==> l in c.sessions && n.community in c.sessions[l]
  }

  /** Both ends of the link are subscribed to the community. */
  predicate Subscribed(c: Config, l: Link, community: Id) {
    && l in c.sessions && community in c.sessions[l]
    && Flip(l) in c.sessions && community in c.sessions[Flip(l)]
  }

  /** Adding a node to a store notifies every worker of the relay except the one that added it. */
  function Notices(c: Config, r: Relay, n: Node, adder: set<Link>): multiset<Notice> {
    multiset(set l | l in c.links && l.at == r && l !in adder :: Notice(l, n))
  }

  datatype Move =
    | Forward(notice: Notice)
    | Deliver(notice: Notice)
    | Advance(k: nat, answer: Answer)
    | Publish(relay: Relay, node: Node)  // a local process adds a valid node the relay lacks
    | Lose(notice: Notice)               // expiry, a timeout, a lost subscription
    | Fail(k: nat)                       // a request of the run is not answered

  predicate Lossless(m: Move) {
    !m.Lose? && !m.Fail?
  }

  ghost predicate Enabled(c: Config, st: Net, m: Move) {
    match m
    case Forward(a) => a in st.queued
    case Deliver(a) => a in st.flying && a.link.peer in st.stores
    case Advance(k, answer) =>
      && k < |st.runs| && st.runs[k].program != []
      && st.runs[k].link.at in st.stores && st.runs[k].link.peer in st.stores
      && HonestAnswer(st.runs[k].program[0], st.stores[st.runs[k].link.peer], answer)
    case Publish(r, n) =>
      r in st.stores && n in c.universe && n !in st.stores[r] && ValidDeep(n, st.stores[r])
    case Lose(a) => a in st.queued || a in st.flying
    case Fail(k) => k < |st.runs| && st.runs[k].program != []
  }

  function Received(c: Config, st: Net, a: Notice): Net
    requires a.link.peer in st.stores
  {
    var here := Flip(a.link);
    if a.node !in st.stores[here.at] && Wanted(c, here, a.node)
    then st.(flying := st.flying - multiset{a}, runs := st.runs + [Run(here, Ingest(a.node))])
    else st.(flying := st.flying - multiset{a})
  }

  /** The run that `r` becomes, and the stores it leaves, when its next instruction has outcome `o`. */
  function RunAfter(r: Run, o: Outcome): Run
    requires r.program != []
  {
    Run(r.link, Remaining(r.program, o))
  }

  function StoresAfter(stores: map<Relay, Nodes>, r: Run, o: Outcome): map<Relay, Nodes>
    requires r.link.at in stores
  {
    stores[r.link.at := StoreAfter(stores[r.link.at], o)]
  }

  function OutcomeOf(stores: map<Relay, Nodes>, r: Run, answer: Answer): Outcome
    requires r.program != [] && r.link.at in stores
  {
    Exec(r.program[0], stores[r.link.at], answer)
  }

  function Advanced(c: Config, st: Net, k: nat, answer: Answer): Net
    requires k < |st.runs| && st.runs[k].program != [] && st.runs[k].link.at in st.stores
  {
    var r := st.runs[k];
    var o := OutcomeOf(st.stores, r, answer);
    Net(StoresAfter(st.stores, r, o), st.runs[k := RunAfter(r, o)],
          st.queued + if o.Insert? then Notices(c, r.link.at, o.node, {r.link}) else multiset{},
          st.flying + if o.Announce? then multiset(set n | n in o.nodes :: Notice(r.link, n)) else multiset{})
  }

  function Next(c: Config, st: Net, m: Move): Net
    requires Enabled(c, st, m)
  {
    match m
    case Forward(a) =>
      if Wanted(c, a.link, a.node)
      then st.(queued := st.queued - multiset{a}, flying := st.flying + multiset{a})
      else st.(queued := st.queued - multiset{a})
    case Deliver(a) => Received(c, st, a)
    case Advance(k, answer) => Advanced(c, st, k, answer)
    case Publish(r, n) =>
      st.(stores := st.stores[r := st.stores[r] + {n}], queued := st.queued + Notices(c, r, n, {}))
    case Lose(a) =>
      if a in st.queued then st.(queued := st.queued - multiset{a}) else st.(flying := st.flying - multiset{a})
    case Fail(k) => st.(runs := st.runs[k := Run(st.runs[k].link, [])])
  }

  // ---------- Invariant ----------

  ghost predicate GoodRun(c: Config, stores: map<Relay, Nodes>, r: Run) {
    && r.link in c.links && r.link.at in stores && r.link.peer in stores
    && Safe(r.program, stores[r.link.at])
    && AllKnown(r.program, stores[r.link.peer])
  }

  ghost predicate GoodNotice(c: Config, stores: map<Relay, Nodes>, a: Notice) {
    a.link in c.links && a.link.at in stores && a.node in stores[a.link.at]
  }

  ghost predicate GoodStores(c: Config, stores: map<Relay, Nodes>) {
    stores.Keys == c.relays && forall r :: r in stores ==> Closed(stores[r]) && stores[r] <= c.universe
  }

  ghost predicate NetInv(c: Config, st: Net) {
    && GoodStores(c, st.stores)
    && (forall k :: 0 <= k < |st.runs| ==> GoodRun(c, st.stores, st.runs[k]))
    && forall a :: a in st.queued || a in st.flying ==> GoodNotice(c, st.stores, a)
  }

  ghost predicate Grown(s: map<Relay, Nodes>, t: map<Relay, Nodes>) {
    s.Keys == t.Keys && forall r :: r in s ==> s[r] <= t[r]
  }

  lemma GoodRunGrows(c: Config, s: map<Relay, Nodes>, t: map<Relay, Nodes>, r: Run)
    requires GoodRun(c, s, r) && Grown(s, t)
    ensures GoodRun(c, t, r)
  {
    SafeGrows(r.program, s[r.link.at], t[r.link.at]);
  }

  lemma FreshRun(c: Config, stores: map<Relay, Nodes>, l: Link, n: Node)
    requires ValidConfig(c) && GoodStores(c, stores) && l in c.links && n in stores[l.peer]
    ensures GoodRun(c, stores, Run(l, Ingest(n))) && n in Promises(Ingest(n))
  {
    var p, s := Ingest(n), stores[l.at];
    StoredAuthor(n, stores[l.peer]);
    assert p[1..] == [FetchUnlessValid(n), Add(n)] && p[1..][1..] == [Add(n)] && p[1..][1..][1..] == [];
    assert Promise(p[0]) == AuthorOf(n);
    assert ValidDeep(n, s + AuthorOf(n) + Promise(p[1]));
    assert Safe(p[1..][1..], s + AuthorOf(n) + Promise(p[1]));
    assert Safe(p[1..], s + AuthorOf(n));
    assert Promises([Add(n)]) == {n};
    assert n in Promises(p[1..]);
  }

  /** One step of a run against an honest peer: no validation fails, and the run and the stores
    stay good. */
  lemma RunStep(c: Config, stores: map<Relay, Nodes>, r: Run, answer: Answer)
    requires ValidConfig(c) && GoodStores(c, stores) && GoodRun(c, stores, r) && r.program != []
    requires HonestAnswer(r.program[0], stores[r.link.peer], answer)
    ensures var o := OutcomeOf(stores, r, answer);
            && !o.Abort?
            && (o.Insert? ==> o.node in stores[r.link.peer])
            && GoodRun(c, StoresAfter(stores, r, o), RunAfter(r, o))
            && Promises(r.program) <= StoreAfter(stores[r.link.at], o) + Promises(RunAfter(r, o).program)
    ensures GoodStores(c, StoresAfter(stores, r, OutcomeOf(stores, r, answer)))
    ensures Grown(stores, StoresAfter(stores, r, OutcomeOf(stores, r, answer)))
  {
    assert Sound(stores[r.link.peer]);
    HonestStep(r.program, stores[r.link.at], stores[r.link.peer], answer);
  }

  lemma GoodRunsGrow(c: Config, st: Net, t: map<Relay, Nodes>)
    requires NetInv(c, st) && Grown(st.stores, t)
    ensures forall k :: 0 <= k < |st.runs| ==> GoodRun(c, t, st.runs[k])
    ensures forall a :: a in st.queued || a in st.flying ==> GoodNotice(c, t, a)
  {
    forall k | 0 <= k < |st.runs| ensures GoodRun(c, t, st.runs[k]) {
      GoodRunGrows(c, st.stores, t, st.runs[k]);
    }
    forall a | a in st.queued || a in st.flying ensures GoodNotice(c, t, a) {
      assert GoodNotice(c, st.stores, a);
    }
  }

  lemma NewNoticesAreGood(c: Config, stores: map<Relay, Nodes>, r: Run, answer: Answer)
    requires ValidConfig(c) && GoodStores(c, stores) && GoodRun(c, stores, r) && r.program != []
    requires HonestAnswer(r.program[0], stores[r.link.peer], answer)
    ensures var o := OutcomeOf(stores, r, answer);
            && (o.Insert? ==> forall a :: a in Notices(c, r.link.at, o.node, {r.link})
                                          ==> GoodNotice(c, StoresAfter(stores, r, o), a))
            && (o.Announce? ==> forall n :: n in o.nodes ==> GoodNotice(c, stores, Notice(r.link, n)))
  {}

  lemma AdvanceKeepsInv(c: Config, st: Net, k: nat, answer: Answer)
    requires ValidConfig(c) && NetInv(c, st) && Enabled(c, st, Advance(k, answer))
    ensures NetInv(c, Advanced(c, st, k, answer)) && Grown(st.stores, Advanced(c, st, k, answer).stores)
  {
    var r, st' := st.runs[k], Advanced(c, st, k, answer);
    var o := OutcomeOf(st.stores, r, answer);
    RunStep(c, st.stores, r, answer);
    GoodRunsGrow(c, st, st'.stores);
    NewNoticesAreGood(c, st.stores, r, answer);
    assert forall a :: a in st'.queued ==>
                         a in st.queued || (o.Insert? && a in Notices(c, r.link.at, o.node, {r.link}));
    assert o.Announce? ==> st'.stores == st.stores;
  }

  lemma PublishKeepsInv(c: Config, st: Net, r: Relay, n: Node)
    requires ValidConfig(c) && NetInv(c, st) && Enabled(c, st, Publish(r, n))
    ensures NetInv(c, Next(c, st, Publish(r, n))) && Grown(st.stores, Next(c, st, Publish(r, n)).stores)
  {
    GoodRunsGrow(c, st, Next(c, st, Publish(r, n)).stores);
  }

  lemma DeliverKeepsInv(c: Config, st: Net, a: Notice)
    requires ValidConfig(c) && NetInv(c, st) && Enabled(c, st, Deliver(a))
    ensures NetInv(c, Next(c, st, Deliver(a)))
  {
    assert GoodNotice(c, st.stores, a);
    FreshRun(c, st.stores, Flip(a.link), a.node);
  }

  lemma ForwardKeepsInv(c: Config, st: Net, a: Notice)
    requires NetInv(c, st) && Enabled(c, st, Forward(a))
    ensures NetInv(c, Next(c, st, Forward(a)))
  {}

  lemma LoseKeepsInv(c: Config, st: Net, a: Notice)
    requires NetInv(c, st) && Enabled(c, st, Lose(a))
    ensures NetInv(c, Next(c, st, Lose(a)))
  {}

  lemma FailKeepsInv(c: Config, st: Net, k: nat)
    requires NetInv(c, st) && Enabled(c, st, Fail(k))
    ensures NetInv(c, Next(c, st, Fail(k)))
  {
    assert GoodRun(c, st.stores, st.runs[k]);
  }

  lemma {:induction false} MoveKeepsInv(c: Config, st: Net, m: Move)
    requires ValidConfig(c) && NetInv(c, st) && Enabled(c, st, m)
    ensures NetInv(c, Next(c, st, m))
  {
    match m
    case Forward(a) => ForwardKeepsInv(c, st, a);
    case Deliver(a) => DeliverKeepsInv(c, st, a);
    case Advance(k, answer) => AdvanceKeepsInv(c, st, k, answer);
    case Publish(r, n) => PublishKeepsInv(c, st, r, n);
    case Lose(a) => LoseKeepsInv(c, st, a);
    case Fail(k) => FailKeepsInv(c, st, k);
  }

  lemma MoveGrowsStores(c: Config, st: Net, m: Move)
    requires ValidConfig(c) && NetInv(c, st) && Enabled(c, st, m)
    ensures Grown(st.stores, Next(c, st, m).stores)
  {
    if m.Advance? {
      AdvanceKeepsInv(c, st, m.k, m.answer);
    }
  }

  /** What may be forwarded after a move: an insertion by a run queues the node once for every other
    link of the relay and not for the link that the run belongs to, a publication once for every
    link of the relay, and nothing else queues anything. */
  lemma QueuedExact(c: Config, st: Net, m: Move, a: Notice)
    requires Enabled(c, st, m) && !m.Forward? && !m.Lose?
    ensures Next(c, st, m).queued[a] == st.queued[a] +
            if m.Publish? && a.node == m.node && a.link in c.links && a.link.at == m.relay then 1
            else if m.Advance? && OutcomeOf(st.stores, st.runs[m.k], m.answer) == Insert(a.node)
                    && a.link in c.links && a.link.at == st.runs[m.k].link.at && a.link != st.runs[m.k].link then 1
            else 0
  {}
}
