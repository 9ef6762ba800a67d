/** Any number of ingestions, synchronizations and community joins interleaved on one grow-only
  store.

  Ingestions and synchronizations keep the store closed whatever peers answer. A join adds its
  community unvalidated, so there everything depends on the answers to its author query.
*/
module SharedStore {
  import opened Forest
  import opened Ingestion

  datatype State = State(store: Nodes, runs: seq<Program>)

  /** Which answers to the author query of a join may arrive; all other answers are arbitrary. */
  type Permits = (Node, Answer) -> bool

  /** The program is a join of the community `p[1].node` that waits for its author. No other program
    adds a node right after a query. */
  predicate JoinQuery(p: Program) {
    |p| >= 2 && p[0].AwaitAuthor? && p[1].Add?
  }

  predicate MayArrive(permits: Permits, p: Program, answer: Answer) {
    JoinQuery(p) ==> permits(p[1].node, answer)
  }

  function After(st: State, k: nat, answer: Answer): State
    requires k < |st.runs| && st.runs[k] != []
  {
    var o := Exec(st.runs[k][0], st.store, answer);
    State(StoreAfter(st.store, o), st.runs[k := Remaining(st.runs[k], o)])
  }

  function Start(st: State, p: Program): State {
    st.(runs := st.runs + [p])
  }

  ghost predicate Advances(permits: Permits, st: State, k: nat, answer: Answer) {
    k < |st.runs| && st.runs[k] != [] && MayArrive(permits, st.runs[k], answer)
  }

  /** A new run starts, or some run takes its next step. */
  ghost predicate Step(permits: Permits, st: State, st': State) {
    || (exists n :: st' == Start(st, Ingest(n)))
    || (exists root, max: nat :: st' == Start(st, Synchronize(root, max)))
    || (exists c: Node, max: nat :: c.Community? && st' == Start(st, Join(c, max)))
    || (exists k: nat, answer :: Advances(permits, st, k, answer) && st' == After(st, k, answer))
  }

  ghost predicate IsRun(permits: Permits, trace: seq<State>) {
    && trace != []
    && Closed(trace[0].store) && trace[0].runs == []
    && forall i :: 0 < i < |trace| ==> StepsTo(permits, trace, i)
  }

  ghost predicate StepsTo(permits: Permits, trace: seq<State>, i: nat)
    requires 0 < i < |trace|
  {
    Step(permits, trace[i - 1], trace[i])
  }

  // ---------- When joining is safe ----------

  /** What has to be stored with the node of this id, directly or indirectly. */
  function Line(i: Id): set<Id>
    decreases i
  {
    match i
    case NullHash => {i}
    case HashOf(Identity(_, _)) => {i}
    case HashOf(Community(a, _, _)) => {i} + Line(a)
    case HashOf(Reply(a, p, c, _, _, _)) => {i} + Line(a) + Line(p) + Line(c)
  }

  lemma {:induction false} ClosedHoldsLine(s: Nodes, i: Id)
    requires Closed(s) && Has(s, i)
    ensures forall d :: d in Line(i) ==> Has(s, d)
    decreases i
  {
    var n := i.node;
    assert ValidDeep(n, s);
    if !n.Identity? {
      assert n.author in n.Needs();
      ClosedHoldsLine(s, n.author);
    }
    if n.Reply? {
      assert n.parent in n.Needs() && n.community in n.Needs();
      ClosedHoldsLine(s, n.parent);
      ClosedHoldsLine(s, n.community);
    }
  }

  lemma ValidHoldsLine(s: Nodes, n: Node, d: Id)
    requires Closed(s) && ValidDeep(n, s) && d in Line(HashOf(n))
    ensures d == HashOf(n) || Has(s, d)
  {
    ClosedHoldsLine(s + {n}, HashOf(n));
  }

  /** The node answered is the author, or cannot be stored without it, or cannot be stored at all. */
  predicate Tells(x: Node, c: Node)
    requires c.Community?
  {
    c.author in Line(HashOf(x)) || NullHash in Line(HashOf(x))
  }

  /** The answer to the author query of a join ends the join, or brings the author. */
  predicate Harmless(c: Node, answer: Answer)
    requires c.Community?
  {
    answer.NoAnswer? || |answer.nodes| != 1 || Tells(answer.nodes[0], c)
  }

  predicate Settled(s: Nodes, c: Node, answer: Answer)
    requires c.Community?
  {
    Has(s, c.author) || Harmless(c, answer)
  }

  ghost predicate AllSettled(permits: Permits, s: Nodes) {
    forall c: Node, answer :: c.Community? && permits(c, answer) ==> Settled(s, c, answer)
  }

  // ---------- The invariant ----------

  /** The stages of a join, in front of the rest of its program; `s0` is the store at the start. */
  predicate Stage1(p: Program, c: Node, rest: Program) {
    p == Enter(c) + rest
  }

  predicate Stage2(p: Program, s0: Nodes, c: Node, rest: Program)
    requires c.Community?
  {
    p == [AwaitAuthor(c.author), Add(c)] + rest && !Has(s0, c.author)
  }

  predicate Stage3(p: Program, x: Node, c: Node, rest: Program)
    requires c.Community?
  {
    p == [Validate(x), Add(x), Add(c)] + rest && Tells(x, c)
  }

  predicate Stage4(p: Program, s: Nodes, x: Node, c: Node, rest: Program)
    requires c.Community?
  {
    p == [Add(x), Add(c)] + rest && ValidDeep(x, s) && (HashOf(x) == c.author || Has(s, c.author))
  }

  ghost predicate Joining(p: Program, s0: Nodes, s: Nodes, c: Node, rest: Program) {
    && c.Community? && Chained(rest) && (rest != [] ==> !rest[0].Add?)
    && (|| Stage1(p, c, rest)
        || Stage2(p, s0, c, rest)
        || (exists x :: Stage3(p, x, c, rest))
        || (exists x :: Stage4(p, s, x, c, rest)))
  }

  ghost predicate Fine(p: Program, s0: Nodes, s: Nodes) {
    Guarded(p, s) || exists c, rest :: Joining(p, s0, s, c, rest)
  }

  /** The step leaves the run fine, and what it inserts is valid. */
  ghost predicate StaysFine(p: Program, s0: Nodes, s: Nodes, answer: Answer)
    requires p != []
  {
    var o := Exec(p[0], s, answer);
    Fine(Remaining(p, o), s0, StoreAfter(s, o)) && (o.Insert? ==> ValidDeep(o.node, s))
  }

  lemma RestGuarded(c: Node, rest: Program, s: Nodes)
    requires Chained(rest) && (rest != [] ==> !rest[0].Add?) && ValidDeep(c, s)
    ensures Guarded([Add(c)] + rest, s)
  {
    var p := [Add(c)] + rest;
    forall k | 0 < k < |p| && p[k].Add? ensures Checks(p[k - 1], p[k].node) {
      assert p[k] == rest[k - 1];
      assert k > 1 ==> p[k - 1] == rest[k - 2];
    }
  }

  lemma JoiningKept(p: Program, s0: Nodes, s: Nodes, c: Node, rest: Program)
    requires Joining(p, s0, s, c, rest)
    ensures Fine(p, s0, s)
  {}

  lemma FromStage1(p: Program, s0: Nodes, s: Nodes, c: Node, rest: Program, answer: Answer)
    requires Joining(p, s0, s, c, rest) && Stage1(p, c, rest) && s0 <= s
    ensures StaysFine(p, s0, s, answer)
  {
    assert p[0] == EnsureAuthor(c) && p[1..] == [Add(c)] + rest;
    if Has(s, c.author) {
      RestGuarded(c, rest, s);
      assert [] + p[1..] == [Add(c)] + rest;
    } else {
      var q := [AwaitAuthor(c.author), Add(c)] + rest;
      assert [AwaitAuthor(c.author)] + p[1..] == q;
      assert Stage2(q, s0, c, rest);
      JoiningKept(q, s0, s, c, rest);
    }
  }

  lemma FromStage2(p: Program, s0: Nodes, s: Nodes, c: Node, rest: Program, answer: Answer)
    requires Joining(p, s0, s, c, rest) && Stage2(p, s0, c, rest) && Settled(s0, c, answer)
    ensures StaysFine(p, s0, s, answer)
  {
    assert p[0] == AwaitAuthor(c.author) && p[1..] == [Add(c)] + rest;
    if answer.Response? && |answer.nodes| == 1 {
      var x := answer.nodes[0];
      var q := [Validate(x), Add(x), Add(c)] + rest;
      assert [Validate(x), Add(x)] + p[1..] == q;
      assert Stage3(q, x, c, rest);
      JoiningKept(q, s0, s, c, rest);
    } else {
      assert Guarded([], s);
    }
  }

  lemma FromStage3(p: Program, s0: Nodes, s: Nodes, x: Node, c: Node, rest: Program, answer: Answer)
    requires Joining(p, s0, s, c, rest) && Stage3(p, x, c, rest) && Closed(s)
    ensures StaysFine(p, s0, s, answer)
  {
    assert p[0] == Validate(x) && p[1..] == [Add(x), Add(c)] + rest;
    if ValidDeep(x, s) {
      var d := if c.author in Line(HashOf(x)) then c.author else NullHash;
      ValidHoldsLine(s, x, d);
      var q := [Add(x), Add(c)] + rest;
      assert [] + p[1..] == q;
      assert Stage4(q, s, x, c, rest);
      JoiningKept(q, s0, s, c, rest);
    } else {
      assert Guarded([], s);
    }
  }

  lemma FromStage4(p: Program, s0: Nodes, s: Nodes, x: Node, c: Node, rest: Program, answer: Answer)
    requires Joining(p, s0, s, c, rest) && Stage4(p, s, x, c, rest)
    ensures StaysFine(p, s0, s, answer)
  {
    assert p[0] == Add(x) && p[1..] == [Add(c)] + rest;
    RestGuarded(c, rest, s + {x});
  }

  lemma RunStaysFine(permits: Permits, p: Program, s0: Nodes, s: Nodes, answer: Answer)
    requires p != [] && Fine(p, s0, s) && Closed(s) && s0 <= s
    requires AllSettled(permits, s0) && MayArrive(permits, p, answer)
    ensures StaysFine(p, s0, s, answer)
  {
    if Guarded(p, s) {
      ExecKeepsGuard(p, s, answer);
    } else {
      var c, rest :| Joining(p, s0, s, c, rest);
      if Stage1(p, c, rest) {
        FromStage1(p, s0, s, c, rest, answer);
      } else if Stage2(p, s0, c, rest) {
        assert p[1] == Add(c);
        FromStage2(p, s0, s, c, rest, answer);
      } else if x :| Stage3(p, x, c, rest) {
        FromStage3(p, s0, s, x, c, rest, answer);
      } else {
        var x :| Stage4(p, s, x, c, rest);
        FromStage4(p, s0, s, x, c, rest, answer);
      }
    }
  }

  lemma FineGrows(p: Program, s0: Nodes, s: Nodes, t: Nodes)
    requires Fine(p, s0, s) && s <= t
    ensures Fine(p, s0, t)
  {
    if !Guarded(p, s) {
      var c, rest :| Joining(p, s0, s, c, rest);
      if x :| Stage4(p, s, x, c, rest) {
        assert Stage4(p, t, x, c, rest);
      }
      assert Joining(p, s0, t, c, rest);
    }
  }

  ghost predicate Inv(s0: Nodes, st: State) {
    s0 <= st.store && Closed(st.store) && forall k :: 0 <= k < |st.runs| ==> Fine(st.runs[k], s0, st.store)
  }

  lemma StartKeepsInv(s0: Nodes, st: State, p: Program)
    requires Inv(s0, st) && Fine(p, s0, st.store)
    ensures Inv(s0, Start(st, p))
  {}

  lemma AfterKeepsInv(permits: Permits, s0: Nodes, st: State, k: nat, answer: Answer)
    requires Inv(s0, st) && AllSettled(permits, s0) && Advances(permits, st, k, answer)
    ensures Inv(s0, After(st, k, answer))
  {
    var st' := After(st, k, answer);
    RunStaysFine(permits, st.runs[k], s0, st.store, answer);
    forall j | 0 <= j < |st'.runs| ensures Fine(st'.runs[j], s0, st'.store) {
      if j != k {
        FineGrows(st.runs[j], s0, st.store, st'.store);
      }
    }
  }

  lemma StepKeepsInv(permits: Permits, s0: Nodes, st: State, st': State)
    requires Inv(s0, st) && AllSettled(permits, s0) && Step(permits, st, st')
    ensures Inv(s0, st')
  {
    if n :| st' == Start(st, Ingest(n)) {
      StartKeepsInv(s0, st, Ingest(n));
    } else if root, max: nat :| st' == Start(st, Synchronize(root, max)) {
      StartKeepsInv(s0, st, Synchronize(root, max));
    } else if c: Node, max: nat :| c.Community? && st' == Start(st, Join(c, max)) {
      assert Stage1(Join(c, max), c, [AwaitLeaves(c, max)]);
      JoiningKept(Join(c, max), s0, st.store, c, [AwaitLeaves(c, max)]);
      StartKeepsInv(s0, st, Join(c, max));
    } else {
      var k: nat, answer :| Advances(permits, st, k, answer) && st' == After(st, k, answer);
      AfterKeepsInv(permits, s0, st, k, answer);
    }
  }

  lemma {:induction false} RunKeepsInv(permits: Permits, trace: seq<State>, i: nat)
    requires IsRun(permits, trace) && i < |trace| && AllSettled(permits, trace[0].store)
    ensures Inv(trace[0].store, trace[i])
  {
    if i > 0 {
      RunKeepsInv(permits, trace, i - 1);
      assert StepsTo(permits, trace, i);
      StepKeepsInv(permits, trace[0].store, trace[i - 1], trace[i]);
    }
  }

  lemma StepGrows(permits: Permits, st: State, st': State)
    requires Step(permits, st, st')
    ensures st.store <= st'.store
  {}

  /** Closure under concurrent check-then-add: in every interleaving of any number of ingestions,
    synchronizations and joins, failing anywhere, each stored node has its author and its whole
    ancestor chain stored, and nothing stored is ever lost. Only the answers to the author
    queries of joins are restricted; where nothing is joined, all answers are arbitrary. */
  lemma ConcurrentClosure(permits: Permits, trace: seq<State>, i: nat, n: Node)
    requires IsRun(permits, trace) && AllSettled(permits, trace[0].store)
    requires i < |trace| && n in trace[i].store
    ensures !n.Identity? ==> Has(trace[i].store, n.author)
    ensures n.Reply? ==> Has(trace[i].store, n.community)
    ensures forall a :: a in Ancestors(n) ==> a in trace[i].store && (!a.Identity? ==> Has(trace[i].store, a.author))
    ensures i + 1 < |trace| ==> n in trace[i + 1].store
  {
    RunKeepsInv(permits, trace, i);
    ClosedHoldsAncestry(trace[i].store, n);
    if i + 1 < |trace| {
      assert StepsTo(permits, trace, i + 1);
      StepGrows(permits, trace[i], trace[i + 1]);
    }
  }

  /** Ingestions and synchronizations never wait where the answers are restricted. */
  lemma ChainedAreFree(permits: Permits, p: Program, answer: Answer)
    requires Chained(p)
    ensures MayArrive(permits, p, answer)
  {}

  // ---------- Every other answer breaks closure ----------

  lemma Extend(permits: Permits, trace: seq<State>, st: State)
    requires IsRun(permits, trace) && Step(permits, trace[|trace| - 1], st)
    ensures IsRun(permits, trace + [st])
  {
    var all := trace + [st];
    forall i | 0 < i < |all| ensures StepsTo(permits, all, i) {
      assert i < |trace| ==> StepsTo(permits, trace, i);
    }
  }

  /** The run advances its newest program. */
  lemma AdvanceLast(permits: Permits, trace: seq<State>, answer: Answer) returns (all: seq<State>)
    requires IsRun(permits, trace) && trace[|trace| - 1].runs != []
    requires var st := trace[|trace| - 1]; Advances(permits, st, |st.runs| - 1, answer)
    ensures IsRun(permits, all) && all[0] == trace[0]
    ensures all[|all| - 1] == After(trace[|trace| - 1], |trace[|trace| - 1].runs| - 1, answer)
  {
    var st := trace[|trace| - 1];
    Extend(permits, trace, After(st, |st.runs| - 1, answer));
    all := trace + [After(st, |st.runs| - 1, answer)];
  }

  lemma Ingested(permits: Permits, trace: seq<State>, n: Node) returns (all: seq<State>)
    requires IsRun(permits, trace) && ValidDeep(n, trace[|trace| - 1].store)
    ensures IsRun(permits, all) && all[0] == trace[0]
    ensures all[|all| - 1].store == trace[|trace| - 1].store + {n}
  {
    var st := trace[|trace| - 1];
    var k := |st.runs|;
    Extend(permits, trace, Start(st, Ingest(n)));
    all := trace + [Start(st, Ingest(n))];
    assert !n.Identity? ==> n.author in n.Needs();
    assert all[|all| - 1].runs[k] == [EnsureAuthor(n), FetchUnlessValid(n), Add(n)];
    all := AdvanceLast(permits, all, NoAnswer);
    assert all[|all| - 1].runs[k] == [FetchUnlessValid(n), Add(n)];
    all := AdvanceLast(permits, all, NoAnswer);
    assert all[|all| - 1].runs[k] == [Add(n)];
    all := AdvanceLast(permits, all, NoAnswer);
  }

  function NodesOf(ids: set<Id>): Nodes {
    set i | i in ids && i.HashOf? :: i.node
  }

  /** Other runs may bring the node of an id, and all that goes with it. */
  lemma {:induction false} LineIngested(permits: Permits, trace: seq<State>, i: Id) returns (all: seq<State>)
    requires IsRun(permits, trace) && Closed(trace[|trace| - 1].store) && NullHash !in Line(i)
    ensures IsRun(permits, all) && Closed(all[|all| - 1].store) && all[0] == trace[0]
    ensures trace[|trace| - 1].store + NodesOf(Line(i)) == all[|all| - 1].store
    decreases i
  {
    all := trace;
    var n := i.node;
    if !n.Identity? {
      all := LineIngested(permits, all, n.author);
    }
    if n.Reply? {
      all := LineIngested(permits, all, n.parent);
      all := LineIngested(permits, all, n.community);
    }
    all := Ingested(permits, all, n);
  }

  /** A join against a store that lacks its community's author, when the answer is a valid node. */
  lemma Entered(permits: Permits, trace: seq<State>, c: Node, answer: Answer) returns (all: seq<State>)
    requires IsRun(permits, trace) && c.Community? && permits(c, answer)
    requires answer.Response? && |answer.nodes| == 1 && !Has(trace[|trace| - 1].store, c.author)
    requires ValidDeep(answer.nodes[0], trace[|trace| - 1].store)
    ensures IsRun(permits, all) && all[0] == trace[0]
    ensures all[|all| - 1].store == trace[|trace| - 1].store + {answer.nodes[0], c}
  {
    var st, x := trace[|trace| - 1], answer.nodes[0];
    var k := |st.runs|;
    Extend(permits, trace, Start(st, Join(c, 0)));
    all := trace + [Start(st, Join(c, 0))];
    var rest := [AwaitLeaves(c, 0)];
    assert all[|all| - 1].runs[k] == [EnsureAuthor(c), Add(c)] + rest;
    all := AdvanceLast(permits, all, answer);
    assert all[|all| - 1].runs[k] == [AwaitAuthor(c.author), Add(c)] + rest;
    all := AdvanceLast(permits, all, answer);
    assert all[|all| - 1].runs[k] == [Validate(x), Add(x), Add(c)] + rest;
    all := AdvanceLast(permits, all, answer);
    assert all[|all| - 1].runs[k] == [Add(x), Add(c)] + rest;
    all := AdvanceLast(permits, all, answer);
    assert all[|all| - 1].runs[k] == [Add(c)] + rest;
    all := AdvanceLast(permits, all, answer);
  }

  lemma AuthorIsNotCommunity(c: Node)
    requires c.Community?
    ensures c.author != HashOf(c)
  {}

  /** An answer that is another node, storable without the author, breaks closure: other runs store
    what goes with that node, so the join stores it, and then the community without its author. */
  lemma JoinBreaks(permits: Permits, s: Nodes, c: Node, answer: Answer) returns (trace: seq<State>)
    requires Closed(s) && c.Community? && permits(c, answer) && !Settled(s, c, answer)
    ensures IsRun(permits, trace) && trace[0] == State(s, []) && !Closed(trace[|trace| - 1].store)
  {
    var x := answer.nodes[0];
    trace := LineIngested(permits, [State(s, [])], HashOf(x));
    var st := trace[|trace| - 1];
    assert HashOf(x) in Line(HashOf(x)) && x in st.store;
    assert !Has(st.store, c.author);
    assert ValidDeep(x, st.store);
    trace := Entered(permits, trace, c, answer);
    AuthorIsNotCommunity(c);
    var end := trace[|trace| - 1].store;
    assert c in end && c.author in c.Needs() && !Has(end, c.author);
    assert !ValidDeep(c, end);
  }

  ghost predicate KeptClosed(trace: seq<State>) {
    forall i :: 0 <= i < |trace| ==> Closed(trace[i].store)
  }

  ghost predicate AlwaysClosed(permits: Permits, s: Nodes) {
    forall trace: seq<State> :: IsRun(permits, trace) && trace[0].store == s ==> KeptClosed(trace)
  }

  /** Every interleaving of ingestions, synchronizations and joins keeps the store closed exactly
    when every answer that may arrive to the author query of a join ends the join or brings the
    author: it is an error, or not exactly one node, or the author, or a node that cannot be
    stored without the author or at all. The program looks at the number of nodes only. */
  lemma JoinClosure(permits: Permits, s: Nodes)
    requires Closed(s)
    ensures AlwaysClosed(permits, s) <==> AllSettled(permits, s)
  {
    if AllSettled(permits, s) {
      forall trace: seq<State> | IsRun(permits, trace) && trace[0].store == s ensures KeptClosed(trace) {
        forall i | 0 <= i < |trace| ensures Closed(trace[i].store) {
          RunKeepsInv(permits, trace, i);
        }
      }
    } else {
      var c: Node, answer :| c.Community? && permits(c, answer) && !Settled(s, c, answer);
      var trace := JoinBreaks(permits, s, c, answer);
      assert !KeptClosed(trace);
    }
  }

  /** The comparison that the program does not make. */
  predicate Compared(c: Node, answer: Answer)
    requires c.Community?
  {
    answer.NoAnswer? || |answer.nodes| != 1 || HashOf(answer.nodes[0]) == c.author
  }

  /** If only the author were accepted for an answer, no interleaving would break closure. */
  lemma ComparingKeepsClosure(permits: Permits, s: Nodes)
    requires Closed(s) && forall c: Node, answer :: c.Community? && permits(c, answer) ==> Compared(c, answer)
    ensures AlwaysClosed(permits, s)
  {
    forall c: Node, answer | c.Community? && permits(c, answer) ensures Settled(s, c, answer) {
      assert Compared(c, answer);
      if answer.Response? && |answer.nodes| == 1 {
        assert HashOf(answer.nodes[0]) in Line(HashOf(answer.nodes[0]));
      }
    }
    JoinClosure(permits, s);
  }

  /** Answers that break closure, from an empty store on: another identity, which the join itself
    stores, or a community of another identity, which it stores once that identity has arrived. */
  lemma JoinMayBreakClosure(permits: Permits)
    requires var c := Community(HashOf(Identity("a", 0)), "c", 0);
             || permits(c, Response([Identity("b", 0)]))
             || permits(c, Response([Community(HashOf(Identity("b", 0)), "x", 0)]))
    ensures !AlwaysClosed(permits, {})
  {
    var c, b := Community(HashOf(Identity("a", 0)), "c", 0), Identity("b", 0);
    var x := if permits(c, Response([b])) then b else Community(HashOf(b), "x", 0);
    assert Line(HashOf(x)) <= {HashOf(x), HashOf(b)};
    assert permits(c, Response([x])) && !Settled({}, c, Response([x]));
    JoinClosure(permits, {});
  }

  /** Anything may start at any time, and any run may go on that does not wait for a restricted
    answer. */
  lemma MayHappen(permits: Permits, st: State, n: Node, max: nat, k: nat, answer: Answer)
    ensures Step(permits, st, Start(st, Ingest(n))) && Step(permits, st, Start(st, Synchronize(n, max)))
    ensures n.Community? ==> Step(permits, st, Start(st, Join(n, max)))
    ensures k < |st.runs| && st.runs[k] != [] && Chained(st.runs[k]) ==> Step(permits, st, After(st, k, answer))
  {
    if k < |st.runs| && st.runs[k] != [] && Chained(st.runs[k]) {
      ChainedAreFree(permits, st.runs[k], answer);
      assert Advances(permits, st, k, answer);
    }
  }
}
