/** Two workers connected by two streams of packets, each reading what the other writes. */
module TwoPeers {
  import opened Forest
  import opened Correlation

  datatype Pair = Pair(a: Side, b: Side)

  /** What the asks of a stream entitle their sender to, in order. */
  function Due(out: seq<Packet>): seq<Packet> {
    if out == [] then [] else
    var p := out[|out| - 1];
    Due(out[..|out| - 1]) + if p.Ask? then [Answer(p.id, HandlerSends(p.request))] else []
  }

  function Answers(out: seq<Packet>): seq<Packet> {
    if out == [] then [] else
    var p := out[|out| - 1];
    Answers(out[..|out| - 1]) + if p.Answer? then [p] else []
  }

  /** The answer that the request being handled, or the one that stopped the reader, is owed. */
  function Owed(r: Reader): seq<Packet> {
    if r.Handling? || r.Stopped? then [Answer(r.id, HandlerSends(r.request))] else []
  }

  // ---------- The invariant between an asking side and its peer ----------

  /** Reply discipline: the peer's answers are exactly what the asks it has taken entitle to, in
    wire order and of the kinds their handlers send, up to the one it is working on. */
  ghost predicate Discipline(asked: seq<Packet>, taken: nat, answered: seq<Packet>, reader: Reader) {
    taken <= |asked| && Due(asked[..taken]) == Answers(answered) + Owed(reader)
  }

  predicate HasWritten(c: Call) {
    c.phase.Waiting? || c.phase.Received? || c.phase.GivenUp? || c.phase.Cancelled?
  }

  predicate Wrote(c: Call, p: Packet) {
    HasWritten(c) && p == Ask(c.id, c.request)
  }

  ghost predicate AsksDistinct(out: seq<Packet>) {
    forall i, j :: 0 <= i < j < |out| && out[i].Ask? && out[j].Ask? ==> out[i].id != out[j].id
  }

  ghost predicate AsksFromCalls(calls: seq<Call>, out: seq<Packet>) {
    forall i :: 0 <= i < |out| && out[i].Ask? ==> WrittenByOne(calls, out[i])
  }

  ghost predicate WrittenByOne(calls: seq<Call>, p: Packet) {
    exists c :: 0 <= c < |calls| && Wrote(calls[c], p)
  }

  predicate AnswerTaken(answered: seq<Packet>, taken: nat, id: nat) {
    exists i :: 0 <= i < taken && i < |answered| && answered[i].Answer? && answered[i].id == id
  }

  predicate AskTaken(asked: seq<Packet>, taken: nat, c: Call) {
    exists i :: 0 <= i < taken && i < |asked| && asked[i] == Ask(c.id, c.request)
  }

  /** A registration is still there, was withdrawn, or its answer has been read. */
  ghost predicate Accounted(s: Side, answered: seq<Packet>) {
    forall c :: 0 <= c < |s.calls| && HasRegistered(s.calls[c]) ==>
                  || s.calls[c].id in s.pending
                  || s.calls[c].id in s.withdrawn
                  || AnswerTaken(answered, s.taken, s.calls[c].id)
  }

  /** The answer in the reader's hands was read from the stream, is of the kind that the handler of
    its channel's request sends, and so is every answer that a caller has received. */
  ghost predicate KindsMatch(s: Side, asked: seq<Packet>, peerTaken: nat, answered: seq<Packet>) {
    && (s.reader.Loaded? || s.reader.Removed? ==>
          && AnswerTaken(answered, s.taken, s.reader.id)
          && s.reader.channel < |s.calls|
          && s.reader.kind == HandlerSends(s.calls[s.reader.channel].request)
          && AskTaken(asked, peerTaken, s.calls[s.reader.channel]))
    && forall c :: 0 <= c < |s.calls| && s.calls[c].phase.Received? ==>
                     && s.calls[c].phase.kind == HandlerSends(s.calls[c].request)
                     && AskTaken(asked, peerTaken, s.calls[c])
  }

  /** The session that the requests taken make by themselves. */
  function SessionFrom(asked: seq<Packet>): multiset<Id> {
    if asked == [] then multiset{} else Taken(SessionFrom(asked[..|asked| - 1]), asked[|asked| - 1])
  }

  /** The peer's session counts every subscription it was asked for; more than that only where it
    has subscribed itself. */
  ghost predicate SessionSeen(asked: seq<Packet>, taken: nat, session: multiset<Id>, own: set<Id>) {
    taken <= |asked| && forall x :: CountSeen(SessionFrom(asked[..taken])[x], session[x], x in own)
  }

  predicate CountSeen(asked: nat, held: nat, own: bool) {
    asked <= held && (own || asked == held)
  }

  /** What a request does to the count of a community, as long as the count is positive. */
  function Change(p: Packet, x: Id): int {
    if p.Ask? && p.request == Subscribe(x) then 1 else if p.Ask? && p.request == Unsubscribe(x) then -1 else 0
  }

  function Taken(session: multiset<Id>, p: Packet): multiset<Id> {
    if p.Ask? then SessionAfter(session, p.request) else session
  }

  lemma CountTaken(session: multiset<Id>, p: Packet, x: Id)
    ensures Taken(session, p)[x] == if session[x] + Change(p, x) < 0 then 0 else session[x] + Change(p, x)
  {}

  ghost predicate JoinedBeforeAnnounce(s: Side) {
    forall c :: 0 <= c < |s.calls| && s.calls[c].request.AnnounceLeaves? ==> HasJoined(s, s.calls[c].request.c)
  }

  ghost predicate Dir(p: Side, q: Side) {
    && Discipline(p.out, q.taken, q.out, q.reader)
    && AsksDistinct(p.out)
    && AsksFromCalls(p.calls, p.out)
    && Accounted(p, q.out)
    && KindsMatch(p, p.out, q.taken, q.out)
    && SessionSeen(p.out, q.taken, q.session, q.own)
    && JoinedBeforeAnnounce(p)
    && p.unsolicited <= p.withdrawn
  }

  ghost predicate PairInv(x: Pair) {
    SideInv(x.a) && SideInv(x.b) && Dir(x.a, x.b) && Dir(x.b, x.a)
  }

  // ---------- Streams ----------

  lemma {:induction false} DueFromAsks(out: seq<Packet>, p: Packet) returns (i: nat)
    requires p in Due(out)
    ensures i < |out| && out[i].Ask? && p == Answer(out[i].id, HandlerSends(out[i].request))
    decreases |out|
  {
    var n := |out| - 1;
    if p in Due(out[..n]) {
      i := DueFromAsks(out[..n], p);
    } else {
      i := n;
    }
  }

  lemma {:induction false} DueDistinct(out: seq<Packet>)
    requires AsksDistinct(out)
    ensures forall i, j :: 0 <= i < j < |Due(out)| ==> Due(out)[i].id != Due(out)[j].id
    decreases |out|
  {
    if out != [] {
      var n := |out| - 1;
      DueDistinct(out[..n]);
      if out[n].Ask? {
        forall i | 0 <= i < |Due(out[..n])| ensures Due(out[..n])[i].id != out[n].id {
          var k := DueFromAsks(out[..n], Due(out[..n])[i]);
        }
      }
    }
  }

  lemma {:induction false} AnswerPositions(out: seq<Packet>, i: nat) returns (k: nat)
    requires i < |out| && out[i].Answer?
    ensures k == |Answers(out[..i])| && k < |Answers(out)| && Answers(out)[k] == out[i]
    decreases |out|
  {
    var n := |out| - 1;
    if i == n {
      k := |Answers(out[..n])|;
    } else {
      assert out[..n][..i] == out[..i];
      k := AnswerPositions(out[..n], i);
    }
  }

  /** No id is answered twice. */
  lemma AnswersDistinct(asked: seq<Packet>, taken: nat, answered: seq<Packet>, reader: Reader, i: nat, j: nat)
    requires Discipline(asked, taken, answered, reader) && AsksDistinct(asked)
    requires i < j < |answered| && answered[i].Answer? && answered[j].Answer?
    ensures answered[i].id != answered[j].id
  {
    DueDistinct(asked[..taken]);
    var l := AnswerPositions(answered, j);
    assert answered[..j][..i] == answered[..i];
    var k := AnswerPositions(answered[..j], i);
    var k' := AnswerPositions(answered, i);
    assert Due(asked[..taken])[k] == answered[i] && Due(asked[..taken])[l] == answered[j];
  }

  /** Every answer read answers an ask that the peer has taken. */
  lemma AnswerHasAsk(asked: seq<Packet>, taken: nat, answered: seq<Packet>, reader: Reader, j: nat) returns (i: nat)
    requires Discipline(asked, taken, answered, reader) && j < |answered| && answered[j].Answer?
    ensures i < taken && asked[i].Ask? && answered[j] == Answer(asked[i].id, HandlerSends(asked[i].request))
  {
    var k := AnswerPositions(answered, j);
    assert Due(asked[..taken])[k] == answered[j];
    i := DueFromAsks(asked[..taken], answered[j]);
  }

  // ---------- The asking side moves ----------

  lemma ReadAnswer(p: Side, q: Side)
    requires SideInv(p) && Dir(p, q) && p.reader.Idle? && p.taken < |q.out| && q.out[p.taken].Answer?
    ensures Dir(Took(p, q.out[p.taken]), q)
  {
    var j, x := p.taken, q.out[p.taken];
    var t := Took(p, x);
    var i := AnswerHasAsk(p.out, q.taken, q.out, q.reader, j);
    assert WrittenByOne(p.calls, p.out[i]);
    var c :| 0 <= c < |p.calls| && Wrote(p.calls[c], p.out[i]);
    assert AnswerTaken(q.out, t.taken, x.id);
    assert forall id :: AnswerTaken(q.out, p.taken, id) ==> AnswerTaken(q.out, t.taken, id);
    if x.id in p.pending {
      assert Owns(p, p.pending[x.id], x.id);
      assert p.pending[x.id] == c;
      assert AskTaken(p.out, q.taken, p.calls[c]);
    } else if AnswerTaken(q.out, p.taken, x.id) {
      var k :| 0 <= k < p.taken && k < |q.out| && q.out[k].Answer? && q.out[k].id == x.id;
      AnswersDistinct(p.out, q.taken, q.out, q.reader, k, j);
    }
  }

  lemma JoinedStays(s: Side, t: Side)
    requires |s.calls| <= |t.calls|
    requires forall c :: 0 <= c < |s.calls| && s.calls[c].phase.Received? ==> t.calls[c] == s.calls[c]
    ensures forall x :: HasJoined(s, x) ==> HasJoined(t, x)
  {
    forall x | HasJoined(s, x) ensures HasJoined(t, x) {
      var k :| 0 <= k < |s.calls| && s.calls[k].request == Subscribe(x) && s.calls[k].phase.Received?;
      assert t.calls[k] == s.calls[k];
    }
  }

  lemma WrittenStays(s: seq<Call>, t: seq<Call>)
    requires |s| <= |t|
    requires forall c :: 0 <= c < |s| && HasWritten(s[c]) ==>
                           HasWritten(t[c]) && t[c].id == s[c].id && t[c].request == s[c].request
    ensures forall p :: WrittenByOne(s, p) ==> WrittenByOne(t, p)
  {
    forall p | WrittenByOne(s, p) ensures WrittenByOne(t, p) {
      var c :| 0 <= c < |s| && Wrote(s[c], p);
      assert Wrote(t[c], p);
    }
  }

  lemma BeginDir(p: Side, q: Side, r: Request)
    requires SideInv(p) && Dir(p, q) && Enabled(p, q.out, Begin(r))
    ensures Dir(Next(p, q.out, Begin(r)), q)
  {
    var t := Next(p, q.out, Begin(r));
    JoinedStays(p, t);
    WrittenStays(p.calls, t.calls);
  }

  lemma NumberDir(p: Side, q: Side, c: nat)
    requires SideInv(p) && Dir(p, q) && At(p, c, Started)
    ensures Dir(Next(p, q.out, TakeNumber(c)), q)
  {
    var t := Next(p, q.out, TakeNumber(c));
    JoinedStays(p, t);
    WrittenStays(p.calls, t.calls);
  }

  lemma RegisterDir(p: Side, q: Side, c: nat)
    requires SideInv(p) && Dir(p, q) && At(p, c, Numbered)
    ensures Dir(Next(p, q.out, Register(c)), q)
  {
    var t := Next(p, q.out, Register(c));
    JoinedStays(p, t);
    WrittenStays(p.calls, t.calls);
  }

  lemma PhaseDir(p: Side, q: Side, c: nat, phase: Phase)
    requires SideInv(p) && Dir(p, q) && c < |p.calls| && HasRegistered(p.calls[c]) && !p.calls[c].phase.Received?
    requires phase.WriteFailed? || phase.GivenUp? || phase.Cancelled?
    requires HasWritten(p.calls[c]) ==> !phase.WriteFailed?
    ensures Dir(WithPhase(p, c, phase), q)
  {
    var t := WithPhase(p, c, phase);
    JoinedStays(p, t);
    WrittenStays(p.calls, t.calls);
  }

  lemma WithdrawDir(p: Side, q: Side, id: nat)
    requires Dir(p, q)
    ensures Dir(Withdrawn(p, id), q)
  {
    JoinedStays(p, Withdrawn(p, id));
  }

  lemma WriteDir(p: Side, q: Side, c: nat)
    requires SideInv(p) && Dir(p, q) && At(p, c, Registered)
    ensures Dir(Next(p, q.out, Write(c)), q)
  {
    var t := Next(p, q.out, Write(c));
    JoinedStays(p, t);
    OutGrows(p, q, t.out);
    NewAsk(p, c);
  }

  lemma NewAsk(p: Side, c: nat)
    requires SideInv(p) && AsksDistinct(p.out) && AsksFromCalls(p.calls, p.out) && At(p, c, Registered)
    ensures var t := Next(p, [], Write(c)); AsksDistinct(t.out) && AsksFromCalls(t.calls, t.out)
  {
    var t := Next(p, [], Write(c));
    WrittenStays(p.calls, t.calls);
    assert Wrote(t.calls[c], t.out[|p.out|]);
    forall i | 0 <= i < |p.out| && p.out[i].Ask?
      ensures p.out[i].id != p.calls[c].id && WrittenByOne(t.calls, t.out[i])
    {
      assert WrittenByOne(p.calls, p.out[i]);
      var d :| 0 <= d < |p.calls| && Wrote(p.calls[d], p.out[i]);
    }
  }

  /** What the peer has taken is not affected by further output. */
  lemma OutGrows(p: Side, q: Side, out: seq<Packet>)
    requires Dir(p, q) && p.out <= out
    ensures Discipline(out, q.taken, q.out, q.reader) && SessionSeen(out, q.taken, q.session, q.own)
    ensures KindsMatch(p, out, q.taken, q.out)
    ensures forall c :: AskTaken(p.out, q.taken, c) ==> AskTaken(out, q.taken, c)
  {
    assert out[..q.taken] == p.out[..q.taken];
    assert forall i :: 0 <= i < q.taken ==> out[i] == p.out[i];
    forall c | AskTaken(p.out, q.taken, c) ensures AskTaken(out, q.taken, c) {
      var i :| 0 <= i < q.taken && i < |p.out| && p.out[i] == Ask(c.id, c.request);
      assert out[i] == p.out[i];
    }
  }

  lemma RespondDir(p: Side, q: Side)
    requires SideInv(p) && Dir(p, q) && p.reader.Handling?
    ensures Dir(Next(p, q.out, Respond), q) && Dir(Next(p, q.out, Refuse), q)
  {
    var t := Next(p, q.out, Respond);
    JoinedStays(p, t);
    JoinedStays(p, Next(p, q.out, Refuse));
    OutGrows(p, q, t.out);
  }

  lemma ReadAsk(p: Side, q: Side)
    requires SideInv(p) && Dir(p, q) && p.reader.Idle? && p.taken < |q.out| && q.out[p.taken].Ask?
    ensures Dir(Took(p, q.out[p.taken]), q)
  {
    var t := Took(p, q.out[p.taken]);
    JoinedStays(p, t);
    assert forall id :: AnswerTaken(q.out, p.taken, id) ==> AnswerTaken(q.out, t.taken, id);
  }

  lemma DeliverDir(p: Side, q: Side)
    requires SideInv(p) && Dir(p, q)
    ensures p.reader.Loaded? ==> Dir(Next(p, q.out, Remove), q)
    ensures Enabled(p, q.out, Send) ==> Dir(Next(p, q.out, Send), q)
    ensures p.reader.Sent? ==> Dir(Next(p, q.out, Close), q)
  {
    if p.reader.Loaded? {
      JoinedStays(p, Next(p, q.out, Remove));
    }
    if Enabled(p, q.out, Send) {
      JoinedStays(p, Next(p, q.out, Send));
      WrittenStays(p.calls, Next(p, q.out, Send).calls);
    }
    if p.reader.Sent? {
      JoinedStays(p, Next(p, q.out, Close));
    }
  }

  predicate ByReader(m: Move) {
    m.Read? || m.Remove? || m.Send? || m.Close? || m.Respond? || m.Refuse?
  }

  lemma AskersReaderMoves(p: Side, q: Side, m: Move)
    requires SideInv(p) && Dir(p, q) && Enabled(p, q.out, m) && ByReader(m)
    ensures Dir(Next(p, q.out, m), q)
  {
    match m
    case Read =>
      if q.out[p.taken].Ask? {
        ReadAsk(p, q);
      } else {
        ReadAnswer(p, q);
      }
    case Respond => RespondDir(p, q);
    case Refuse => RespondDir(p, q);
    case _ => DeliverDir(p, q);
  }

  lemma AskerMoves(p: Side, q: Side, m: Move)
    requires SideInv(p) && Dir(p, q) && Enabled(p, q.out, m)
    ensures Dir(Next(p, q.out, m), q)
  {
    match m
    case Begin(r) => BeginDir(p, q, r);
    case TakeNumber(c) => NumberDir(p, q, c);
    case Register(c) => RegisterDir(p, q, c);
    case Write(c) => WriteDir(p, q, c);
    case FailWrite(c) => PhaseDir(p, q, c, WriteFailed);
    case GiveUp(c) => PhaseDir(p, q, c, GivenUp);
    case Withdraw(c) =>
      PhaseDir(p, q, c, Cancelled);
      WithdrawDir(WithPhase(p, c, Cancelled), q, p.calls[c].id);
    case UserCancel(id) => WithdrawDir(p, q, id);
    case JoinOwn(_) => JoinedStays(p, Next(p, q.out, m));
    case _ => AskersReaderMoves(p, q, m);
  }

  // ---------- The answering side moves ----------

  /** The asking side depends on its peer's output, progress, debt and session only. */
  lemma PeerProgress(p: Side, q: Side, t: Side)
    requires Dir(p, q) && q.out <= t.out && q.taken <= t.taken
    requires Discipline(p.out, t.taken, t.out, t.reader) && SessionSeen(p.out, t.taken, t.session, t.own)
    ensures Dir(p, t)
  {
    forall id | AnswerTaken(q.out, p.taken, id) ensures AnswerTaken(t.out, p.taken, id) {
      var i :| 0 <= i < p.taken && i < |q.out| && q.out[i].Answer? && q.out[i].id == id;
      assert t.out[i] == q.out[i];
    }
    forall c | AskTaken(p.out, q.taken, c) ensures AskTaken(p.out, t.taken, c) {
      var i :| 0 <= i < q.taken && i < |p.out| && p.out[i] == Ask(c.id, c.request);
      assert p.out[i] == Ask(c.id, c.request);
    }
  }

  lemma NextSession(asked: seq<Packet>, k: nat, session: multiset<Id>, own: set<Id>)
    requires k < |asked| && SessionSeen(asked, k, session, own)
    ensures SessionSeen(asked, k + 1, Taken(session, asked[k]), own)
  {
    var before := SessionFrom(asked[..k]);
    assert asked[..k + 1][..k] == asked[..k];
    forall x ensures CountSeen(Taken(before, asked[k])[x], Taken(session, asked[k])[x], x in own) {
      assert CountSeen(before[x], session[x], x in own);
      CountTaken(before, asked[k], x);
      CountTaken(session, asked[k], x);
    }
  }

  lemma TookSession(q: Side, x: Packet)
    ensures Took(q, x).session == Taken(q.session, x) && Took(q, x).own == q.own
    ensures Took(q, x).out == q.out && Took(q, x).taken == q.taken + 1
  {}

  lemma TookDiscipline(asked: seq<Packet>, q: Side)
    requires Discipline(asked, q.taken, q.out, q.reader) && q.reader.Idle? && q.taken < |asked|
    ensures var t := Took(q, asked[q.taken]); Discipline(asked, t.taken, t.out, t.reader)
  {
    assert asked[..q.taken + 1][..q.taken] == asked[..q.taken];
  }

  lemma TakeNext(p: Side, q: Side)
    requires Dir(p, q) && q.reader.Idle? && q.taken < |p.out|
    ensures Dir(p, Took(q, p.out[q.taken]))
  {
    NextSession(p.out, q.taken, q.session, q.own);
    TookSession(q, p.out[q.taken]);
    TookDiscipline(p.out, q);
    PeerProgress(p, q, Took(q, p.out[q.taken]));
  }

  lemma SameToPeer(p: Side, q: Side, t: Side)
    requires Dir(p, q) && t.out == q.out && t.taken == q.taken && t.session == q.session && t.own == q.own
    requires Owed(t.reader) == Owed(q.reader)
    ensures Dir(p, t)
  {
    PeerProgress(p, q, t);
  }

  lemma MorePackets(p: Side, q: Side, x: Packet, t: Side)
    requires Dir(p, q) && t.out == q.out + [x] && t.taken == q.taken && t.session == q.session && t.own == q.own
    requires if x.Answer? then Owed(q.reader) == [x] && Owed(t.reader) == [] else Owed(t.reader) == Owed(q.reader)
    ensures Dir(p, t)
  {
    assert t.out[..|t.out| - 1] == q.out;
    assert Answers(q.out) + [x] == Answers(q.out) + [x] + [];
    PeerProgress(p, q, t);
  }

  lemma AnswererMoves(p: Side, q: Side, m: Move)
    requires Dir(p, q) && Enabled(q, p.out, m)
    ensures Dir(p, Next(q, p.out, m))
  {
    match m
    case Read => TakeNext(p, q);
    case Write(c) => MorePackets(p, q, Ask(q.calls[c].id, q.calls[c].request), Next(q, p.out, m));
    case Respond => MorePackets(p, q, Answer(q.reader.id, HandlerSends(q.reader.request)), Next(q, p.out, m));
    case JoinOwn(x) => PeerProgress(p, q, Next(q, p.out, m));
    case _ => SameToPeer(p, q, Next(q, p.out, m));
  }

  // ---------- Runs ----------

  ghost predicate PairStep(x: Pair, y: Pair) {
    || (exists m :: Enabled(x.a, x.b.out, m) && y == Pair(Next(x.a, x.b.out, m), x.b))
    || (exists m :: Enabled(x.b, x.a.out, m) && y == Pair(x.a, Next(x.b, x.a.out, m)))
  }

  lemma StepKeepsPair(x: Pair, y: Pair)
    requires PairInv(x) && PairStep(x, y)
    ensures PairInv(y)
  {
    if m :| Enabled(x.a, x.b.out, m) && y == Pair(Next(x.a, x.b.out, m), x.b) {
      MoveKeepsSide(x.a, x.b.out, m);
      AskerMoves(x.a, x.b, m);
      AnswererMoves(x.b, x.a, m);
    } else {
      var m :| Enabled(x.b, x.a.out, m) && y == Pair(x.a, Next(x.b, x.a.out, m));
      MoveKeepsSide(x.b, x.a.out, m);
      AskerMoves(x.b, x.a, m);
      AnswererMoves(x.a, x.b, m);
    }
  }

  ghost predicate PairRun(trace: seq<Pair>) {
    && trace != [] && trace[0] == Pair(Fresh(), Fresh())
    && forall i :: 0 < i < |trace| ==> PairStepsTo(trace, i)
  }

  ghost predicate PairStepsTo(trace: seq<Pair>, i: nat)
    requires 0 < i < |trace|
  {
    PairStep(trace[i - 1], trace[i])
  }

  lemma FreshPair()
    ensures PairInv(Pair(Fresh(), Fresh()))
  {}

  lemma {:induction false} RunKeepsPair(trace: seq<Pair>, i: nat)
    requires PairRun(trace) && i < |trace|
    ensures PairInv(trace[i])
  {
    if i == 0 {
      FreshPair();
    } else {
      RunKeepsPair(trace, i - 1);
      assert PairStepsTo(trace, i);
      StepKeepsPair(trace[i - 1], trace[i]);
    }
  }

  /** Reply discipline between two workers: one side's answers are exactly the ids of the requests
    it has taken, in wire order, one each, of the kind each handler sends. The last one may
    still be owed, forever if its handler failed. */
  lemma ReplyDiscipline(trace: seq<Pair>, i: nat)
    requires PairRun(trace) && i < |trace|
    ensures var p, q := trace[i].a, trace[i].b;
            && q.taken <= |p.out| && p.taken <= |q.out|
            && Due(p.out[..q.taken]) == Answers(q.out) + Owed(q.reader)
            && Due(q.out[..p.taken]) == Answers(p.out) + Owed(p.reader)
  {
    RunKeepsPair(trace, i);
  }

  /** The wrong-kind branches of the functions that wait for a reply are never taken: what a
    caller receives is of the kind that it expects. */
  lemma ExpectedKind(trace: seq<Pair>, i: nat, call: Call)
    requires PairRun(trace) && i < |trace|
    requires call in trace[i].a.calls || call in trace[i].b.calls
    ensures call.phase.Received? ==> call.phase.kind == CallerExpects(call.request)
  {
    RunKeepsPair(trace, i);
    TablesAgree(call.request);
  }

  /** Between two workers an answer is unsolicited only if its request was given up or cancelled. */
  lemma UnsolicitedOnlyWhenWithdrawn(trace: seq<Pair>, i: nat)
    requires PairRun(trace) && i < |trace|
    ensures trace[i].a.unsolicited <= trace[i].a.withdrawn
    ensures trace[i].b.unsolicited <= trace[i].b.withdrawn
  {
    RunKeepsPair(trace, i);
  }

  // ---------- Subscriptions ----------

  /** Subscriptions less unsubscriptions from position `j` on. */
  function Net(asked: seq<Packet>, j: nat, x: Id): int
    decreases |asked|
  {
    if |asked| <= j then 0 else Net(asked[..|asked| - 1], j, x) + Change(asked[|asked| - 1], x)
  }

  /** The count is the largest net number of subscriptions that any part of the history up to now
    has brought. */
  lemma {:induction false} CountIsLargestNet(asked: seq<Packet>, x: Id) returns (best: nat)
    ensures best <= |asked| && Net(asked, best, x) == SessionFrom(asked)[x]
    ensures forall j: nat :: j <= |asked| ==> Net(asked, j, x) <= SessionFrom(asked)[x]
    decreases |asked|
  {
    if asked == [] {
      best := 0;
    } else {
      var before := asked[..|asked| - 1];
      best := CountIsLargestNet(before, x);
      CountTaken(SessionFrom(before), asked[|asked| - 1], x);
      if SessionFrom(before)[x] == 0 && Change(asked[|asked| - 1], x) == -1 {
        best := |asked|;
      }
    }
  }

  /** Since some moment more subscriptions than unsubscriptions of the community have come. */
  ghost predicate MoreSubscribed(asked: seq<Packet>, x: Id) {
    exists j: nat :: j <= |asked| && Net(asked, j, x) > 0
  }

  predicate SubscribedAt(asked: seq<Packet>, j: nat, x: Id) {
    j < |asked| && asked[j].Ask? && asked[j].request == Subscribe(x)
  }

  predicate UnsubscribedSince(asked: seq<Packet>, j: nat, x: Id) {
    exists i :: j <= i < |asked| && asked[i].Ask? && asked[i].request == Unsubscribe(x)
  }

  lemma {:induction false} SubscribedStays(asked: seq<Packet>, j: nat, x: Id)
    requires SubscribedAt(asked, j, x) && !UnsubscribedSince(asked, j, x)
    ensures Net(asked, j, x) > 0
    decreases |asked|
  {
    var before := asked[..|asked| - 1];
    assert forall i :: 0 <= i < |before| ==> before[i] == asked[i];
    assert Change(asked[|asked| - 1], x) >= 0;
    if j < |before| {
      SubscribedStays(before, j, x);
    }
  }

  lemma SessionBySubscriptions(p: Side, q: Side, x: Id)
    requires Dir(p, q)
    ensures MoreSubscribed(p.out[..q.taken], x) ==> x in q.session
    ensures x !in q.own ==> (x in q.session <==> MoreSubscribed(p.out[..q.taken], x))
  {
    var best := CountIsLargestNet(p.out[..q.taken], x);
    assert CountSeen(SessionFrom(p.out[..q.taken])[x], q.session[x], x in q.own);
  }

  /** Subscribe precedes announce: when the peer comes to the announcement that bootstrapping makes
    for a community, it has taken a subscription of that community before. Its session then
    contains the community if since some moment it has taken more subscriptions than
    unsubscriptions of it, which is so unless it was asked to unsubscribe after each
    subscription; and only then, unless it has subscribed itself. */
  lemma SubscribePrecedesAnnounce(trace: seq<Pair>, i: nat, x: Id) returns (j: nat)
    requires PairRun(trace) && i < |trace|
    requires var p, q := trace[i].a, trace[i].b;
             q.taken < |p.out| && p.out[q.taken].Ask? && p.out[q.taken].request == AnnounceLeaves(x)
    ensures var p, q := trace[i].a, trace[i].b;
            var asked := p.out[..q.taken];
            && SubscribedAt(asked, j, x)
            && (MoreSubscribed(asked, x) ==> x in q.session)
            && (x !in q.own && x in q.session ==> MoreSubscribed(asked, x))
            && forall k: nat :: SubscribedAt(asked, k, x) && !UnsubscribedSince(asked, k, x) ==> x in q.session
  {
    var p, q := trace[i].a, trace[i].b;
    var asked := p.out[..q.taken];
    RunKeepsPair(trace, i);
    j := JoinedIsAsked(p, q, x);
    SessionBySubscriptions(p, q, x);
    forall k: nat | SubscribedAt(asked, k, x) && !UnsubscribedSince(asked, k, x) ensures x in q.session {
      SubscribedStays(asked, k, x);
    }
  }

  lemma JoinedIsAsked(p: Side, q: Side, x: Id) returns (j: nat)
    requires Dir(p, q) && q.taken < |p.out| && p.out[q.taken].Ask? && p.out[q.taken].request == AnnounceLeaves(x)
    ensures SubscribedAt(p.out[..q.taken], j, x)
  {
    assert WrittenByOne(p.calls, p.out[q.taken]);
    var c :| 0 <= c < |p.calls| && Wrote(p.calls[c], p.out[q.taken]);
    assert HasJoined(p, p.calls[c].request.c);
    var k :| 0 <= k < |p.calls| && p.calls[k].request == Subscribe(x) && p.calls[k].phase.Received?;
    assert AskTaken(p.out, q.taken, p.calls[k]);
    j :| 0 <= j < q.taken && j < |p.out| && p.out[j] == Ask(p.calls[k].id, p.calls[k].request);
    assert p.out[..q.taken][j] == p.out[j];
  }
}
