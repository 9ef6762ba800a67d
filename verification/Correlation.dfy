/** Requests and replies on one side of a connection: many callers, one reader.

  Each move is one atomic access of the state that callers and reader share. What arrives from
  the peer is arbitrary here; TwoPeers fixes it to what another such side sends.
*/
module Correlation {
  import opened Forest

  datatype Request =
    | Version | List | Query | Ancestry | LeavesOf
    | Subscribe(c: Id) | Unsubscribe(c: Id)
    | Announce
    | AnnounceLeaves(c: Id)  // the announcement that bootstrapping makes for a community it joined

  datatype Kind = StatusReply | ResponseReply

  /** What the worker's handler for a request replies with. */
  function HandlerSends(r: Request): Kind {
    match r
    case Version => StatusReply
    case List => ResponseReply
    case Query => ResponseReply
    case Ancestry => ResponseReply
    case LeavesOf => ResponseReply
    case Subscribe(_) => StatusReply
    case Unsubscribe(_) => StatusReply
    case Announce => StatusReply
    case AnnounceLeaves(_) => StatusReply
  }

  /** What the sender of a request waits for: of the two functions that wait for replies, one takes
    anything but a status for an error, the other anything but a response. */
  function CallerExpects(r: Request): Kind {
    match r
    case Version => StatusReply
    case Subscribe(_) => StatusReply
    case Unsubscribe(_) => StatusReply
    case Announce => StatusReply
    case AnnounceLeaves(_) => StatusReply
    case List => ResponseReply
    case Query => ResponseReply
    case Ancestry => ResponseReply
    case LeavesOf => ResponseReply
  }

  lemma TablesAgree(r: Request)
    ensures HandlerSends(r) == CallerExpects(r)
    ensures HandlerSends(r) == ResponseReply <==> r.List? || r.Query? || r.Ancestry? || r.LeavesOf?
  {}

  datatype Packet = Ask(id: nat, request: Request) | Answer(id: nat, kind: Kind)

  /** How far a caller has come. A failed write leaves the registration behind; a caller that
    gave up has not yet withdrawn its registration. */
  datatype Phase =
    | Started | Numbered | Registered | Waiting | Received(kind: Kind)
    | WriteFailed | GivenUp | Cancelled

  datatype Call = Call(request: Request, id: nat, phase: Phase)

  /** The reader: looks the channel up, removes it from the map, sends on it, closes it. */
  datatype Reader =
    | Idle
    | Handling(id: nat, request: Request)
    | Loaded(id: nat, kind: Kind, channel: nat)
    | Removed(id: nat, kind: Kind, channel: nat)
    | Sent(channel: nat)
    | Stopped(id: nat, request: Request)  // the handler failed and the connection closes

  datatype Delivery = Delivery(channel: nat, id: nat, kind: Kind)

  /** A call's index stands for its channel. `out` is everything written, `taken` how much of
    the peer's output has been read. The session counts subscriptions; `own` are the communities
    that this side has added to it itself. */
  datatype Side = Side(next: nat, calls: seq<Call>, pending: map<nat, nat>, reader: Reader,
                       out: seq<Packet>, taken: nat, session: multiset<Id>, own: set<Id>,
                       sends: seq<Delivery>, closes: seq<nat>,
                       unsolicited: set<nat>, withdrawn: set<nat>)

  datatype Move =
    | Begin(request: Request) | TakeNumber(c: nat) | Register(c: nat) | Write(c: nat) | FailWrite(c: nat)
    | GiveUp(c: nat) | Withdraw(c: nat) | UserCancel(id: nat)
    | JoinOwn(x: Id)  // the worker adds a community that its peer has confirmed to its own session
    | Read | Remove | Send | Close | Respond | Refuse

  predicate HasJoined(s: Side, c: Id) {
    exists k :: 0 <= k < |s.calls| && s.calls[k].request == Subscribe(c) && s.calls[k].phase.Received?
  }

  predicate At(s: Side, c: nat, phase: Phase) {
    c < |s.calls| && s.calls[c].phase == phase
  }

  predicate Enabled(s: Side, incoming: seq<Packet>, m: Move) {
    match m
    case Begin(r) => r.AnnounceLeaves? ==> HasJoined(s, r.c)
    case TakeNumber(c) => At(s, c, Started)
    case Register(c) => At(s, c, Numbered)
    case Write(c) => At(s, c, Registered)
    case FailWrite(c) => At(s, c, Registered)
    case GiveUp(c) => At(s, c, Waiting)
    case Withdraw(c) => At(s, c, GivenUp)
    case UserCancel(_) => true
    case JoinOwn(x) => HasJoined(s, x)
    case Read => s.reader.Idle? && s.taken < |incoming|
    case Remove => s.reader.Loaded?
    case Send => s.reader.Removed? && At(s, s.reader.channel, Waiting)
    case Close => s.reader.Sent?
    case Respond => s.reader.Handling?
    case Refuse => s.reader.Handling?
  }

  function WithPhase(s: Side, c: nat, phase: Phase): Side
    requires c < |s.calls|
  {
    s.(calls := s.calls[c := s.calls[c].(phase := phase)])
  }

  function Withdrawn(s: Side, id: nat): Side {
    s.(pending := s.pending - {id}, withdrawn := s.withdrawn + {id})
  }

  /** Handlers change the session before they reply. */
  function SessionAfter(session: multiset<Id>, r: Request): multiset<Id> {
    if r.Subscribe? then session + multiset{r.c} else if r.Unsubscribe? then session - multiset{r.c} else session
  }

  function Took(s: Side, p: Packet): Side {
    var t := s.(taken := s.taken + 1);
    match p
    case Ask(id, r) => t.(reader := Handling(id, r), session := SessionAfter(s.session, r))
    case Answer(id, kind) =>
      if id in s.pending then t.(reader := Loaded(id, kind, s.pending[id]))
      else t.(unsolicited := s.unsolicited + {id})
  }

  function Next(s: Side, incoming: seq<Packet>, m: Move): Side
    requires Enabled(s, incoming, m)
  {
    match m
    case Begin(r) => s.(calls := s.calls + [Call(r, 0, Started)])
    case TakeNumber(c) => s.(next := s.next + 1, calls := s.calls[c := Call(s.calls[c].request, s.next, Numbered)])
    case Register(c) => WithPhase(s, c, Registered).(pending := s.pending[s.calls[c].id := c])
    case Write(c) => WithPhase(s, c, Waiting).(out := s.out + [Ask(s.calls[c].id, s.calls[c].request)])
    case FailWrite(c) => WithPhase(s, c, WriteFailed)
    case GiveUp(c) => WithPhase(s, c, GivenUp)
    case Withdraw(c) => Withdrawn(WithPhase(s, c, Cancelled), s.calls[c].id)
    case UserCancel(id) => Withdrawn(s, id)
    case JoinOwn(x) => s.(session := s.session + multiset{x}, own := s.own + {x})
    case Read => Took(s, incoming[s.taken])
    case Remove =>
      s.(pending := s.pending - {s.reader.id}, reader := Removed(s.reader.id, s.reader.kind, s.reader.channel))
    case Send =>
      WithPhase(s, s.reader.channel, Received(s.reader.kind))
      .(reader := Sent(s.reader.channel),
        sends := s.sends + [Delivery(s.reader.channel, s.reader.id, s.reader.kind)])
    case Close => s.(reader := Idle, closes := s.closes + [s.reader.channel])
    case Respond => s.(reader := Idle, out := s.out + [Answer(s.reader.id, HandlerSends(s.reader.request))])
    case Refuse => s.(reader := Stopped(s.reader.id, s.reader.request))
  }

  /** A caller may begin any request, announcing a community's leaves only after joining it, and may
    always take the next step of the phase it is in, give up waiting, or fail to write. */
  lemma CallersMayAct(s: Side, incoming: seq<Packet>, r: Request, c: nat)
    ensures !r.AnnounceLeaves? || HasJoined(s, r.c) ==> Enabled(s, incoming, Begin(r))
    ensures c < |s.calls| ==>
              match s.calls[c].phase
              case Started => Enabled(s, incoming, TakeNumber(c))
              case Numbered => Enabled(s, incoming, Register(c))
              case Registered => Enabled(s, incoming, Write(c)) && Enabled(s, incoming, FailWrite(c))
              case Waiting => Enabled(s, incoming, GiveUp(c))
              case GivenUp => Enabled(s, incoming, Withdraw(c))
              case _ => true
  {}

  // ---------- Invariant of one side, whatever arrives ----------

  predicate HasNumber(c: Call) {
    !c.phase.Started?
  }

  predicate HasRegistered(c: Call) {
    !c.phase.Started? && !c.phase.Numbered?
  }

  ghost predicate NumbersDistinct(s: Side) {
    && (forall c :: 0 <= c < |s.calls| && HasNumber(s.calls[c]) ==> s.calls[c].id < s.next)
    && forall c, d :: 0 <= c < d < |s.calls| && HasNumber(s.calls[c]) && HasNumber(s.calls[d])
                      ==> s.calls[c].id != s.calls[d].id
  }

  /** Channel `c` belongs to the registered call that was numbered `id`. */
  predicate Owns(s: Side, c: nat, id: nat) {
    c < |s.calls| && HasRegistered(s.calls[c]) && s.calls[c].id == id
  }

  ghost predicate PendingOwned(s: Side) {
    forall id :: id in s.pending ==> Owns(s, s.pending[id], id)
  }

  predicate WasSentTo(s: Side, c: nat) {
    exists k :: 0 <= k < |s.sends| && s.sends[k].channel == c
  }

  /** Each delivery went to the owner of its id, once, and left nothing registered. */
  ghost predicate SendsOnce(s: Side) {
    && (forall k :: 0 <= k < |s.sends| ==>
                      && Owns(s, s.sends[k].channel, s.sends[k].id)
                      && s.sends[k].id !in s.pending
                      && s.calls[s.sends[k].channel].phase == Received(s.sends[k].kind))
    && forall j, k :: 0 <= j < k < |s.sends| ==> s.sends[j].channel != s.sends[k].channel
  }

  ghost predicate ClosesOnce(s: Side) {
    && (forall k :: 0 <= k < |s.closes| ==> WasSentTo(s, s.closes[k]))
    && forall j, k :: 0 <= j < k < |s.closes| ==> s.closes[j] != s.closes[k]
  }

  /** The reader is about to send only where nothing was sent, and to close only where nothing
    was closed. */
  ghost predicate ReaderCareful(s: Side) {
    match s.reader
    case Loaded(id, _, c) => Owns(s, c, id) && !WasSentTo(s, c)
    case Removed(id, _, c) => Owns(s, c, id) && !WasSentTo(s, c) && id !in s.pending
    case Sent(c) => WasSentTo(s, c) && c !in s.closes
    case _ => true
  }

  ghost predicate SideInv(s: Side) {
    NumbersDistinct(s) && PendingOwned(s) && SendsOnce(s) && ClosesOnce(s) && ReaderCareful(s)
  }

  function Fresh(): Side {
    Side(0, [], map[], Idle, [], 0, multiset{}, {}, [], [], {}, {})
  }

  lemma BeginKeeps(s: Side, r: Request)
    requires SideInv(s)
    ensures SideInv(s.(calls := s.calls + [Call(r, 0, Started)]))
  {
    var t := s.(calls := s.calls + [Call(r, 0, Started)]);
    assert forall c, id :: Owns(s, c, id) ==> Owns(t, c, id);
    assert forall c :: WasSentTo(t, c) <==> WasSentTo(s, c);
  }

  lemma NumberKeeps(s: Side, c: nat)
    requires SideInv(s) && At(s, c, Started)
    ensures SideInv(Next(s, [], TakeNumber(c)))
  {
    var t := Next(s, [], TakeNumber(c));
    assert forall d, id :: Owns(s, d, id) ==> Owns(t, d, id);
    assert forall d :: WasSentTo(t, d) <==> WasSentTo(s, d);
  }

  lemma RegisterKeeps(s: Side, c: nat)
    requires SideInv(s) && At(s, c, Numbered)
    ensures SideInv(Next(s, [], Register(c)))
  {
    var t := Next(s, [], Register(c));
    assert forall d, id :: Owns(s, d, id) ==> Owns(t, d, id);
    assert forall d :: WasSentTo(t, d) <==> WasSentTo(s, d);
    assert forall k :: 0 <= k < |s.sends| ==> s.sends[k].id != s.calls[c].id;
    assert s.reader.Removed? ==> s.reader.id != s.calls[c].id;
  }

  /** A registered caller that moves on keeps its number and its channel. */
  lemma PhaseKeeps(s: Side, c: nat, phase: Phase, out: seq<Packet>)
    requires SideInv(s) && c < |s.calls| && HasRegistered(s.calls[c]) && !s.calls[c].phase.Received?
    requires !phase.Started? && !phase.Numbered?
    ensures SideInv(WithPhase(s, c, phase).(out := out))
  {
    var t := WithPhase(s, c, phase).(out := out);
    assert forall d, id :: Owns(s, d, id) ==> Owns(t, d, id);
    assert forall d :: WasSentTo(t, d) <==> WasSentTo(s, d);
  }

  lemma WithdrawKeeps(s: Side, id: nat)
    requires SideInv(s)
    ensures SideInv(Withdrawn(s, id))
  {
    var t := Withdrawn(s, id);
    assert forall c :: WasSentTo(t, c) <==> WasSentTo(s, c);
  }

  lemma JoinOwnKeeps(s: Side, t: Side)
    requires SideInv(s) && t == s.(session := t.session, own := t.own)
    ensures SideInv(t)
  {
    assert forall c :: WasSentTo(t, c) <==> WasSentTo(s, c);
  }

  lemma ReadKeeps(s: Side, p: Packet)
    requires SideInv(s) && s.reader.Idle?
    ensures SideInv(Took(s, p))
  {
    var t := Took(s, p);
    assert forall c :: WasSentTo(t, c) <==> WasSentTo(s, c);
  }

  lemma RemoveKeeps(s: Side)
    requires SideInv(s) && s.reader.Loaded?
    ensures SideInv(Next(s, [], Remove))
  {
    var t := Next(s, [], Remove);
    assert forall c :: WasSentTo(t, c) <==> WasSentTo(s, c);
  }

  lemma SendReaches(s: Side, d: nat)
    requires Enabled(s, [], Send)
    ensures WasSentTo(Next(s, [], Send), d) <==> WasSentTo(s, d) || d == s.reader.channel
  {
    var t := Next(s, [], Send);
    if k :| 0 <= k < |s.sends| && s.sends[k].channel == d {
      assert t.sends[k].channel == d;
    }
    assert t.sends[|s.sends|].channel == s.reader.channel;
    assert forall k :: 0 <= k < |s.sends| ==> t.sends[k] == s.sends[k];
  }

  lemma SendKeepsOwners(s: Side)
    requires SideInv(s) && Enabled(s, [], Send)
    ensures NumbersDistinct(Next(s, [], Send)) && PendingOwned(Next(s, [], Send)) && SendsOnce(Next(s, [], Send))
  {
    var t := Next(s, [], Send);
    assert forall d, id :: Owns(s, d, id) ==> Owns(t, d, id);
    assert !WasSentTo(s, s.reader.channel);
  }

  lemma SendKeeps(s: Side)
    requires SideInv(s) && Enabled(s, [], Send)
    ensures SideInv(Next(s, [], Send))
  {
    SendKeepsOwners(s);
    forall d: nat ensures WasSentTo(Next(s, [], Send), d) <==> WasSentTo(s, d) || d == s.reader.channel {
      SendReaches(s, d);
    }
  }

  lemma CloseKeeps(s: Side)
    requires SideInv(s) && s.reader.Sent?
    ensures SideInv(Next(s, [], Close))
  {
    var t := Next(s, [], Close);
    assert forall c :: WasSentTo(t, c) <==> WasSentTo(s, c);
  }

  lemma HandlerKeeps(s: Side)
    requires SideInv(s) && s.reader.Handling?
    ensures SideInv(Next(s, [], Respond)) && SideInv(Next(s, [], Refuse))
  {
    assert forall c :: WasSentTo(Next(s, [], Respond), c) <==> WasSentTo(s, c);
    assert forall c :: WasSentTo(Next(s, [], Refuse), c) <==> WasSentTo(s, c);
  }

  lemma MoveKeepsSide(s: Side, incoming: seq<Packet>, m: Move)
    requires SideInv(s) && Enabled(s, incoming, m)
    ensures SideInv(Next(s, incoming, m))
  {
    match m
    case Begin(r) => BeginKeeps(s, r);
    case TakeNumber(c) => NumberKeeps(s, c);
    case Register(c) => RegisterKeeps(s, c);
    case Write(c) => PhaseKeeps(s, c, Waiting, Next(s, incoming, m).out);
    case FailWrite(c) => PhaseKeeps(s, c, WriteFailed, s.out);
    case GiveUp(c) => PhaseKeeps(s, c, GivenUp, s.out);
    case Withdraw(c) =>
      PhaseKeeps(s, c, Cancelled, s.out);
      WithdrawKeeps(WithPhase(s, c, Cancelled), s.calls[c].id);
    case UserCancel(id) => WithdrawKeeps(s, id);
    case JoinOwn(_) => JoinOwnKeeps(s, Next(s, incoming, m));
    case Read => ReadKeeps(s, incoming[s.taken]);
    case Remove => RemoveKeeps(s);
    case Send => SendKeeps(s);
    case Close => CloseKeeps(s);
    case Respond => HandlerKeeps(s);
    case Refuse => HandlerKeeps(s);
  }

  /** A run of one side; each move may see more input than the one before. */
  ghost predicate SideRun(trace: seq<Side>) {
    && trace != [] && trace[0] == Fresh()
    && forall i :: 0 < i < |trace| ==> StepsTo(trace, i)
  }

  ghost predicate StepsTo(trace: seq<Side>, i: nat)
    requires 0 < i < |trace|
  {
    SideStep(trace[i - 1], trace[i])
  }

  ghost predicate SideStep(s: Side, t: Side) {
    exists incoming, m :: Enabled(s, incoming, m) && t == Next(s, incoming, m)
  }

  lemma {:induction false} RunKeepsSide(trace: seq<Side>, i: nat)
    requires SideRun(trace) && i < |trace|
    ensures SideInv(trace[i])
  {
    if i > 0 {
      RunKeepsSide(trace, i - 1);
      assert StepsTo(trace, i);
      var incoming, m :| Enabled(trace[i - 1], incoming, m) && trace[i] == Next(trace[i - 1], incoming, m);
      MoveKeepsSide(trace[i - 1], incoming, m);
    }
  }

  /** Correlation safety: whatever the peer sends and whenever callers give up or cancel, ids are
    never reused, every channel is sent to at most once and closed at most once, after the
    send, and what is sent is a reply carrying the id of the channel's own request. */
  lemma CorrelationSafety(trace: seq<Side>, i: nat)
    requires SideRun(trace) && i < |trace|
    ensures var s := trace[i];
            && NumbersDistinct(s)
            && (forall j, k :: 0 <= j < k < |s.sends| ==> s.sends[j].channel != s.sends[k].channel)
            && (forall k :: 0 <= k < |s.sends| ==>
                  s.sends[k].channel < |s.calls| && s.calls[s.sends[k].channel].id == s.sends[k].id)
            && (forall j, k :: 0 <= j < k < |s.closes| ==> s.closes[j] != s.closes[k])
            && (forall k :: 0 <= k < |s.closes| ==> WasSentTo(s, s.closes[k]))
            && (s.reader.Loaded? || s.reader.Removed? ==> !WasSentTo(s, s.reader.channel))
  {
    RunKeepsSide(trace, i);
    assert forall k :: 0 <= k < |trace[i].sends| ==> Owns(trace[i], trace[i].sends[k].channel, trace[i].sends[k].id);
  }
}
