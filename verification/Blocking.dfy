/** When the reader of a connection blocks for good. Channels are unbuffered, so the reader can send
  only to a caller that still waits; a caller that gives up between the reader's lookup and its
  send leaves the reader where it is.
*/
module Blocking {
  import opened Correlation
  import opened TwoPeers

  /** Callers that will never wait on their channel again. */
  predicate Gone(p: Phase) {
    p.GivenUp? || p.Cancelled? || p.WriteFailed?
  }

  predicate Blocked(s: Side) {
    s.reader.Removed? && s.reader.channel < |s.calls| && Gone(s.calls[s.reader.channel].phase)
  }

  lemma MoveKeepsBlocked(s: Side, incoming: seq<Packet>, m: Move)
    requires Blocked(s) && Enabled(s, incoming, m)
    ensures Blocked(Next(s, incoming, m)) && Next(s, incoming, m).reader == s.reader
  {}

  /** A blocked reader stays blocked in every run: it takes nothing off the stream any more. */
  lemma {:induction false} BlockedForever(trace: seq<Side>, i: nat, j: nat)
    requires SideRun(trace) && i <= j < |trace| && Blocked(trace[i])
    ensures Blocked(trace[j]) && trace[j].reader == trace[i].reader && trace[j].taken == trace[i].taken
    decreases j
  {
    if i < j {
      BlockedForever(trace, i, j - 1);
      assert StepsTo(trace, j);
      var incoming, m :| Enabled(trace[j - 1], incoming, m) && trace[j] == Next(trace[j - 1], incoming, m);
      MoveKeepsBlocked(trace[j - 1], incoming, m);
    }
  }

  // ---------- Every other reader can go on ----------

  ghost predicate ReceivedWasSent(s: Side) {
    forall c :: 0 <= c < |s.calls| && s.calls[c].phase.Received? ==> WasSentTo(s, c)
  }

  lemma MoveKeepsReceived(s: Side, incoming: seq<Packet>, m: Move)
    requires SideInv(s) && ReceivedWasSent(s) && Enabled(s, incoming, m)
    ensures ReceivedWasSent(Next(s, incoming, m))
  {
    var t := Next(s, incoming, m);
    forall c | 0 <= c < |t.calls| && t.calls[c].phase.Received? ensures WasSentTo(t, c) {
      if m.Send? && c == s.reader.channel {
        assert t.sends[|s.sends|].channel == c;
      } else {
        assert s.calls[c].phase.Received? && WasSentTo(s, c);
        var k :| 0 <= k < |s.sends| && s.sends[k].channel == c;
        assert t.sends[k].channel == c;
      }
    }
  }

  lemma {:induction false} RunKeepsReceived(trace: seq<Side>, i: nat)
    requires SideRun(trace) && i < |trace|
    ensures SideInv(trace[i]) && ReceivedWasSent(trace[i])
  {
    RunKeepsSide(trace, i);
    if i > 0 {
      RunKeepsReceived(trace, i - 1);
      assert StepsTo(trace, i);
      var incoming, m :| Enabled(trace[i - 1], incoming, m) && trace[i] == Next(trace[i - 1], incoming, m);
      MoveKeepsReceived(trace[i - 1], incoming, m);
    }
  }

  /** The moves that complete a send: the caller writes its request, if it has not yet, and then
    receives. */
  ghost predicate CanSend(s: Side) {
    || Enabled(s, [], Send)
    || (exists c :: Enabled(s, [], Write(c)) && Enabled(Next(s, [], Write(c)), [], Send))
  }

  /** A reader that holds a reply is stuck for good exactly when its caller is gone. */
  lemma StuckExactly(trace: seq<Side>, i: nat)
    requires SideRun(trace) && i < |trace| && trace[i].reader.Removed?
    ensures Blocked(trace[i]) <==> !CanSend(trace[i])
  {
    RunKeepsReceived(trace, i);
    var s := trace[i];
    var c := s.reader.channel;
    assert Owns(s, c, s.reader.id) && !WasSentTo(s, c);
    if s.calls[c].phase.Registered? {
      assert Enabled(s, [], Write(c)) && Enabled(Next(s, [], Write(c)), [], Send);
    }
  }

  // ---------- It happens ----------

  /** Two workers can come to this: a request is written, read and answered, its answer read, and
    then the caller gives up before the reader sends. */
  lemma ReaderMayBlock() returns (trace: seq<Pair>)
    ensures PairRun(trace) && Blocked(trace[|trace| - 1].a)
  {
    trace := [Pair(Fresh(), Fresh())];
    trace := ByA(trace, Begin(Version));
    trace := ByA(trace, TakeNumber(0));
    trace := ByA(trace, Register(0));
    trace := ByA(trace, Write(0));
    trace := ByB(trace, Read);
    trace := ByB(trace, Respond);
    trace := ByA(trace, Read);
    trace := ByA(trace, Remove);
    trace := ByA(trace, GiveUp(0));
  }

  lemma ByA(trace: seq<Pair>, m: Move) returns (all: seq<Pair>)
    requires PairRun(trace) && Enabled(trace[|trace| - 1].a, trace[|trace| - 1].b.out, m)
    ensures PairRun(all)
    ensures all[|all| - 1] == Pair(Next(trace[|trace| - 1].a, trace[|trace| - 1].b.out, m), trace[|trace| - 1].b)
  {
    var x := trace[|trace| - 1];
    all := trace + [Pair(Next(x.a, x.b.out, m), x.b)];
    forall i | 0 < i < |all| ensures PairStepsTo(all, i) {
      assert i < |trace| ==> PairStepsTo(trace, i);
    }
  }

  lemma ByB(trace: seq<Pair>, m: Move) returns (all: seq<Pair>)
    requires PairRun(trace) && Enabled(trace[|trace| - 1].b, trace[|trace| - 1].a.out, m)
    ensures PairRun(all)
    ensures all[|all| - 1] == Pair(trace[|trace| - 1].a, Next(trace[|trace| - 1].b, trace[|trace| - 1].a.out, m))
  {
    var x := trace[|trace| - 1];
    all := trace + [Pair(x.a, Next(x.b, x.a.out, m))];
    forall i | 0 < i < |all| ensures PairStepsTo(all, i) {
      assert i < |trace| ==> PairStepsTo(trace, i);
    }
  }

  // ---------- Registrations withdrawn ----------

  /** A caller that gave up and cancelled has no registration any more. */
  ghost predicate CancelledAreGone(s: Side) {
    forall c :: 0 <= c < |s.calls| && s.calls[c].phase.Cancelled? ==> s.calls[c].id !in s.pending
  }

  lemma MoveKeepsCancelled(s: Side, incoming: seq<Packet>, m: Move)
    requires SideInv(s) && CancelledAreGone(s) && Enabled(s, incoming, m)
    ensures CancelledAreGone(Next(s, incoming, m))
  {}

  lemma {:induction false} RunKeepsCancelled(trace: seq<Side>, i: nat)
    requires SideRun(trace) && i < |trace|
    ensures CancelledAreGone(trace[i])
  {
    if i > 0 {
      RunKeepsSide(trace, i - 1);
      RunKeepsCancelled(trace, i - 1);
      assert StepsTo(trace, i);
      var incoming, m :| Enabled(trace[i - 1], incoming, m) && trace[i] == Next(trace[i - 1], incoming, m);
      MoveKeepsCancelled(trace[i - 1], incoming, m);
    }
  }

  /** A reply that is read after its caller has cancelled is unsolicited, and the reader goes on. */
  lemma LateReplyIgnored(trace: seq<Side>, i: nat, c: nat, incoming: seq<Packet>)
    requires SideRun(trace) && i < |trace| && At(trace[i], c, Cancelled)
    requires var s := trace[i];
             && s.reader.Idle? && s.taken < |incoming|
             && incoming[s.taken].Answer? && incoming[s.taken].id == s.calls[c].id
    ensures var s := trace[i];
            && Enabled(s, incoming, Read)
            && Next(s, incoming, Read).reader == Idle
            && Next(s, incoming, Read).taken == s.taken + 1
            && s.calls[c].id in Next(s, incoming, Read).unsolicited
  {
    RunKeepsCancelled(trace, i);
  }

  /** Two workers can come to this: a request is written and answered, its caller gives up and
    cancels, and only then the answer is read. */
  lemma ReplyMayBeLate() returns (trace: seq<Pair>)
    ensures PairRun(trace)
    ensures var s := trace[|trace| - 1].a; s.unsolicited == {0} && s.reader == Idle && s.pending == map[]
  {
    trace := [Pair(Fresh(), Fresh())];
    trace := ByA(trace, Begin(Version));
    trace := ByA(trace, TakeNumber(0));
    trace := ByA(trace, Register(0));
    trace := ByA(trace, Write(0));
    trace := ByB(trace, Read);
    trace := ByB(trace, Respond);
    trace := ByA(trace, GiveUp(0));
    trace := ByA(trace, Withdraw(0));
    trace := ByA(trace, Read);
  }

  // ---------- Registrations left behind ----------

  /** The reader has removed the registration of this call and not yet sent to it. */
  predicate InHand(s: Side, c: nat) {
    s.reader.Removed? && s.reader.channel == c && c < |s.calls| && s.reader.id == s.calls[c].id
  }

  /** The registration of a call that has received nothing is there, was cancelled, or is in the
    reader's hand. */
  predicate Kept(s: Side, c: nat)
    requires c < |s.calls|
  {
    HasRegistered(s.calls[c]) && !s.calls[c].phase.Received? ==>
      s.calls[c].id in s.pending || s.calls[c].id in s.withdrawn || InHand(s, c)
  }

  lemma MoveKeepsKept(s: Side, incoming: seq<Packet>, m: Move, c: nat)
    requires SideInv(s) && Enabled(s, incoming, m) && c < |Next(s, incoming, m).calls|
    requires c < |s.calls| ==> Kept(s, c)
    ensures Kept(Next(s, incoming, m), c)
  {
    if m.Remove? && c < |s.calls| && s.calls[c].id == s.reader.id {
      assert Owns(s, s.reader.channel, s.reader.id);
    }
  }

  lemma {:induction false} RunKeepsKept(trace: seq<Side>, i: nat, c: nat)
    requires SideRun(trace) && i < |trace| && c < |trace[i].calls|
    ensures Kept(trace[i], c)
  {
    if i > 0 {
      RunKeepsSide(trace, i - 1);
      assert StepsTo(trace, i);
      var incoming, m :| Enabled(trace[i - 1], incoming, m) && trace[i] == Next(trace[i - 1], incoming, m);
      if c < |trace[i - 1].calls| {
        RunKeepsKept(trace, i - 1, c);
      }
      MoveKeepsKept(trace[i - 1], incoming, m, c);
    }
  }

  /** A failed write leaves its registration behind: at any time afterwards, in every run, it is
    still there, or its id was cancelled, or a reply with its id has come and blocks the reader
    for good. */
  lemma LeakStays(trace: seq<Side>, i: nat, c: nat)
    requires SideRun(trace) && i < |trace| && At(trace[i], c, WriteFailed)
    ensures var s := trace[i];
            || s.calls[c].id in s.pending
            || s.calls[c].id in s.withdrawn
            || (Blocked(s) && s.reader.id == s.calls[c].id)
  {
    RunKeepsKept(trace, i, c);
  }
}
