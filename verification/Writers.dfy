/** Concurrent senders on one connection: numbers are drawn and messages written under one lock,
  but a sender lets go of it in between, and a message leaves in pieces.
*/
module Writers {
  import opened Wrappers
  import opened Wire

  /** A request is completed by the number it draws; a reply carries the number of the message
    that it answers. */
  datatype Job = Request(make: int -> Message) | ReplyTo(m: Message)

  datatype Writer = Fresh | Numbered(id: int) | Writing(id: int, written: nat) | Done(id: int)

  datatype State = State(next: int, holder: Option<nat>, writers: seq<Writer>, stream: string, order: seq<nat>)

  function MessageOf(job: Job, id: int): Message {
    match job
    case Request(make) => make(id)
    case ReplyTo(m) => m
  }

  function TextOf(sc: Schema, jobs: seq<Job>, t: nat, id: int): string
    requires t < |jobs|
  {
    PrintMessage(sc, MessageOf(jobs[t], id))
  }

  datatype Move = TakeNumber(t: nat) | Acquire(t: nat) | Emit(t: nat, upTo: nat) | Release(t: nat)

  predicate Enabled(sc: Schema, jobs: seq<Job>, st: State, m: Move) {
    && |st.writers| == |jobs| && m.t < |jobs|
    && match m
       case TakeNumber(t) => st.writers[t].Fresh? && (jobs[t].Request? ==> st.holder.None?)
       case Acquire(t) => st.writers[t].Numbered? && st.holder.None?
       case Emit(t, upTo) =>
         st.writers[t].Writing? && st.writers[t].written <= upTo <= |TextOf(sc, jobs, t, st.writers[t].id)|
       case Release(t) =>
         st.writers[t].Writing? && st.writers[t].written == |TextOf(sc, jobs, t, st.writers[t].id)|
  }

  function Next(sc: Schema, jobs: seq<Job>, st: State, m: Move): State
    requires Enabled(sc, jobs, st, m)
  {
    match m
    case TakeNumber(t) =>
      if jobs[t].Request? then st.(next := st.next + 1, writers := st.writers[t := Numbered(st.next)])
      else st.(writers := st.writers[t := Numbered(jobs[t].m.id)])
    case Acquire(t) => st.(holder := Some(t), writers := st.writers[t := Writing(st.writers[t].id, 0)])
    case Emit(t, upTo) =>
      st.(writers := st.writers[t := Writing(st.writers[t].id, upTo)],
          stream := st.stream + TextOf(sc, jobs, t, st.writers[t].id)[st.writers[t].written..upTo])
    case Release(t) =>
      st.(holder := None, writers := st.writers[t := Done(st.writers[t].id)], order := st.order + [t])
  }

  /** The messages whose writers have finished, in the order in which they did. */
  function Finished(jobs: seq<Job>, writers: seq<Writer>, order: seq<nat>): seq<Message>
    requires |writers| == |jobs| && forall t :: t in order ==> t < |writers| && writers[t].Done?
  {
    if order == [] then [] else
    var t := order[|order| - 1];
    assert t in order;
    var before := order[..|order| - 1];
    assert forall u :: u in before ==> u in order;
    Finished(jobs, writers, before) + [MessageOf(jobs[t], writers[t].id)]
  }

  /** What the holder of the lock has written of its message so far. */
  function Partial(sc: Schema, jobs: seq<Job>, st: State): string
    requires |st.writers| == |jobs|
    requires st.holder.Some? ==>
               && st.holder.value < |jobs| && st.writers[st.holder.value].Writing?
               && st.writers[st.holder.value].written
                  <= |TextOf(sc, jobs, st.holder.value, st.writers[st.holder.value].id)|
  {
    if st.holder.None? then [] else
    var w := st.writers[st.holder.value];
    TextOf(sc, jobs, st.holder.value, w.id)[..w.written]
  }

  /** Only the holder of the lock is writing, and it is within its message. */
  ghost predicate LockHeld(sc: Schema, jobs: seq<Job>, st: State) {
    && |st.writers| == |jobs|
    && (forall t :: 0 <= t < |jobs| && st.writers[t].Writing? ==> st.holder == Some(t))
    && (st.holder.Some? ==>
          && st.holder.value < |jobs| && st.writers[st.holder.value].Writing?
          && st.writers[st.holder.value].written
                  <= |TextOf(sc, jobs, st.holder.value, st.writers[st.holder.value].id)|)
  }

  ghost predicate OrderExact(jobs: seq<Job>, st: State) {
    && |st.writers| == |jobs|
    && (forall t :: t in st.order <==> 0 <= t < |jobs| && st.writers[t].Done?)
    && forall i, j :: 0 <= i < j < |st.order| ==> st.order[i] != st.order[j]
  }

  ghost predicate NumbersDistinct(jobs: seq<Job>, st: State) {
    && |st.writers| == |jobs|
    && (forall t :: 0 <= t < |jobs| && jobs[t].Request? && !st.writers[t].Fresh? ==> st.writers[t].id < st.next)
    && forall t, u ::
         0 <= t < u < |jobs| && jobs[t].Request? && jobs[u].Request? && !st.writers[t].Fresh? && !st.writers[u].Fresh?
         ==> st.writers[t].id != st.writers[u].id
  }

  /** The stream is a concatenation of complete messages and at most one begun one. */
  ghost predicate WholeMessages(sc: Schema, jobs: seq<Job>, st: State)
    requires LockHeld(sc, jobs, st) && OrderExact(jobs, st)
  {
    st.stream == PrintAll(sc, Finished(jobs, st.writers, st.order)) + Partial(sc, jobs, st)
  }

  ghost predicate Inv(sc: Schema, jobs: seq<Job>, st: State) {
    && LockHeld(sc, jobs, st) && OrderExact(jobs, st) && NumbersDistinct(jobs, st)
    && WholeMessages(sc, jobs, st)
  }

  lemma {:induction false} PrintAllThen(sc: Schema, ms: seq<Message>, m: Message)
    ensures PrintAll(sc, ms + [m]) == PrintAll(sc, ms) + PrintMessage(sc, m)
    decreases |ms|
  {
    if ms == [] {
      assert [m][1..] == [] && ms + [m] == [m];
    } else {
      assert (ms + [m])[1..] == ms[1..] + [m];
      PrintAllThen(sc, ms[1..], m);
    }
  }

  lemma MoveKeepsLock(sc: Schema, jobs: seq<Job>, st: State, m: Move)
    requires LockHeld(sc, jobs, st) && Enabled(sc, jobs, st, m)
    ensures LockHeld(sc, jobs, Next(sc, jobs, st, m))
  {}

  lemma MoveKeepsOrder(sc: Schema, jobs: seq<Job>, st: State, m: Move)
    requires OrderExact(jobs, st) && Enabled(sc, jobs, st, m)
    ensures OrderExact(jobs, Next(sc, jobs, st, m))
  {
    var st' := Next(sc, jobs, st, m);
    if m.Release? {
      assert forall t :: t in st'.order <==> t in st.order || t == m.t;
      assert m.t !in st.order;
    }
  }

  lemma MoveKeepsNumbers(sc: Schema, jobs: seq<Job>, st: State, m: Move)
    requires NumbersDistinct(jobs, st) && Enabled(sc, jobs, st, m)
    ensures NumbersDistinct(jobs, Next(sc, jobs, st, m))
  {}

  lemma MoveKeepsBookkeeping(sc: Schema, jobs: seq<Job>, st: State, m: Move)
    requires Inv(sc, jobs, st) && Enabled(sc, jobs, st, m)
    ensures var t := Next(sc, jobs, st, m);
            LockHeld(sc, jobs, t) && OrderExact(jobs, t) && NumbersDistinct(jobs, t)
  {
    MoveKeepsLock(sc, jobs, st, m);
    MoveKeepsOrder(sc, jobs, st, m);
    MoveKeepsNumbers(sc, jobs, st, m);
  }

  lemma {:induction false} FinishedStays(jobs: seq<Job>, ws: seq<Writer>, ws': seq<Writer>, order: seq<nat>)
    requires |ws| == |ws'| == |jobs|
    requires forall t :: t in order ==> t < |ws| && ws[t].Done? && ws'[t] == ws[t]
    ensures Finished(jobs, ws', order) == Finished(jobs, ws, order)
    decreases |order|
  {
    if order != [] {
      var before := order[..|order| - 1];
      assert order[|order| - 1] in order;
      assert forall u :: u in before ==> u in order;
      FinishedStays(jobs, ws, ws', before);
    }
  }

  lemma FinishedThen(jobs: seq<Job>, ws: seq<Writer>, order: seq<nat>, t: nat)
    requires |ws| == |jobs| && t < |ws| && ws[t].Done?
    requires forall u :: u in order ==> u < |ws| && ws[u].Done?
    ensures forall u :: u in order + [t] ==> u < |ws| && ws[u].Done?
    ensures Finished(jobs, ws, order + [t]) == Finished(jobs, ws, order) + [MessageOf(jobs[t], ws[t].id)]
  {
    assert (order + [t])[..|order|] == order;
  }

  lemma ReleaseKeeps(sc: Schema, jobs: seq<Job>, st: State, t: nat)
    requires Inv(sc, jobs, st) && Enabled(sc, jobs, st, Release(t))
    ensures Inv(sc, jobs, Next(sc, jobs, st, Release(t)))
  {
    var st', id := Next(sc, jobs, st, Release(t)), st.writers[t].id;
    MoveKeepsBookkeeping(sc, jobs, st, Release(t));
    FinishedStays(jobs, st.writers, st'.writers, st.order);
    var before, last := Finished(jobs, st.writers, st.order), MessageOf(jobs[t], id);
    FinishedThen(jobs, st'.writers, st.order, t);
    assert Finished(jobs, st'.writers, st'.order) == before + [last];
    PrintAllThen(sc, before, last);
    assert Partial(sc, jobs, st) == PrintMessage(sc, last) && Partial(sc, jobs, st') == [];
  }

  lemma AppendPiece(done: string, text: string, a: nat, b: nat)
    requires a <= b <= |text|
    ensures (done + text[..a]) + text[a..b] == done + text[..b]
  {
    assert text[..a] + text[a..b] == text[..b];
  }

  lemma EmitKeeps(sc: Schema, jobs: seq<Job>, st: State, t: nat, upTo: nat)
    requires Inv(sc, jobs, st) && Enabled(sc, jobs, st, Emit(t, upTo))
    ensures Inv(sc, jobs, Next(sc, jobs, st, Emit(t, upTo)))
  {
    var st', w := Next(sc, jobs, st, Emit(t, upTo)), st.writers[t];
    var text, done := TextOf(sc, jobs, t, w.id), PrintAll(sc, Finished(jobs, st.writers, st.order));
    MoveKeepsBookkeeping(sc, jobs, st, Emit(t, upTo));
    FinishedStays(jobs, st.writers, st'.writers, st.order);
    assert Partial(sc, jobs, st) == text[..w.written] && Partial(sc, jobs, st') == text[..upTo];
    AppendPiece(done, text, w.written, upTo);
  }

  lemma TakeNumberKeeps(sc: Schema, jobs: seq<Job>, st: State, t: nat)
    requires Inv(sc, jobs, st) && Enabled(sc, jobs, st, TakeNumber(t))
    ensures Inv(sc, jobs, Next(sc, jobs, st, TakeNumber(t)))
  {
    var st' := Next(sc, jobs, st, TakeNumber(t));
    MoveKeepsBookkeeping(sc, jobs, st, TakeNumber(t));
    FinishedStays(jobs, st.writers, st'.writers, st.order);
    assert Partial(sc, jobs, st') == Partial(sc, jobs, st);
  }

  lemma AcquireKeeps(sc: Schema, jobs: seq<Job>, st: State, t: nat)
    requires Inv(sc, jobs, st) && Enabled(sc, jobs, st, Acquire(t))
    ensures Inv(sc, jobs, Next(sc, jobs, st, Acquire(t)))
  {
    var st' := Next(sc, jobs, st, Acquire(t));
    MoveKeepsBookkeeping(sc, jobs, st, Acquire(t));
    FinishedStays(jobs, st.writers, st'.writers, st.order);
    assert Partial(sc, jobs, st') == [] == Partial(sc, jobs, st);
  }

  lemma MoveKeepsInv(sc: Schema, jobs: seq<Job>, st: State, m: Move)
    requires Inv(sc, jobs, st) && Enabled(sc, jobs, st, m)
    ensures Inv(sc, jobs, Next(sc, jobs, st, m))
  {
    match m
    case Release(t) => ReleaseKeeps(sc, jobs, st, t);
    case Emit(t, upTo) => EmitKeeps(sc, jobs, st, t, upTo);
    case TakeNumber(t) => TakeNumberKeeps(sc, jobs, st, t);
    case Acquire(t) => AcquireKeeps(sc, jobs, st, t);
  }

  ghost predicate Step(sc: Schema, jobs: seq<Job>, st: State, st': State) {
    exists m :: Enabled(sc, jobs, st, m) && st' == Next(sc, jobs, st, m)
  }

  function Initial(jobs: seq<Job>): State {
    State(0, None, seq(|jobs|, i => Fresh), [], [])
  }

  ghost predicate IsRun(sc: Schema, jobs: seq<Job>, trace: seq<State>) {
    && trace != [] && trace[0] == Initial(jobs)
    && forall i :: 0 < i < |trace| ==> StepsTo(sc, jobs, trace, i)
  }

  ghost predicate StepsTo(sc: Schema, jobs: seq<Job>, trace: seq<State>, i: nat)
    requires 0 < i < |trace|
  {
    Step(sc, jobs, trace[i - 1], trace[i])
  }

  predicate AllDone(st: State) {
    forall t :: 0 <= t < |st.writers| ==> st.writers[t].Done?
  }

  lemma InitialInv(sc: Schema, jobs: seq<Job>)
    ensures Inv(sc, jobs, Initial(jobs))
  {
    assert Finished(jobs, Initial(jobs).writers, []) == [];
  }

  lemma StepKeepsInv(sc: Schema, jobs: seq<Job>, st: State, st': State)
    requires Inv(sc, jobs, st) && Step(sc, jobs, st, st')
    ensures Inv(sc, jobs, st')
  {
    var m :| Enabled(sc, jobs, st, m) && st' == Next(sc, jobs, st, m);
    MoveKeepsInv(sc, jobs, st, m);
  }

  lemma {:induction false} RunKeepsInv(sc: Schema, jobs: seq<Job>, trace: seq<State>, i: nat)
    requires IsRun(sc, jobs, trace) && i < |trace|
    ensures Inv(sc, jobs, trace[i])
  {
    if i == 0 {
      InitialInv(sc, jobs);
    } else {
      RunKeepsInv(sc, jobs, trace, i - 1);
      assert StepsTo(sc, jobs, trace, i);
      StepKeepsInv(sc, jobs, trace[i - 1], trace[i]);
    }
  }

  ghost predicate ReadsBack(sc: Schema, ms: seq<Message>, stream: string) {
    (forall m :: m in ms ==> InRange(m)) ==> ReadMany(sc, |ms|, stream) == Lines(ms, [])
  }

  lemma PrintedReadsBack(sc: Schema, ms: seq<Message>)
    requires Lawful(sc)
    ensures ReadsBack(sc, ms, PrintAll(sc, ms) + [])
  {
    if forall m :: m in ms ==> InRange(m) {
      StreamRoundTrip(sc, ms, []);
    }
  }

  /** Whole-message writes: in every interleaving the numbers drawn are distinct, and once every
    sender is done the stream reads back as all their messages, each exactly once, in the
    order of their writes. */
  lemma {:induction false} WholeMessageWrites(sc: Schema, jobs: seq<Job>, trace: seq<State>)
    requires IsRun(sc, jobs, trace) && Lawful(sc) && AllDone(trace[|trace| - 1])
    ensures var st := trace[|trace| - 1];
            && NumbersDistinct(jobs, st)
            && OrderExact(jobs, st)
            && (forall t :: t in st.order <==> 0 <= t < |jobs|)
            && ReadsBack(sc, Finished(jobs, st.writers, st.order), st.stream)
  {
    RunKeepsInv(sc, jobs, trace, |trace| - 1);
    DoneReadsBack(sc, jobs, trace[|trace| - 1]);
  }

  lemma DoneReadsBack(sc: Schema, jobs: seq<Job>, st: State)
    requires Inv(sc, jobs, st) && Lawful(sc) && AllDone(st)
    ensures forall t :: t in st.order <==> 0 <= t < |jobs|
    ensures ReadsBack(sc, Finished(jobs, st.writers, st.order), st.stream)
  {
    assert st.holder.None?;
    PrintedReadsBack(sc, Finished(jobs, st.writers, st.order));
  }

  lemma {:induction false} FinishedAt(jobs: seq<Job>, writers: seq<Writer>, order: seq<nat>, i: nat)
    requires |writers| == |jobs| && forall t :: t in order ==> t < |writers| && writers[t].Done?
    requires i < |order|
    ensures |Finished(jobs, writers, order)| == |order| && order[i] < |jobs|
    ensures Finished(jobs, writers, order)[i] == MessageOf(jobs[order[i]], writers[order[i]].id)
    decreases |order|
  {
    var before := order[..|order| - 1];
    assert forall u :: u in before ==> u in order;
    if i < |before| {
      FinishedAt(jobs, writers, before, i);
    } else if before != [] {
      FinishedAt(jobs, writers, before, 0);
    }
  }

  /** Every request puts the number it was given into its message. */
  ghost predicate NumbersItself(jobs: seq<Job>) {
    forall t, i :: 0 <= t < |jobs| && jobs[t].Request? ==> jobs[t].make(i).id == i
  }

  /** The message is the sender's own: its reply, or its request with the number drawn for it. */
  predicate IsOwn(job: Job, m: Message) {
    if job.Request? then m == job.make(m.id) else m == job.m
  }

  lemma OwnAt(jobs: seq<Job>, st: State, i: nat)
    requires OrderExact(jobs, st) && NumbersItself(jobs) && i < |st.order|
    ensures st.order[i] < |jobs| && |Finished(jobs, st.writers, st.order)| == |st.order|
    ensures var m := Finished(jobs, st.writers, st.order)[i];
            IsOwn(jobs[st.order[i]], m) && (jobs[st.order[i]].Request? ==> m.id == st.writers[st.order[i]].id)
  {
    FinishedAt(jobs, st.writers, st.order, i);
  }

  /** In every interleaving what each sender has written is its own message, and no two requests on
    the wire carry the same id. */
  lemma DistinctOnTheWire(sc: Schema, jobs: seq<Job>, trace: seq<State>, i: nat, j: nat)
    requires IsRun(sc, jobs, trace) && NumbersItself(jobs)
    requires i < j < |trace[|trace| - 1].order|
    ensures var st := trace[|trace| - 1];
            && OrderExact(jobs, st)
            && |Finished(jobs, st.writers, st.order)| == |st.order|
            && st.order[i] < |jobs| && st.order[j] < |jobs|
            && IsOwn(jobs[st.order[i]], Finished(jobs, st.writers, st.order)[i])
            && IsOwn(jobs[st.order[j]], Finished(jobs, st.writers, st.order)[j])
            && (jobs[st.order[i]].Request? && jobs[st.order[j]].Request? ==>
                  Finished(jobs, st.writers, st.order)[i].id != Finished(jobs, st.writers, st.order)[j].id)
  {
    var st := trace[|trace| - 1];
    RunKeepsInv(sc, jobs, trace, |trace| - 1);
    OwnAt(jobs, st, i);
    OwnAt(jobs, st, j);
    assert st.order[i] in st.order && st.order[j] in st.order && st.order[i] != st.order[j];
  }

  predicate Drawn(jobs: seq<Job>, st: State, number: nat) {
    exists t :: 0 <= t < |jobs| && t < |st.writers| && jobs[t].Request?
                && !st.writers[t].Fresh? && st.writers[t].id == number
  }

  ghost predicate NoGaps(jobs: seq<Job>, st: State) {
    st.next >= 0 && forall number: nat :: number < st.next ==> Drawn(jobs, st, number)
  }

  lemma MoveKeepsGaps(sc: Schema, jobs: seq<Job>, st: State, m: Move)
    requires NoGaps(jobs, st) && Enabled(sc, jobs, st, m)
    ensures NoGaps(jobs, Next(sc, jobs, st, m))
  {
    var st' := Next(sc, jobs, st, m);
    forall number: nat | number < st'.next ensures Drawn(jobs, st', number) {
      if number < st.next {
        assert Drawn(jobs, st, number);
        var t :| 0 <= t < |jobs| && t < |st.writers| && jobs[t].Request?
                 && !st.writers[t].Fresh? && st.writers[t].id == number;
        assert st'.writers[t].id == number;
      } else {
        assert st'.writers[m.t].id == number;
      }
    }
  }

  /** The numbers drawn are 0, 1, 2 and so on without a gap. */
  lemma {:induction false} NumbersWithoutGaps(sc: Schema, jobs: seq<Job>, trace: seq<State>, i: nat)
    requires IsRun(sc, jobs, trace) && i < |trace|
    ensures NoGaps(jobs, trace[i])
  {
    if i > 0 {
      NumbersWithoutGaps(sc, jobs, trace, i - 1);
      assert StepsTo(sc, jobs, trace, i);
      var m :| Enabled(sc, jobs, trace[i - 1], m) && trace[i] == Next(sc, jobs, trace[i - 1], m);
      MoveKeepsGaps(sc, jobs, trace[i - 1], m);
    }
  }
}
