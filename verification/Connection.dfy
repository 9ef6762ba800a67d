/** A connection as one goroutine sees it: requests are numbered, registered and written; the
  reader loop takes messages off the stream and hands them to handlers or waiting callers.
*/
module Connections {
  import opened Wrappers
  import opened Forest
  import opened Format
  import opened Wire

  datatype Event =
    | Dispatched(m: Message)
    | Refused(m: Message)  // its handler returned an error
    | NoHandler(verb: Verb)
    | Delivered(id: int)
    | Unsolicited(id: int)
    | Skipped        // an unknown verb
    | Broken         // a message that does not parse, or the end of the stream
    | Panicked

  datatype Fetched<T> = Got(items: seq<T>) | Failed | Overrun

  /** The verbs with a handler, and the messages on which it returns an error. */
  datatype Hooks = Hooks(verbs: set<Verb>, fails: Message -> bool)

  predicate IsReply(m: Message) {
    m.Response? || m.Status?
  }

  /** What reading a well-formed message leads to. */
  function EventOf(m: Message, hooks: Hooks, pending: set<int>): Event {
    if IsReply(m) then (if m.id in pending then Delivered(m.id) else Unsolicited(m.id))
    else if VerbOf(m) !in hooks.verbs then NoHandler(VerbOf(m))
    else if hooks.fails(m) then Refused(m)
    else Dispatched(m)
  }

  /** The errors after which the reader loop goes on. */
  predicate Continues(e: Event) {
    e.Dispatched? || e.Delivered? || e.Unsolicited? || e.Skipped?
  }

  function Requests(ms: seq<Message>): seq<Message> {
    if ms == [] then [] else
    Requests(ms[..|ms| - 1]) + if IsReply(ms[|ms| - 1]) then [] else [ms[|ms| - 1]]
  }

  function ReplyIds(ms: seq<Message>): set<int> {
    set m | m in ms && IsReply(m) :: m.id
  }

  /** The replies somebody waits for: of several replies to one request, only the first. */
  function Awaited(ms: seq<Message>, pending: set<int>): seq<Message> {
    if ms == [] then [] else
    var before, m := ms[..|ms| - 1], ms[|ms| - 1];
    Awaited(before, pending) + if IsReply(m) && m.id in pending && m.id !in ReplyIds(before) then [m] else []
  }

  /** The reader's side of a connection: unread input, ids with a waiting channel, what handlers
    were called with, and what was sent to waiting channels. */
  datatype Inbox = Inbox(input: string, pending: set<int>, dispatched: seq<Message>, delivered: seq<Message>)

  function EventAt(sc: Schema, hooks: Hooks, b: Inbox): Event {
    match Wire.ReadMessage(sc, b.input)
    case Parsed(m, _) => EventOf(m, hooks, b.pending)
    case UnknownVerb(_) => Skipped
    case Malformed => Broken
    case Crash => Panicked
  }

  function Acted(m: Message, e: Event, rest: string, b: Inbox): Inbox {
    Inbox(rest, if IsReply(m) then b.pending - {m.id} else b.pending,
          if e.Dispatched? || e.Refused? then b.dispatched + [m] else b.dispatched,
          if e.Delivered? then b.delivered + [m] else b.delivered)
  }

  /** The inbox after a read; what a broken message leaves of the input is not modelled. */
  function Taken(sc: Schema, hooks: Hooks, b: Inbox): Inbox {
    match Wire.ReadMessage(sc, b.input)
    case Parsed(m, rest) => Acted(m, EventOf(m, hooks, b.pending), rest, b)
    case UnknownVerb(rest) => b.(input := rest)
    case _ => b
  }

  class Conn {
    const schema: Schema
    const hooks: Hooks
    var input: string             // arrived and not yet read
    var output: string            // written so far
    var nextMessageId: int
    var pending: set<int>         // ids with a waiting channel
    var dispatched: seq<Message>  // what the handlers were called with
    var delivered: seq<Message>   // what was sent to waiting channels

    constructor (schema: Schema, hooks: Hooks, input: string)
      ensures this.schema == schema && this.hooks == hooks && this.input == input
      ensures output == [] && nextMessageId == 0 && pending == {} && dispatched == [] && delivered == []
    {
      this.schema, this.hooks, this.input := schema, hooks, input;
      output, nextMessageId, pending, dispatched, delivered := [], 0, {}, [], [];
    }

    method GetNextMessageId() returns (id: int)
      modifies `nextMessageId
      ensures id == old(nextMessageId) && nextMessageId == id + 1
    {
      id := nextMessageId;
      nextMessageId := nextMessageId + 1;
    }

    function Box(): Inbox
      reads this
    {
      Inbox(input, pending, dispatched, delivered)
    }

    /** Numbers a request, registers its channel and only then writes it. A failed write leaves
      the registration behind. */
    method WriteMessageAsync(request: int -> Message, written: bool) returns (id: int)
      modifies `nextMessageId, `pending, `output
      ensures id == old(nextMessageId) && nextMessageId == id + 1
      ensures pending == old(pending) + {id}
      ensures output == if written then old(output) + PrintMessage(schema, request(id)) else old(output)
    {
      id := GetNextMessageId();
      pending := pending + {id};
      if written {
        output := output + PrintMessage(schema, request(id));
      }
    }

    method Cancel(id: int)
      modifies `pending
      ensures pending == old(pending) - {id}
    {
      pending := pending - {id};
    }

    method SendToWaitingChannel(m: Message) returns (e: Event)
      requires IsReply(m)
      modifies `pending, `delivered
      ensures e == EventOf(m, hooks, old(pending))
      ensures pending == old(pending) - {m.id}
      ensures delivered == if e.Delivered? then old(delivered) + [m] else old(delivered)
    {
      if m.id !in pending {
        return Unsolicited(m.id);
      }
      pending := pending - {m.id};
      delivered := delivered + [m];
      return Delivered(m.id);
    }

    method Dispatch(m: Message) returns (e: Event)
      requires !IsReply(m)
      modifies `dispatched
      ensures e == EventOf(m, hooks, pending)
      ensures dispatched == if e.Dispatched? || e.Refused? then old(dispatched) + [m] else old(dispatched)
    {
      if VerbOf(m) !in hooks.verbs {
        return NoHandler(VerbOf(m));
      }
      dispatched := dispatched + [m];
      return if hooks.fails(m) then Refused(m) else Dispatched(m);
    }

    method ReadNodeIds(count: int) returns (r: Fetched<Id>)
      modifies `input
      ensures r.Overrun? <==> count < 0
      ensures count >= 0 ==> var all := ReadIds(schema, count, old(input));
                             if all.Lines? then r == Got(all.items) && input == all.rest else r == Failed
    {
      if count < 0 {
        return Overrun;
      }
      var ids := [];
      for i := 0 to count
        invariant ReadIds(schema, i, old(input)) == Lines(ids, input)
      {
        BadIdsStayBad(schema, i + 1, count, old(input));
        var line := ReadId(schema, input);
        if line.BadLine? {
          return Failed;
        }
        ids, input := ids + line.items, line.rest;
      }
      return Got(ids);
    }

    method ReadNodeLines(count: int) returns (r: Fetched<Node>)
      modifies `input
      ensures r.Overrun? <==> count < 0
      ensures count >= 0 ==> var all := ReadNodes(schema, count, old(input));
                             if all.Lines? then r == Got(all.items) && input == all.rest else r == Failed
    {
      if count < 0 {
        return Overrun;
      }
      var nodes := [];
      for i := 0 to count
        invariant ReadNodes(schema, i, old(input)) == Lines(nodes, input)
      {
        BadNodesStayBad(schema, i + 1, count, old(input));
        var line := ReadNode(schema, input);
        if line.BadLine? {
          return Failed;
        }
        nodes, input := nodes + line.items, line.rest;
      }
      return Got(nodes);
    }

    /** Completes the message whose header has been scanned. */
    method ReadBody(v: Verb, args: seq<Arg>) returns (r: Fetched<Message>)
      requires Typed(Formats(v), args)
      modifies `input
      ensures match ReadRest(schema, v, args, old(input))
              case Parsed(m, rest) => r == Got([m]) && input == rest
              case Crash => r == Overrun
              case _ => r == Failed
    {
      TypedHeader(v, args);
      if v == QueryVerb {
        var ids := ReadNodeIds(args[1].n);
        return if ids.Got? then Got([Query(args[0].n, ids.items)]) else if ids.Failed? then Failed else Overrun;
      } else if v == AnnounceVerb || v == ResponseVerb {
        var nodes := ReadNodeLines(args[1].n);
        if !nodes.Got? {
          return if nodes.Failed? then Failed else Overrun;
        }
        return Got([if v == AnnounceVerb then Announce(args[0].n, nodes.items) else Response(args[0].n, nodes.items)]);
      }
      var parsed := ReadRest(schema, v, args, input);
      return if parsed.Parsed? then Got([parsed.m]) else Failed;
    }

    method Act(m: Message) returns (e: Event)
      modifies `pending, `dispatched, `delivered
      ensures e == EventOf(m, hooks, old(pending))
      ensures Box() == Acted(m, e, input, old(Box()))
    {
      if IsReply(m) {
        e := SendToWaitingChannel(m);
      } else {
        e := Dispatch(m);
      }
    }

    /** Reads what follows a verb and acts on the message. */
    method ReadVerb(v: Verb) returns (e: Event)
      modifies `input, `pending, `dispatched, `delivered
      ensures var p := ReadFields(schema, v, old(input));
              if p.Parsed? then e == EventOf(p.m, hooks, old(pending)) && Box() == Acted(p.m, e, p.rest, old(Box()))
              else e == (if p.Crash? then Panicked else Broken) && unchanged(`pending, `dispatched, `delivered)
    {
      var header := Scan(Formats(v), input);
      if header.Mismatch? || !Typed(Formats(v), header.args) {
        return Broken;
      }
      RestShrinks(schema, v, header.args, header.rest);
      input := header.rest;
      var body := ReadBody(v, header.args);
      if !body.Got? {
        return if body.Failed? then Broken else Panicked;
      }
      e := Act(body.items[0]);
    }

    /** Reads one message and acts on it. A message that parses is consumed completely even when
      nobody waits for it, no handler is set or the handler fails, so the next read starts at the
      next message. */
    method ReadMessage() returns (e: Event)
      modifies `input, `pending, `dispatched, `delivered
      ensures e == EventAt(schema, hooks, old(Box()))
      ensures !e.Broken? && !e.Panicked? ==> Box() == Taken(schema, hooks, old(Box()))
      ensures e.Broken? || e.Panicked? ==> unchanged(`pending, `dispatched, `delivered)
    {
      var word := ScanWord(input);
      if word.Mismatch? {
        return Broken;
      }
      var verb := VerbFrom(word.args[0].s);
      input := word.rest;
      if verb.None? {
        return Skipped;
      }
      KnownVerb(schema, hooks, old(Box()), verb.value, word.rest);
      e := ReadVerb(verb.value);
    }

    /** The reader loop: it goes on after unsolicited replies and unknown verbs and stops at any
      other error. If what arrives is any sequence of messages, with unknown words among them, it
      takes those before the first request that has no handler or whose handler fails: the
      requests are dispatched in order, and of the replies exactly those somebody waits for are
      delivered, the unsolicited ones notwithstanding. Without such a request it takes
      everything. */
    method Run(ghost sent: seq<Item>) returns (last: Event)
      modifies `input, `pending, `dispatched, `delivered
      ensures !Continues(last)
      ensures WellSent(schema, sent) && old(input) == PrintItems(schema, sent) ==>
                Ended(hooks, old(Box()), sent, last, Box())
    {
      ghost var start := Box();
      ghost var good := WellSent(schema, sent) && input == PrintItems(schema, sent);
      ghost var k := 0;
      assert good ==> sent[0..] == sent;
      while true
        invariant good ==> k <= FirstStop(hooks, sent) && Box() == BoxAfter(schema, start, sent, k)
        decreases |input|
      {
        last := Turn(start, sent, k, good);
        if !Continues(last) {
          return;
        }
        k := k + 1;
      }
    }

    /** One turn of the reader loop. */
    method Turn(ghost start: Inbox, ghost sent: seq<Item>, ghost k: nat, ghost good: bool) returns (e: Event)
      requires good ==> WellSent(schema, sent) && k <= FirstStop(hooks, sent)
      requires good ==> Box() == BoxAfter(schema, start, sent, k)
      modifies `input, `pending, `dispatched, `delivered
      ensures Continues(e) ==> |input| < |old(input)|
      ensures good && k < FirstStop(hooks, sent) ==> Continues(e) && Box() == BoxAfter(schema, start, sent, k + 1)
      ensures good && k == FirstStop(hooks, sent) ==> !Continues(e) && Ended(hooks, start, sent, e, Box())
    {
      ReadShrinks(schema, input);
      if good {
        if k < FirstStop(hooks, sent) {
          TakeOneMore(schema, hooks, start, sent, k);
        } else {
          AtTheStop(schema, hooks, start, sent, k);
        }
      }
      e := ReadMessage();
    }
  }

  // ---------- What the reader loop makes of a stream ----------

  /** What may stand on a stream: a message, or a word that is no verb, with a space after it. */
  datatype Item = Said(m: Message) | Noise(word: string)

  function ItemText(sc: Schema, i: Item): string {
    match i
    case Said(m) => PrintMessage(sc, m)
    case Noise(word) => word + " "
  }

  function PrintItems(sc: Schema, items: seq<Item>): string {
    if items == [] then [] else ItemText(sc, items[0]) + PrintItems(sc, items[1..])
  }

  function Messages(items: seq<Item>): seq<Message> {
    if items == [] then [] else
    Messages(items[..|items| - 1]) + if items[|items| - 1].Said? then [items[|items| - 1].m] else []
  }

  /** Messages whose numbers are in range, and unknown words. */
  ghost predicate WellSent(sc: Schema, sent: seq<Item>) {
    Lawful(sc) && forall i :: i in sent ==> Sendable(i)
  }

  predicate Sendable(i: Item) {
    match i
    case Said(m) => InRange(m)
    case Noise(word) => IsWord(word) && VerbFrom(word).None?
  }

  /** Reading a message comes down to reading what follows its verb. */
  lemma KnownVerb(sc: Schema, hooks: Hooks, b: Inbox, v: Verb, rest: string)
    requires var word := ScanWord(b.input);
             word.Scanned? && VerbFrom(word.args[0].s) == Some(v) && word.rest == rest
    ensures var p := ReadFields(sc, v, rest);
            && EventAt(sc, hooks, b) == (if p.Parsed? then EventOf(p.m, hooks, b.pending)
                                         else if p.Crash? then Panicked else Broken)
            && (p.Parsed? ==> Taken(sc, hooks, b) == Acted(p.m, EventOf(p.m, hooks, b.pending), p.rest, b))
  {
    var header := Scan(Formats(v), rest);
    if header.Scanned? && Typed(Formats(v), header.args) {
      RestShrinks(sc, v, header.args, header.rest);
    }
  }

  /** A request at which the reader loop stops. */
  predicate Stops(hooks: Hooks, m: Message) {
    !IsReply(m) && (VerbOf(m) !in hooks.verbs || hooks.fails(m))
  }

  predicate StopsAt(hooks: Hooks, i: Item) {
    i.Said? && Stops(hooks, i.m)
  }

  /** The position of the first such request, or the length of the stream. */
  function FirstStop(hooks: Hooks, sent: seq<Item>): (k: nat)
    ensures k <= |sent| && (k < |sent| ==> StopsAt(hooks, sent[k]))
    ensures forall i :: 0 <= i < k ==> !StopsAt(hooks, sent[i])
  {
    if sent == [] || StopsAt(hooks, sent[0]) then 0 else 1 + FirstStop(hooks, sent[1..])
  }

  /** How a reader loop ends that found `sent` on the stream, unread input aside. */
  ghost predicate Ended(hooks: Hooks, start: Inbox, sent: seq<Item>, last: Event, end: Inbox) {
    var k := FirstStop(hooks, sent);
    var taken := Messages(sent[..k]);
    && last == (if k == |sent| then Broken
                else if VerbOf(sent[k].m) in hooks.verbs then Refused(sent[k].m)
                else NoHandler(VerbOf(sent[k].m)))
    && end.dispatched == start.dispatched + Requests(taken) + (if last.Refused? then [last.m] else [])
    && end.delivered == start.delivered + Awaited(taken, start.pending)
    && end.pending == start.pending - ReplyIds(taken)
  }

  /** What the messages taken have made of the inbox. */
  function Effect(start: Inbox, taken: seq<Message>, unread: string): Inbox {
    Inbox(unread, start.pending - ReplyIds(taken),
          start.dispatched + Requests(taken), start.delivered + Awaited(taken, start.pending))
  }

  /** The unread input when the first `k` items have been read: the space after a word stays. */
  function Unread(sc: Schema, sent: seq<Item>, k: nat): string
    requires k <= |sent|
  {
    (if k > 0 && sent[k - 1].Noise? then " " else "") + PrintItems(sc, sent[k..])
  }

  function BoxAfter(sc: Schema, start: Inbox, sent: seq<Item>, k: nat): Inbox
    requires k <= |sent|
  {
    Effect(start, Messages(sent[..k]), Unread(sc, sent, k))
  }

  lemma TakeReply(hooks: Hooks, start: Inbox, taken: seq<Message>, m: Message, unread: string, rest: string)
    requires IsReply(m)
    ensures var b := Effect(start, taken, unread);
            Acted(m, EventOf(m, hooks, b.pending), rest, b) == Effect(start, taken + [m], rest)
  {
    TakeOne(taken + [m], |taken|, start.pending);
    assert (taken + [m])[..|taken|] == taken && (taken + [m])[..|taken| + 1] == taken + [m];
    assert start.pending - ReplyIds(taken + [m]) == start.pending - ReplyIds(taken) - {m.id};
  }

  lemma TakeRequest(hooks: Hooks, start: Inbox, taken: seq<Message>, m: Message, unread: string, rest: string)
    requires !IsReply(m) && !Stops(hooks, m)
    ensures var b := Effect(start, taken, unread);
            Acted(m, EventOf(m, hooks, b.pending), rest, b) == Effect(start, taken + [m], rest)
  {
    TakeOne(taken + [m], |taken|, start.pending);
    assert (taken + [m])[..|taken|] == taken && (taken + [m])[..|taken| + 1] == taken + [m];
    assert (start.dispatched + Requests(taken)) + [m] == start.dispatched + Requests(taken + [m]);
    assert Awaited(taken + [m], start.pending) == Awaited(taken, start.pending);
  }

  /** Spaces in front of a message make no difference. */
  lemma ReadAfterSpace(sc: Schema, s: string)
    ensures Wire.ReadMessage(sc, " " + s) == Wire.ReadMessage(sc, s)
  {
    assert (" " + s)[1..] == s && DropSpaces(" " + s) == DropSpaces(s);
  }

  lemma UnreadStart(sc: Schema, sent: seq<Item>, k: nat)
    requires k <= |sent|
    ensures Wire.ReadMessage(sc, Unread(sc, sent, k)) == Wire.ReadMessage(sc, PrintItems(sc, sent[k..]))
  {
    ReadAfterSpace(sc, PrintItems(sc, sent[k..]));
    assert "" + PrintItems(sc, sent[k..]) == PrintItems(sc, sent[k..]);
  }

  lemma MessagesThen(sent: seq<Item>, k: nat)
    requires k < |sent|
    ensures Messages(sent[..k + 1]) == Messages(sent[..k]) + if sent[k].Said? then [sent[k].m] else []
  {
    assert sent[..k + 1][..k] == sent[..k];
  }

  lemma ItemsOn(sc: Schema, sent: seq<Item>, k: nat)
    requires k < |sent|
    ensures PrintItems(sc, sent[k..]) == ItemText(sc, sent[k]) + PrintItems(sc, sent[k + 1..])
  {
    assert sent[k..][1..] == sent[k + 1..];
  }

  lemma ReadNoise(sc: Schema, word: string, rest: string)
    requires IsWord(word) && VerbFrom(word).None?
    ensures Wire.ReadMessage(sc, (word + " ") + rest) == UnknownVerb(" " + rest)
  {
    assert (word + " ") + rest == word + (" " + rest);
    ScanPrintedWord(word, " " + rest);
  }

  lemma NextMessage(sc: Schema, sent: seq<Item>, k: nat)
    requires WellSent(sc, sent) && k < |sent| && sent[k].Said?
    ensures Wire.ReadMessage(sc, Unread(sc, sent, k)) == Parsed(sent[k].m, Unread(sc, sent, k + 1))
  {
    var rest := PrintItems(sc, sent[k + 1..]);
    UnreadStart(sc, sent, k);
    ItemsOn(sc, sent, k);
    assert sent[k] in sent && Sendable(sent[k]);
    MessageRoundTrip(sc, sent[k].m, rest);
    assert Unread(sc, sent, k + 1) == "" + rest == rest;
  }

  lemma NextNoise(sc: Schema, sent: seq<Item>, k: nat)
    requires WellSent(sc, sent) && k < |sent| && sent[k].Noise?
    ensures Wire.ReadMessage(sc, Unread(sc, sent, k)) == UnknownVerb(Unread(sc, sent, k + 1))
  {
    UnreadStart(sc, sent, k);
    ItemsOn(sc, sent, k);
    assert sent[k] in sent && Sendable(sent[k]);
    ReadNoise(sc, sent[k].word, PrintItems(sc, sent[k + 1..]));
  }

  lemma TakeOneMore(sc: Schema, hooks: Hooks, start: Inbox, sent: seq<Item>, k: nat)
    requires WellSent(sc, sent) && k < |sent| && !StopsAt(hooks, sent[k])
    ensures var b := BoxAfter(sc, start, sent, k);
            Continues(EventAt(sc, hooks, b)) && Taken(sc, hooks, b) == BoxAfter(sc, start, sent, k + 1)
  {
    var taken, unread, rest := Messages(sent[..k]), Unread(sc, sent, k), Unread(sc, sent, k + 1);
    MessagesThen(sent, k);
    if sent[k].Noise? {
      NextNoise(sc, sent, k);
      assert taken + [] == taken;
    } else {
      NextMessage(sc, sent, k);
      if IsReply(sent[k].m) {
        TakeReply(hooks, start, taken, sent[k].m, unread, rest);
      } else {
        TakeRequest(hooks, start, taken, sent[k].m, unread, rest);
      }
    }
  }

  /** What is read where the loop stops: a request that stops it, or the end of the stream. */
  lemma AtTheStop(sc: Schema, hooks: Hooks, start: Inbox, sent: seq<Item>, k: nat)
    requires WellSent(sc, sent) && k == FirstStop(hooks, sent)
    ensures var b := BoxAfter(sc, start, sent, k);
            var e := EventAt(sc, hooks, b);
            && !Continues(e)
            && (k < |sent| ==> !e.Broken? && !e.Panicked?)
            && Ended(hooks, start, sent, e, if k < |sent| then Taken(sc, hooks, b) else b)
  {
    if k < |sent| {
      NextMessage(sc, sent, k);
    } else {
      UnreadStart(sc, sent, k);
    }
  }

  lemma TakeOne(sent: seq<Message>, k: nat, pending: set<int>)
    requires k < |sent|
    ensures Requests(sent[..k + 1]) == Requests(sent[..k]) + if IsReply(sent[k]) then [] else [sent[k]]
    ensures Awaited(sent[..k + 1], pending)
         == Awaited(sent[..k], pending)
            + if IsReply(sent[k]) && sent[k].id in pending - ReplyIds(sent[..k]) then [sent[k]] else []
    ensures ReplyIds(sent[..k + 1]) == ReplyIds(sent[..k]) + if IsReply(sent[k]) then {sent[k].id} else {}
  {
    assert sent[..k + 1][..k] == sent[..k];
    assert sent[..k + 1] == sent[..k] + [sent[k]];
  }

  lemma {:induction false} ScanShrinks(f: seq<Piece>, s: string)
    ensures Scan(f, s).Scanned? ==> |Scan(f, s).rest| <= |s|
    decreases |f|
  {
    if f != [] && ScanPiece(f[0], s).Scanned? {
      ScanShrinks(f[1..], ScanPiece(f[0], s).rest);
    }
  }

  lemma {:induction false} IdsShrink(sc: Schema, count: nat, s: string)
    ensures ReadIds(sc, count, s).Lines? ==> |ReadIds(sc, count, s).rest| <= |s|
    decreases count
  {
    if count > 0 && ReadIds(sc, count - 1, s).Lines? {
      IdsShrink(sc, count - 1, s);
      ScanShrinks(ID_LINE, ReadIds(sc, count - 1, s).rest);
    }
  }

  lemma {:induction false} NodesShrink(sc: Schema, count: nat, s: string)
    ensures ReadNodes(sc, count, s).Lines? ==> |ReadNodes(sc, count, s).rest| <= |s|
    decreases count
  {
    if count > 0 && ReadNodes(sc, count - 1, s).Lines? {
      NodesShrink(sc, count - 1, s);
      ScanShrinks(NODE_LINE, ReadNodes(sc, count - 1, s).rest);
    }
  }

  lemma RestShrinks(sc: Schema, v: Verb, args: seq<Arg>, s: string)
    requires Typed(Formats(v), args)
    ensures ReadRest(sc, v, args, s).Parsed? ==> |ReadRest(sc, v, args, s).rest| <= |s|
    ensures !ReadRest(sc, v, args, s).UnknownVerb?
  {
    TypedHeader(v, args);
    if v in {QueryVerb, AnnounceVerb, ResponseVerb} && args[1].n >= 0 {
      IdsShrink(sc, args[1].n, s);
      NodesShrink(sc, args[1].n, s);
    }
  }

  /** A read that does not end the connection makes progress. */
  lemma ReadShrinks(sc: Schema, s: string)
    ensures Wire.ReadMessage(sc, s).Parsed? ==> |Wire.ReadMessage(sc, s).rest| < |s|
    ensures Wire.ReadMessage(sc, s).UnknownVerb? ==> |Wire.ReadMessage(sc, s).rest| < |s|
  {
    var word := ScanWord(s);
    if word.Scanned? && VerbFrom(word.args[0].s).Some? {
      var v := VerbFrom(word.args[0].s).value;
      ScanShrinks(Formats(v), word.rest);
      var header := Scan(Formats(v), word.rest);
      if header.Scanned? && Typed(Formats(v), header.args) {
        RestShrinks(sc, v, header.args, header.rest);
      }
    }
  }

  lemma {:induction false} BadIdsStayBad(sc: Schema, i: nat, count: nat, s: string)
    requires i <= count
    ensures ReadIds(sc, i, s).BadLine? ==> ReadIds(sc, count, s).BadLine?
    decreases count - i
  {
    if i < count {
      BadIdsStayBad(sc, i + 1, count, s);
    }
  }

  lemma {:induction false} BadNodesStayBad(sc: Schema, i: nat, count: nat, s: string)
    requires i <= count
    ensures ReadNodes(sc, i, s).BadLine? ==> ReadNodes(sc, count, s).BadLine?
    decreases count - i
  {
    if i < count {
      BadNodesStayBad(sc, i + 1, count, s);
    }
  }

  // ---------- What is dispatched and delivered ----------

  /** Requests are the messages other than responses and statuses, each as often as it came. */
  lemma {:induction false} RequestsExact(ms: seq<Message>, m: Message)
    ensures multiset(Requests(ms))[m] == if m.Response? || m.Status? then 0 else multiset(ms)[m]
    decreases |ms|
  {
    if ms != [] {
      RequestsExact(ms[..|ms| - 1], m);
      assert ms == ms[..|ms| - 1] + [ms[|ms| - 1]];
    }
  }

  predicate FirstReply(ms: seq<Message>, i: nat, id: int) {
    && i < |ms| && (ms[i].Response? || ms[i].Status?) && ms[i].id == id
    && forall j :: 0 <= j < i && (ms[j].Response? || ms[j].Status?) ==> ms[j].id != id
  }

  /** Delivered are, in order, the first replies to ids that are waited for. */
  lemma {:induction false} AwaitedExact(ms: seq<Message>, pending: set<int>, id: int)
    ensures forall i: nat :: FirstReply(ms, i, id) && id in pending ==> ms[i] in Awaited(ms, pending)
    ensures forall m :: m in Awaited(ms, pending) && m.id == id ==>
              id in pending && exists i: nat :: FirstReply(ms, i, id) && ms[i] == m
    ensures forall j, k :: 0 <= j < k < |Awaited(ms, pending)| ==>
              Awaited(ms, pending)[j].id != Awaited(ms, pending)[k].id
    decreases |ms|
  {
    if ms != [] {
      var before, m := ms[..|ms| - 1], ms[|ms| - 1];
      AwaitedExact(before, pending, id);
      AwaitedExact(before, pending, m.id);
      assert forall i: nat :: i < |before| ==> (FirstReply(ms, i, id) <==> FirstReply(before, i, id));
      assert forall i: nat :: i < |before| ==> (FirstReply(ms, i, m.id) <==> FirstReply(before, i, m.id));
      assert FirstReply(ms, |before|, id) <==> IsReply(m) && m.id == id && id !in ReplyIds(before);
    }
  }
}
