/** The methods of workers and connections next to the moves of the transition systems: what one
  method call does is what a sequence of moves does.
*/
module Refinement {
  import opened Forest
  import opened Ingestion
  import Network
  import Workers
  import Wire
  import Connections
  import Correlation

  // ---------- Workers and the network ----------

  /** The worker's session holds the subscriptions that the network has for its end of the link. */
  ghost predicate SameSession(w: Workers.Worker, c: Network.Config, l: Network.Link)
    reads w.session
  {
    l in c.sessions && forall id :: w.session.Count(id) > 0 <==> id in c.sessions[l]
  }

  /** The decision that HandleNewNode returns is the one that forwarding makes. */
  lemma PassesIsWanted(w: Workers.Worker, c: Network.Config, l: Network.Link, n: Node)
    requires SameSession(w, c, l)
    ensures w.Passes(n) <==> Network.Wanted(c, l, n)
  {}

  /** The network after the notices of a whole announcement have been handled, in order: those of
    expired nodes are lost, the others delivered. */
  function Delivered(c: Network.Config, st: Network.Net, l: Network.Link, nodes: seq<Node>, expired: Nodes): Network.Net
    requires l.peer in st.stores
    ensures Delivered(c, st, l, nodes, expired).stores == st.stores
  {
    if nodes == [] then st else
    var before := Delivered(c, st, l, nodes[..|nodes| - 1], expired);
    var notice := Network.Notice(l, nodes[|nodes| - 1]);
    if notice.node in expired then before.(flying := before.flying - multiset{notice})
    else Network.Received(c, before, notice)
  }

  function Ingestions(l: Network.Link, nodes: seq<Node>): seq<Network.Run> {
    seq(|nodes|, i requires 0 <= i < |nodes| => Network.Run(l, Ingest(nodes[i])))
  }

  /** The ingestion, if any, that handling one announced node starts. */
  function Started(w: Workers.Worker, n: Node, expired: Nodes): seq<Node>
    reads w.store, w.session
  {
    if n !in expired && n !in w.store.nodes && w.Passes(n) then [n] else []
  }

  lemma NoticeStarts(w: Workers.Worker, c: Network.Config, st: Network.Net, l: Network.Link, n: Node)
    requires l.peer in st.stores && w.store.nodes == st.stores[l.peer] && SameSession(w, c, Network.Flip(l))
    ensures Network.Received(c, st, Network.Notice(l, n)).runs
         == st.runs + Ingestions(Network.Flip(l), Started(w, n, {}))
  {
    PassesIsWanted(w, c, Network.Flip(l), n);
    if Started(w, n, {}) == [] {
      assert st.runs + Ingestions(Network.Flip(l), []) == st.runs;
    }
  }

  lemma MoreIngestions(l: Network.Link, a: seq<Node>, b: seq<Node>)
    ensures Ingestions(l, a + b) == Ingestions(l, a) + Ingestions(l, b)
  {}

  /** Handling an announcement starts exactly the ingestions that handling its notices starts. */
  lemma {:induction false} AnnouncementIsNotices(w: Workers.Worker, c: Network.Config, st: Network.Net,
                                                 l: Network.Link, nodes: seq<Node>, expired: Nodes)
    requires l.peer in st.stores && w.store.nodes == st.stores[l.peer] && SameSession(w, c, Network.Flip(l))
    ensures Delivered(c, st, l, nodes, expired).runs
         == st.runs + Ingestions(Network.Flip(l), w.Accepted(nodes, expired))
    decreases |nodes|
  {
    var here := Network.Flip(l);
    if nodes == [] {
      assert st.runs + Ingestions(here, []) == st.runs;
    } else {
      var before, n := nodes[..|nodes| - 1], nodes[|nodes| - 1];
      AnnouncementIsNotices(w, c, st, l, before, expired);
      var earlier := w.Accepted(before, expired);
      if n in expired {
        assert w.Accepted(nodes, expired) == earlier + [] == earlier;
      } else {
        NoticeStarts(w, c, Delivered(c, st, l, before, expired), l, n);
        MoreIngestions(here, earlier, Started(w, n, expired));
        assert w.Accepted(nodes, expired) == earlier + Started(w, n, expired);
      }
    }
  }

  // ---------- Connections and correlation ----------

  function KindOf(m: Wire.Message): Correlation.Kind {
    if m.Response? then Correlation.ResponseReply else Correlation.StatusReply
  }

  predicate SameReply(m: Wire.Message, d: Correlation.Delivery) {
    d.id == m.id && d.kind == KindOf(m)
  }

  /** The connection and the side agree on the next number, on the ids with a waiting channel, and
    on what has been delivered. */
  ghost predicate Tracks(conn: Connections.Conn, s: Correlation.Side)
    reads conn
  {
    && conn.nextMessageId == s.next
    && (forall id :: id in conn.pending <==> id >= 0 && id in s.pending)
    && |conn.delivered| == |s.sends|
    && forall k :: 0 <= k < |s.sends| ==> SameReply(conn.delivered[k], s.sends[k])
  }

  /** One call of WriteMessageAsync is a caller drawing a number, registering, and writing or
    failing to. */
  method Send(conn: Connections.Conn, request: int -> Wire.Message, written: bool,
              ghost s: Correlation.Side, ghost c: nat)
    returns (id: int, ghost t: Correlation.Side)
    requires Tracks(conn, s) && Correlation.At(s, c, Correlation.Started)
    modifies conn
    ensures Tracks(conn, t) && c < |t.calls| && id == t.calls[c].id == s.next
    ensures var t1 := Correlation.Next(s, [], Correlation.TakeNumber(c));
            var t2 := Correlation.Next(t1, [], Correlation.Register(c));
            t == Correlation.Next(t2, [], if written then Correlation.Write(c) else Correlation.FailWrite(c))
  {
    id := conn.WriteMessageAsync(request, written);
    ghost var t1 := Correlation.Next(s, [], Correlation.TakeNumber(c));
    ghost var t2 := Correlation.Next(t1, [], Correlation.Register(c));
    t := Correlation.Next(t2, [], if written then Correlation.Write(c) else Correlation.FailWrite(c));
  }

  method Cancel(conn: Connections.Conn, id: nat, ghost s: Correlation.Side) returns (ghost t: Correlation.Side)
    requires Tracks(conn, s)
    modifies conn
    ensures Tracks(conn, t) && t == Correlation.Next(s, [], Correlation.UserCancel(id))
  {
    conn.Cancel(id);
    t := Correlation.Next(s, [], Correlation.UserCancel(id));
  }

  /** The moves of a reader that takes an answer off the stream and finds its caller waiting. */
  function Handed(s: Correlation.Side, incoming: seq<Correlation.Packet>): Correlation.Side
    requires s.reader.Idle? && s.taken < |incoming| && incoming[s.taken].Answer?
    requires incoming[s.taken].id in s.pending
    requires Correlation.At(s, s.pending[incoming[s.taken].id], Correlation.Waiting)
  {
    var t1 := Correlation.Next(s, incoming, Correlation.Read);
    var t2 := Correlation.Next(t1, incoming, Correlation.Remove);
    var t3 := Correlation.Next(t2, incoming, Correlation.Send);
    Correlation.Next(t3, incoming, Correlation.Close)
  }

  /** One call of SendToWaitingChannel, with a caller that waits if there is a registration, is the
    reader taking an answer, removing the channel, sending and closing; without a registration
    it is the reader finding the answer unsolicited. */
  method Deliver(conn: Connections.Conn, m: Wire.Message,
                 ghost s: Correlation.Side, ghost incoming: seq<Correlation.Packet>)
    returns (e: Connections.Event, ghost t: Correlation.Side)
    requires Tracks(conn, s) && Connections.IsReply(m) && m.id >= 0
    requires s.reader.Idle? && s.taken < |incoming| && incoming[s.taken] == Correlation.Answer(m.id, KindOf(m))
    requires m.id in s.pending ==> Correlation.At(s, s.pending[m.id], Correlation.Waiting)
    modifies conn
    ensures Tracks(conn, t)
    ensures t == if m.id in s.pending then Handed(s, incoming) else Correlation.Next(s, incoming, Correlation.Read)
    ensures e == if m.id in s.pending then Connections.Delivered(m.id) else Connections.Unsolicited(m.id)
    ensures e.Unsolicited? ==> m.id in t.unsolicited
  {
    e := conn.SendToWaitingChannel(m);
    if m.id in s.pending {
      t := Handed(s, incoming);
    } else {
      t := Correlation.Next(s, incoming, Correlation.Read);
    }
  }

  // ---------- Sessions ----------

  /** The worker's session counts what the side's does. */
  ghost predicate SameCounts(w: Workers.Worker, s: Correlation.Side)
    reads w.session
  {
    forall id :: w.session.Count(id) == s.session[id]
  }

  /** Handling a subscription or unsubscription is the reader taking it. */
  method HandleSubscription(w: Workers.Worker, subscribe: bool, x: Id,
                            ghost s: Correlation.Side, ghost incoming: seq<Correlation.Packet>)
    returns (ghost t: Correlation.Side)
    requires SameCounts(w, s) && s.reader.Idle? && s.taken < |incoming| && incoming[s.taken].Ask?
    requires incoming[s.taken].request == if subscribe then Correlation.Subscribe(x) else Correlation.Unsubscribe(x)
    modifies w.session
    ensures SameCounts(w, t) && t == Correlation.Next(s, incoming, Correlation.Read)
  {
    if subscribe {
      w.OnSubscribe(x);
    } else {
      w.OnUnsubscribe(x);
    }
    t := Correlation.Next(s, incoming, Correlation.Read);
  }

  /** Subscribing locally, once the peer has confirmed, is the corresponding move. */
  method JoinOwn(w: Workers.Worker, x: Id, ghost s: Correlation.Side) returns (ghost t: Correlation.Side)
    requires SameCounts(w, s) && Correlation.HasJoined(s, x)
    modifies w.session
    ensures SameCounts(w, t) && t == Correlation.Next(s, [], Correlation.JoinOwn(x))
  {
    w.OnSubscribe(x);
    t := Correlation.Next(s, [], Correlation.JoinOwn(x));
  }
}
