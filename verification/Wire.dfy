/** Messages on the wire: how each of the ten verbs is printed and read back. */
module Wire {
  import opened Wrappers
  import opened Forest
  import opened Format
  import opened Base64Url

  datatype Verb =
    | VersionVerb | ListVerb | QueryVerb | AncestryVerb | LeavesOfVerb
    | SubscribeVerb | UnsubscribeVerb | AnnounceVerb | ResponseVerb | StatusVerb

  datatype Message =
    | Version(id: int, major: int, minor: int)
    | List(id: int, nodeType: int, quantity: int)
    | Query(id: int, ids: seq<Id>)
    | Ancestry(id: int, nodeId: Id, levels: int)
    | LeavesOf(id: int, nodeId: Id, quantity: int)
    | Subscribe(id: int, nodeId: Id)
    | Unsubscribe(id: int, nodeId: Id)
    | Announce(id: int, nodes: seq<Node>)
    | Response(id: int, nodes: seq<Node>)
    | Status(id: int, code: int)

  function VerbOf(m: Message): Verb {
    match m
    case Version(_, _, _) => VersionVerb
    case List(_, _, _) => ListVerb
    case Query(_, _) => QueryVerb
    case Ancestry(_, _, _) => AncestryVerb
    case LeavesOf(_, _, _) => LeavesOfVerb
    case Subscribe(_, _) => SubscribeVerb
    case Unsubscribe(_, _) => UnsubscribeVerb
    case Announce(_, _) => AnnounceVerb
    case Response(_, _) => ResponseVerb
    case Status(_, _) => StatusVerb
  }

  function VerbText(v: Verb): string {
    match v
    case VersionVerb => "version"
    case ListVerb => "list"
    case QueryVerb => "query"
    case AncestryVerb => "ancestry"
    case LeavesOfVerb => "leaves_of"
    case SubscribeVerb => "subscribe"
    case UnsubscribeVerb => "unsubscribe"
    case AnnounceVerb => "announce"
    case ResponseVerb => "response"
    case StatusVerb => "status"
  }

  function VerbFrom(word: string): Option<Verb> {
    if word == "version" then Some(VersionVerb)
    else if word == "list" then Some(ListVerb)
    else if word == "query" then Some(QueryVerb)
    else if word == "ancestry" then Some(AncestryVerb)
    else if word == "leaves_of" then Some(LeavesOfVerb)
    else if word == "subscribe" then Some(SubscribeVerb)
    else if word == "unsubscribe" then Some(UnsubscribeVerb)
    else if word == "announce" then Some(AnnounceVerb)
    else if word == "response" then Some(ResponseVerb)
    else if word == "status" then Some(StatusVerb)
    else None
  }

  /** The table that printing and scanning share. */
  function Formats(v: Verb): seq<Piece> {
    match v
    case VersionVerb => [Space, Number, Space, Number, Literal('.'), Number, Newline]
    case ListVerb => [Space, Number, Space, Number, Space, Number, Newline]
    case QueryVerb => [Space, Number, Space, Number, Newline]
    case AncestryVerb => [Space, Number, Space, Word, Space, Number, Newline]
    case LeavesOfVerb => [Space, Number, Space, Word, Space, Number, Newline]
    case SubscribeVerb => [Space, Number, Space, Word, Newline]
    case UnsubscribeVerb => [Space, Number, Space, Word, Newline]
    case AnnounceVerb => [Space, Number, Space, Number, Newline]
    case ResponseVerb => [Space, Number, Space, Number, Newline]
    case StatusVerb => [Space, Number, Space, Number, Newline]
  }

  const NODE_LINE: seq<Piece> := [Word, Space, Word, Newline]
  const ID_LINE: seq<Piece> := [Word, Newline]

  /** The text of ids and the binary form of nodes, which other packages define. */
  datatype Schema = Schema(idText: Id -> string, parseId: string -> Option<Id>,
                           marshal: Node -> seq<byte>, unmarshal: seq<byte> -> Option<Node>)

  ghost predicate Lawful(sc: Schema) {
    && (forall i :: IsWord(sc.idText(i)) && sc.parseId(sc.idText(i)) == Some(i))
    && (forall n :: sc.marshal(n) != [] && sc.unmarshal(sc.marshal(n)) == Some(n))
  }

  // ---------- Printing ----------

  function Header(sc: Schema, m: Message): seq<Arg> {
    match m
    case Version(id, major, minor) => [Num(id), Num(major), Num(minor)]
    case List(id, t, q) => [Num(id), Num(t), Num(q)]
    case Query(id, ids) => [Num(id), Num(|ids|)]
    case Ancestry(id, n, levels) => [Num(id), Text(sc.idText(n)), Num(levels)]
    case LeavesOf(id, n, q) => [Num(id), Text(sc.idText(n)), Num(q)]
    case Subscribe(id, c) => [Num(id), Text(sc.idText(c))]
    case Unsubscribe(id, c) => [Num(id), Text(sc.idText(c))]
    case Announce(id, ns) => [Num(id), Num(|ns|)]
    case Response(id, ns) => [Num(id), Num(|ns|)]
    case Status(id, code) => [Num(id), Num(code)]
  }

  function NodeLine(sc: Schema, n: Node): string {
    NodeLineFields([Text(sc.idText(HashOf(n))), Text(Encode(sc.marshal(n)))]);
    Print(NODE_LINE, [Text(sc.idText(HashOf(n))), Text(Encode(sc.marshal(n)))])
  }

  function NodeLines(sc: Schema, ns: seq<Node>): string {
    if ns == [] then [] else NodeLine(sc, ns[0]) + NodeLines(sc, ns[1..])
  }

  function IdLines(sc: Schema, ids: seq<Id>): string {
    if ids == [] then [] else Print(ID_LINE, [Text(sc.idText(ids[0]))]) + IdLines(sc, ids[1..])
  }

  function Body(sc: Schema, m: Message): string {
    match m
    case Query(_, ids) => IdLines(sc, ids)
    case Announce(_, ns) => NodeLines(sc, ns)
    case Response(_, ns) => NodeLines(sc, ns)
    case _ => []
  }

  function PrintMessage(sc: Schema, m: Message): string {
    HeaderTyped(sc, m);
    VerbText(VerbOf(m)) + Print(Formats(VerbOf(m)), Header(sc, m)) + Body(sc, m)
  }

  function PrintAll(sc: Schema, ms: seq<Message>): string {
    if ms == [] then [] else PrintMessage(sc, ms[0]) + PrintAll(sc, ms[1..])
  }

  /** The numbers fit the 64 bits they are scanned into. */
  predicate InRange(m: Message) {
    && MIN_INT <= m.id <= MAX_INT
    && match m
       case Version(_, major, minor) => MIN_INT <= major <= MAX_INT && MIN_INT <= minor <= MAX_INT
       case List(_, t, q) => MIN_INT <= t <= MAX_INT && MIN_INT <= q <= MAX_INT
       case Query(_, ids) => |ids| <= MAX_INT
       case Ancestry(_, _, levels) => MIN_INT <= levels <= MAX_INT
       case LeavesOf(_, _, q) => MIN_INT <= q <= MAX_INT
       case Announce(_, ns) => |ns| <= MAX_INT
       case Response(_, ns) => |ns| <= MAX_INT
       case Status(_, code) => MIN_INT <= code <= MAX_INT
       case _ => true
  }

  // ---------- Reading ----------

  datatype Lines<T> = Lines(items: seq<T>, rest: string) | BadLine

  /** One line of a query: an id and nothing else. */
  function ReadId(sc: Schema, s: string): Lines<Id> {
    match Scan(ID_LINE, s)
    case Mismatch => BadLine
    case Scanned(args, rest) =>
      if |args| != 1 || !args[0].Text? then BadLine else
      match sc.parseId(args[0].s)
      case None => BadLine
      case Some(i) => Lines([i], rest)
  }

  /** One line of a node list: the node must decode, and hash to the id in front of it. */
  function ReadNode(sc: Schema, s: string): Lines<Node> {
    match Scan(NODE_LINE, s)
    case Mismatch => BadLine
    case Scanned(args, rest) =>
      if |args| != 2 || !args[0].Text? || !args[1].Text? then BadLine else
      match (sc.parseId(args[0].s), Decode(args[1].s))
      case (Some(i), Some(bytes)) =>
        (match sc.unmarshal(bytes)
         case Some(n) => if HashOf(n) == i then Lines([n], rest) else BadLine
         case None => BadLine)
      case _ => BadLine
  }

  function ReadIds(sc: Schema, count: nat, s: string): Lines<Id> {
    if count == 0 then Lines([], s) else
    match ReadIds(sc, count - 1, s)
    case BadLine => BadLine
    case Lines(ids, rest) =>
      match ReadId(sc, rest)
      case BadLine => BadLine
      case Lines(i, rest') => Lines(ids + i, rest')
  }

  function ReadNodes(sc: Schema, count: nat, s: string): Lines<Node> {
    if count == 0 then Lines([], s) else
    match ReadNodes(sc, count - 1, s)
    case BadLine => BadLine
    case Lines(ns, rest) =>
      match ReadNode(sc, rest)
      case BadLine => BadLine
      case Lines(n, rest') => Lines(ns + n, rest')
  }

  /** An unknown verb consumes its word only; a negative count crashes the reader. */
  datatype Parsed = Parsed(m: Message, rest: string) | UnknownVerb(rest: string) | Malformed | Crash

  function ReadMessage(sc: Schema, s: string): Parsed {
    var word := ScanWord(s);
    if word.Mismatch? then Malformed else
    match VerbFrom(word.args[0].s)
    case None => UnknownVerb(word.rest)
    case Some(v) => ReadFields(sc, v, word.rest)
  }

  function ReadFields(sc: Schema, v: Verb, s: string): Parsed {
    var header := Scan(Formats(v), s);
    if header.Mismatch? || !Typed(Formats(v), header.args) then Malformed else
    ReadRest(sc, v, header.args, header.rest)
  }

  function ReadRest(sc: Schema, v: Verb, args: seq<Arg>, rest: string): Parsed
    requires Typed(Formats(v), args)
  {
    TypedHeader(v, args);
    var id := args[0].n;
    match v
    case VersionVerb => Parsed(Version(id, args[1].n, args[2].n), rest)
    case ListVerb => Parsed(List(id, args[1].n, args[2].n), rest)
    case StatusVerb => Parsed(Status(id, args[1].n), rest)
    case QueryVerb =>
      if args[1].n < 0 then Crash else
      (match ReadIds(sc, args[1].n, rest)
       case BadLine => Malformed
       case Lines(ids, rest') => Parsed(Query(id, ids), rest'))
    case AnnounceVerb =>
      if args[1].n < 0 then Crash else
      (match ReadNodes(sc, args[1].n, rest)
       case BadLine => Malformed
       case Lines(ns, rest') => Parsed(Announce(id, ns), rest'))
    case ResponseVerb =>
      if args[1].n < 0 then Crash else
      (match ReadNodes(sc, args[1].n, rest)
       case BadLine => Malformed
       case Lines(ns, rest') => Parsed(Response(id, ns), rest'))
    case AncestryVerb => WithId(sc, args[1].s, i => Ancestry(id, i, args[2].n), rest)
    case LeavesOfVerb => WithId(sc, args[1].s, i => LeavesOf(id, i, args[2].n), rest)
    case SubscribeVerb => WithId(sc, args[1].s, i => Subscribe(id, i), rest)
    case UnsubscribeVerb => WithId(sc, args[1].s, i => Unsubscribe(id, i), rest)
  }

  function WithId(sc: Schema, text: string, message: Id -> Message, rest: string): Parsed {
    match sc.parseId(text)
    case None => Malformed
    case Some(i) => Parsed(message(i), rest)
  }

  /** Which kinds of arguments each header has. */
  lemma TypedHeader(v: Verb, args: seq<Arg>)
    requires Typed(Formats(v), args)
    ensures |args| >= 2 && args[0].Num?
    ensures v in {VersionVerb, ListVerb} ==> |args| == 3 && args[1].Num? && args[2].Num?
    ensures v in {QueryVerb, AnnounceVerb, ResponseVerb, StatusVerb} ==> |args| == 2 && args[1].Num?
    ensures v in {AncestryVerb, LeavesOfVerb} ==> |args| == 3 && args[1].Text? && args[2].Num?
    ensures v in {SubscribeVerb, UnsubscribeVerb} ==> |args| == 2 && args[1].Text?
  {
    match v
    case VersionVerb => ThreeFields(Number, Number, Literal('.'), Number, args);
    case ListVerb => ThreeFields(Number, Number, Space, Number, args);
    case AncestryVerb => ThreeFields(Number, Word, Space, Number, args);
    case LeavesOfVerb => ThreeFields(Number, Word, Space, Number, args);
    case SubscribeVerb => TwoFields(Number, Word, args);
    case UnsubscribeVerb => TwoFields(Number, Word, args);
    case _ => TwoFields(Number, Number, args);
  }

  lemma SpaceThen(p: Piece, f: seq<Piece>, args: seq<Arg>)
    requires TakesArg(p)
    ensures Typed([Space, p] + f, args) <==> args != [] && Fits(p, args[0]) && Typed(f, args[1..])
  {
    var g := [Space, p] + f;
    assert g[1..] == [p] + f && ([p] + f)[1..] == f;
  }

  lemma TwoFields(p: Piece, q: Piece, args: seq<Arg>)
    requires TakesArg(p) && TakesArg(q)
    ensures Typed([Space, p, Space, q, Newline], args)
       <==> |args| == 2 && Fits(p, args[0]) && Fits(q, args[1])
  {
    assert [Space, p, Space, q, Newline] == [Space, p] + ([Space, q] + [Newline]);
    SpaceThen(p, [Space, q] + [Newline], args);
    assert [Newline][1..] == [];
    if args != [] {
      SpaceThen(q, [Newline], args[1..]);
      assert |args| == 2 ==> args[1..][1..] == [];
    }
  }

  lemma LastField(sep: Piece, r: Piece, args: seq<Arg>)
    requires !TakesArg(sep) && TakesArg(r)
    ensures Typed([sep, r, Newline], args) <==> |args| == 1 && Fits(r, args[0])
  {
    assert [sep, r, Newline][1..] == [r, Newline] && [r, Newline][1..] == [Newline] && [Newline][1..] == [];
    assert Typed([sep, r, Newline], args) == Typed([r, Newline], args);
    if args != [] {
      assert Typed([Newline], args[1..]) == (args[1..] == []);
    }
  }

  lemma ThreeFields(p: Piece, q: Piece, sep: Piece, r: Piece, args: seq<Arg>)
    requires TakesArg(p) && TakesArg(q) && !TakesArg(sep) && TakesArg(r)
    ensures Typed([Space, p, Space, q, sep, r, Newline], args)
       <==> |args| == 3 && Fits(p, args[0]) && Fits(q, args[1]) && Fits(r, args[2])
  {
    var g := [sep, r, Newline];
    assert [Space, p, Space, q, sep, r, Newline] == [Space, p] + ([Space, q] + g);
    SpaceThen(p, [Space, q] + g, args);
    if args != [] {
      SpaceThen(q, g, args[1..]);
      if args[1..] != [] {
        LastField(sep, r, args[1..][1..]);
      }
    }
  }

  lemma NodeLineFields(args: seq<Arg>)
    ensures Typed(NODE_LINE, args) <==> |args| == 2 && args[0].Text? && args[1].Text?
  {
    assert NODE_LINE[1..] == [Space, Word] + [Newline] && [Newline][1..] == [];
    if args != [] {
      SpaceThen(Word, [Newline], args[1..]);
      assert |args| == 2 ==> args[1..][1..] == [];
    }
  }

  lemma HeaderTyped(sc: Schema, m: Message)
    ensures Typed(Formats(VerbOf(m)), Header(sc, m))
  {
    var f := Formats(VerbOf(m));
    if |f| == 5 {
      TwoFields(f[1], f[3], Header(sc, m));
    } else {
      ThreeFields(f[1], f[3], f[4], f[5], Header(sc, m));
    }
  }

  // ---------- Round trips ----------

  lemma TableDelimited(v: Verb)
    ensures Delimited(Formats(v)) && Formats(v)[0] == Space
    ensures Delimited(NODE_LINE) && Delimited(ID_LINE)
  {}

  lemma VerbRoundTrip(v: Verb)
    ensures IsWord(VerbText(v)) && VerbFrom(VerbText(v)) == Some(v)
  {}

  lemma ScanVerb(v: Verb, tail: string)
    requires tail != [] && IsSpace(tail[0])
    ensures ScanWord(VerbText(v) + tail) == Scanned([Text(VerbText(v))], tail)
  {
    VerbRoundTrip(v);
    ScanPrintedWord(VerbText(v), tail);
  }

  /** Node-line round trip: whatever the node, its line scans as exactly two fields and yields the
    node, consuming nothing more. */
  lemma ReadPrintedNode(sc: Schema, n: Node, rest: string)
    requires Lawful(sc)
    ensures ReadNode(sc, NodeLine(sc, n) + rest) == Lines([n], rest)
  {
    var bytes := sc.marshal(n);
    assert sc.unmarshal(sc.marshal(n)) == Some(n) && bytes != [];
    EncodedRoundTrip(bytes);
    var args := [Text(sc.idText(HashOf(n))), Text(Encode(bytes))];
    NodeLineFields(args);
    TableDelimited(StatusVerb);
    RoundTrip(NODE_LINE, args, rest);
  }

  lemma ReadPrintedId(sc: Schema, i: Id, rest: string)
    requires Lawful(sc)
    ensures Typed(ID_LINE, [Text(sc.idText(i))])
    ensures ReadId(sc, Print(ID_LINE, [Text(sc.idText(i))]) + rest) == Lines([i], rest)
  {
    var args := [Text(sc.idText(i))];
    assert ID_LINE[1..] == [Newline] && [Newline][1..] == [] && args[1..] == [];
    TableDelimited(StatusVerb);
    RoundTrip(ID_LINE, args, rest);
  }

  lemma NodeLinesOn(sc: Schema, ns: seq<Node>, k: nat, rest: string)
    requires k < |ns|
    ensures NodeLines(sc, ns[k..]) + rest == NodeLine(sc, ns[k]) + (NodeLines(sc, ns[k + 1..]) + rest)
  {
    assert ns[k..][1..] == ns[k + 1..];
  }

  lemma ReadOneMore(sc: Schema, k: nat, s: string, ns: seq<Node>, middle: string, n: Node, rest: string)
    requires ReadNodes(sc, k, s) == Lines(ns, middle) && ReadNode(sc, middle) == Lines([n], rest)
    ensures ReadNodes(sc, k + 1, s) == Lines(ns + [n], rest)
  {}

  lemma ReadNextPrinted(sc: Schema, ns: seq<Node>, k: nat, s: string, rest: string)
    requires Lawful(sc) && k < |ns|
    requires ReadNodes(sc, k, s) == Lines(ns[..k], NodeLines(sc, ns[k..]) + rest)
    ensures ReadNodes(sc, k + 1, s) == Lines(ns[..k + 1], NodeLines(sc, ns[k + 1..]) + rest)
  {
    var tail := NodeLines(sc, ns[k + 1..]) + rest;
    NodeLinesOn(sc, ns, k, rest);
    ReadPrintedNode(sc, ns[k], tail);
    ReadOneMore(sc, k, s, ns[..k], NodeLine(sc, ns[k]) + tail, ns[k], tail);
    assert ns[..k + 1] == ns[..k] + [ns[k]];
  }

  lemma {:induction false} ReadPrintedNodes(sc: Schema, ns: seq<Node>, k: nat, rest: string)
    requires Lawful(sc) && k <= |ns|
    ensures ReadNodes(sc, k, NodeLines(sc, ns) + rest) == Lines(ns[..k], NodeLines(sc, ns[k..]) + rest)
    decreases k
  {
    if k == 0 {
      assert ns[0..] == ns;
    } else {
      ReadPrintedNodes(sc, ns, k - 1, rest);
      ReadNextPrinted(sc, ns, k - 1, NodeLines(sc, ns) + rest, rest);
    }
  }

  lemma IdLinesOn(sc: Schema, ids: seq<Id>, k: nat, rest: string)
    requires k < |ids|
    ensures IdLines(sc, ids[k..]) + rest
         == Print(ID_LINE, [Text(sc.idText(ids[k]))]) + (IdLines(sc, ids[k + 1..]) + rest)
  {
    assert ids[k..][1..] == ids[k + 1..];
  }

  lemma {:induction false} ReadPrintedIds(sc: Schema, ids: seq<Id>, k: nat, rest: string)
    requires Lawful(sc) && k <= |ids|
    ensures ReadIds(sc, k, IdLines(sc, ids) + rest) == Lines(ids[..k], IdLines(sc, ids[k..]) + rest)
    decreases k
  {
    if k == 0 {
      assert ids[0..] == ids;
    } else {
      ReadPrintedIds(sc, ids, k - 1, rest);
      IdLinesOn(sc, ids, k - 1, rest);
      ReadPrintedId(sc, ids[k - 1], IdLines(sc, ids[k..]) + rest);
      assert ids[..k] == ids[..k - 1] + [ids[k - 1]];
    }
  }

  lemma HeaderScannable(sc: Schema, m: Message)
    requires Lawful(sc) && InRange(m)
    ensures forall a :: a in Header(sc, m) ==> Scannable(a)
  {}

  lemma ReadPlain(sc: Schema, m: Message, rest: string)
    requires Typed(Formats(VerbOf(m)), Header(sc, m)) && (m.Version? || m.List? || m.Status?)
    ensures ReadRest(sc, VerbOf(m), Header(sc, m), rest) == Parsed(m, rest)
  {}

  lemma ReadWithId(sc: Schema, m: Message, rest: string)
    requires Lawful(sc) && Typed(Formats(VerbOf(m)), Header(sc, m))
    requires m.Ancestry? || m.LeavesOf? || m.Subscribe? || m.Unsubscribe?
    ensures ReadRest(sc, VerbOf(m), Header(sc, m), rest) == Parsed(m, rest)
  {
    assert sc.parseId(sc.idText(m.nodeId)) == Some(m.nodeId);
  }

  lemma ReadCountedIds(sc: Schema, m: Message, rest: string)
    requires Lawful(sc) && Typed(Formats(VerbOf(m)), Header(sc, m)) && m.Query?
    ensures ReadRest(sc, VerbOf(m), Header(sc, m), Body(sc, m) + rest) == Parsed(m, rest)
  {
    ReadPrintedIds(sc, m.ids, |m.ids|, rest);
    assert m.ids[..|m.ids|] == m.ids && [] + rest == rest;
    assert Header(sc, m)[0].n == m.id && Header(sc, m)[1].n == |m.ids|;
  }

  lemma ReadAllNodes(sc: Schema, ns: seq<Node>, rest: string)
    requires Lawful(sc)
    ensures ReadNodes(sc, |ns|, NodeLines(sc, ns) + rest) == Lines(ns, rest)
  {
    ReadPrintedNodes(sc, ns, |ns|, rest);
    assert ns[..|ns|] == ns && [] + rest == rest;
  }

  lemma ReadCountedNodes(sc: Schema, m: Message, rest: string)
    requires Lawful(sc) && Typed(Formats(VerbOf(m)), Header(sc, m)) && (m.Announce? || m.Response?)
    ensures ReadRest(sc, VerbOf(m), Header(sc, m), Body(sc, m) + rest) == Parsed(m, rest)
  {
    ReadAllNodes(sc, m.nodes, rest);
    var args := Header(sc, m);
    assert args == [Num(m.id), Num(|m.nodes|)];
    assert Body(sc, m) == NodeLines(sc, m.nodes);
    if m.Announce? {
      assert ReadRest(sc, AnnounceVerb, args, Body(sc, m) + rest) == Parsed(m, rest);
    } else {
      assert ReadRest(sc, ResponseVerb, args, Body(sc, m) + rest) == Parsed(m, rest);
    }
  }

  lemma ReadPrintedBody(sc: Schema, m: Message, rest: string)
    requires Lawful(sc) && Typed(Formats(VerbOf(m)), Header(sc, m))
    ensures ReadRest(sc, VerbOf(m), Header(sc, m), Body(sc, m) + rest) == Parsed(m, rest)
  {
    if m.Query? {
      ReadCountedIds(sc, m, rest);
    } else if m.Announce? || m.Response? {
      ReadCountedNodes(sc, m, rest);
    } else {
      assert Body(sc, m) + rest == rest;
      if m.Version? || m.List? || m.Status? {
        ReadPlain(sc, m, rest);
      } else {
        ReadWithId(sc, m, rest);
      }
    }
  }

  /** Each message reads back as itself, and reading it consumes exactly its own characters,
    whatever follows on the stream. */
  lemma MessageRoundTrip(sc: Schema, m: Message, rest: string)
    requires Lawful(sc) && InRange(m)
    ensures ReadMessage(sc, PrintMessage(sc, m) + rest) == Parsed(m, rest)
  {
    var v, args := VerbOf(m), Header(sc, m);
    HeaderTyped(sc, m);
    HeaderScannable(sc, m);
    TableDelimited(v);
    var more := Body(sc, m) + rest;
    var tail := Print(Formats(v), args) + more;
    assert PrintMessage(sc, m) + rest == VerbText(v) + tail;
    PrintedStart(Formats(v), args, more);
    ScanVerb(v, tail);
    VerbRoundTrip(v);
    RoundTrip(Formats(v), args, more);
    ReadPrintedBody(sc, m, rest);
  }

  function ReadMany(sc: Schema, count: nat, s: string): Lines<Message> {
    if count == 0 then Lines([], s) else
    match ReadMessage(sc, s)
    case Parsed(m, rest) =>
      (match ReadMany(sc, count - 1, rest)
       case Lines(ms, rest') => Lines([m] + ms, rest')
       case BadLine => BadLine)
    case _ => BadLine
  }

  /** Streams: any sequence of messages, printed one after the other, reads back as the same
    messages in the same order. */
  lemma {:induction false} StreamRoundTrip(sc: Schema, ms: seq<Message>, rest: string)
    requires Lawful(sc) && forall m :: m in ms ==> InRange(m)
    ensures ReadMany(sc, |ms|, PrintAll(sc, ms) + rest) == Lines(ms, rest)
    decreases |ms|
  {
    if ms == [] {
      assert PrintAll(sc, ms) + rest == rest;
    } else {
      assert ms == [ms[0]] + ms[1..];
      assert PrintAll(sc, ms) + rest == PrintMessage(sc, ms[0]) + (PrintAll(sc, ms[1..]) + rest);
      MessageRoundTrip(sc, ms[0], PrintAll(sc, ms[1..]) + rest);
      StreamRoundTrip(sc, ms[1..], rest);
    }
  }

  // ---------- The text on the wire ----------

  /** A line of words separated by single spaces. */
  function Line(words: seq<string>): string {
    if words == [] then "\n" else if |words| == 1 then words[0] + "\n" else words[0] + (" " + Line(words[1..]))
  }

  lemma LineOf(word: string, words: seq<string>)
    requires words != []
    ensures Line([word] + words) == word + (" " + Line(words))
  {
    assert ([word] + words)[1..] == words;
  }

  lemma PrintFirst(p: Piece, f: seq<Piece>, a: Arg, args: seq<Arg>)
    requires Fits(p, a) && Typed(f, args)
    ensures Typed([Space, p] + f, [a] + args)
    ensures Print([Space, p] + f, [a] + args) == " " + (Render(a) + Print(f, args))
  {
    var g := [Space, p] + f;
    assert g[1..] == [p] + f && ([p] + f)[1..] == f && ([a] + args)[1..] == args;
    assert Print(g, [a] + args) == " " + Print([p] + f, [a] + args);
    assert Print([p] + f, [a] + args) == Render(a) + Print(f, args);
  }

  lemma PrintLast(p: Piece, a: Arg)
    requires Fits(p, a)
    ensures Typed([Space, p, Newline], [a])
    ensures Print([Space, p, Newline], [a]) == " " + Line([Render(a)])
  {
    assert [Newline][1..] == [] && Print([Newline], []) == "\n";
    PrintFirst(p, [Newline], a, []);
    assert [Space, p] + [Newline] == [Space, p, Newline] && [a] + [] == [a];
  }

  lemma PrintMore(p: Piece, f: seq<Piece>, a: Arg, args: seq<Arg>, words: seq<string>)
    requires Fits(p, a) && Typed(f, args) && words != [] && Print(f, args) == " " + Line(words)
    ensures Typed([Space, p] + f, [a] + args)
    ensures Print([Space, p] + f, [a] + args) == " " + Line([Render(a)] + words)
  {
    PrintFirst(p, f, a, args);
    LineOf(Render(a), words);
  }

  lemma PrintTwo(p: Piece, q: Piece, a: Arg, b: Arg)
    requires Fits(p, a) && Fits(q, b)
    ensures Typed([Space, p, Space, q, Newline], [a, b])
    ensures Print([Space, p, Space, q, Newline], [a, b]) == " " + Line([Render(a), Render(b)])
  {
    PrintLast(q, b);
    PrintMore(p, [Space, q, Newline], a, [b], [Render(b)]);
    assert [Space, p] + [Space, q, Newline] == [Space, p, Space, q, Newline] && [a] + [b] == [a, b];
    assert [Render(a)] + [Render(b)] == [Render(a), Render(b)];
  }

  lemma PrintThree(p: Piece, q: Piece, r: Piece, a: Arg, b: Arg, c: Arg)
    requires Fits(p, a) && Fits(q, b) && Fits(r, c)
    ensures Typed([Space, p, Space, q, Space, r, Newline], [a, b, c])
    ensures Print([Space, p, Space, q, Space, r, Newline], [a, b, c]) == " " + Line([Render(a), Render(b), Render(c)])
  {
    PrintTwo(q, r, b, c);
    PrintMore(p, [Space, q, Space, r, Newline], a, [b, c], [Render(b), Render(c)]);
    assert [Space, p] + [Space, q, Space, r, Newline] == [Space, p, Space, q, Space, r, Newline];
    assert [a] + [b, c] == [a, b, c];
    assert [Render(a)] + [Render(b), Render(c)] == [Render(a), Render(b), Render(c)];
  }

  lemma PrintDotted(b: Arg, c: Arg)
    requires b.Num? && c.Num?
    ensures var f := [Space, Number, Literal('.'), Number, Newline];
            Typed(f, [b, c]) && Print(f, [b, c]) == " " + Line([Render(b) + "." + Render(c)])
  {
    var g := [Literal('.'), Number, Newline];
    assert g[1..] == [Number, Newline] && [Number, Newline][1..] == [Newline] && [Newline][1..] == [] && [c][1..] == [];
    assert Print([Newline], []) == "\n";
    assert Print([Number, Newline], [c]) == Render(c) + "\n";
    assert Print(g, [c]) == "." + (Render(c) + "\n");
    PrintFirst(Number, g, b, [c]);
    assert [Space, Number] + g == [Space, Number, Literal('.'), Number, Newline] && [b] + [c] == [b, c];
    assert Render(b) + ("." + (Render(c) + "\n")) == (Render(b) + "." + Render(c)) + "\n";
  }

  lemma PrintVersion(a: Arg, b: Arg, c: Arg)
    requires a.Num? && b.Num? && c.Num?
    ensures Typed(Formats(VersionVerb), [a, b, c])
    ensures Print(Formats(VersionVerb), [a, b, c]) == " " + Line([Render(a), Render(b) + "." + Render(c)])
  {
    var f := [Space, Number, Literal('.'), Number, Newline];
    PrintDotted(b, c);
    PrintMore(Number, f, a, [b, c], [Render(b) + "." + Render(c)]);
    assert [Space, Number] + f == Formats(VersionVerb) && [a] + [b, c] == [a, b, c];
    assert [Render(a)] + [Render(b) + "." + Render(c)] == [Render(a), Render(b) + "." + Render(c)];
  }

  /** The words of each message's first line, as the protocol has them. */
  function Words(sc: Schema, m: Message): seq<string> {
    match m
    case Version(id, major, minor) => ["version", Signed(id), Signed(major) + "." + Signed(minor)]
    case List(id, t, q) => ["list", Signed(id), Signed(t), Signed(q)]
    case Query(id, ids) => ["query", Signed(id), Signed(|ids|)]
    case Ancestry(id, n, levels) => ["ancestry", Signed(id), sc.idText(n), Signed(levels)]
    case LeavesOf(id, n, q) => ["leaves_of", Signed(id), sc.idText(n), Signed(q)]
    case Subscribe(id, c) => ["subscribe", Signed(id), sc.idText(c)]
    case Unsubscribe(id, c) => ["unsubscribe", Signed(id), sc.idText(c)]
    case Announce(id, ns) => ["announce", Signed(id), Signed(|ns|)]
    case Response(id, ns) => ["response", Signed(id), Signed(|ns|)]
    case Status(id, code) => ["status", Signed(id), Signed(code)]
  }

  lemma NumbersHeader(sc: Schema, m: Message)
    requires m.Query? || m.Announce? || m.Response? || m.Status?
    ensures Typed(Formats(VerbOf(m)), Header(sc, m))
    ensures Print(Formats(VerbOf(m)), Header(sc, m)) == " " + Line(Words(sc, m)[1..])
  {
    var args := Header(sc, m);
    PrintTwo(Number, Number, args[0], args[1]);
    assert args == [args[0], args[1]];
    assert Words(sc, m)[1..] == [Render(args[0]), Render(args[1])];
  }

  lemma SubscriptionHeader(sc: Schema, m: Message)
    requires m.Subscribe? || m.Unsubscribe?
    ensures Typed(Formats(VerbOf(m)), Header(sc, m))
    ensures Print(Formats(VerbOf(m)), Header(sc, m)) == " " + Line(Words(sc, m)[1..])
  {
    var args := Header(sc, m);
    PrintTwo(Number, Word, args[0], args[1]);
    assert args == [args[0], args[1]];
    assert Words(sc, m)[1..] == [Render(args[0]), Render(args[1])];
  }

  lemma TreeHeader(sc: Schema, m: Message)
    requires m.Ancestry? || m.LeavesOf?
    ensures Typed(Formats(VerbOf(m)), Header(sc, m))
    ensures Print(Formats(VerbOf(m)), Header(sc, m)) == " " + Line(Words(sc, m)[1..])
  {
    var args := Header(sc, m);
    PrintThree(Number, Word, Number, args[0], args[1], args[2]);
    assert args == [args[0], args[1], args[2]];
    assert Words(sc, m)[1..] == [Render(args[0]), Render(args[1]), Render(args[2])];
  }

  lemma OtherHeader(sc: Schema, m: Message)
    requires m.Version? || m.List?
    ensures Typed(Formats(VerbOf(m)), Header(sc, m))
    ensures Print(Formats(VerbOf(m)), Header(sc, m)) == " " + Line(Words(sc, m)[1..])
  {
    var args := Header(sc, m);
    assert args == [args[0], args[1], args[2]];
    if m.Version? {
      PrintVersion(args[0], args[1], args[2]);
      assert Words(sc, m)[1..] == [Render(args[0]), Render(args[1]) + "." + Render(args[2])];
    } else {
      PrintThree(Number, Number, Number, args[0], args[1], args[2]);
      assert Words(sc, m)[1..] == [Render(args[0]), Render(args[1]), Render(args[2])];
    }
  }

  lemma HeaderWords(sc: Schema, m: Message)
    ensures Typed(Formats(VerbOf(m)), Header(sc, m))
    ensures Print(Formats(VerbOf(m)), Header(sc, m)) == " " + Line(Words(sc, m)[1..])
  {
    if m.Version? || m.List? {
      OtherHeader(sc, m);
    } else if m.Ancestry? || m.LeavesOf? {
      TreeHeader(sc, m);
    } else if m.Subscribe? || m.Unsubscribe? {
      SubscriptionHeader(sc, m);
    } else {
      NumbersHeader(sc, m);
    }
  }

  /** What each message looks like on the wire: a line of words, then its id or node lines. */
  lemma MessageText(sc: Schema, m: Message)
    ensures PrintMessage(sc, m) == Line(Words(sc, m)) + Body(sc, m)
  {
    HeaderWords(sc, m);
    var ws := Words(sc, m);
    assert ws == [VerbText(VerbOf(m))] + ws[1..];
    LineOf(VerbText(VerbOf(m)), ws[1..]);
  }

  /** A node line is the node's id and its payload, an id line the id. */
  lemma LineTexts(sc: Schema, n: Node, i: Id)
    ensures NodeLine(sc, n) == Line([sc.idText(HashOf(n)), Encode(sc.marshal(n))])
    ensures IdLines(sc, [i]) == Line([sc.idText(i)])
  {
    var a, b := Text(sc.idText(HashOf(n))), Text(Encode(sc.marshal(n)));
    PrintLast(Word, b);
    NodeLineFields([a, b]);
    assert NODE_LINE[1..] == [Space, Word, Newline] && [a, b][1..] == [b];
    assert Print(NODE_LINE, [a, b]) == a.s + Print(NODE_LINE[1..], [b]);
    LineOf(a.s, [b.s]);
    assert [a.s] + [b.s] == [a.s, b.s];
    assert ID_LINE[1..] == [Newline] && [Newline][1..] == [] && [i][1..] == [] && [Text(sc.idText(i))][1..] == [];
    assert Print([Newline], []) == "\n" && Typed(ID_LINE, [Text(sc.idText(i))]);
    assert Print(ID_LINE, [Text(sc.idText(i))]) == sc.idText(i) + "\n";
  }

  // ---------- What is accepted ----------

  /** The verbs are the ten words and no others. */
  lemma VerbsExact(word: string)
    ensures VerbFrom(word).Some? ==> VerbText(VerbFrom(word).value) == word
    ensures VerbFrom(word).Some? <==> word in {"version", "list", "query", "ancestry", "leaves_of", "subscribe",
                                               "unsubscribe", "announce", "response", "status"}
  {}

  /** Whatever a node line yields hashes to the id in front of it. */
  lemma NodeMatchesId(sc: Schema, s: string)
    requires ReadNode(sc, s).Lines?
    ensures |ReadNode(sc, s).items| == 1
    ensures var scanned := Scan(NODE_LINE, s);
            && scanned.Scanned? && |scanned.args| == 2 && scanned.args[0].Text? && scanned.args[1].Text?
            && sc.parseId(scanned.args[0].s) == Some(HashOf(ReadNode(sc, s).items[0]))
            && Decode(scanned.args[1].s).Some?
            && sc.unmarshal(Decode(scanned.args[1].s).value) == Some(ReadNode(sc, s).items[0])
  {}
}
