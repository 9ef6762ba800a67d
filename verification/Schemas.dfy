/** The assumptions about id text and marshalled nodes can be met: nodes are finite trees, so they
  can be written down in two symbols, one after the other and without separators.
*/
module Schemas {
  import opened Wrappers
  import opened Forest
  import opened Format
  import opened Base64Url
  import opened Wire

  type Bits = seq<bool>

  function NatBits(n: nat): Bits {
    if n == 0 then [false] else [true] + NatBits(n - 1)
  }

  function IntBits(z: int): Bits {
    [z < 0] + NatBits(if z < 0 then -z else z)
  }

  function StringBits(s: string): Bits {
    if s == [] then [false] else [true] + (NatBits(s[0] as int) + StringBits(s[1..]))
  }

  function IdBits(i: Id): Bits
    decreases i
  {
    if i.NullHash? then [false] else [true] + NodeBits(i.node)
  }

  function NodeBits(n: Node): Bits
    decreases n
  {
    match n
    case Identity(content, created) =>
      [false] + (StringBits(content) + IntBits(created))
    case Community(author, content, created) =>
      [true, false] + (IdBits(author) + (StringBits(content) + IntBits(created)))
    case Reply(author, parent, community, depth, content, created) =>
      [true, true] + (IdBits(author) + (IdBits(parent) + (IdBits(community)
      + (NatBits(depth) + (StringBits(content) + IntBits(created))))))
  }

  // ---------- What is written first can be told from what follows ----------

  lemma Tail(x: Bits, y: Bits, r: Bits)
    ensures (x + y) + r == x + (y + r)
  {}

  lemma SameTail(x: Bits, r: Bits, t: Bits)
    requires x + r == x + t
    ensures r == t
  {
    assert r == (x + r)[|x|..] && t == (x + t)[|x|..];
  }

  lemma {:induction false} NatFirst(m: nat, n: nat, r: Bits, t: Bits)
    requires NatBits(m) + r == NatBits(n) + t
    ensures m == n && r == t
    decreases m
  {
    assert (NatBits(m) + r)[0] == (m > 0) && (NatBits(n) + t)[0] == (n > 0);
    if m == 0 {
      SameTail([false], r, t);
    } else {
      Tail([true], NatBits(m - 1), r);
      Tail([true], NatBits(n - 1), t);
      SameTail([true], NatBits(m - 1) + r, NatBits(n - 1) + t);
      NatFirst(m - 1, n - 1, r, t);
    }
  }

  lemma IntFirst(a: int, b: int, r: Bits, t: Bits)
    requires IntBits(a) + r == IntBits(b) + t
    ensures a == b && r == t
  {
    var m, n := if a < 0 then -a else a, if b < 0 then -b else b;
    assert (IntBits(a) + r)[0] == (a < 0) && (IntBits(b) + t)[0] == (b < 0);
    Tail([a < 0], NatBits(m), r);
    Tail([b < 0], NatBits(n), t);
    SameTail([a < 0], NatBits(m) + r, NatBits(n) + t);
    NatFirst(m, n, r, t);
  }

  lemma {:induction false} StringFirst(a: string, b: string, r: Bits, t: Bits)
    requires StringBits(a) + r == StringBits(b) + t
    ensures a == b && r == t
    decreases |a|
  {
    assert (StringBits(a) + r)[0] == (a != []) && (StringBits(b) + t)[0] == (b != []);
    if a == [] {
      SameTail([false], r, t);
    } else {
      StringUnfolded(a, r);
      StringUnfolded(b, t);
      SameTail([true], NatBits(a[0] as int) + (StringBits(a[1..]) + r),
               NatBits(b[0] as int) + (StringBits(b[1..]) + t));
      NatFirst(a[0] as int, b[0] as int, StringBits(a[1..]) + r, StringBits(b[1..]) + t);
      StringFirst(a[1..], b[1..], r, t);
      assert a == [a[0]] + a[1..] && b == [b[0]] + b[1..];
    }
  }

  lemma StringUnfolded(s: string, r: Bits)
    requires s != []
    ensures StringBits(s) + r == [true] + (NatBits(s[0] as int) + (StringBits(s[1..]) + r))
  {
    var x, y := NatBits(s[0] as int), StringBits(s[1..]);
    Tail([true], x + y, r);
    Tail(x, y, r);
  }

  lemma {:induction false} IdFirst(i: Id, j: Id, r: Bits, t: Bits)
    requires IdBits(i) + r == IdBits(j) + t
    ensures i == j && r == t
    decreases i
  {
    assert (IdBits(i) + r)[0] == i.HashOf? && (IdBits(j) + t)[0] == j.HashOf?;
    if i.NullHash? {
      SameTail([false], r, t);
    } else {
      Tail([true], NodeBits(i.node), r);
      Tail([true], NodeBits(j.node), t);
      SameTail([true], NodeBits(i.node) + r, NodeBits(j.node) + t);
      NodeFirst(i.node, j.node, r, t);
    }
  }

  /** The content and the date, which every node ends with. */
  function EndBits(n: Node, r: Bits): Bits {
    StringBits(n.content) + (IntBits(n.created) + r)
  }

  lemma EndFirst(m: Node, n: Node, r: Bits, t: Bits)
    requires EndBits(m, r) == EndBits(n, t)
    ensures m.content == n.content && m.created == n.created && r == t
  {
    StringFirst(m.content, n.content, IntBits(m.created) + r, IntBits(n.created) + t);
    IntFirst(m.created, n.created, r, t);
  }

  function MiddleBits(n: Node, r: Bits): Bits
    requires n.Reply?
  {
    IdBits(n.parent) + (IdBits(n.community) + (NatBits(n.depth) + EndBits(n, r)))
  }

  lemma NodeUnfolded(n: Node, r: Bits)
    ensures NodeBits(n) + r ==
            match n
            case Identity(_, _) => [false] + EndBits(n, r)
            case Community(author, _, _) => [true, false] + (IdBits(author) + EndBits(n, r))
            case Reply(author, _, _, _, _, _) => [true, true] + (IdBits(author) + MiddleBits(n, r))
  {
  }

  lemma {:induction false} NodeFirst(m: Node, n: Node, r: Bits, t: Bits)
    requires NodeBits(m) + r == NodeBits(n) + t
    ensures m == n && r == t
    decreases m
  {
    NodeUnfolded(m, r);
    NodeUnfolded(n, t);
    var x, y := NodeBits(m) + r, NodeBits(n) + t;
    assert x[0] == !m.Identity? && y[0] == !n.Identity?;
    assert !m.Identity? ==> x[1] == m.Reply?;
    assert !n.Identity? ==> y[1] == n.Reply?;
    if m.Identity? {
      SameTail([false], EndBits(m, r), EndBits(n, t));
    } else if m.Community? {
      SameTail([true, false], IdBits(m.author) + EndBits(m, r), IdBits(n.author) + EndBits(n, t));
      IdFirst(m.author, n.author, EndBits(m, r), EndBits(n, t));
    } else {
      SameTail([true, true], IdBits(m.author) + MiddleBits(m, r), IdBits(n.author) + MiddleBits(n, t));
      IdFirst(m.author, n.author, MiddleBits(m, r), MiddleBits(n, t));
      IdFirst(m.parent, n.parent, IdBits(m.community) + (NatBits(m.depth) + EndBits(m, r)),
              IdBits(n.community) + (NatBits(n.depth) + EndBits(n, t)));
      IdFirst(m.community, n.community, NatBits(m.depth) + EndBits(m, r), NatBits(n.depth) + EndBits(n, t));
      NatFirst(m.depth, n.depth, EndBits(m, r), EndBits(n, t));
    }
    EndFirst(m, n, r, t);
  }

  // ---------- A schema ----------

  function TextOf(bits: Bits): string {
    seq(|bits|, i requires 0 <= i < |bits| => if bits[i] then '1' else '0')
  }

  function BytesOf(bits: Bits): seq<byte> {
    seq(|bits|, i requires 0 <= i < |bits| => if bits[i] then 1 else 0)
  }

  ghost function IdWith(s: string): Option<Id> {
    if i :| TextOf(IdBits(i)) == s then Some(i) else None
  }

  ghost function NodeWith(bytes: seq<byte>): Option<Node> {
    if n :| BytesOf(NodeBits(n)) == bytes then Some(n) else None
  }

  lemma TextIsBits(x: Bits, y: Bits)
    requires TextOf(x) == TextOf(y) || BytesOf(x) == BytesOf(y)
    ensures x == y
  {
    assert |x| == |TextOf(x)| == |BytesOf(x)| && |y| == |TextOf(y)| == |BytesOf(y)|;
    forall i | 0 <= i < |x| ensures x[i] == y[i] {
      assert x[i] == (TextOf(x)[i] == '1') == (BytesOf(x)[i] == 1);
      assert y[i] == (TextOf(y)[i] == '1') == (BytesOf(y)[i] == 1);
    }
  }

  lemma IdWithText(i: Id)
    ensures IdWith(TextOf(IdBits(i))) == Some(i)
  {
    var j := IdWith(TextOf(IdBits(i))).value;
    TextIsBits(IdBits(i), IdBits(j));
    assert IdBits(i) + [] == IdBits(j) + [];
    IdFirst(i, j, [], []);
  }

  lemma NodeWithBytes(n: Node)
    ensures NodeWith(BytesOf(NodeBits(n))) == Some(n)
  {
    var m := NodeWith(BytesOf(NodeBits(n))).value;
    TextIsBits(NodeBits(n), NodeBits(m));
    assert NodeBits(n) + [] == NodeBits(m) + [];
    NodeFirst(n, m, [], []);
  }

  /** There are id texts and marshalled forms as the wire format needs them. */
  lemma LawfulExists() returns (sc: Schema)
    ensures Lawful(sc)
  {
    sc := Schema(i => TextOf(IdBits(i)), s => IdWith(s), n => BytesOf(NodeBits(n)), bytes => NodeWith(bytes));
    forall i ensures IsWord(sc.idText(i)) && sc.parseId(sc.idText(i)) == Some(i) {
      IdWithText(i);
    }
    forall n ensures sc.marshal(n) != [] && sc.unmarshal(sc.marshal(n)) == Some(n) {
      NodeWithBytes(n);
    }
  }
}
