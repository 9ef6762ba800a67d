/** Ingestion as programs of atomic store accesses and blocking requests.

  IngestNode and synchronizeFullTree run in goroutines that share one store, so between any
  two of the instructions below every other goroutine may move. A program is what such a
  goroutine still has to do; executing its first instruction either finishes it, replaces it
  by further instructions, inserts a node, or ends the run with an error.
*/
module Ingestion {
  import opened Forest

  datatype Instr =
    | EnsureAuthor(node: Node)      // look the author up in the store
    | AwaitAuthor(author: Id)       // blocked on a query for one author
    | Validate(node: Node)          // deep validation, an error when it fails
    | Add(node: Node)
    | FetchUnlessValid(node: Node)  // deep validation, fetching the ancestry when it fails
    | AwaitAncestry(node: Node)     // blocked on the ancestry request of an ingestion
    | Fill(node: Node)              // one turn of the loop over a fetched ancestry
    | CheckLeaf(node: Node)         // one turn of the loop over fetched leaves
    | AwaitLineage(node: Node)      // blocked on the ancestry request of a synchronization
    | AwaitLeaves(root: Node, max: nat)
    | AnnounceLeaves(root: Node)    // tell the peer about our own leaves

  type Program = seq<Instr>

  /** What a request comes back with; NoAnswer stands for timeouts, error statuses and
    closed connections. */
  datatype Answer = Response(nodes: seq<Node>) | NoAnswer

  datatype Failure = RequestFailed | WrongAuthorCount(count: nat) | Invalid(node: Node)

  datatype Outcome =
    | Continue(next: Program)
    | Insert(node: Node)
    | Announce(nodes: Nodes)
    | Abort(why: Failure)

  function Ingest(n: Node): Program {
    [EnsureAuthor(n), FetchUnlessValid(n), Add(n)]
  }

  function Synchronize(root: Node, max: nat): Program {
    [AwaitLeaves(root, max)]
  }

  /** Joining a community adds it without validation. */
  function Enter(community: Node): Program {
    [EnsureAuthor(community), Add(community)]
  }

  function Join(community: Node, max: nat): Program {
    Enter(community) + [AwaitLeaves(community, max)]
  }

  function Secure(n: Node): Program {
    [EnsureAuthor(n), Validate(n), Add(n)]
  }

  function SecureAll(ns: seq<Node>): Program {
    if ns == [] then [] else Secure(ns[0]) + SecureAll(ns[1..])
  }

  function FillAll(ns: seq<Node>): Program {
    seq(|ns|, i requires 0 <= i < |ns| => Fill(ns[i]))
  }

  function CheckLeaves(ns: seq<Node>): Program {
    seq(|ns|, i requires 0 <= i < |ns| => CheckLeaf(ns[i]))
  }

  /** The stored nodes below `root` without a stored child. */
  function Leaves(s: Nodes, root: Id): Nodes {
    set n | n in Descendants(s, root) && forall m :: m in s ==> m.ParentId() != HashOf(n)
  }

  /** One atomic step of a run. The answer is used by the blocking instructions only; for
    AwaitLineage it is the answer as the depth sort leaves it. */
  function Exec(i: Instr, s: Nodes, answer: Answer): Outcome {
    match i
    case EnsureAuthor(n) =>
      if n.Identity? || Has(s, n.author) then Continue([]) else Continue([AwaitAuthor(n.author)])
    case AwaitAuthor(_) =>
      if answer.NoAnswer? then Abort(RequestFailed)
      else if |answer.nodes| != 1 then Abort(WrongAuthorCount(|answer.nodes|))
      else Continue([Validate(answer.nodes[0]), Add(answer.nodes[0])])
    case Validate(n) =>
      if ValidDeep(n, s) then Continue([]) else Abort(Invalid(n))
    case Add(n) => Insert(n)
    case FetchUnlessValid(n) =>
      if ValidDeep(n, s) then Continue([]) else Continue([AwaitAncestry(n), Validate(n)])
    case AwaitAncestry(_) =>
      if answer.NoAnswer? then Abort(RequestFailed) else Continue(FillAll(answer.nodes))
    case Fill(n) =>
      if n in s then Continue([]) else Continue(Secure(n))
    case CheckLeaf(n) =>
      if n in s then Continue([]) else Continue([AwaitLineage(n)])
    case AwaitLineage(n) =>
      if answer.NoAnswer? then Abort(RequestFailed) else Continue(SecureAll(answer.nodes + [n]))
    case AwaitLeaves(root, _) =>
      if answer.NoAnswer? then Abort(RequestFailed)
      else Continue([AnnounceLeaves(root)] + CheckLeaves(answer.nodes))
    case AnnounceLeaves(root) => Announce(Leaves(s, HashOf(root)))
  }

  function StoreAfter(s: Nodes, o: Outcome): Nodes {
    if o.Insert? then s + {o.node} else s
  }

  function Remaining(p: Program, o: Outcome): Program
    requires p != []
  {
    match o
    case Continue(next) => next + p[1..]
    case Abort(_) => []
    case _ => p[1..]
  }

  // ---------- Closure: whatever peers answer ----------

  predicate Checks(i: Instr, n: Node) {
    i == Validate(n) || i == FetchUnlessValid(n)
  }

  /** Every insertion comes right after a check of the same node. */
  predicate Chained(p: Program) {
    forall k :: 0 < k < |p| && p[k].Add? ==> Checks(p[k - 1], p[k].node)
  }

  /** A program about to insert a node has seen that node's dependencies in the store. */
  predicate Guarded(p: Program, s: Nodes) {
    Chained(p) && (p != [] && p[0].Add? ==> ValidDeep(p[0].node, s))
  }

  lemma {:induction false} SecureAllChained(ns: seq<Node>)
    ensures Chained(SecureAll(ns))
    ensures ns != [] ==> SecureAll(ns) != [] && SecureAll(ns)[0].EnsureAuthor?
    decreases |ns|
  {
    if ns != [] {
      SecureAllChained(ns[1..]);
      var p, rest := SecureAll(ns), SecureAll(ns[1..]);
      assert p == Secure(ns[0]) + rest;
      assert rest != [] ==> p[3] == rest[0];
      forall k | 0 < k < |p| && p[k].Add? ensures Checks(p[k - 1], p[k].node) {
        if k > 3 {
          assert p[k] == rest[k - 3] && p[k - 1] == rest[k - 4];
        }
      }
    }
  }

  /** After the outcome the rest of the program is guarded, and what was inserted was valid. */
  predicate KeepsGuard(p: Program, s: Nodes, o: Outcome)
    requires p != []
  {
    Guarded(Remaining(p, o), StoreAfter(s, o)) && (o.Insert? ==> ValidDeep(o.node, s))
  }

  lemma {:induction false} ExecKeepsGuard(p: Program, s: Nodes, answer: Answer)
    requires p != [] && Guarded(p, s)
    ensures KeepsGuard(p, s, Exec(p[0], s, answer))
  {
    var rest := p[1..];
    assert forall k :: 0 < k < |rest| ==> rest[k] == p[k + 1] && rest[k - 1] == p[k];
    assert rest != [] && rest[0].Add? ==> Checks(p[0], rest[0].node);
    match Exec(p[0], s, answer)
    case Continue(next) =>
      if p[0].AwaitLineage? {
        SecureAllChained(answer.nodes + [p[0].node]);
      }
      var q := next + rest;
      forall k | 0 < k < |q| && q[k].Add? ensures Checks(q[k - 1], q[k].node) {
        if k < |next| {
          assert q[k] == next[k] && q[k - 1] == next[k - 1];
        } else if k == |next| {
          assert q[k] == rest[0];
        } else {
          assert q[k] == rest[k - |next|] && q[k - 1] == rest[k - 1 - |next|];
        }
      }
    case _ =>
  }
}
