/** The subscriptions of one connection.

  The program keys its map by pointer and compares what the pointers lead to. Every message
  that is parsed, and every call of a node's ID method, allocates a new hash, so subscribing
  twice to one community leaves two entries: a session is a bag of ids, not a set.
*/
module SessionState {
  import opened Forest

  class HashRef {
    const id: Id

    constructor (id: Id)
      ensures this.id == id
    {
      this.id := id;
    }
  }

  function Entries(communities: set<HashRef>, id: Id): set<HashRef> {
    set r | r in communities && r.id == id
  }

  class Session {
    var communities: set<HashRef>

    constructor ()
      ensures communities == {}
    {
      communities := {};
    }

    function Count(id: Id): nat
      reads this
    {
      |Entries(communities, id)|
    }

    method Subscribe(community: HashRef)
      modifies this
      ensures communities == old(communities) + {community}
      ensures community !in old(communities) ==> Count(community.id) == old(Count(community.id)) + 1
      ensures forall id :: id != community.id ==> Count(id) == old(Count(id))
    {
      communities := communities + {community};
      assert Entries(communities, community.id) == Entries(old(communities), community.id) + {community};
      assert forall id :: id != community.id ==> Entries(communities, id) == Entries(old(communities), id);
    }

    method IsSubscribed(id: Id) returns (found: bool)
      ensures found <==> Count(id) > 0
    {
      var rest := communities;
      while rest != {}
        invariant Entries(communities, id) == Entries(rest, id)
        decreases rest
      {
        var community :| community in rest;
        if community.id == id {
          assert community in Entries(communities, id);
          return true;
        }
        rest := rest - {community};
      }
      return false;
    }

    method Unsubscribe(id: Id)
      modifies this
      ensures communities <= old(communities)
      ensures Count(id) == if old(Count(id)) == 0 then 0 else old(Count(id)) - 1
      ensures forall other :: other != id ==> Count(other) == old(Count(other))
    {
      var rest := communities;
      while rest != {}
        invariant communities == old(communities)
        invariant rest <= communities && Entries(communities, id) == Entries(rest, id)
        decreases rest
      {
        var community :| community in rest;
        if community.id == id {
          communities := communities - {community};
          assert Entries(old(communities), id) == Entries(communities, id) + {community};
          assert forall other :: other != id ==> Entries(communities, other) == Entries(old(communities), other);
          return;
        }
        rest := rest - {community};
      }
    }
  }

  // ---------- Histories ----------

  datatype Op = Sub(id: Id) | Unsub(id: Id) | Ask(id: Id)

  /** Subscriptions of `id` still outstanding after the history. */
  function Outstanding(history: seq<Op>, id: Id): nat {
    if history == [] then 0 else
    var before := Outstanding(history[..|history| - 1], id);
    match history[|history| - 1]
    case Sub(i) => if i == id then before + 1 else before
    case Unsub(i) => if i == id && before > 0 then before - 1 else before
    case Ask(_) => before
  }

  /** Membership if the session were a plain set. */
  predicate InPlainSet(history: seq<Op>, id: Id) {
    history != [] &&
    var before := history[..|history| - 1];
    match history[|history| - 1]
    case Sub(i) => i == id || InPlainSet(before, id)
    case Unsub(i) => i != id && InPlainSet(before, id)
    case Ask(_) => InPlainSet(before, id)
  }

  /** What the queries of a history are answered, given how memberships are decided. */
  function Answers(history: seq<Op>, counting: bool): seq<bool> {
    if history == [] then [] else
    var before, last := history[..|history| - 1], history[|history| - 1];
    Answers(before, counting) +
    if !last.Ask? then [] else [if counting then Outstanding(before, last.id) > 0 else InPlainSet(before, last.id)]
  }

  /** Whatever a connection does with its session, every community is counted exactly, and queries
    are answered by the counts. */
  method Replay(history: seq<Op>) returns (session: Session, answers: seq<bool>)
    ensures fresh(session)
    ensures forall id :: session.Count(id) == Outstanding(history, id)
    ensures answers == Answers(history, true)
  {
    session := new Session();
    answers := [];
    assert forall id :: Entries(session.communities, id) == {};
    for k := 0 to |history|
      invariant fresh(session) && forall r :: r in session.communities ==> fresh(r)
      invariant forall id :: session.Count(id) == Outstanding(history[..k], id)
      invariant answers == Answers(history[..k], true)
    {
      assert history[..k + 1][..k] == history[..k];
      match history[k] {
        case Sub(id) =>
          var ref := new HashRef(id);
          session.Subscribe(ref);
        case Unsub(id) =>
          session.Unsubscribe(id);
        case Ask(id) =>
          var found := session.IsSubscribed(id);
          answers := answers + [found];
      }
    }
    assert history[..|history|] == history;
  }

  /** The last thing to happen to `id` in the first `k` operations was an unsubscribe, at position
    `j`, that found more than one subscription of it outstanding. */
  predicate LeftDoubled(history: seq<Op>, j: nat, k: nat, id: Id)
    requires j < k <= |history|
  {
    && history[j] == Unsub(id) && Outstanding(history[..j], id) > 1
    && forall i :: j < i < k ==> history[i] != Sub(id) && history[i] != Unsub(id)
  }

  ghost predicate EverLeftDoubled(history: seq<Op>, k: nat, id: Id)
    requires k <= |history|
  {
    exists j: nat :: j < k && LeftDoubled(history, j, k, id)
  }

  lemma LeftDoubledStays(history: seq<Op>, k: nat, id: Id)
    requires k < |history| && history[k] != Sub(id) && history[k] != Unsub(id)
    ensures EverLeftDoubled(history, k + 1, id) <==> EverLeftDoubled(history, k, id)
  {
    if j: nat :| j < k && LeftDoubled(history, j, k, id) {
      assert LeftDoubled(history, j, k + 1, id);
    }
    var next := k + 1;
    if j: nat :| j < next && LeftDoubled(history, j, next, id) {
      assert LeftDoubled(history, j, k, id);
    }
  }

  ghost predicate AgreesWithSet(history: seq<Op>, id: Id) {
    Outstanding(history, id) > 0 <==> InPlainSet(history, id)
  }

  /** Counter and set disagree about a community exactly when the last unsubscribe of it, with no
    subscribe since, found it doubled. */
  lemma {:induction false} DisagreementExact(history: seq<Op>, k: nat, id: Id)
    requires k <= |history|
    ensures AgreesWithSet(history[..k], id) <==> !EverLeftDoubled(history, k, id)
    ensures InPlainSet(history[..k], id) ==> Outstanding(history[..k], id) > 0
    decreases k
  {
    if k > 0 {
      assert history[..k][..k - 1] == history[..k - 1];
      DisagreementExact(history, k - 1, id);
      if history[k - 1] == Unsub(id) {
        assert Outstanding(history[..k - 1], id) > 1 ==> LeftDoubled(history, k - 1, k, id);
      } else if history[k - 1] != Sub(id) {
        LeftDoubledStays(history, k - 1, id);
      }
    }
  }

  /** The operation at `k` is a query that finds its community left doubled. */
  ghost predicate ShowsDoubling(history: seq<Op>, k: nat)
    requires k < |history|
  {
    history[k].Ask? && EverLeftDoubled(history, k, history[k].id)
  }

  ghost predicate DoublingHidden(history: seq<Op>, n: nat)
    requires n <= |history|
  {
    forall k: nat :: k < n ==> !ShowsDoubling(history, k)
  }

  lemma NothingShown(history: seq<Op>, k: nat)
    requires k < |history|
    ensures DoublingHidden(history, k + 1) <==> DoublingHidden(history, k) && !ShowsDoubling(history, k)
  {}

  lemma AppendedEqual(a: seq<bool>, b: seq<bool>, x: bool, y: bool)
    requires |a| == |b|
    ensures a + [x] == b + [y] <==> a == b && x == y
  {
    assert (a + [x])[..|a|] == a && (b + [y])[..|b|] == b;
    assert (a + [x])[|a|] == x && (b + [y])[|b|] == y;
  }

  lemma {:induction false} SameAnswers(history: seq<Op>, n: nat)
    requires n <= |history|
    ensures |Answers(history[..n], true)| == |Answers(history[..n], false)|
    ensures Answers(history[..n], true) == Answers(history[..n], false)
       <==> DoublingHidden(history, n)
    decreases n
  {
    if n == 0 {
      assert history[..0] == [] && Answers([], true) == Answers([], false) == [];
    } else {
      var before, last := history[..n - 1], history[n - 1];
      assert history[..n][..n - 1] == before;
      SameAnswers(history, n - 1);
      if last.Ask? {
        DisagreementExact(history, n - 1, last.id);
        AppendedEqual(Answers(before, true), Answers(before, false),
                      Outstanding(before, last.id) > 0, InPlainSet(before, last.id));
        assert Answers(history[..n], true) == Answers(before, true) + [Outstanding(before, last.id) > 0];
        assert Answers(history[..n], false) == Answers(before, false) + [InPlainSet(before, last.id)];
        assert ShowsDoubling(history, n - 1) <==> !AgreesWithSet(before, last.id);
      } else {
        assert Answers(history[..n], true) == Answers(before, true);
        assert Answers(history[..n], false) == Answers(before, false);
        assert !ShowsDoubling(history, n - 1);
      }
      NothingShown(history, n - 1);
    }
  }

  /** The session answers every query of a history like a plain set exactly when no query finds a
    community that the last unsubscribe has left doubled. */
  lemma SetRefinementExact(history: seq<Op>)
    ensures Answers(history, true) == Answers(history, false)
       <==> DoublingHidden(history, |history|)
  {
    SameAnswers(history, |history|);
    assert history[..|history|] == history;
  }

  /** Two subscriptions, one unsubscription: the session still says yes. */
  lemma DoublingMayShow(x: Id)
    ensures Answers([Sub(x), Sub(x), Unsub(x), Ask(x)], true) == [true]
    ensures Answers([Sub(x), Sub(x), Unsub(x), Ask(x)], false) == [false]
  {
    var h1, h2, h3 := [Sub(x)], [Sub(x), Sub(x)], [Sub(x), Sub(x), Unsub(x)];
    var h := [Sub(x), Sub(x), Unsub(x), Ask(x)];
    assert h1[..0] == [];
    assert Outstanding(h1, x) == 1 && Answers(h1, true) == Answers(h1, false) == [];
    assert h2[..1] == h1;
    assert Outstanding(h2, x) == 2 && Answers(h2, true) == Answers(h2, false) == [];
    assert h3[..2] == h2;
    assert Outstanding(h3, x) == 1 && !InPlainSet(h3, x) && Answers(h3, true) == Answers(h3, false) == [];
    assert h[..3] == h3;
  }
}
