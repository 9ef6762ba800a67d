/** The set in which the relay remembers for a while what it wrote itself. Expired elements stay
  in the map until the next call purges them. */
module ExpiringSets {
  import opened Wrappers

  /** What purging at `now` leaves: elements whose expiration is not before `now`. */
  function Purged(elements: map<string, int>, now: int): map<string, int> {
    map e | e in elements && elements[e] >= now :: elements[e]
  }

  class ExpiringSet {
    var elements: map<string, int>

    constructor ()
      ensures elements == map[]
    {
      elements := map[];
    }

    method Purge(now: int)
      modifies this
      ensures elements == Purged(old(elements), now)
    {
      var rest := elements.Keys;
      while rest != {}
        invariant rest <= old(elements).Keys
        invariant elements == map e | e in old(elements) && (e in rest || old(elements)[e] >= now) :: old(elements)[e]
        decreases rest
      {
        var key :| key in rest;
        if elements[key] < now {
          elements := elements - {key};
        }
        rest := rest - {key};
      }
    }

    /** The clock is sampled twice: once to purge and once to date the element. */
    method Add(element: string, lifetime: int, purgeTime: int, addTime: int)
      modifies this
      ensures elements == Purged(old(elements), purgeTime)[element := addTime + lifetime]
    {
      Purge(purgeTime);
      elements := elements[element := addTime + lifetime];
    }

    method Has(element: string, now: int) returns (has: bool)
      modifies this
      ensures elements == Purged(old(elements), now)
      ensures has <==> element in elements
    {
      Purge(now);
      has := element in elements;
    }
  }

  // ---------- Histories of steps ----------

  /** What a call does under one hold of the lock. Purging samples the clock before it takes the
    lock, so with concurrent calls purges need not come in the order of their times. */
  datatype Step = Purge(now: int) | Put(element: string, expiration: int)

  function Elements(history: seq<Step>): map<string, int> {
    if history == [] then map[] else
    var before := Elements(history[..|history| - 1]);
    match history[|history| - 1]
    case Purge(now) => Purged(before, now)
    case Put(e, expiration) => before[e := expiration]
  }

  /** The expiration set by the latest addition of `e`, if there was one. */
  function LatestExpiration(history: seq<Step>, e: string): Option<int> {
    if history == [] then None else
    var last := history[|history| - 1];
    if last.Put? && last.element == e then Some(last.expiration)
    else LatestExpiration(history[..|history| - 1], e)
  }

  /** The times of the purges after the latest addition of `e`. */
  function PurgesSince(history: seq<Step>, e: string): set<int> {
    if history == [] then {} else
    var before := PurgesSince(history[..|history| - 1], e);
    match history[|history| - 1]
    case Purge(now) => before + {now}
    case Put(f, _) => if f == e then {} else before
  }

  predicate Outlasts(expiration: int, purges: set<int>) {
    forall t :: t in purges ==> t <= expiration
  }

  /** Whatever the clock does and however calls interleave, an element is present exactly when the
    expiration set by its latest addition is not before any purge since. */
  lemma {:induction false} PresenceExact(history: seq<Step>, e: string)
    ensures e in Elements(history)
       <==> LatestExpiration(history, e).Some? && Outlasts(LatestExpiration(history, e).value, PurgesSince(history, e))
    ensures e in Elements(history) ==> LatestExpiration(history, e) == Some(Elements(history)[e])
    decreases |history|
  {
    if history != [] {
      PresenceExact(history[..|history| - 1], e);
    }
  }

  /** Asking at `now` whether an added element is present tells whether it has expired, except
    exactly when it has not and some purge since its addition was dated after its expiration. */
  lemma {:induction false} LazyPurgeExact(history: seq<Step>, e: string, now: int)
    requires LatestExpiration(history, e).Some?
    ensures var expiration := LatestExpiration(history, e).value;
            (e in Elements(history + [Purge(now)]) <==> now <= expiration) <==>
            (now <= expiration ==> Outlasts(expiration, PurgesSince(history, e)))
  {
    var all := history + [Purge(now)];
    assert all[..|all| - 1] == history;
    PresenceExact(history, e);
    PresenceExact(all, e);
  }

  // ---------- Histories of calls ----------

  datatype Call =
    | Add(element: string, lifetime: int, purgeTime: int, addTime: int)
    | Has(element: string, now: int)

  function StepsOf(calls: seq<Call>): seq<Step> {
    if calls == [] then [] else
    StepsOf(calls[..|calls| - 1]) +
    match calls[|calls| - 1]
    case Add(e, lifetime, t, u) => [Purge(t), Put(e, u + lifetime)]
    case Has(_, t) => [Purge(t)]
  }

  /** The answers to the calls of Has, in order. */
  function Answers(calls: seq<Call>): seq<bool> {
    if calls == [] then [] else
    var last := calls[|calls| - 1];
    Answers(calls[..|calls| - 1]) + if last.Has? then [last.element in Elements(StepsOf(calls))] else []
  }

  method Apply(s: ExpiringSet, calls: seq<Call>, k: nat) returns (answer: seq<bool>)
    requires k < |calls| && s.elements == Elements(StepsOf(calls[..k]))
    modifies s
    ensures s.elements == Elements(StepsOf(calls[..k + 1]))
    ensures answer == if calls[k].Has? then [calls[k].element in s.elements] else []
  {
    CallSteps(calls, k);
    match calls[k] {
      case Add(e, lifetime, t, u) =>
        s.Add(e, lifetime, t, u);
        return [];
      case Has(e, t) =>
        var has := s.Has(e, t);
        return [has];
    }
  }

  /** Whatever calls are made, the set holds what the steps they consist of leave, and questions are
    answered accordingly. */
  method Replay(calls: seq<Call>) returns (s: ExpiringSet, answers: seq<bool>)
    ensures fresh(s) && s.elements == Elements(StepsOf(calls)) && answers == Answers(calls)
  {
    s := new ExpiringSet();
    answers := [];
    for k := 0 to |calls|
      invariant fresh(s) && s.elements == Elements(StepsOf(calls[..k])) && answers == Answers(calls[..k])
    {
      assert calls[..k + 1][..k] == calls[..k];
      var answer := Apply(s, calls, k);
      answers := answers + answer;
    }
    assert calls[..|calls|] == calls;
  }

  lemma CallSteps(calls: seq<Call>, k: nat)
    requires k < |calls|
    ensures var before := Elements(StepsOf(calls[..k]));
            Elements(StepsOf(calls[..k + 1])) ==
            match calls[k]
            case Add(e, lifetime, t, u) => Purged(before, t)[e := u + lifetime]
            case Has(_, t) => Purged(before, t)
  {
    var h, all := StepsOf(calls[..k]), StepsOf(calls[..k + 1]);
    assert calls[..k + 1][..k] == calls[..k];
    match calls[k]
    case Add(e, lifetime, t, u) =>
      assert all[..|all| - 1] == h + [Purge(t)] && (h + [Purge(t)])[..|h|] == h;
      assert Elements(h + [Purge(t)]) == Purged(Elements(h), t);
    case Has(_, t) =>
      assert all[..|all| - 1] == h;
  }

  function Begin(c: Call): int {
    if c.Add? then c.purgeTime else c.now
  }

  function End(c: Call): int {
    if c.Add? then c.addTime else c.now
  }

  /** The clock never goes back, within a call or between calls. */
  ghost predicate ClockAdvances(calls: seq<Call>) {
    && (forall k :: 0 <= k < |calls| ==> Begin(calls[k]) <= End(calls[k]))
    && forall j, k :: 0 <= j < k < |calls| ==> End(calls[j]) <= Begin(calls[k])
  }

  predicate BegunAt(calls: seq<Call>, t: int) {
    exists k :: 0 <= k < |calls| && t == Begin(calls[k])
  }

  lemma {:induction false} PurgesAreBegun(calls: seq<Call>, e: string, t: int)
    requires t in PurgesSince(StepsOf(calls), e)
    ensures BegunAt(calls, t)
    decreases |calls|
  {
    var n := |calls| - 1;
    var before, steps := StepsOf(calls[..n]), StepsOf(calls);
    if calls[n].Add? {
      assert steps[..|steps| - 1] == before + [Purge(calls[n].purgeTime)];
      assert (before + [Purge(calls[n].purgeTime)])[..|before|] == before;
    } else {
      assert steps[..|steps| - 1] == before;
    }
    if t == Begin(calls[n]) {
      assert BegunAt(calls, t);
    } else {
      PurgesAreBegun(calls[..n], e, t);
      var k :| 0 <= k < n && t == Begin(calls[..n][k]);
      assert t == Begin(calls[k]);
    }
  }

  /** Lazy purging is invisible: under a clock that does not go back, asking whether `e` is present
    is answered by the latest addition of `e` alone, no matter which calls purged in between. */
  lemma {:induction false} LazyPurgeInvisible(calls: seq<Call>, e: string, now: int)
    requires ClockAdvances(calls + [Has(e, now)])
    ensures e in Elements(StepsOf(calls + [Has(e, now)]))
       <==> LatestExpiration(StepsOf(calls), e).Some? && LatestExpiration(StepsOf(calls), e).value >= now
  {
    var all, history := calls + [Has(e, now)], StepsOf(calls);
    assert all[..|calls|] == calls && StepsOf(all) == history + [Purge(now)];
    assert (history + [Purge(now)])[..|history|] == history;
    forall t | t in PurgesSince(history, e) ensures t <= now {
      PurgesAreBegun(calls, e, t);
      var k :| 0 <= k < |calls| && t == Begin(calls[k]);
      assert t == Begin(all[k]) <= End(all[k]) <= Begin(all[|calls|]);
    }
    PresenceExact(history, e);
    PresenceExact(history + [Purge(now)], e);
  }

  /** The clock assumption is needed: a later call with an earlier time sees the purge. */
  lemma BackwardClockShowsPurge()
    ensures var history := StepsOf([Add("a", 1, 0, 0), Has("a", 5)]);
            && LatestExpiration(history, "a") == Some(1)
            && "a" !in Elements(history + [Purge(0)])
  {
    var c0, c1 := [Add("a", 1, 0, 0)], [Add("a", 1, 0, 0), Has("a", 5)];
    var h1, h2, h3 := [Purge(0)], [Purge(0), Put("a", 1)], [Purge(0), Put("a", 1), Purge(5)];
    assert c0[..0] == [] && StepsOf(c0) == h2;
    assert c1[..1] == c0 && StepsOf(c1) == h3;
    assert h2[..1] == h1 && LatestExpiration(h2, "a") == Some(1);
    assert h3[..2] == h2 && LatestExpiration(h3, "a") == Some(1) && 5 in PurgesSince(h3, "a");
    LazyPurgeExact(h3, "a", 0);
  }
}
