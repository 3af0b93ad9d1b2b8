/**
 * How long a list of mining rounds may be served from the cache. Times are milliseconds; None is absent or unparsable.
 */
module RoundCache {
  import opened Sequences
  import opened Wrappers
  import opened SingleFlight

  datatype Round = Round(contractId: string, opensAt: Option<int>, targetClosesAt: Option<int>)

  predicate IsActive(r: Round, time: int) {
    r.opensAt.Some? && r.targetClosesAt.Some? && r.opensAt.value <= time < r.targetClosesAt.value
  }

  /** The filter of getActiveOpenMiningRound. */
  function Active(rounds: seq<Round>, time: int): seq<Round> {
    if rounds == [] then []
    else if IsActive(rounds[0], time) then [rounds[0]] + Active(rounds[1..], time)
    else Active(rounds[1..], time)
  }

  predicate BoundaryOf(r: Round, time: int) {
    r.opensAt == Some(time) || r.targetClosesAt == Some(time)
  }

  predicate Boundary(rounds: seq<Round>, time: int) {
    exists i :: 0 <= i < |rounds| && BoundaryOf(rounds[i], time)
  }

  /** The earliest boundary after now, or now if there is none. */
  ghost predicate IsNextChange(rounds: seq<Round>, now: int, next: int) {
    && next >= now
    && (next > now ==> Boundary(rounds, next))
    && forall b :: Boundary(rounds, b) && b > now ==> now < next <= b
  }

  /** None stands for positive infinity. */
  function Earlier(next: Option<int>, time: Option<int>, now: int): Option<int> {
    if time.Some? && time.value > now && (next.None? || time.value < next.value) then time else next
  }

  method ComputeNextChangeAt(rounds: seq<Round>, now: int) returns (r: int)
    ensures IsNextChange(rounds, now, r)
  {
    var next: Option<int> := None;
    for i := 0 to |rounds|
      invariant next.Some? ==> next.value > now && exists j :: 0 <= j < i && BoundaryOf(rounds[j], next.value)
      invariant forall j, b :: 0 <= j < i && BoundaryOf(rounds[j], b) && b > now ==> next.Some? && next.value <= b
    {
      var round := rounds[i];
      next := Earlier(next, round.opensAt, now);
      next := Earlier(next, round.targetClosesAt, now);
    }
    r := match next case None => now case Some(t) => t;
  }

  lemma {:induction false} ActiveMembers(rounds: seq<Round>, time: int)
    ensures forall r :: r in Active(rounds, time) <==> r in rounds && IsActive(r, time)
  {
    if rounds != [] {
      ActiveMembers(rounds[1..], time);
      assert rounds == [rounds[0]] + rounds[1..];
    }
  }

  /** The active rounds of a time are, in their order, those that have opened by then and close only later. */
  lemma {:induction false} ActiveKeeps(rounds: seq<Round>, time: int) returns (at: seq<nat>)
    ensures Places(at, rounds, Active(rounds, time))
    ensures forall k :: 0 <= k < |rounds| ==>
      (k in at <==>
        exists open, close :: rounds[k].opensAt == Some(open) && rounds[k].targetClosesAt == Some(close)
          && open <= time < close)
  {
    if rounds == [] {
      at := [];
    } else {
      var rest := ActiveKeeps(rounds[1..], time);
      var later := Shifted(rest, rounds, Active(rounds[1..], time));
      at := if IsActive(rounds[0], time) then [0] + later else later;
      forall k | 0 <= k < |rounds|
        ensures k in at <==> IsActive(rounds[k], time)
      {
        ShiftedMembers(rest, later, k);
        assert k > 0 ==> rounds[k] == rounds[1..][k - 1];
      }
    }
  }

  lemma {:induction false} SameActive(rounds: seq<Round>, t: int, u: int)
    requires forall i :: 0 <= i < |rounds| ==> (IsActive(rounds[i], t) <==> IsActive(rounds[i], u))
    ensures Active(rounds, t) == Active(rounds, u)
  {
    if rounds != [] {
      SameActive(rounds[1..], t, u);
    }
  }

  lemma RoundBoundaries(rounds: seq<Round>, i: nat)
    requires i < |rounds|
    ensures rounds[i].opensAt.Some? ==> Boundary(rounds, rounds[i].opensAt.value)
    ensures rounds[i].targetClosesAt.Some? ==> Boundary(rounds, rounds[i].targetClosesAt.value)
  {
    assert rounds[i].opensAt.Some? ==> BoundaryOf(rounds[i], rounds[i].opensAt.value);
    assert rounds[i].targetClosesAt.Some? ==> BoundaryOf(rounds[i], rounds[i].targetClosesAt.value);
  }

  /** Until the next change the rounds that are active are those that were active when the time was computed. */
  lemma WindowIsValid(rounds: seq<Round>, now: int, next: int, time: int)
    requires IsNextChange(rounds, now, next) && now <= time < next
    ensures Active(rounds, time) == Active(rounds, now)
  {
    forall i | 0 <= i < |rounds|
      ensures IsActive(rounds[i], time) <==> IsActive(rounds[i], now)
    {
      RoundBoundaries(rounds, i);
    }
    SameActive(rounds, time, now);
  }

  /** A round that is ever active. */
  predicate Proper(r: Round) {
    r.opensAt.Some? && r.targetClosesAt.Some? && r.opensAt.value < r.targetClosesAt.value
  }

  /** At the next change the active rounds differ exactly if a round that is ever active opens or closes there. */
  lemma WindowIsTight(rounds: seq<Round>, now: int, next: int)
    requires IsNextChange(rounds, now, next) && next > now
    ensures Active(rounds, next) != Active(rounds, now) <==>
      exists i :: 0 <= i < |rounds| && Proper(rounds[i]) && BoundaryOf(rounds[i], next)
  {
    ActiveMembers(rounds, now);
    ActiveMembers(rounds, next);
    forall i | 0 <= i < |rounds|
      ensures (IsActive(rounds[i], now) <==> IsActive(rounds[i], next)) <==>
        !(Proper(rounds[i]) && BoundaryOf(rounds[i], next))
    {
      RoundBoundaries(rounds, i);
    }
    if forall i :: 0 <= i < |rounds| ==> !(Proper(rounds[i]) && BoundaryOf(rounds[i], next)) {
      SameActive(rounds, next, now);
    } else {
      var i :| 0 <= i < |rounds| && Proper(rounds[i]) && BoundaryOf(rounds[i], next);
      assert rounds[i] in rounds;
      assert rounds[i] in Active(rounds, now) <==> rounds[i] !in Active(rounds, next);
    }
  }

  // ---------- the cache as it is shared ----------

  /** A list of rounds with the time at which its next change was computed. */
  datatype FetchedRounds = FetchedRounds(rounds: seq<Round>, fetchedAt: int)

  /** What fetchOpenMiningRoundsOnce stores: the rounds, to be served until their next change. */
  ghost predicate ServedUntilChange(v: Stored<FetchedRounds>) {
    v.validity.Until? && IsNextChange(v.value.rounds, v.value.fetchedAt, v.validity.time)
  }

  ghost predicate OutcomesServedUntilChange(events: seq<Event<FetchedRounds>>) {
    forall i :: 0 <= i < |events| && events[i].Complete? && events[i].outcome.Some? ==>
      ServedUntilChange(events[i].outcome.value)
  }

  ghost predicate ResultsServedUntilChange(s: State<FetchedRounds>) {
    forall f :: 0 <= f < |s.fetches| && !s.fetches[f].Outstanding? && s.fetches[f].result.Some? ==>
      ServedUntilChange(s.fetches[f].result.value)
  }

  lemma {:induction false} RunResults(s: State<FetchedRounds>, events: seq<Event<FetchedRounds>>,
        t: State<FetchedRounds>)
    requires Run(true, s, events, t) && OutcomesServedUntilChange(events) && ResultsServedUntilChange(s)
    ensures ResultsServedUntilChange(t)
    decreases |events|
  {
    if events != [] {
      RunResults(Step(true, s, events[0]), events[1..], t);
    }
  }

  /** In every interleaving, a caller served from the cache sees the rounds that were active when they were fetched. */
  lemma ServedRoundsAreCurrent(events: seq<Event<FetchedRounds>>, t: State<FetchedRounds>, c: nat)
    requires Run(true, Initial<FetchedRounds>(), events, t) && OutcomesServedUntilChange(events)
    requires c < |t.callers| && t.callers[c].Served? && t.callers[c].at >= t.callers[c].cached.value.fetchedAt
    ensures var v := t.callers[c].cached.value;
      Active(v.rounds, t.callers[c].at) == Active(v.rounds, v.fetchedAt)
  {
    RunResults(Initial<FetchedRounds>(), events, t);
    CallersAnswered(true, events, t, c);
    var v := t.callers[c].cached;
    var f :| 0 <= f < |t.fetches| && !t.fetches[f].Outstanding? && t.fetches[f].result == Some(v);
    WindowIsValid(v.value.rounds, v.value.fetchedAt, v.validity.time, t.callers[c].at);
  }
}
