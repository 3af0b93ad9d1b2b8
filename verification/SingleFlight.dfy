/**
 * Shared requests: callers use a cached value, join the request under way, or start one. Two users of the scheme differ
 * only in when a fetched value is stored: the scan proxy stores it as soon as the request completes and removes the
 * in-flight entry afterwards; the OAuth controller does both when the caller that started the request goes on.
 */
module SingleFlight {
  import opened Wrappers

  /** How long a value may be served: rules for ever, rounds and tokens until a time, a token without expiry never. */
  datatype Validity = Always | Until(time: int) | Never

  datatype Stored<V> = Stored(value: V, validity: Validity)

  predicate Usable<V>(s: Stored<V>, now: int) {
    match s.validity
    case Always => true
    case Until(t) => now < t
    case Never => false
  }

  /** A request is outstanding, then settled with a value or a failure, then finished: its entry is removed. */
  datatype Fetch<V> = Outstanding | Settled(result: Option<Stored<V>>) | Done(result: Option<Stored<V>>)

  datatype Caller<V> =
    | Served(cached: Stored<V>, at: int)
    | Waiting(fetch: nat)
    | Answered(fetch: nat, answer: Stored<V>)
    | Rejected(fetch: nat)

  datatype State<V> = State(
    cache: Option<Stored<V>>,
    pending: Option<nat>,
    fetches: seq<Fetch<V>>,
    callers: seq<Caller<V>>)

  datatype Event<V> =
    | Call(now: int)
    | Complete(f: nat, outcome: Option<Stored<V>>)
    | Finish(g: nat)
    | Deliver(c: nat)
    | Invalidate

  function Initial<V>(): State<V> {
    State(None, None, [], [])
  }

  /** The synchronous part of a call, up to its first await. */
  function CallStep<V>(s: State<V>, now: int): State<V> {
    if s.cache.Some? && Usable(s.cache.value, now) then s.(callers := s.callers + [Served(s.cache.value, now)])
    else if s.pending.Some? then s.(callers := s.callers + [Waiting(s.pending.value)])
    else s.(pending := Some(|s.fetches|), fetches := s.fetches + [Outstanding],
      callers := s.callers + [Waiting(|s.fetches|)])
  }

  predicate Enabled<V>(s: State<V>, e: Event<V>) {
    match e
    case Call(_) => true
    case Complete(f, _) => f < |s.fetches| && s.fetches[f].Outstanding?
    case Finish(f) => f < |s.fetches| && s.fetches[f].Settled?
    case Deliver(c) =>
      c < |s.callers| && s.callers[c].Waiting? && s.callers[c].fetch < |s.fetches|
        && !s.fetches[s.callers[c].fetch].Outstanding?
    case Invalidate => true
  }

  /** invalidateAmuletRulesCache and invalidateOpenMiningRoundsCache forget the cache and the request under way. */
  function Invalidated<V>(s: State<V>): State<V> {
    s.(cache := None, pending := None)
  }

  /** storeEarly: the value is stored when the request completes, not when the request is finished. */
  function Step<V>(storeEarly: bool, s: State<V>, e: Event<V>): State<V>
    requires Enabled(s, e)
  {
    match e
    case Call(now) => CallStep(s, now)
    case Complete(f, outcome) =>
      s.(fetches := s.fetches[f := Settled(outcome)], cache := if storeEarly && outcome.Some? then outcome else s.cache)
    case Finish(f) =>
      s.(fetches := s.fetches[f := Done(s.fetches[f].result)], pending := None,
         cache := if !storeEarly && s.fetches[f].result.Some? then s.fetches[f].result else s.cache)
    case Deliver(c) =>
      var f := s.callers[c].fetch;
      s.(callers := s.callers[c := (match s.fetches[f].result case None => Rejected(f) case Some(v) => Answered(f, v))])
    case Invalidate => Invalidated(s)
  }

  ghost predicate Run<V>(storeEarly: bool, s: State<V>, events: seq<Event<V>>, t: State<V>)
    decreases |events|
  {
    if events == []
      then s == t else Enabled(s, events[0]) && Run(storeEarly, Step(storeEarly, s, events[0]), events[1..], t)
  }

  // ---------- what every interleaving keeps ----------

  /** Requests that are not finished are the pending one, and the pending one is not finished. */
  ghost predicate OnePending<V>(s: State<V>) {
    && (forall f :: 0 <= f < |s.fetches| && !s.fetches[f].Done? ==> s.pending == Some(f))
    && (s.pending.Some? ==> s.pending.value < |s.fetches| && !s.fetches[s.pending.value].Done?)
  }

  ghost predicate CallerOk<V>(s: State<V>, c: Caller<V>) {
    match c
    case Served(v, at) => Usable(v, at)
      && exists f :: 0 <= f < |s.fetches| && !s.fetches[f].Outstanding? && s.fetches[f].result == Some(v)
    case Waiting(f) => f < |s.fetches|
    case Answered(f, v) => f < |s.fetches| && !s.fetches[f].Outstanding? && s.fetches[f].result == Some(v)
    case Rejected(f) => f < |s.fetches| && !s.fetches[f].Outstanding? && s.fetches[f].result == None
  }

  /** Every caller has its answer or waits for a request, and what is cached was fetched. */
  ghost predicate Answers<V(!new)>(s: State<V>) {
    && (s.pending.Some? ==> s.pending.value < |s.fetches|)
    && (forall c :: 0 <= c < |s.callers| ==> CallerOk(s, s.callers[c]))
    && (s.cache.Some? ==>
      exists f :: 0 <= f < |s.fetches| && !s.fetches[f].Outstanding? && s.fetches[f].result == s.cache)
  }

  /** Settled results stay what they are. */
  ghost predicate ResultsKept<V>(s: State<V>, t: State<V>) {
    && |s.fetches| <= |t.fetches|
    && forall f ::
      0 <= f < |s.fetches| && !s.fetches[f].Outstanding? ==>
      !t.fetches[f].Outstanding? && t.fetches[f].result == s.fetches[f].result
  }

  lemma CallersStayOk<V(!new)>(s: State<V>, t: State<V>, c: Caller<V>)
    requires ResultsKept(s, t) && CallerOk(s, c)
    ensures CallerOk(t, c)
  {
    if c.Served? {
      var f :| 0 <= f < |s.fetches| && !s.fetches[f].Outstanding? && s.fetches[f].result == Some(c.cached);
      assert t.fetches[f].result == Some(c.cached);
    }
  }

  lemma StepKeepsAnswers<V(!new)>(storeEarly: bool, s: State<V>, e: Event<V>)
    requires Answers(s) && Enabled(s, e)
    ensures Answers(Step(storeEarly, s, e)) && ResultsKept(s, Step(storeEarly, s, e))
  {
    var t := Step(storeEarly, s, e);
    forall c | 0 <= c < |t.callers|
      ensures CallerOk(t, t.callers[c])
    {
      if c < |s.callers| && t.callers[c] == s.callers[c] {
        CallersStayOk(s, t, s.callers[c]);
      }
    }
    if t.cache.Some? {
      if t.cache == s.cache {
        var f :| 0 <= f < |s.fetches| && !s.fetches[f].Outstanding? && s.fetches[f].result == s.cache;
        assert t.fetches[f].result == t.cache;
      } else if e.Complete? {
        assert t.fetches[e.f].result == t.cache;
      } else {
        assert t.fetches[e.g].result == t.cache;
      }
    }
  }

  lemma {:induction false} RunKeepsAnswers<V(!new)>(storeEarly: bool, s: State<V>, events: seq<Event<V>>, t: State<V>)
    requires Answers(s) && Run(storeEarly, s, events, t)
    ensures Answers(t)
    decreases |events|
  {
    if events != [] {
      StepKeepsAnswers(storeEarly, s, events[0]);
      RunKeepsAnswers(storeEarly, Step(storeEarly, s, events[0]), events[1..], t);
    }
  }

  /**
   * In every run, also with invalidations, a caller got a value that was usable when it was checked, or the result of
   * the request it started or joined.
   */
  lemma CallersAnswered<V(!new)>(storeEarly: bool, events: seq<Event<V>>, t: State<V>, c: nat)
    requires Run(storeEarly, Initial<V>(), events, t) && c < |t.callers|
    ensures CallerOk(t, t.callers[c])
  {
    RunKeepsAnswers(storeEarly, Initial<V>(), events, t);
  }

  // ---------- how many requests are under way ----------

  function Unfinished<V>(fetches: seq<Fetch<V>>): nat {
    if fetches == [] then 0
    else Unfinished(fetches[..|fetches| - 1]) + if fetches[|fetches| - 1].Done? then 0 else 1
  }

  lemma {:induction false} UnfinishedUpdate<V>(fetches: seq<Fetch<V>>, f: nat, fetch: Fetch<V>)
    requires f < |fetches| && !fetches[f].Done?
    ensures Unfinished(fetches[f := fetch]) == Unfinished(fetches) - if fetch.Done? then 1 else 0
  {
    var k := |fetches| - 1;
    if f < k {
      UnfinishedUpdate(fetches[..k], f, fetch);
      assert fetches[f := fetch][..k] == fetches[..k][f := fetch];
    } else {
      assert fetches[f := fetch][..k] == fetches[..k];
    }
  }

  lemma {:induction false} TwoUnfinished<V>(fetches: seq<Fetch<V>>, f: nat, g: nat)
    requires f < g < |fetches| && !fetches[f].Done? && !fetches[g].Done?
    ensures Unfinished(fetches) >= 2
  {
    var k := |fetches| - 1;
    if g < k {
      TwoUnfinished(fetches[..k], f, g);
    } else {
      OneUnfinished(fetches[..k], f);
    }
  }

  lemma {:induction false} OneUnfinished<V>(fetches: seq<Fetch<V>>, f: nat)
    requires f < |fetches| && !fetches[f].Done?
    ensures Unfinished(fetches) >= 1
  {
    var k := |fetches| - 1;
    if f < k {
      OneUnfinished(fetches[..k], f);
    }
  }

  /** The invalidations of a run that forget a request. */
  function Forgotten<V>(storeEarly: bool, s: State<V>, events: seq<Event<V>>): nat
    decreases |events|
  {
    if events == [] || !Enabled(s, events[0]) then 0
    else
      var rest := Forgotten(storeEarly, Step(storeEarly, s, events[0]), events[1..]);
      if events[0].Invalidate? && s.pending.Some? then 1 + rest else rest
  }

  function Registered<V>(s: State<V>): nat {
    if s.pending.Some? then 1 else 0
  }

  lemma StepBound<V(!new)>(storeEarly: bool, s: State<V>, e: Event<V>)
    requires Enabled(s, e)
    ensures var t := Step(storeEarly, s, e);
      Unfinished(t.fetches) + Registered(s) <=
      Unfinished(s.fetches) + Registered(t) + if e.Invalidate? && s.pending.Some? then 1 else 0
  {
    var t := Step(storeEarly, s, e);
    match e
    case Complete(f, outcome) => UnfinishedUpdate(s.fetches, f, Settled(outcome));
    case Finish(f) => UnfinishedUpdate(s.fetches, f, Done(s.fetches[f].result));
    case Call(now) =>
      if |t.fetches| > |s.fetches| {
        assert t.fetches[..|s.fetches|] == s.fetches;
      }
    case _ =>
  }

  lemma {:induction false} RunBound<V(!new)>(storeEarly: bool, s: State<V>, events: seq<Event<V>>, t: State<V>)
    requires Run(storeEarly, s, events, t)
    ensures Unfinished(t.fetches) + Registered(s)
         <= Unfinished(s.fetches) + Registered(t) + Forgotten(storeEarly, s, events)
    decreases |events|
  {
    if events != [] {
      StepBound(storeEarly, s, events[0]);
      RunBound(storeEarly, Step(storeEarly, s, events[0]), events[1..], t);
    }
  }

  /**
   * In every run from the start there are at most as many requests under way as invalidations have forgotten one, and
   * one more.
   */
  lemma UnfinishedBounded<V(!new)>(storeEarly: bool, events: seq<Event<V>>, t: State<V>)
    requires Run(storeEarly, Initial<V>(), events, t)
    ensures Unfinished(t.fetches) <= Forgotten(storeEarly, Initial<V>(), events) + 1
  {
    RunBound(storeEarly, Initial<V>(), events, t);
  }

  /** In every run in which no invalidation forgets a request at most one request is outstanding. */
  lemma AtMostOneOutstanding<V(!new)>(storeEarly: bool, events: seq<Event<V>>, t: State<V>, f: nat, g: nat)
    requires Run(storeEarly, Initial<V>(), events, t) && Forgotten(storeEarly, Initial<V>(), events) == 0
    requires f < |t.fetches| && g < |t.fetches| && t.fetches[f].Outstanding? && t.fetches[g].Outstanding?
    ensures f == g
  {
    UnfinishedBounded(storeEarly, events, t);
    if f < g {
      TwoUnfinished(t.fetches, f, g);
    } else if g < f {
      TwoUnfinished(t.fetches, g, f);
    }
  }

  ghost predicate TwoOutstanding<V>(s: State<V>) {
    exists f, g :: 0 <= f < g < |s.fetches| && s.fetches[f].Outstanding? && s.fetches[g].Outstanding?
  }

  ghost predicate NoInvalidation<V>(events: seq<Event<V>>) {
    forall i :: 0 <= i < |events| ==> !events[i].Invalidate?
  }

  lemma StepKeepsOnePending<V(!new)>(storeEarly: bool, s: State<V>, e: Event<V>)
    requires OnePending(s) && Enabled(s, e) && !e.Invalidate?
    ensures OnePending(Step(storeEarly, s, e))
  {
  }

  lemma {:induction false} RunKeepsOnePending<V(!new)>(storeEarly: bool, s: State<V>, events: seq<Event<V>>,
        t: State<V>)
    requires OnePending(s) && Run(storeEarly, s, events, t) && NoInvalidation(events)
    ensures OnePending(t)
    decreases |events|
  {
    if events != [] {
      StepKeepsOnePending(storeEarly, s, events[0]);
      RunKeepsOnePending(storeEarly, Step(storeEarly, s, events[0]), events[1..], t);
    }
  }

  /** A run that goes on from s without further invalidations. */
  ghost predicate GoesOn<V>(s: State<V>, events: seq<Event<V>>, t: State<V>) {
    NoInvalidation(events) && Run(true, s, events, t)
  }

  lemma RunOne<V>(s: State<V>, e: Event<V>)
    requires Enabled(s, e)
    ensures Run(true, s, [e], Step(true, s, e))
  {
    assert [e][1..] == [];
  }

  lemma {:induction false} RunSnoc<V>(s: State<V>, events: seq<Event<V>>, t: State<V>, e: Event<V>)
    requires Run(true, s, events, t) && Enabled(t, e)
    ensures Run(true, s, events + [e], Step(true, t, e))
    decreases |events|
  {
    if events == [] {
      assert events + [e] == [e];
      RunOne(s, e);
    } else {
      RunSnoc(Step(true, s, events[0]), events[1..], t, e);
      assert (events + [e])[1..] == events[1..] + [e];
    }
  }

  /** A forgotten request that is not finished yet stands beside the next one, or deletes its entry when it finishes. */
  lemma ForgottenBreaks<V(!new)>(s: State<V>) returns (events: seq<Event<V>>, t: State<V>)
    requires OnePending(s) && s.pending.Some?
    ensures GoesOn(Invalidated(s), events, t) && TwoOutstanding(t)
  {
    var f, n := s.pending.value, |s.fetches|;
    var u := CallStep(Invalidated(s), 0);
    RunOne(Invalidated(s), Call(0));
    if s.fetches[f].Outstanding? {
      events, t := [Call(0)], u;
      assert t.fetches[f].Outstanding? && t.fetches[n].Outstanding?;
    } else {
      var w := Step(true, u, Finish(f));
      RunSnoc(Invalidated(s), [Call(0)], u, Finish(f));
      RunSnoc(Invalidated(s), [Call(0)] + [Finish(f)], w, Call(0));
      events, t := [Call(0)] + [Finish(f)] + [Call(0)], CallStep(w, 0);
      assert t.fetches[n].Outstanding? && t.fetches[n + 1].Outstanding?;
    }
  }

  /**
   * After any run without one, an invalidation lets some further run put two requests outstanding exactly when it
   * forgets a request that is not finished yet.
   */
  lemma InvalidationBreaksIff<V(!new)>(events: seq<Event<V>>, s: State<V>)
    requires Run(true, Initial<V>(), events, s) && NoInvalidation(events)
    ensures (exists es, t :: GoesOn(Invalidated(s), es, t) && TwoOutstanding(t)) <==> s.pending.Some?
  {
    RunKeepsOnePending(true, Initial<V>(), events, s);
    if s.pending.Some? {
      var es, t := ForgottenBreaks(s);
    } else {
      forall es, t | GoesOn(Invalidated(s), es, t)
        ensures !TwoOutstanding(t)
      {
        RunKeepsOnePending(true, Invalidated(s), es, t);
      }
    }
  }

  /** An input: the request is settled when it is forgotten, and deletes the entry of its successor when it finishes. */
  lemma SettledForgottenBreaks<V(!new)>()
    ensures var events := [Call(0), Complete(0, None), Event<V>.Invalidate, Call(0), Finish(0), Call(0)];
      exists t :: Run(true, Initial<V>(), events, t) && TwoOutstanding(t)
  {
    var s0 := Initial<V>();
    var s1 := Step(true, s0, Call(0));
    var s2 := Step(true, s1, Complete(0, None));
    var s3 := Step(true, s2, Invalidate);
    var s4 := Step(true, s3, Call(0));
    var s5 := Step(true, s4, Finish(0));
    var s6 := Step(true, s5, Call(0));
    RunOne(s0, Call(0));
    RunSnoc(s0, [Call(0)], s1, Complete(0, None));
    RunSnoc(s0, [Call(0)] + [Complete(0, None)], s2, Invalidate);
    var three := [Call(0)] + [Complete(0, None)] + [Invalidate];
    RunSnoc(s0, three, s3, Call(0));
    RunSnoc(s0, three + [Call(0)], s4, Finish(0));
    RunSnoc(s0, three + [Call(0)] + [Finish(0)], s5, Call(0));
    var all := three + [Call(0)] + [Finish(0)] + [Call(0)];
    assert all == [Call(0), Complete(0, None), Event<V>.Invalidate, Call(0), Finish(0), Call(0)];
    assert s6.fetches[1].Outstanding? && s6.fetches[2].Outstanding?;
    assert TwoOutstanding(s6) && Run(true, s0, all, s6);
  }

  // ---------- values from before an invalidation ----------

  /** What is cached, or served to the callers from m on, was fetched by a request from n on. */
  ghost predicate Fresh<V(!new)>(n: nat, m: nat, t: State<V>) {
    forall c :: m <= c < |t.callers| && t.callers[c].Served? ==> FetchedFrom(n, t, t.callers[c].cached)
  }

  ghost predicate FetchedFrom<V>(n: nat, t: State<V>, v: Stored<V>) {
    exists f :: n <= f < |t.fetches| && !t.fetches[f].Outstanding? && t.fetches[f].result == Some(v)
  }

  /** None of the first n requests can store its value any more. */
  ghost predicate OldOnesSettled<V(!new)>(n: nat, t: State<V>) {
    && n <= |t.fetches| && (forall f :: 0 <= f < n ==> !t.fetches[f].Outstanding?)
    && (t.cache.Some? ==> FetchedFrom(n, t, t.cache.value))
  }

  lemma StepKeepsFresh<V(!new)>(n: nat, m: nat, s: State<V>, e: Event<V>)
    requires OldOnesSettled(n, s) && Fresh(n, m, s) && m <= |s.callers| && Enabled(s, e)
    ensures OldOnesSettled(n, Step(true, s, e)) && Fresh(n, m, Step(true, s, e)) && m <= |Step(true, s, e).callers|
  {
    var t := Step(true, s, e);
    forall v | FetchedFrom(n, s, v)
      ensures FetchedFrom(n, t, v)
    {
      var f :| n <= f < |s.fetches| && !s.fetches[f].Outstanding? && s.fetches[f].result == Some(v);
      assert !t.fetches[f].Outstanding? && t.fetches[f].result == Some(v);
    }
    if e.Complete? && e.outcome.Some? {
      assert !t.fetches[e.f].Outstanding? && t.fetches[e.f].result == e.outcome;
      assert FetchedFrom(n, t, e.outcome.value);
    }
    forall c | m <= c < |t.callers| && t.callers[c].Served?
      ensures FetchedFrom(n, t, t.callers[c].cached)
    {
      if c < |s.callers| {
        assert t.callers[c] == s.callers[c];
      }
    }
  }

  lemma {:induction false} RunKeepsFresh<V(!new)>(n: nat, m: nat, s: State<V>, events: seq<Event<V>>, t: State<V>)
    requires OldOnesSettled(n, s) && Fresh(n, m, s) && m <= |s.callers| && Run(true, s, events, t)
    ensures Fresh(n, m, t)
    decreases |events|
  {
    if events != [] {
      StepKeepsFresh(n, m, s, events[0]);
      RunKeepsFresh(n, m, Step(true, s, events[0]), events[1..], t);
    }
  }

  lemma OutstandingIsStale<V(!new)>(s: State<V>, v: V) returns (events: seq<Event<V>>, t: State<V>)
    requires OnePending(s) && s.pending.Some? && s.fetches[s.pending.value].Outstanding?
    ensures GoesOn(Invalidated(s), events, t) && !Fresh(|s.fetches|, |s.callers|, t)
  {
    var complete := Complete(s.pending.value, Some(Stored(v, Always)));
    var u := Step(true, Invalidated(s), complete);
    t := CallStep(u, 0);
    RunOne(Invalidated(s), complete);
    RunSnoc(Invalidated(s), [complete], u, Call(0));
    events := [complete] + [Call(0)];
    assert t.callers[|s.callers|].Served?;
  }

  /**
   * After an invalidation the cache serves only values requested later exactly when the invalidation does not forget an
   * outstanding request: that one stores its value when it completes.
   */
  lemma ServesFreshIff<V(!new)>(events: seq<Event<V>>, s: State<V>, v: V)
    requires Run(true, Initial<V>(), events, s) && NoInvalidation(events)
    ensures (forall es, t :: GoesOn(Invalidated(s), es, t) ==> Fresh(|s.fetches|, |s.callers|, t)) <==>
      forall f :: 0 <= f < |s.fetches| ==> !s.fetches[f].Outstanding?
  {
    RunKeepsOnePending(true, Initial<V>(), events, s);
    if f :| 0 <= f < |s.fetches| && s.fetches[f].Outstanding? {
      var es, t := OutstandingIsStale(s, v);
    } else {
      forall es, t | GoesOn(Invalidated(s), es, t)
        ensures Fresh(|s.fetches|, |s.callers|, t)
      {
        RunKeepsFresh(|s.fetches|, |s.callers|, Invalidated(s), es, t);
      }
    }
  }

  // ---------- values that are served again ----------

  /** The calls of the run come while the value is usable, and no request ends in between. */
  ghost predicate CallsWhileUsable<V>(v: Stored<V>, events: seq<Event<V>>) {
    forall i :: 0 <= i < |events| ==>
      events[i].Deliver? || (events[i].Call? && (v.validity.Until? ==> events[i].now < v.validity.time))
  }

  /** As long as the cached value has not expired every caller gets it, and no request is started. */
  lemma {:induction false} NoRequestWhileUsable<V(!new)>(storeEarly: bool, s: State<V>, events: seq<Event<V>>,
        t: State<V>, v: Stored<V>)
    requires s.cache == Some(v) && !v.validity.Never? && CallsWhileUsable(v, events) && Run(storeEarly, s, events, t)
    ensures t.cache == Some(v) && t.fetches == s.fetches && |t.callers| >= |s.callers|
    ensures forall c :: |s.callers| <= c < |t.callers| ==> t.callers[c].Served? && t.callers[c].cached == v
    decreases |events|
  {
    if events != [] {
      var u := Step(storeEarly, s, events[0]);
      assert u.cache == Some(v) && u.fetches == s.fetches;
      assert forall i :: 0 <= i < |events[1..]| ==> events[1..][i] == events[i + 1];
      NoRequestWhileUsable(storeEarly, u, events[1..], t, v);
      if events[0].Call? {
        ServedStays(storeEarly, u, events[1..], t, |s.callers|);
      }
    }
  }

  lemma {:induction false} ServedStays<V(!new)>(storeEarly: bool, s: State<V>, events: seq<Event<V>>, t: State<V>,
        c: nat)
    requires Run(storeEarly, s, events, t) && c < |s.callers| && s.callers[c].Served?
    ensures c < |t.callers| && t.callers[c] == s.callers[c]
    decreases |events|
  {
    if events != [] {
      ServedStays(storeEarly, Step(storeEarly, s, events[0]), events[1..], t, c);
    }
  }

  // ---------- values that never expire ----------

  ghost predicate AlwaysUsable<V>(events: seq<Event<V>>) {
    forall i :: 0 <= i < |events| && events[i].Complete? && events[i].outcome.Some? ==>
      events[i].outcome.value.validity.Always?
  }

  predicate Succeeded<V>(s: State<V>, f: nat) {
    f < |s.fetches| && !s.fetches[f].Outstanding? && s.fetches[f].result.Some?
  }

  /**
   * After a success nothing is outstanding, and the value is stored for ever or will be when the request is finished.
   */
  ghost predicate OneSuccess<V>(storeEarly: bool, s: State<V>) {
    forall f: nat :: Succeeded(s, f) ==>
      && s.fetches[f].result.value.validity.Always?
      && (if storeEarly || s.fetches[f].Done? then s.cache == s.fetches[f].result else s.pending == Some(f))
      && forall g :: 0 <= g < |s.fetches| && g != f ==> s.fetches[g].Done? && s.fetches[g].result.None?
  }

  lemma StepKeepsOneSuccess<V(!new)>(storeEarly: bool, s: State<V>, e: Event<V>)
    requires OnePending(s) && Enabled(s, e) && !e.Invalidate? && OneSuccess(storeEarly, s)
    requires e.Complete? && e.outcome.Some? ==> e.outcome.value.validity.Always?
    ensures OneSuccess(storeEarly, Step(storeEarly, s, e))
  {
    var t := Step(storeEarly, s, e);
    forall f: nat | Succeeded(t, f)
      ensures t.fetches[f].result.value.validity.Always?
      ensures if storeEarly || t.fetches[f].Done? then t.cache == t.fetches[f].result else t.pending == Some(f)
      ensures forall g :: 0 <= g < |t.fetches| && g != f ==> t.fetches[g].Done? && t.fetches[g].result.None?
    {
      if f < |s.fetches| && Succeeded(s, f) {
        assert s.fetches[f].result == t.fetches[f].result;
      } else {
        assert e.Complete? && e.f == f;
        forall g | 0 <= g < |t.fetches| && g != f
          ensures t.fetches[g].Done? && t.fetches[g].result.None?
        {
          assert !Succeeded(s, g);
        }
      }
    }
  }

  lemma {:induction false} RunKeepsOneSuccess<V(!new)>(storeEarly: bool, s: State<V>, events: seq<Event<V>>,
        t: State<V>)
    requires OnePending(s) && OneSuccess(storeEarly, s) && Run(storeEarly, s, events, t) && AlwaysUsable(events)
    requires NoInvalidation(events)
    ensures OneSuccess(storeEarly, t)
    decreases |events|
  {
    if events != [] {
      StepKeepsOnePending(storeEarly, s, events[0]);
      StepKeepsOneSuccess(storeEarly, s, events[0]);
      RunKeepsOneSuccess(storeEarly, Step(storeEarly, s, events[0]), events[1..], t);
    }
  }

  /** Rules that never expire are fetched successfully at most once, whatever the interleaving. */
  lemma AtMostOneSuccess<V(!new)>(storeEarly: bool, events: seq<Event<V>>, t: State<V>, f: nat, g: nat)
    requires Run(storeEarly, Initial<V>(), events, t) && AlwaysUsable(events) && NoInvalidation(events)
    requires Succeeded(t, f) && Succeeded(t, g)
    ensures f == g
  {
    RunKeepsOneSuccess(storeEarly, Initial<V>(), events, t);
  }

  // ---------- the shared variables ----------

  /** The fields that are set and deleted across awaits, with the history of requests and callers. */
  class Source<V(!new)> {
    const storeEarly: bool
    var cached: Option<Stored<V>>
    var inflight: Option<nat>
    ghost var fetches: seq<Fetch<V>>
    ghost var callers: seq<Caller<V>>
    var started: nat

    constructor (early: bool)
      ensures storeEarly == early && Valid() && Abstract() == Initial()
    {
      storeEarly, cached, inflight, started := early, None, None, 0;
      fetches, callers := [], [];
    }

    ghost predicate Valid()
      reads this
    {
      started == |fetches| && Answers(Abstract())
    }

    ghost function Abstract(): State<V>
      reads this
    {
      State(cached, inflight, fetches, callers)
    }

    /** Returns the cached value, or the request whose result is to be awaited; starts it if there is none. */
    method Get(now: int) returns (hit: Option<Stored<V>>, join: nat)
      requires Valid()
      modifies this
      ensures Valid() && Abstract() == CallStep(old(Abstract()), now)
      ensures hit.Some? <==>
        old(cached).Some? && match old(cached).value.validity
          case Always => true
          case Until(t) => now < t
          case Never => false
      ensures hit.Some? ==>
        hit == old(cached) && inflight == old(inflight) && started == old(started)
          && callers == old(callers) + [Served(hit.value, now)]
      ensures hit.None? ==> inflight == Some(join) && callers == old(callers) + [Waiting(join)]
      ensures hit.None? && old(inflight).Some? ==> inflight == old(inflight) && fetches == old(fetches)
      ensures hit.None? && old(inflight).None? ==> join == old(started) && fetches == old(fetches) + [Outstanding]
    {
      StepKeepsAnswers(storeEarly, Abstract(), Call(now));
      if cached.Some? && Usable(cached.value, now) {
        callers := callers + [Served(cached.value, now)];
        return cached, 0;
      }
      if inflight.None? {
        inflight := Some(started);
        fetches := fetches + [Outstanding];
        started := started + 1;
      }
      callers := callers + [Waiting(inflight.value)];
      return None, inflight.value;
    }

    method OnComplete(f: nat, outcome: Option<Stored<V>>)
      requires Valid() && Enabled(Abstract(), Complete(f, outcome))
      modifies this
      ensures Valid() && Abstract() == Step(storeEarly, old(Abstract()), Complete(f, outcome))
    {
      StepKeepsAnswers(storeEarly, Abstract(), Complete(f, outcome));
      fetches := fetches[f := Settled(outcome)];
      if storeEarly && outcome.Some? {
        cached := outcome;
      }
    }

    method OnFinish(f: nat, outcome: Option<Stored<V>>)
      requires Valid() && Enabled(Abstract(), Event<V>.Finish(f)) && fetches[f].result == outcome
      modifies this
      ensures Valid() && Abstract() == Step(storeEarly, old(Abstract()), Finish(f))
    {
      StepKeepsAnswers(storeEarly, Abstract(), Finish(f));
      if !storeEarly && outcome.Some? {
        cached := outcome;
      }
      fetches := fetches[f := Done(outcome)];
      inflight := None;
    }

    method Invalidate()
      requires Valid()
      modifies this
      ensures Valid() && Abstract() == Step(storeEarly, old(Abstract()), Event<V>.Invalidate)
    {
      StepKeepsAnswers(storeEarly, Abstract(), Event<V>.Invalidate);
      cached, inflight := None, None;
    }
  }
}
