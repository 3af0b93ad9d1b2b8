/** The back-off switch of the WebSocket support, with times in milliseconds as reals and an exact factor. */
module BackOff {
  import opened Wrappers

  const INITIAL_BACKOFF_MS: real := 1000.0
  const MAX_BACKOFF_MS: real := 600000.0
  const FACTOR: real := 1.6
  const GRACE_MS: real := 500.0

  datatype State = State(until: Option<real>, duration: real)

  /** The clock is read on entry, and once more when an error is counted. */
  datatype Event = Enabled(now: real) | Error(now: real, again: real) | Success(now: real)

  function Initial(): State {
    State(None, INITIAL_BACKOFF_MS)
  }

  function Min(a: real, b: real): real {
    if a <= b then a else b
  }

  predicate IsEnabled(s: State, now: real) {
    s.until.None? || now >= s.until.value
  }

  /** An error is counted unless it comes less than half a second after the end of the window, or earlier. */
  predicate Counted(s: State, now: real) {
    s.until.None? || now - s.until.value >= GRACE_MS
  }

  function Step(s: State, e: Event): State {
    match e
    case Enabled(now) => if IsEnabled(s, now) then s.(until := None) else s
    case Error(now, again) => if Counted(s, now)
      then State(Some(again + s.duration), Min(s.duration * FACTOR, MAX_BACKOFF_MS)) else s
    case Success(_) => Initial()
  }

  class WSSupportWithBackOffSwitch {
    var backOffUntil: Option<real>
    var backOffDurationMs: real

    constructor ()
      ensures Abstract() == Initial()
    {
      backOffUntil, backOffDurationMs := None, INITIAL_BACKOFF_MS;
    }

    function Abstract(): State
      reads this
    {
      State(backOffUntil, backOffDurationMs)
    }

    method Enabled(now: real) returns (r: bool)
      modifies this
      ensures r <==> old(backOffUntil).None? || now >= old(backOffUntil).value
      ensures backOffUntil == if r then None else old(backOffUntil)
      ensures Abstract() == Step(old(Abstract()), Event.Enabled(now))
    {
      if backOffUntil.None? {
        return true;
      }
      if now >= backOffUntil.value {
        backOffUntil := None;
        return true;
      }
      return false;
    }

    method ReportError(now: real, again: real)
      modifies this
      ensures Abstract() == Step(old(Abstract()), Error(now, again))
      ensures var recent := old(backOffUntil).Some? && now - old(backOffUntil).value < 500.0;
        && (recent ==> backOffUntil == old(backOffUntil) && backOffDurationMs == old(backOffDurationMs))
        && (!recent ==> backOffUntil == Some(again + old(backOffDurationMs)))
        && (!recent ==> backOffDurationMs == Min(old(backOffDurationMs) * 1.6, 600000.0))
    {
      if backOffUntil.Some? && now - backOffUntil.value < GRACE_MS {
        return;
      }
      backOffUntil := Some(again + backOffDurationMs);
      backOffDurationMs := if backOffDurationMs * FACTOR <= MAX_BACKOFF_MS
        then backOffDurationMs * FACTOR else MAX_BACKOFF_MS;
    }

    method ReportSuccess(now: real)
      modifies this
      ensures Abstract() == Step(old(Abstract()), Success(now))
      ensures backOffUntil == None && backOffDurationMs == 1000.0
    {
      backOffUntil := None;
      backOffDurationMs := INITIAL_BACKOFF_MS;
    }
  }

  // ---------- the durations in closed form ----------

  function Power(base: real, k: nat): real {
    if k == 0 then 1.0 else Power(base, k - 1) * base
  }

  /** The duration after k counted errors. */
  function Duration(k: nat): real {
    Min(INITIAL_BACKOFF_MS * Power(FACTOR, k), MAX_BACKOFF_MS)
  }

  lemma {:induction false} PowerGrows(k: nat)
    ensures Power(FACTOR, k) >= 1.0
    ensures Power(FACTOR, k + 1) == Power(FACTOR, k) * FACTOR >= Power(FACTOR, k)
  {
    if k > 0 {
      PowerGrows(k - 1);
    }
  }

  lemma DurationStep(k: nat)
    ensures Min(Duration(k) * FACTOR, MAX_BACKOFF_MS) == Duration(k + 1)
    ensures Duration(k) >= INITIAL_BACKOFF_MS
  {
    PowerGrows(k);
  }

  /** The windows of the first k counted errors together. */
  function Windows(k: nat): real {
    if k == 0 then 0.0 else Windows(k - 1) + Duration(k - 1)
  }

  // ---------- whole runs ----------

  function Time(e: Event): real {
    match e
    case Enabled(now) => now
    case Error(now, _) => now
    case Success(now) => now
  }

  function EndTime(e: Event): real {
    match e
    case Error(_, again) => again
    case _ => Time(e)
  }

  /** The clock never goes back. */
  ghost predicate Monotone(events: seq<Event>) {
    && (forall i :: 0 <= i < |events| ==> Time(events[i]) <= EndTime(events[i]))
    && forall i, j :: 0 <= i < j < |events| ==> EndTime(events[i]) <= Time(events[j])
  }

  /** The state before event n. */
  function StateAt(events: seq<Event>, n: nat): State
    requires n <= |events|
  {
    if n == 0 then Initial() else Step(StateAt(events, n - 1), events[n - 1])
  }

  predicate CountedAt(events: seq<Event>, n: nat)
    requires n < |events|
  {
    events[n].Error? && Counted(StateAt(events, n), events[n].now)
  }

  /** How many errors were counted since the last success before event n. */
  function ErrorsBefore(events: seq<Event>, n: nat): nat
    requires n <= |events|
  {
    if n == 0 then 0
    else if events[n - 1].Success? then 0
    else ErrorsBefore(events, n - 1) + if CountedAt(events, n - 1) then 1 else 0
  }

  lemma {:induction false} DurationAt(events: seq<Event>, n: nat)
    requires n <= |events|
    ensures StateAt(events, n).duration == Duration(ErrorsBefore(events, n))
    ensures Duration(ErrorsBefore(events, n)) == Min(1000.0 * Power(1.6, ErrorsBefore(events, n)), 600000.0)
  {
    if n > 0 {
      DurationAt(events, n - 1);
      DurationStep(ErrorsBefore(events, n - 1));
    }
  }

  ghost predicate NoSuccessBetween(events: seq<Event>, m: nat, n: nat)
    requires n <= |events|
  {
    forall i :: m <= i < n ==> !events[i].Success?
  }

  /**
   * After a counted error the window stands until a later event ends it, another counted error or a success replaces
   * it.
   */
  lemma {:induction false} WindowStands(events: seq<Event>, m: nat, n: nat)
    requires Monotone(events) && m < n <= |events| && CountedAt(events, m) && NoSuccessBetween(events, m, n)
    requires forall i :: m < i < n ==> !CountedAt(events, i)
    ensures var end := events[m].again + StateAt(events, m).duration;
      StateAt(events, n).until == Some(end)
        || (StateAt(events, n).until.None? && exists i :: m < i < n && Time(events[i]) >= end)
  {
    if n > m + 1 {
      WindowStands(events, m, n - 1);
      var end := events[m].again + StateAt(events, m).duration;
      var e := events[n - 1];
      assert !CountedAt(events, n - 1) && !e.Success?;
      if StateAt(events, n - 1).until == Some(end) && e.Enabled? && e.now >= end {
        assert Time(events[n - 1]) >= end;
      }
    }
  }

  /** During the whole window the switch answers "not enabled", and no error is counted. */
  lemma {:induction false} DisabledThroughoutWindow(events: seq<Event>, m: nat, n: nat)
    requires Monotone(events) && m < n < |events| && CountedAt(events, m) && NoSuccessBetween(events, m, n)
    requires Time(events[n]) < events[m].again + StateAt(events, m).duration
    ensures !IsEnabled(StateAt(events, n), Time(events[n]))
    ensures !CountedAt(events, n)
    decreases n
  {
    forall i | m < i < n
      ensures !CountedAt(events, i)
    {
      assert EndTime(events[i]) <= Time(events[n]);
      DisabledThroughoutWindow(events, m, i);
    }
    assert forall i :: m < i < n ==> Time(events[i]) <= EndTime(events[i]) <= Time(events[n]);
    WindowStands(events, m, n);
  }

  /** Two counted errors without a success in between are at least the window of the earlier one apart. */
  lemma CountedErrorsApart(events: seq<Event>, m: nat, n: nat)
    requires Monotone(events) && m < n < |events| && CountedAt(events, m) && CountedAt(events, n)
    requires NoSuccessBetween(events, m, n)
    ensures Time(events[n]) >= EndTime(events[m]) + Duration(ErrorsBefore(events, m))
  {
    DurationAt(events, m);
    if Time(events[n]) < EndTime(events[m]) + Duration(ErrorsBefore(events, m)) {
      DisabledThroughoutWindow(events, m, n);
      assert false;
    }
  }

  /** A window that stands was opened by a counted error, and there was no success since. */
  lemma {:induction false} WindowComesFrom(events: seq<Event>, n: nat) returns (m: nat)
    requires n <= |events| && StateAt(events, n).until.Some?
    ensures m < n && CountedAt(events, m) && NoSuccessBetween(events, m, n)
    ensures StateAt(events, n).until == Some(EndTime(events[m]) + Duration(ErrorsBefore(events, m)))
  {
    if CountedAt(events, n - 1) {
      m := n - 1;
      DurationAt(events, m);
    } else {
      m := WindowComesFrom(events, n - 1);
    }
  }

  /** Event n falls into the window that the counted error m opens, and no success came in between. */
  ghost predicate InWindowOf(events: seq<Event>, m: nat, n: nat)
    requires m < n < |events|
  {
    && CountedAt(events, m) && NoSuccessBetween(events, m, n)
    && Time(events[n]) < EndTime(events[m]) + Duration(ErrorsBefore(events, m))
  }

  /**
   * The switch is on exactly outside of the windows: it is on again once every window is over, and at once after a
   * success.
   */
  lemma EnabledIff(events: seq<Event>, n: nat)
    requires Monotone(events) && n < |events|
    ensures IsEnabled(StateAt(events, n), Time(events[n])) <==> !exists m: nat :: m < n && InWindowOf(events, m, n)
  {
    if m: nat :| m < n && InWindowOf(events, m, n) {
      DurationAt(events, m);
      DisabledThroughoutWindow(events, m, n);
    } else if StateAt(events, n).until.Some? {
      var m := WindowComesFrom(events, n);
      assert !InWindowOf(events, m, n);
    }
  }

  ghost predicate NotAskedBetween(events: seq<Event>, m: nat, n: nat)
    requires n <= |events|
  {
    forall i :: m < i < n ==> !events[i].Enabled?
  }

  /** A window nobody asks about is never forgotten. */
  lemma {:induction false} WindowKept(events: seq<Event>, m: nat, n: nat)
    requires m < n <= |events| && CountedAt(events, m) && NoSuccessBetween(events, m, n)
    requires NotAskedBetween(events, m, n)
    requires forall i :: m < i < n ==> !CountedAt(events, i)
    ensures StateAt(events, n).until == Some(events[m].again + StateAt(events, m).duration)
  {
    if n > m + 1 {
      WindowKept(events, m, n - 1);
      assert !CountedAt(events, n - 1) && !events[n - 1].Success? && !events[n - 1].Enabled?;
    }
  }

  /** As long as nobody asks whether the switch is enabled, counted errors are the grace period further apart. */
  lemma UnaskedErrorsApart(events: seq<Event>, m: nat, n: nat)
    requires Monotone(events) && m < n < |events| && CountedAt(events, m) && CountedAt(events, n)
    requires NoSuccessBetween(events, m, n) && NotAskedBetween(events, m, n)
    ensures Time(events[n]) >= EndTime(events[m]) + Duration(ErrorsBefore(events, m)) + 500.0
    decreases n
  {
    if i :| m < i < n && CountedAt(events, i) {
      UnaskedErrorsApart(events, m, i);
      assert Time(events[i]) <= EndTime(events[i]) <= Time(events[n]);
    } else {
      WindowKept(events, m, n);
      DurationAt(events, m);
    }
  }

  /** Between two events without a success the count only grows. */
  lemma {:induction false} CountGrows(events: seq<Event>, m: nat, n: nat)
    requires m <= n <= |events| && NoSuccessBetween(events, m, n)
    ensures ErrorsBefore(events, n) >= ErrorsBefore(events, m)
    ensures (exists i :: m <= i < n && CountedAt(events, i)) <==> ErrorsBefore(events, n) > ErrorsBefore(events, m)
    decreases n
  {
    if m < n {
      CountGrows(events, m, n - 1);
      if CountedAt(events, n - 1) {
        assert ErrorsBefore(events, n) == ErrorsBefore(events, n - 1) + 1;
      }
    }
  }

  /** The counted error before this one, if there was no success since. */
  lemma {:induction false} PreviousCounted(events: seq<Event>, m: nat, n: nat) returns (p: nat)
    requires m < n <= |events| && CountedAt(events, m) && NoSuccessBetween(events, m, n)
    ensures m <= p < n && CountedAt(events, p) && ErrorsBefore(events, p) + 1 == ErrorsBefore(events, n)
    decreases n
  {
    if CountedAt(events, n - 1) {
      p := n - 1;
    } else {
      p := PreviousCounted(events, m, n - 1);
    }
  }

  /**
   * From one counted error to a later one, without a success in between, at least the windows of all the errors counted
   * from the first up to, but not including, the last one pass.
   */
  lemma {:induction false} ErrorsNoSoonerThanWindows(events: seq<Event>, m: nat, n: nat)
    requires Monotone(events) && m <= n < |events| && CountedAt(events, m) && CountedAt(events, n)
    requires NoSuccessBetween(events, m, n)
    ensures Time(events[n]) - Time(events[m]) >= Windows(ErrorsBefore(events, n)) - Windows(ErrorsBefore(events, m))
    decreases n
  {
    if m < n {
      var p := PreviousCounted(events, m, n);
      ErrorsNoSoonerThanWindows(events, m, p);
      CountedErrorsApart(events, p, n);
      assert Time(events[p]) <= EndTime(events[p]);
    }
  }
}
