/** Polling for the completion of a command. The log is what will ever be written; each poll sees a prefix of it. */
module Completions {
  import opened Wrappers
  import opened OffsetLogs

  datatype Completion = Completion(userId: string, commandId: string, submissionId: string, statusCode: int)

  /** The server mixes checkpoints into its responses. */
  datatype Response = Completed(completion: Completion) | Checkpoint

  type Log = seq<Entry<Response>>

  const COMPLETIONS_LIMIT: nat := 100

  /** Returned, thrown with the completion's status, or still polling when the schedule ends. */
  datatype Outcome = Found(completion: Completion) | Failed(statusCode: int) | Pending

  predicate Wanted(r: Response, userId: string, id: string) {
    r.Completed? && r.completion.userId == userId && (r.completion.commandId == id || r.completion.submissionId == id)
  }

  function FindWanted(responses: Log, userId: string, id: string): (r: Option<Completion>)
    ensures r.None? ==> forall i :: 0 <= i < |responses| ==> !Wanted(responses[i].item, userId, id)
  {
    if responses == [] then None
    else if Wanted(responses[0].item, userId, id) then Some(responses[0].item.completion)
    else FindWanted(responses[1..], userId, id)
  }

  /** The offset of the last completion of a response, or begin if there is none or it is 0. */
  function NextBegin(responses: Log, begin: int): int {
    if responses == [] then begin
    else
      var last := responses[|responses| - 1];
      if last.item.Completed? then (if last.offset != 0 then last.offset else begin)
      else NextBegin(responses[..|responses| - 1], begin)
  }

  function OutcomeOf(c: Completion): Outcome {
    if c.statusCode != 0 then Failed(c.statusCode) else Found(c)
  }

  /** The response to one poll when the first `visible` entries have been written. */
  function PollResponse(log: Log, visible: nat, begin: int): Log {
    Take(After(Take(log, visible), begin), COMPLETIONS_LIMIT)
  }

  /** Everything behind an offset. */
  function After(log: Log, begin: int): Log {
    if log == [] then []
    else if begin < log[0].offset then [log[0]] + After(log[1..], begin)
    else After(log[1..], begin)
  }

  /** awaitCompletion, with one number of visible entries per poll. */
  function AwaitCompletion(log: Log, begin: int, userId: string, id: string, polls: seq<nat>): Outcome
    decreases |polls|
  {
    if polls == [] then Pending
    else
      var responses := PollResponse(log, polls[0], begin);
      match FindWanted(responses, userId, id)
      case Some(c) => OutcomeOf(c)
      case None => AwaitCompletion(log, NextBegin(responses, begin), userId, id, polls[1..])
  }

  // ---------- nothing is skipped ----------

  predicate HasCompletion(responses: Log) {
    exists i :: 0 <= i < |responses| && responses[i].item.Completed?
  }

  lemma {:induction false} AfterMembers(log: Log, begin: int)
    ensures forall i ::
      0 <= i < |After(log, begin)| ==> After(log, begin)[i] in log && begin < After(log, begin)[i].offset
  {
    if log != [] {
      AfterMembers(log[1..], begin);
    }
  }

  /** With increasing offsets the unread part is a suffix. */
  lemma {:induction false} AfterIsSuffix(log: Log, begin: int) returns (n: nat)
    requires Increasing(log)
    ensures n <= |log| && After(log, begin) == log[n..]
    ensures forall i :: 0 <= i < |log| ==> (i < n <==> log[i].offset <= begin)
  {
    if log == [] {
      n := 0;
    } else if begin < log[0].offset {
      AllAfter(log, begin);
      n := 0;
    } else {
      var m := AfterIsSuffix(log[1..], begin);
      n := m + 1;
      assert log[1..][m..] == log[n..];
      forall i | 0 <= i < |log|
        ensures i < n <==> log[i].offset <= begin
      {
        assert i > 0 ==> log[i] == log[1..][i - 1];
      }
    }
  }

  lemma {:induction false} AllAfter(log: Log, begin: int)
    requires Increasing(log) && (log != [] ==> begin < log[0].offset)
    ensures After(log, begin) == log
  {
    if log != [] {
      AllAfter(log[1..], begin);
      assert log == [log[0]] + log[1..];
    }
  }

  lemma {:induction false} FindWantedConcat(a: Log, b: Log, userId: string, id: string)
    ensures FindWanted(a + b, userId, id) == if FindWanted(a, userId, id).Some?
      then FindWanted(a, userId, id) else FindWanted(b, userId, id)
  {
    if a == [] {
      assert a + b == b;
    } else {
      FindWantedConcat(a[1..], b, userId, id);
      assert (a + b)[1..] == a[1..] + b;
    }
  }

  lemma {:induction false} LastCompletion(responses: Log, begin: int) returns (k: nat)
    requires HasCompletion(responses) || NextBegin(responses, begin) != begin
    requires forall i :: 0 <= i < |responses| ==> responses[i].offset > 0
    ensures k < |responses| && responses[k].item.Completed? && responses[k].offset == NextBegin(responses, begin)
  {
    k := |responses| - 1;
    if responses[k].item.Checkpoint? {
      if HasCompletion(responses) {
        var i :| 0 <= i < |responses| && responses[i].item.Completed?;
        assert responses[..k][i].item.Completed?;
      }
      k := LastCompletion(responses[..k], begin);
    }
  }

  lemma SuffixAt(log: Log, k: nat)
    requires Increasing(log) && k < |log|
    ensures After(log, log[k].offset) == log[k + 1..]
  {
    var m := AfterIsSuffix(log, log[k].offset);
    assert k < m;
    if m > k + 1 {
      assert false;
    }
  }

  /** A response is an interval of the log that starts right behind the offset asked for. */
  lemma ResponseIsInterval(log: Log, visible: nat, begin: int) returns (n: nat)
    requires Increasing(log)
    ensures n + |PollResponse(log, visible, begin)| <= |log|
    ensures PollResponse(log, visible, begin) == log[n..n + |PollResponse(log, visible, begin)|]
    ensures visible >= |log| ==>
      After(log, begin) == log[n..] && PollResponse(log, visible, begin) == Take(After(log, begin), COMPLETIONS_LIMIT)
    ensures |PollResponse(log, visible, begin)| > 0 ==> After(log, begin) == log[n..]
  {
    var seen := Take(log, visible);
    n := AfterIsSuffix(seen, begin);
    var r := PollResponse(log, visible, begin);
    assert r == seen[n..][..|r|];
    assert seen == log[..|seen|];
    if |r| > 0 {
      var m := AfterIsSuffix(log, begin);
      assert seen[n].offset > begin && log[n] == seen[n];
      assert n > 0 ==> log[n - 1] == seen[n - 1];
      assert m == n;
    } else if visible >= |log| {
      assert seen == log;
    }
  }

  lemma ResponseOffsets(log: Log, begin: int, visible: nat)
    requires begin >= 0
    ensures forall i :: 0 <= i < |PollResponse(log, visible, begin)| ==> PollResponse(log, visible, begin)[i].offset > 0
  {
    AfterMembers(Take(log, visible), begin);
  }

  lemma NextBeginNonNegative(log: Log, begin: int, visible: nat)
    requires begin >= 0
    ensures NextBegin(PollResponse(log, visible, begin), begin) >= 0
  {
    ResponseOffsets(log, begin, visible);
    var r := PollResponse(log, visible, begin);
    if NextBegin(r, begin) != begin {
      var k := LastCompletion(r, begin);
    }
  }

  /** Where the next request starts when the response at hand holds a completion. */
  lemma RestartPoint(log: Log, begin: int, visible: nat, r: Log) returns (k: nat, rest: Log)
    requires Increasing(log) && begin >= 0 && r == PollResponse(log, visible, begin)
    requires HasCompletion(r) || NextBegin(r, begin) != begin
    ensures k < |r| && r[k].item.Completed?
    ensures rest == After(log, NextBegin(r, begin)) && After(log, begin) == r[..k + 1] + rest
  {
    ResponseOffsets(log, begin, visible);
    k := LastCompletion(r, begin);
    var n := ResponseIsInterval(log, visible, begin);
    rest := RestBehind(log, r, n, k);
  }

  lemma RestBehind(log: Log, r: Log, n: nat, k: nat) returns (rest: Log)
    requires Increasing(log) && n + |r| <= |log| && r == log[n..n + |r|] && k < |r|
    ensures rest == After(log, r[k].offset) && log[n..] == r[..k + 1] + rest
  {
    SuffixAt(log, n + k);
    rest := log[n + k + 1..];
  }

  lemma SkipPrefix(r: Log, k: nat, rest: Log, userId: string, id: string)
    requires k <= |r| && FindWanted(r, userId, id).None?
    ensures FindWanted(r[..k] + rest, userId, id) == FindWanted(rest, userId, id)
  {
    assert r == r[..k] + r[k..];
    FindWantedConcat(r[..k], r[k..], userId, id);
    FindWantedConcat(r[..k], rest, userId, id);
  }

  /** The part of the unread log in front of the next poll holds no wanted completion. */
  lemma NothingSkipped(log: Log, begin: int, userId: string, id: string, visible: nat)
    requires Increasing(log) && begin >= 0
    requires FindWanted(PollResponse(log, visible, begin), userId, id).None?
    ensures FindWanted(After(log, NextBegin(PollResponse(log, visible, begin), begin)), userId, id)
      == FindWanted(After(log, begin), userId, id)
  {
    var r := PollResponse(log, visible, begin);
    if NextBegin(r, begin) != begin {
      var k, rest := RestartPoint(log, begin, visible, r);
      SkipPrefix(r, k + 1, rest, userId, id);
    }
  }

  /** What a response shows first is what comes first in the unread log. */
  lemma ShownFirst(log: Log, begin: int, userId: string, id: string, visible: nat)
    requires Increasing(log) && FindWanted(PollResponse(log, visible, begin), userId, id).Some?
    ensures FindWanted(After(log, begin), userId, id) == FindWanted(PollResponse(log, visible, begin), userId, id)
  {
    var r := PollResponse(log, visible, begin);
    var n := ResponseIsInterval(log, visible, begin);
    assert r <= log[n..];
    FoundInPrefix(r, log[n..], userId, id);
  }

  lemma FoundInPrefix(r: Log, s: Log, userId: string, id: string)
    requires r <= s && FindWanted(r, userId, id).Some?
    ensures FindWanted(s, userId, id) == FindWanted(r, userId, id)
  {
    assert s == r + s[|r|..];
    FindWantedConcat(r, s[|r|..], userId, id);
  }

  /** The first wanted entry of the unread log stands at k. */
  ghost predicate FirstWantedAt(unread: Log, userId: string, id: string, k: nat) {
    k < |unread| && Wanted(unread[k].item, userId, id) && forall j :: 0 <= j < k ==> !Wanted(unread[j].item, userId, id)
  }

  /** What FindWanted finds is the completion of the first wanted entry. */
  lemma {:induction false} FoundAt(responses: Log, userId: string, id: string) returns (k: nat)
    requires FindWanted(responses, userId, id).Some?
    ensures FirstWantedAt(responses, userId, id, k)
    ensures FindWanted(responses, userId, id) == Some(responses[k].item.completion)
  {
    if Wanted(responses[0].item, userId, id) {
      k := 0;
    } else {
      var i := FoundAt(responses[1..], userId, id);
      k := i + 1;
      assert forall j :: 0 < j < k ==> responses[j] == responses[1..][j - 1];
    }
  }

  /** A completion of this user with this command or submission id. */
  predicate Answers(r: Response, userId: string, id: string) {
    match r
    case Completed(c) => c.userId == userId && id in {c.commandId, c.submissionId}
    case Checkpoint => false
  }

  /**
   * The entry at k is the first one that answers; with status 0 its completion is returned, with any other status it is
   * thrown.
   */
  ghost predicate SettledBy(unread: Log, userId: string, id: string, k: nat, outcome: Outcome) {
    && k < |unread| && Answers(unread[k].item, userId, id)
    && (forall j :: 0 <= j < k ==> !Answers(unread[j].item, userId, id))
    && match outcome
       case Found(c) => c == unread[k].item.completion && c.statusCode == 0
       case Failed(n) => n == unread[k].item.completion.statusCode && n != 0
       case Pending => false
  }

  lemma SettledByFirst(unread: Log, userId: string, id: string, k: nat)
    requires FirstWantedAt(unread, userId, id, k)
    ensures SettledBy(unread, userId, id, k, OutcomeOf(unread[k].item.completion))
  {
    assert forall j :: 0 <= j < |unread| ==>
      (Answers(unread[j].item, userId, id) <==> Wanted(unread[j].item, userId, id));
  }

  /**
   * Whatever is returned or thrown is settled by the first completion behind the start offset, in the whole log, that
   * answers.
   */
  lemma FindsFirst(log: Log, begin: int, userId: string, id: string, polls: seq<nat>) returns (k: nat)
    requires Increasing(log) && begin >= 0
    ensures var outcome := AwaitCompletion(log, begin, userId, id, polls);
      outcome == Pending || SettledBy(After(log, begin), userId, id, k, outcome)
  {
    k := 0;
    OutcomeOfFirst(log, begin, userId, id, polls);
    if AwaitCompletion(log, begin, userId, id, polls) != Pending {
      k := FoundAt(After(log, begin), userId, id);
      SettledByFirst(After(log, begin), userId, id, k);
    }
  }

  lemma {:induction false} OutcomeOfFirst(log: Log, begin: int, userId: string, id: string, polls: seq<nat>)
    requires Increasing(log) && begin >= 0
    ensures var outcome := AwaitCompletion(log, begin, userId, id, polls);
      outcome == Pending
        || (FindWanted(After(log, begin), userId, id).Some?
        && outcome == OutcomeOf(FindWanted(After(log, begin), userId, id).value))
    decreases |polls|
  {
    if polls != [] {
      var r := PollResponse(log, polls[0], begin);
      match FindWanted(r, userId, id)
      case None =>
        NothingSkipped(log, begin, userId, id, polls[0]);
        NextBeginNonNegative(log, begin, polls[0]);
        OutcomeOfFirst(log, NextBegin(r, begin), userId, id, polls[1..]);
      case Some(c) =>
        ShownFirst(log, begin, userId, id, polls[0]);
    }
  }

  // ---------- progress ----------

  function CountCompletions(responses: Log): nat {
    if responses == [] then 0 else (if responses[0].item.Completed? then 1 else 0) + CountCompletions(responses[1..])
  }

  lemma {:induction false} CountConcat(a: Log, b: Log)
    ensures CountCompletions(a + b) == CountCompletions(a) + CountCompletions(b)
  {
    if a == [] {
      assert a + b == b;
    } else {
      CountConcat(a[1..], b);
      assert (a + b)[1..] == a[1..] + b;
    }
  }

  lemma {:induction false} CountPositive(a: Log)
    requires HasCompletion(a)
    ensures CountCompletions(a) > 0
  {
    var i :| 0 <= i < |a| && a[i].item.Completed?;
    if i > 0 {
      assert a[1..][i - 1].item.Completed?;
      CountPositive(a[1..]);
    }
  }

  lemma {:induction false} FoundIsCompletion(a: Log, userId: string, id: string)
    requires FindWanted(a, userId, id).Some?
    ensures HasCompletion(a)
  {
    if Wanted(a[0].item, userId, id) {
      assert a[0].item.Completed?;
    } else {
      FoundIsCompletion(a[1..], userId, id);
      var i :| 0 <= i < |a[1..]| && a[1..][i].item.Completed?;
      assert a[i + 1].item.Completed?;
    }
  }

  /** A response full of checkpoints stops all progress: the same request is repeated for ever. */
  lemma {:induction false} StuckBehindCheckpoints(log: Log, begin: int, userId: string, id: string, polls: seq<nat>)
    requires Increasing(log) && begin >= 0
    requires |After(log, begin)| >= 100 && !HasCompletion(After(log, begin)[..100])
    ensures AwaitCompletion(log, begin, userId, id, polls) == Pending
    decreases |polls|
  {
    if polls != [] {
      var r := PollResponse(log, polls[0], begin);
      OnlyCheckpoints(log, begin, polls[0]);
      ResponseOffsets(log, begin, polls[0]);
      if NextBegin(r, begin) != begin {
        var k := LastCompletion(r, begin);
        assert false;
      }
      StuckBehindCheckpoints(log, begin, userId, id, polls[1..]);
      if FindWanted(r, userId, id).Some? {
        FoundIsCompletion(r, userId, id);
      }
    }
  }

  lemma OnlyCheckpoints(log: Log, begin: int, visible: nat)
    requires Increasing(log)
    requires |After(log, begin)| >= COMPLETIONS_LIMIT && !HasCompletion(Take(After(log, begin), COMPLETIONS_LIMIT))
    ensures !HasCompletion(PollResponse(log, visible, begin))
  {
    var r, full := PollResponse(log, visible, begin), Take(After(log, begin), COMPLETIONS_LIMIT);
    var n := ResponseIsInterval(log, visible, begin);
    forall i | 0 <= i < |r|
      ensures r[i].item.Checkpoint?
    {
      assert r[i] == log[n + i] == log[n..][i] == full[i];
    }
  }

  // ---------- exactly when polling gets to the wanted completion ----------

  /** A whole response of checkpoints starts at i. */
  predicate CheckpointPage(unread: Log, i: nat) {
    i + 100 <= |unread| && forall j :: i <= j < i + 100 ==> unread[j].item.Checkpoint?
  }

  /** Somewhere in front of the entry at k there is room for a whole response of checkpoints. */
  ghost predicate Blocked(unread: Log, k: nat) {
    exists i: nat :: i + 100 <= k && CheckpointPage(unread, i)
  }

  lemma {:induction false} FindFirstAt(unread: Log, userId: string, id: string, k: nat)
    requires FirstWantedAt(unread, userId, id, k)
    ensures FindWanted(unread, userId, id) == Some(unread[k].item.completion)
  {
    if k > 0 {
      assert !Wanted(unread[0].item, userId, id);
      assert forall j :: 0 <= j < k - 1 ==> unread[1..][j] == unread[j + 1];
      FindFirstAt(unread[1..], userId, id, k - 1);
    }
  }

  lemma {:induction false} NoneWanted(responses: Log, userId: string, id: string)
    requires forall j :: 0 <= j < |responses| ==> !Wanted(responses[j].item, userId, id)
    ensures FindWanted(responses, userId, id) == None
  {
    if responses != [] {
      NoneWanted(responses[1..], userId, id);
    }
  }

  lemma {:induction false} CountNothing(a: Log)
    requires forall j :: 0 <= j < |a| ==> a[j].item.Checkpoint?
    ensures CountCompletions(a) == 0
  {
    if a != [] {
      CountNothing(a[1..]);
    }
  }

  /** Behind a completion, no response of checkpoints that mattered is lost and no new one appears. */
  lemma BlockedBehind(unread: Log, j: nat, rest: Log, k: nat)
    requires j < COMPLETIONS_LIMIT && j < k < |unread| && unread[j].item.Completed? && rest == unread[j + 1..]
    ensures Blocked(rest, k - j - 1) <==> Blocked(unread, k)
  {
    if Blocked(rest, k - j - 1) {
      var i: nat :| i + COMPLETIONS_LIMIT <= k - j - 1 && CheckpointPage(rest, i);
      forall m | i + j + 1 <= m < i + j + 1 + COMPLETIONS_LIMIT
        ensures unread[m].item.Checkpoint?
      {
        assert unread[m] == rest[m - j - 1];
      }
      assert CheckpointPage(unread, i + j + 1);
    }
    if Blocked(unread, k) {
      var i: nat :| i + COMPLETIONS_LIMIT <= k && CheckpointPage(unread, i);
      assert i > j;
      forall m | i - j - 1 <= m < i - j - 1 + COMPLETIONS_LIMIT
        ensures rest[m].item.Checkpoint?
      {
        assert rest[m] == unread[m + j + 1];
      }
      assert CheckpointPage(rest, i - j - 1);
    }
  }

  /** What is left in front of the wanted entry when the next poll starts behind the completion at j. */
  lemma WantedBehind(unread: Log, userId: string, id: string, j: nat, rest: Log, k: nat)
    requires FirstWantedAt(unread, userId, id, k) && j < k && unread[j].item.Completed? && rest == unread[j + 1..]
    ensures FirstWantedAt(rest, userId, id, k - j - 1)
    ensures CountCompletions(rest[..k - j - 1]) < CountCompletions(unread[..k])
  {
    assert forall m :: 0 <= m < |rest| ==> rest[m] == unread[m + j + 1];
    assert unread[..k] == unread[..j + 1] + rest[..k - j - 1];
    CountConcat(unread[..j + 1], rest[..k - j - 1]);
    assert unread[..j + 1][j].item.Completed?;
    CountPositive(unread[..j + 1]);
  }

  /** A full response that ends in front of the wanted entry and holds a completion. */
  lemma NextPoll(log: Log, begin: int, userId: string, id: string, visible: nat, k: nat) returns (j: nat, rest: Log)
    requires Increasing(log) && begin >= 0 && visible >= |log|
    requires FirstWantedAt(After(log, begin), userId, id, k) && k >= COMPLETIONS_LIMIT
    requires HasCompletion(PollResponse(log, visible, begin))
    ensures j < COMPLETIONS_LIMIT && After(log, begin)[j].item.Completed?
    ensures rest == After(log, begin)[j + 1..] == After(log, NextBegin(PollResponse(log, visible, begin), begin))
  {
    var r, unread := PollResponse(log, visible, begin), After(log, begin);
    j, rest := RestartPoint(log, begin, visible, r);
    assert unread[j] == r[j];
    assert unread[j + 1..] == rest by { assert |r[..j + 1]| == j + 1; }
  }

  lemma NothingShown(log: Log, begin: int, userId: string, id: string, visible: nat, k: nat)
    requires visible >= |log| && FirstWantedAt(After(log, begin), userId, id, k) && k >= COMPLETIONS_LIMIT
    ensures FindWanted(PollResponse(log, visible, begin), userId, id) == None
    ensures |PollResponse(log, visible, begin)| == COMPLETIONS_LIMIT
    ensures PollResponse(log, visible, begin) <= After(log, begin)
  {
    var r, unread := PollResponse(log, visible, begin), After(log, begin);
    forall m | 0 <= m < |r|
      ensures !Wanted(r[m].item, userId, id)
    {
      assert r[m] == unread[m];
    }
    NoneWanted(r, userId, id);
  }

  /** A first response of nothing but checkpoints is one that blocks. */
  lemma FirstPageBlocks(log: Log, begin: int, userId: string, id: string, visible: nat, k: nat)
    requires visible >= |log| && FirstWantedAt(After(log, begin), userId, id, k) && k >= COMPLETIONS_LIMIT
    requires !HasCompletion(PollResponse(log, visible, begin))
    ensures Blocked(After(log, begin), k)
  {
    var r, unread := PollResponse(log, visible, begin), After(log, begin);
    NothingShown(log, begin, userId, id, visible, k);
    forall m | 0 <= m < COMPLETIONS_LIMIT
      ensures unread[m].item.Checkpoint?
    {
      assert unread[m] == r[m];
    }
    assert CheckpointPage(unread, 0);
  }

  /** A response that ends in front of the wanted entry, whatever part of the log it was taken from. */
  lemma ShortOfWanted(log: Log, begin: int, userId: string, id: string, visible: nat, k: nat)
    requires Increasing(log) && FirstWantedAt(After(log, begin), userId, id, k) && k >= COMPLETIONS_LIMIT
    ensures var r := PollResponse(log, visible, begin);
      r <= After(log, begin) && |r| <= COMPLETIONS_LIMIT && FindWanted(r, userId, id) == None
  {
    var r, unread := PollResponse(log, visible, begin), After(log, begin);
    var n := ResponseIsInterval(log, visible, begin);
    assert r <= unread by {
      if r != [] {
        assert r <= log[n..];
      }
    }
    forall m | 0 <= m < |r|
      ensures !Wanted(r[m].item, userId, id)
    {
      assert r[m] == unread[m];
    }
    NoneWanted(r, userId, id);
  }

  /**
   * A hundred checkpoints in a row in front of the wanted completion keep polling from ending, whatever the polls see.
   */
  lemma {:induction false} BlockedNeverEnds(log: Log, begin: int, userId: string, id: string, polls: seq<nat>, k: nat)
    requires Increasing(log) && begin >= 0
    requires FirstWantedAt(After(log, begin), userId, id, k) && Blocked(After(log, begin), k)
    ensures AwaitCompletion(log, begin, userId, id, polls) == Pending
    decreases |polls|
  {
    if polls != [] {
      var r := PollResponse(log, polls[0], begin);
      ShortOfWanted(log, begin, userId, id, polls[0], k);
      var k' := StaysBlocked(log, begin, userId, id, polls[0], k);
      BlockedNeverEnds(log, NextBegin(r, begin), userId, id, polls[1..], k');
    }
  }

  lemma StaysBlocked(log: Log, begin: int, userId: string, id: string, visible: nat, k: nat) returns (k': nat)
    requires Increasing(log) && begin >= 0
    requires FirstWantedAt(After(log, begin), userId, id, k) && Blocked(After(log, begin), k)
    ensures var next := NextBegin(PollResponse(log, visible, begin), begin);
      next >= 0 && FirstWantedAt(After(log, next), userId, id, k') && Blocked(After(log, next), k')
  {
    var r, unread := PollResponse(log, visible, begin), After(log, begin);
    NextBeginNonNegative(log, begin, visible);
    if NextBegin(r, begin) == begin {
      k' := k;
    } else {
      ShortOfWanted(log, begin, userId, id, visible, k);
      var j, rest := RestartPoint(log, begin, visible, r);
      RestOf(unread, r, j, rest);
      WantedBehind(unread, userId, id, j, rest, k);
      BlockedBehind(unread, j, rest, k);
      k' := k - j - 1;
    }
  }

  lemma RestOf(unread: Log, r: Log, j: nat, rest: Log)
    requires j < |r| && r <= unread && unread == r[..j + 1] + rest
    ensures unread[j] == r[j] && rest == unread[j + 1..]
  {
    assert |r[..j + 1]| == j + 1;
  }

  lemma BlockedAtOnce(log: Log, begin: int, userId: string, id: string, polls: seq<nat>, k: nat)
    requires Increasing(log) && begin >= 0 && polls != [] && polls[0] >= |log|
    requires FirstWantedAt(After(log, begin), userId, id, k) && k >= COMPLETIONS_LIMIT
    requires !HasCompletion(PollResponse(log, polls[0], begin))
    ensures Blocked(After(log, begin), k) && AwaitCompletion(log, begin, userId, id, polls) == Pending
  {
    FirstPageBlocks(log, begin, userId, id, polls[0], k);
    StuckBehindCheckpoints(log, begin, userId, id, polls);
  }

  /** One poll further the wanted entry is nearer, as blocked as before, and behind fewer completions. */
  lemma AfterNextPoll(log: Log, begin: int, userId: string, id: string, visible: nat, k: nat)
        returns (next: int, k': nat)
    requires Increasing(log) && begin >= 0 && visible >= |log|
    requires FirstWantedAt(After(log, begin), userId, id, k) && k >= COMPLETIONS_LIMIT
    requires HasCompletion(PollResponse(log, visible, begin))
    ensures next == NextBegin(PollResponse(log, visible, begin), begin) && next >= 0
    ensures FirstWantedAt(After(log, next), userId, id, k')
    ensures Blocked(After(log, next), k') <==> Blocked(After(log, begin), k)
    ensures CountCompletions(After(log, next)[..k']) < CountCompletions(After(log, begin)[..k])
  {
    next := NextBegin(PollResponse(log, visible, begin), begin);
    var j, rest := NextPoll(log, begin, userId, id, visible, k);
    WantedBehind(After(log, begin), userId, id, j, rest, k);
    BlockedBehind(After(log, begin), j, rest, k);
    NextBeginNonNegative(log, begin, visible);
    k' := k - j - 1;
  }

  /**
   * With the log written and more polls than completions in front of the wanted one, polling gets to it exactly when no
   * run of a hundred checkpoints lies in front of it.
   */
  lemma {:induction false} PollingEndsIff(log: Log, begin: int, userId: string, id: string, polls: seq<nat>, k: nat)
    requires Increasing(log) && begin >= 0
    requires FirstWantedAt(After(log, begin), userId, id, k)
    requires forall i :: 0 <= i < |polls| ==> polls[i] >= |log|
    requires |polls| > CountCompletions(After(log, begin)[..k])
    ensures AwaitCompletion(log, begin, userId, id, polls) != Pending <==> !Blocked(After(log, begin), k)
    decreases |polls|
  {
    if k < COMPLETIONS_LIMIT {
    } else if HasCompletion(PollResponse(log, polls[0], begin)) {
      NothingShown(log, begin, userId, id, polls[0], k);
      var next, k' := AfterNextPoll(log, begin, userId, id, polls[0], k);
      PollingEndsIff(log, next, userId, id, polls[1..], k');
    } else {
      BlockedAtOnce(log, begin, userId, id, polls, k);
    }
  }

  /** Then the first wanted completion settles it. */
  lemma FindsInTime(log: Log, begin: int, userId: string, id: string, polls: seq<nat>, k: nat)
    requires Increasing(log) && begin >= 0
    requires FirstWantedAt(After(log, begin), userId, id, k) && !Blocked(After(log, begin), k)
    requires forall i :: 0 <= i < |polls| ==> polls[i] >= |log|
    requires |polls| > CountCompletions(After(log, begin)[..k])
    ensures SettledBy(After(log, begin), userId, id, k, AwaitCompletion(log, begin, userId, id, polls))
  {
    PollingEndsIff(log, begin, userId, id, polls, k);
    OutcomeOfFirst(log, begin, userId, id, polls);
    FindFirstAt(After(log, begin), userId, id, k);
    SettledByFirst(After(log, begin), userId, id, k);
  }
}
