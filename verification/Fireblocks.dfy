/** Paging backwards through the transaction history of the signing provider, and filtering it with an early stop. */
module Fireblocks {
  import opened Wrappers
  import opened Sequences

  /** formatted is None for a transaction that cannot be formatted; it is skipped. */
  datatype RawTransaction = RawTransaction(createdAt: int, formatted: Option<Transaction>)
  datatype Transaction = Transaction(txId: string, publicKey: Option<string>, status: string)

  /** Newest first. */
  type History = seq<RawTransaction>

  ghost predicate NewestFirst(history: History) {
    forall i, j :: 0 <= i < j < |history| ==> history[i].createdAt >= history[j].createdAt
  }

  ghost predicate DistinctTimes(history: History) {
    forall i, j :: 0 <= i < j < |history| ==> history[i].createdAt != history[j].createdAt
  }

  ghost predicate NoneAtOne(history: History) {
    forall i :: 0 <= i < |history| ==> history[i].createdAt != 1
  }

  /** The part of the history at or before a time. */
  function UpTo(history: History, time: int): History {
    if history == [] then []
    else if history[0].createdAt <= time then [history[0]] + UpTo(history[1..], time)
    else UpTo(history[1..], time)
  }

  function Formatted(history: History): seq<Transaction> {
    if history == [] then []
    else if history[0].formatted.Some? then [history[0].formatted.value] + Formatted(history[1..])
    else Formatted(history[1..])
  }

  /** What is yielded for a part of the history: of each entry that can be formatted the transaction, in order. */
  lemma {:induction false} FormattedKeeps(history: History) returns (at: seq<nat>, picked: History)
    ensures Places(at, history, picked) && |picked| == |Formatted(history)|
    ensures forall k :: 0 <= k < |history| ==> (k in at <==> history[k].formatted.Some?)
    ensures forall k :: 0 <= k < |picked| ==> picked[k].formatted == Some(Formatted(history)[k])
  {
    if history == [] {
      at, picked := [], [];
    } else {
      var rest, tail := FormattedKeeps(history[1..]);
      var later := Shifted(rest, history, tail);
      at, picked := later, tail;
      if history[0].formatted.Some? {
        at, picked := [0] + later, [history[0]] + tail;
      }
      forall k | 0 <= k < |history|
        ensures k in at <==> history[k].formatted.Some?
      {
        ShiftedMembers(rest, later, k);
        assert k > 0 ==> history[k] == history[1..][k - 1];
      }
    }
  }

  /** A missing time and the time 0 both leave the condition out of the query. */
  function Matching(history: History, before: Option<int>): History {
    if before.Some? && before.value != 0 then UpTo(history, before.value) else history
  }

  /** One response of the service. */
  function Page(history: History, before: Option<int>, limit: nat): (r: History)
    ensures |r| <= limit
  {
    var m := Matching(history, before);
    if |m| <= limit then m else m[..limit]
  }

  lemma {:induction false} FormattedConcat(a: History, b: History)
    ensures Formatted(a + b) == Formatted(a) + Formatted(b)
  {
    if a == [] {
      assert a + b == b;
    } else {
      FormattedConcat(a[1..], b);
      assert (a + b)[1..] == a[1..] + b && (a + b)[0] == a[0];
      if a[0].formatted.Some? {
        Associative([a[0].formatted.value], Formatted(a[1..]), Formatted(b));
      }
    }
  }

  lemma {:induction false} AllUpTo(history: History, time: int)
    requires forall i :: 0 <= i < |history| ==> history[i].createdAt <= time
    ensures UpTo(history, time) == history
  {
    if history != [] {
      AllUpTo(history[1..], time);
      assert history == [history[0]] + history[1..];
    }
  }

  /** The history at or before a time is a suffix of the whole. */
  lemma {:induction false} UpToIsSuffix(history: History, time: int) returns (n: nat)
    requires NewestFirst(history)
    ensures n <= |history| && UpTo(history, time) == history[n..]
    ensures forall i :: 0 <= i < |history| ==> (i < n <==> history[i].createdAt > time)
  {
    if history == [] {
      n := 0;
    } else if history[0].createdAt <= time {
      AllUpTo(history, time);
      n := 0;
    } else {
      var m := UpToIsSuffix(history[1..], time);
      n := m + 1;
      assert history[1..][m..] == history[n..];
      assert forall i :: 0 < i < |history| ==> history[i] == history[1..][i - 1];
    }
  }

  /**
   * Asking for everything before a transaction gives what follows it in the history, less what was created at the same
   * time.
   */
  lemma UpToBelow(history: History, i: nat) returns (m: nat)
    requires NewestFirst(history) && i < |history|
    ensures i < m <= |history| && UpTo(history, history[i].createdAt - 1) == history[m..]
    ensures forall j :: i <= j < m ==> history[j].createdAt == history[i].createdAt
    ensures m < |history| ==> history[m].createdAt < history[i].createdAt
  {
    m := UpToIsSuffix(history, history[i].createdAt - 1);
  }

  lemma FormattedSnoc(history: History, tx: RawTransaction)
    ensures Formatted(history + [tx]) == Formatted(history) + if tx.formatted.Some? then [tx.formatted.value] else []
  {
    FormattedConcat(history, [tx]);
    assert [tx][1..] == [];
  }

  /** The query position after one response: one below its last transaction. */
  function NextQuery(page: History, before: Option<int>): Option<int> {
    if page == [] then before else Some(page[|page| - 1].createdAt - 1)
  }

  /** The loop over one response. */
  method YieldPage(page: History, before: Option<int>) returns (yielded: seq<Transaction>, beforeQuery: Option<int>)
    ensures yielded == Formatted(page)
    ensures beforeQuery == NextQuery(page, before)
  {
    yielded, beforeQuery := [], before;
    for i := 0 to |page|
      invariant yielded == Formatted(page[..i])
      invariant beforeQuery == NextQuery(page[..i], before)
    {
      var tx := page[i];
      assert page[..i + 1] == page[..i] + [tx];
      FormattedSnoc(page[..i], tx);
      beforeQuery := Some(tx.createdAt - 1);
      if tx.formatted.Some? {
        yielded := yielded + [tx.formatted.value];
      }
    }
    assert page[..|page|] == page;
  }

  lemma MatchingIsSuffix(history: History, before: Option<int>) returns (start: nat)
    requires NewestFirst(history)
    ensures start <= |history| && Matching(history, before) == history[start..]
  {
    if before.Some? && before.value != 0 {
      start := UpToIsSuffix(history, before.value);
    } else {
      start := 0;
    }
  }

  /**
   * A response ends at `end`, and the next query asks for what follows behind the transactions created when its last
   * one was.
   */
  lemma PageAdvances(history: History, before: Option<int>, limit: nat, n: nat) returns (end: nat, m: nat)
    requires NewestFirst(history) && NoneAtOne(history) && limit >= 1 && n < |history|
    requires Matching(history, before) == history[n..]
    ensures end == if n + limit <= |history| then n + limit else |history|
    ensures Page(history, before, limit) == history[n..end]
    ensures end <= m <= |history| && Matching(history, NextQuery(Page(history, before, limit), before)) == history[m..]
    ensures forall j :: end <= j < m ==> history[j].createdAt == history[end - 1].createdAt
    ensures m < |history| ==> history[m].createdAt < history[end - 1].createdAt
  {
    var page := Page(history, before, limit);
    end := n + |page|;
    assert page == history[n..][..|page|];
    assert page[|page| - 1] == history[end - 1];
    m := UpToBelow(history, end - 1);
  }

  /** What is left for later is shorter than what was asked for, unless nothing was. */
  lemma PageShrinks(history: History, before: Option<int>, limit: nat)
    requires NewestFirst(history) && NoneAtOne(history) && limit >= 1
    ensures Page(history, before, limit) == [] <==> Matching(history, before) == []
    ensures var page := Page(history, before, limit);
      page != [] ==> |page| + |Matching(history, NextQuery(page, before))| <= |Matching(history, before)|
  {
    if Matching(history, before) != [] {
      var n := MatchingIsSuffix(history, before);
      var end, m := PageAdvances(history, before, limit, n);
    }
  }

  /** Everything the loop fetches, response after response. */
  ghost function Fetched(history: History, limit: nat, before: Option<int>): (r: History)
    requires NewestFirst(history) && NoneAtOne(history) && limit >= 1
    ensures |r| <= |Matching(history, before)|
    decreases |Matching(history, before)|
  {
    var page := Page(history, before, limit);
    PageShrinks(history, before, limit);
    if page == [] then [] else page + Fetched(history, limit, NextQuery(page, before))
  }

  // ---------- exactly when nothing is lost ----------

  /** The transaction at i and the one in front of it were created at the same time. */
  ghost predicate TieAt(history: History, i: int) {
    0 < i < |history| && history[i - 1].createdAt == history[i].createdAt
  }

  /** Of full responses from n on, the k-th ends between two transactions created at the same time. */
  ghost predicate SplitsTie(history: History, n: nat, limit: nat, k: nat) {
    k >= 1 && TieAt(history, n + k * limit)
  }

  ghost predicate SomeTieSplit(history: History, n: nat, limit: nat) {
    exists k: nat :: SplitsTie(history, n, limit, k)
  }

  lemma SplitShift(history: History, n: nat, limit: nat)
    ensures SomeTieSplit(history, n, limit) <==> TieAt(history, n + limit) || SomeTieSplit(history, n + limit, limit)
  {
    if SomeTieSplit(history, n, limit) {
      var k: nat :| SplitsTie(history, n, limit, k);
      if k > 1 {
        FullResponses(n, limit, k - 1);
        assert SplitsTie(history, n + limit, limit, k - 1);
      }
    }
    if TieAt(history, n + limit) {
      assert SplitsTie(history, n, limit, 1);
    }
    var m := n + limit;
    if SomeTieSplit(history, m, limit) {
      var k: nat :| SplitsTie(history, m, limit, k);
      FullResponses(n, limit, k);
      assert SplitsTie(history, n, limit, k + 1);
    }
  }

  lemma FullResponses(n: nat, limit: nat, k: nat)
    ensures n + limit + k * limit == n + (k + 1) * limit
  {
  }

  lemma NoSplitBeyond(history: History, n: nat, limit: nat)
    requires n <= |history| <= n + limit
    ensures !SomeTieSplit(history, n, limit)
  {
    forall k: nat
      ensures !SplitsTie(history, n, limit, k)
    {
      if k >= 1 {
        assert k * limit >= limit;
      }
    }
  }

  ghost predicate NothingLost(history: History, limit: nat, before: Option<int>)
    requires NewestFirst(history) && NoneAtOne(history) && limit >= 1
  {
    Fetched(history, limit, before) == Matching(history, before)
  }

  lemma TieLoses(history: History, limit: nat, before: Option<int>, n: nat)
    requires NewestFirst(history) && NoneAtOne(history) && limit >= 1
    requires n + limit < |history| && Matching(history, before) == history[n..]
    requires TieAt(history, n + limit)
    ensures !NothingLost(history, limit, before)
  {
    var end, m := PageAdvances(history, before, limit, n);
    assert m > end;
    assert |Fetched(history, limit, before)| < |history[n..]|;
  }

  lemma NoTiePasses(history: History, limit: nat, before: Option<int>, n: nat) returns (next: Option<int>)
    requires NewestFirst(history) && NoneAtOne(history) && limit >= 1
    requires n + limit < |history| && Matching(history, before) == history[n..]
    requires !TieAt(history, n + limit)
    ensures Matching(history, next) == history[n + limit..]
    ensures NothingLost(history, limit, before) <==> NothingLost(history, limit, next)
  {
    var page := Page(history, before, limit);
    var end, m := PageAdvances(history, before, limit, n);
    next := NextQuery(page, before);
    assert m == end by { assert !(history[end - 1].createdAt == history[end].createdAt); }
    assert history[n..] == history[n..end] + history[end..];
    LosesAlike(history, limit, before);
  }

  /** A response that leaves nothing out loses nothing that the next one would not lose. */
  lemma LosesAlike(history: History, limit: nat, before: Option<int>)
    requires NewestFirst(history) && NoneAtOne(history) && limit >= 1 && Page(history, before, limit) != []
    requires var page := Page(history, before, limit);
      Matching(history, before) == page + Matching(history, NextQuery(page, before))
    ensures NothingLost(history, limit, before) <==>
      NothingLost(history, limit, NextQuery(Page(history, before, limit), before))
  {
    var page := Page(history, before, limit);
    var next := NextQuery(page, before);
    FetchedStep(history, limit, before);
    SamePrefix(page, Fetched(history, limit, next), Matching(history, next));
  }

  lemma FetchedStep(history: History, limit: nat, before: Option<int>)
    requires NewestFirst(history) && NoneAtOne(history) && limit >= 1
    ensures Matching(history, before) == [] ==> Fetched(history, limit, before) == []
    ensures var page := Page(history, before, limit);
      page != [] ==> Fetched(history, limit, before) == page + Fetched(history, limit, NextQuery(page, before))
  {
  }

  /** What is left fits into one response. */
  lemma LastResponse(history: History, limit: nat, before: Option<int>, n: nat)
    requires NewestFirst(history) && NoneAtOne(history) && limit >= 1
    requires n <= |history| <= n + limit && Matching(history, before) == history[n..]
    ensures NothingLost(history, limit, before)
  {
    FetchedStep(history, limit, before);
    if n < |history| {
      var end, m := PageAdvances(history, before, limit, n);
      FetchedStep(history, limit, NextQuery(Page(history, before, limit), before));
      assert history[n..end] + [] == history[n..];
    }
  }

  /** Nothing is lost exactly when no response ends between two transactions created at the same time. */
  lemma {:induction false} NothingLostIff(history: History, limit: nat, before: Option<int>, n: nat)
    requires NewestFirst(history) && NoneAtOne(history) && limit >= 1
    requires n <= |history| && Matching(history, before) == history[n..]
    ensures NothingLost(history, limit, before) <==> !SomeTieSplit(history, n, limit)
    decreases |history| - n
  {
    if n + limit >= |history| {
      NoSplitBeyond(history, n, limit);
      LastResponse(history, limit, before, n);
    } else {
      SplitShift(history, n, limit);
      if TieAt(history, n + limit) {
        TieLoses(history, limit, before, n);
      } else {
        var next := NoTiePasses(history, limit, before, n);
        NothingLostIff(history, limit, next, n + limit);
      }
    }
  }

  lemma SamePrefix(p: History, a: History, b: History)
    ensures p + a == p + b <==> a == b
  {
    if p + a == p + b {
      assert a == (p + a)[|p|..] && b == (p + b)[|p|..];
    }
  }

  lemma DistinctTimesLoseNothing(history: History, limit: nat, before: Option<int>)
    requires NewestFirst(history) && DistinctTimes(history) && NoneAtOne(history) && limit >= 1
    ensures NothingLost(history, limit, before)
  {
    var n := MatchingIsSuffix(history, before);
    NothingLostIff(history, limit, before, n);
  }

  /**
   * Of a response and what it leaves out, exactly the transactions created when its last one was are never asked for
   * again.
   */
  lemma PageLoses(history: History, limit: nat, before: Option<int>) returns (lost: History)
    requires NewestFirst(history) && NoneAtOne(history) && limit >= 1 && Matching(history, before) != []
    ensures var page := Page(history, before, limit);
      && page != []
      && Matching(history, before) == (page + lost) + Matching(history, NextQuery(page, before))
      && (forall i :: 0 <= i < |lost| ==> lost[i].createdAt == page[|page| - 1].createdAt)
      && forall tx :: tx in Matching(history, NextQuery(page, before)) ==> tx.createdAt < page[|page| - 1].createdAt
  {
    var n := MatchingIsSuffix(history, before);
    var end, m := PageAdvances(history, before, limit, n);
    lost := history[end..m];
    ThreeParts(history, n, end, m);
    var page := Page(history, before, limit);
    assert page[|page| - 1] == history[end - 1];
  }

  lemma ThreeParts(history: History, n: nat, end: nat, m: nat)
    requires n <= end <= m <= |history|
    ensures history[n..] == (history[n..end] + history[end..m]) + history[m..]
  {
  }

  // ---------- the loop ----------

  /** What has been yielded and what the loop still goes on to fetch. */
  ghost predicate Accounts(history: History, limit: nat, before: Option<int>, query: Option<int>,
        yielded: seq<Transaction>)
    requires NewestFirst(history) && NoneAtOne(history) && limit >= 1
  {
    Formatted(Fetched(history, limit, before)) == yielded + Formatted(Fetched(history, limit, query))
  }

  lemma AccountsFor(all: seq<Transaction>, yielded: seq<Transaction>, page: History, rest: History)
    requires all == yielded + Formatted(page + rest)
    ensures all == (yielded + Formatted(page)) + Formatted(rest)
  {
    FormattedConcat(page, rest);
    Associative(yielded, Formatted(page), Formatted(rest));
  }

  lemma ResponseAccounts(history: History, limit: nat, before: Option<int>, query: Option<int>,
        yielded: seq<Transaction>)
    requires NewestFirst(history) && NoneAtOne(history) && limit >= 1
    requires Accounts(history, limit, before, query, yielded)
    ensures Accounts(history, limit, before, NextQuery(Page(history, query, limit), query),
      yielded + Formatted(Page(history, query, limit)))
  {
    var page := Page(history, query, limit);
    if page == [] {
      assert yielded + [] == yielded;
    } else {
      AccountsFor(Formatted(Fetched(history, limit, before)), yielded, page,
        Fetched(history, limit, NextQuery(page, query)));
    }
  }

  /**
   * getTransactions: ends, and yields what can be formatted of what it fetches, newest first; with distinct times that
   * is everything.
   */
  method GetTransactions(history: History, limit: nat, before: Option<int>) returns (yielded: seq<Transaction>)
    requires NewestFirst(history) && NoneAtOne(history) && limit >= 1
    ensures yielded == Formatted(Fetched(history, limit, before))
    ensures DistinctTimes(history) ==> yielded == Formatted(Matching(history, before))
  {
    yielded := [];
    var beforeQuery := before;
    var fetchedLength: nat := 1;
    assert [] + Formatted(Fetched(history, limit, before)) == Formatted(Fetched(history, limit, before));
    while fetchedLength > 0
      invariant Accounts(history, limit, before, beforeQuery, yielded)
      invariant fetchedLength == 0 ==> Matching(history, beforeQuery) == []
      decreases |Matching(history, beforeQuery)| + fetchedLength
    {
      var transactions := Page(history, beforeQuery, limit);
      PageShrinks(history, beforeQuery, limit);
      ResponseAccounts(history, limit, before, beforeQuery, yielded);
      fetchedLength := |transactions|;
      var more, next := YieldPage(transactions, beforeQuery);
      yielded, beforeQuery := yielded + more, next;
    }
    if DistinctTimes(history) {
      DistinctTimesLoseNothing(history, limit, before);
    }
  }

  // ---------- why no transaction may have been created at time 1 ----------

  /** The k-th response, counted from 0, when reading goes on whatever it holds. */
  function Response(history: History, limit: nat, before: Option<int>, k: nat): History
    decreases k
  {
    if k == 0 then Page(history, before, limit)
    else Response(history, limit, NextQuery(Page(history, before, limit), before), k - 1)
  }

  /** Where a non-empty response leaves off when its history ends with a transaction created at time 1. */
  lemma TimeOneGoesOn(history: History, limit: nat, before: Option<int>, from: nat) returns (next: nat)
    requires NewestFirst(history) && limit >= 1
    requires from < |history| && Matching(history, before) == history[from..]
    requires history[|history| - 1].createdAt == 1
    ensures Page(history, before, limit) != []
    ensures next < |history| && Matching(history, NextQuery(Page(history, before, limit), before)) == history[next..]
  {
    var page := Page(history, before, limit);
    assert page == history[from..][..|page|] && page != [];
    var last := from + |page| - 1;
    assert page[|page| - 1] == history[last];
    if history[last].createdAt == 1 {
      next := 0;
    } else {
      next := UpToBelow(history, last);
      assert history[|history| - 1].createdAt != history[last].createdAt;
    }
  }

  /** Behind a transaction created at time 1 reading starts over: every request fetches something, for ever. */
  lemma {:induction false} TimeOneNeverEnds(history: History, limit: nat, before: Option<int>, from: nat, k: nat)
    requires NewestFirst(history) && limit >= 1
    requires from < |history| && Matching(history, before) == history[from..]
    requires history[|history| - 1].createdAt == 1
    ensures Response(history, limit, before, k) != []
    decreases k
  {
    var next := TimeOneGoesOn(history, limit, before, from);
    if k > 0 {
      TimeOneNeverEnds(history, limit, NextQuery(Page(history, before, limit), before), next, k - 1);
    }
  }

  /** Without such a transaction some response is empty. */
  lemma {:induction false} EmptyResponseComes(history: History, limit: nat, before: Option<int>) returns (k: nat)
    requires NewestFirst(history) && NoneAtOne(history) && limit >= 1
    ensures Response(history, limit, before, k) == []
    decreases |Matching(history, before)|
  {
    PageShrinks(history, before, limit);
    if Page(history, before, limit) == [] {
      k := 0;
    } else {
      var j := EmptyResponseComes(history, limit, NextQuery(Page(history, before, limit), before));
      k := j + 1;
    }
  }

  /** Reading ends, that is, some response is empty. */
  ghost predicate ReadingEnds(history: History, limit: nat, before: Option<int>) {
    exists k: nat :: Response(history, limit, before, k) == []
  }

  /**
   * With positive times, reading ends exactly when nothing is asked for or the oldest transaction was not created at
   * time 1.
   */
  lemma ReadingEndsIff(history: History, limit: nat, before: Option<int>)
    requires NewestFirst(history) && limit >= 1
    requires forall i :: 0 <= i < |history| ==> history[i].createdAt >= 1
    ensures ReadingEnds(history, limit, before) <==>
      Matching(history, before) == [] || history[|history| - 1].createdAt != 1
  {
    if Matching(history, before) == [] {
      assert Response(history, limit, before, 0) == [];
    } else if history[|history| - 1].createdAt != 1 {
      assert forall i :: 0 <= i < |history| - 1 ==> history[i].createdAt >= history[|history| - 1].createdAt;
      var k := EmptyResponseComes(history, limit, before);
    } else if ReadingEnds(history, limit, before) {
      var k: nat :| Response(history, limit, before, k) == [];
      var from := MatchingIsSuffix(history, before);
      TimeOneNeverEnds(history, limit, before, from, k);
      assert false;
    }
  }

  /** Of two transactions created at the same time, the second is lost if a response ends between them. */
  lemma TiesAreLost(a: RawTransaction, b: RawTransaction)
    requires a.createdAt == b.createdAt > 1
    ensures Fetched([a, b], 1, None) == [a] && Matching([a, b], None) == [a, b]
  {
    var history := [a, b];
    var time := a.createdAt - 1;
    assert history[1..] == [b] && [b][1..] == [];
    assert UpTo([b], time) == UpTo([], time) && UpTo(history, time) == UpTo([b], time);
    assert Page(history, None, 1) == [a];
    assert Fetched(history, 1, Some(time)) == [];
    assert [a] + [] == [a];
  }

  // ---------- the driver's filter ----------

  predicate Selected(tx: Transaction, txIds: set<string>, publicKeys: set<string>) {
    tx.txId in txIds || (match tx.publicKey case None => "" case Some(k) => k) in publicKeys
  }

  function Filter(txs: seq<Transaction>, txIds: set<string>, publicKeys: set<string>): seq<Transaction> {
    if txs == [] then []
    else if Selected(txs[0], txIds, publicKeys) then [txs[0]] + Filter(txs[1..], txIds, publicKeys)
    else Filter(txs[1..], txIds, publicKeys)
  }

  /**
   * The filter keeps, in their order, exactly the transactions with a wanted id or a wanted public key; a missing
   * public key counts as the empty text.
   */
  lemma {:induction false} FilterKeeps(txs: seq<Transaction>, txIds: set<string>, publicKeys: set<string>)
      returns (at: seq<nat>)
    ensures Places(at, txs, Filter(txs, txIds, publicKeys))
    ensures forall k :: 0 <= k < |txs| ==>
      (k in at <==>
        txs[k].txId in txIds || (txs[k].publicKey.Some? && txs[k].publicKey.value in publicKeys)
          || (txs[k].publicKey.None? && "" in publicKeys))
  {
    if txs == [] {
      at := [];
    } else {
      var rest := FilterKeeps(txs[1..], txIds, publicKeys);
      var later := Shifted(rest, txs, Filter(txs[1..], txIds, publicKeys));
      at := if Selected(txs[0], txIds, publicKeys) then [0] + later else later;
      forall k | 0 <= k < |txs|
        ensures k in at <==> Selected(txs[k], txIds, publicKeys)
      {
        ShiftedMembers(rest, later, k);
        assert k > 0 ==> txs[k] == txs[1..][k - 1];
      }
    }
  }

  function AsSet(ids: Option<seq<string>>): set<string> {
    match ids
    case None => {}
    case Some(s) => set x | x in s
  }

  lemma {:induction false} FilterConcat(a: seq<Transaction>, b: seq<Transaction>, txIds: set<string>,
        publicKeys: set<string>)
    ensures Filter(a + b, txIds, publicKeys) == Filter(a, txIds, publicKeys) + Filter(b, txIds, publicKeys)
  {
    if a == [] {
      assert a + b == b;
    } else {
      FilterConcat(a[1..], b, txIds, publicKeys);
      assert (a + b)[1..] == a[1..] + b && (a + b)[0] == a[0];
      if Selected(a[0], txIds, publicKeys) {
        Associative([a[0]], Filter(a[1..], txIds, publicKeys), Filter(b, txIds, publicKeys));
      }
    }
  }

  function Ids(txs: seq<Transaction>): (r: seq<string>)
  {
    seq(|txs|, i requires 0 <= i < |txs| => txs[i].txId)
  }

  lemma {:induction false} FilterMembers(txs: seq<Transaction>, txIds: set<string>)
    ensures forall i ::
      0 <= i < |Filter(txs, txIds, {})| ==> Filter(txs, txIds, {})[i] in txs && Filter(txs, txIds, {})[i].txId in txIds
    ensures forall tx :: tx in txs && tx.txId in txIds ==> tx in Filter(txs, txIds, {})
  {
    if txs != [] {
      FilterMembers(txs[1..], txIds);
      assert txs == [txs[0]] + txs[1..];
    }
  }

  lemma {:induction false} FilterDistinct(txs: seq<Transaction>, txIds: set<string>)
    requires Distinct(Ids(txs))
    ensures Distinct(Ids(Filter(txs, txIds, {})))
  {
    if txs != [] {
      assert Ids(txs)[1..] == Ids(txs[1..]);
      FilterDistinct(txs[1..], txIds);
      FilterMembers(txs[1..], txIds);
      var rest := Filter(txs[1..], txIds, {});
      assert Ids([txs[0]] + rest) == [txs[0].txId] + Ids(rest);
      forall j | 0 <= j < |rest|
        ensures rest[j].txId != txs[0].txId
      {
        assert rest[j] in txs[1..];
        var k :| 0 <= k < |txs[1..]| && txs[1..][k] == rest[j];
        assert Ids(txs)[k + 1] == rest[j].txId && Ids(txs)[0] == txs[0].txId;
      }
    }
  }

  /** Once as many transactions as ids have been found, no later one can match. */
  lemma AllFound(a: seq<Transaction>, b: seq<Transaction>, txIds: set<string>)
    requires Distinct(Ids(a + b)) && |Filter(a, txIds, {})| == |txIds|
    ensures Filter(a + b, txIds, {}) == Filter(a, txIds, {})
  {
    FilterConcat(a, b, txIds, {});
    FilterDistinct(a + b, txIds);
    FilterMembers(a + b, txIds);
    var all := Filter(a + b, txIds, {});
    forall x | x in Ids(all)
      ensures x in txIds
    {
      var i :| 0 <= i < |all| && Ids(all)[i] == x;
    }
    DistinctBounded(Ids(all), txIds);
    assert Filter(b, txIds, {}) == [];
  }

  /** The driver's getTransactions over the yielded history; None is the error for missing arguments. */
  method FilterTransactions(txs: seq<Transaction>, txIdParam: Option<seq<string>>, keyParam: Option<seq<string>>)
        returns (r: Option<seq<Transaction>>)
    requires Distinct(Ids(txs))
    ensures r == if txIdParam.None? && keyParam.None?
      then None else Some(Filter(txs, AsSet(txIdParam), AsSet(keyParam)))
  {
    if keyParam.None? && txIdParam.None? {
      return None;
    }
    var txIds, publicKeys := AsSet(txIdParam), AsSet(keyParam);
    var transactions := [];
    for i := 0 to |txs|
      invariant transactions == Filter(txs[..i], txIds, publicKeys)
    {
      var tx := txs[i];
      assert txs[..i + 1] == txs[..i] + [tx];
      FilterConcat(txs[..i], [tx], txIds, publicKeys);
      assert Filter([tx], txIds, publicKeys) == if Selected(tx, txIds, publicKeys)
        then [tx] else [] by { assert [tx][1..] == []; }
      if Selected(tx, txIds, publicKeys) {
        transactions := transactions + [tx];
      }
      if txIdParam.Some? && keyParam.None? && |transactions| == |txIds| {
        assert txs == txs[..i + 1] + txs[i + 1..];
        AllFound(txs[..i + 1], txs[i + 1..], txIds);
        assert publicKeys == {} && transactions == Filter(txs[..i + 1], txIds, {});
        assert transactions == Filter(txs, txIds, {});
        return Some(transactions);
      }
    }
    assert txs[..|txs|] == txs;
    return Some(transactions);
  }
}
