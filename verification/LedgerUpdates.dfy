/** Reading all updates up to the ledger end in pages, and listing the first created contract of every transaction. */
module LedgerUpdates {
  import opened Wrappers
  import opened OffsetLogs
  import opened Sequences

  datatype Event = Created(contract: string) | OtherEvent

  /** Checkpoints, reassignments and topology updates are not transactions. */
  datatype Update = Transaction(workflowId: string, synchronizerId: string, events: seq<Event>) | NotTransaction

  type Log = seq<Entry<Update>>

  /** One element of the result. */
  datatype ActiveContract = ActiveContract(
    workflowId: string,
    synchronizerId: string,
    createdEvent: string,
    reassignmentCounter: int)

  /** None is the thrown error: a transaction without a created event. */
  type Listing = Option<seq<ActiveContract>>

  /** The contract is created by one of the events, and no event in front of it creates one. */
  ghost predicate CreatedFirst(events: seq<Event>, contract: string) {
    exists i :: 0 <= i < |events| && events[i] == Created(contract) && forall j :: 0 <= j < i ==> !events[j].Created?
  }

  function FirstCreated(events: seq<Event>): (r: Option<string>)
    ensures r.None? <==> forall e :: e in events ==> !e.Created?
    ensures r.Some? ==> CreatedFirst(events, r.value)
  {
    if events == [] then None
    else if events[0].Created? then
      assert events[0] == Created(events[0].contract);
      Some(events[0].contract)
    else
      var r := FirstCreated(events[1..]);
      assert r.Some? ==> CreatedFirst(events, r.value) by {
        if r.Some? {
          var i :| 0 <= i < |events[1..]| && events[1..][i] == Created(r.value)
            && forall j :: 0 <= j < i ==> !events[1..][j].Created?;
          assert events[i + 1] == Created(r.value);
          assert forall j :: 0 < j < i + 1 ==> events[j] == events[1..][j - 1];
        }
      }
      r
  }

  function ContractOf(e: Entry<Update>): Option<ActiveContract>
    requires e.item.Transaction?
  {
    match FirstCreated(e.item.events)
    case None => None
    case Some(c) => Some(ActiveContract(e.item.workflowId, e.item.synchronizerId, c, e.offset))
  }

  /** One entry per transaction, in order. */
  function Contracts(updates: Log): Listing {
    if updates == [] then Some([])
    else if updates[0].item.NotTransaction? then Contracts(updates[1..])
    else
      match (ContractOf(updates[0]), Contracts(updates[1..]))
      case (Some(c), Some(rest)) => Some([c] + rest)
      case _ => None
  }

  function Append(a: Listing, b: Listing): Listing {
    match (a, b)
    case (Some(x), Some(y)) => Some(x + y)
    case _ => None
  }

  lemma {:induction false} ContractsConcat(a: Log, b: Log)
    ensures Contracts(a + b) == Append(Contracts(a), Contracts(b))
  {
    if a == [] {
      assert a + b == b;
      AppendNothing(Contracts(b));
    } else {
      ContractsConcat(a[1..], b);
      assert (a + b)[1..] == a[1..] + b;
      if a[0].item.Transaction? && ContractOf(a[0]).Some? {
        AppendAssoc(Some([ContractOf(a[0]).value]), Contracts(a[1..]), Contracts(b));
      }
    }
  }

  lemma OneContract(e: Entry<Update>)
    ensures Contracts([e]) ==
      if e.item.NotTransaction? then Some([])
      else match ContractOf(e) case None => None case Some(c) => Some([c])
  {
    assert Contracts([e][1..]) == Some([]);
    if e.item.Transaction? && ContractOf(e).Some? {
      assert [ContractOf(e).value] + [] == [ContractOf(e).value];
    }
  }

  lemma {:induction false} NoTransactionsNoContracts(a: Log)
    requires forall i :: 0 <= i < |a| ==> a[i].item.NotTransaction?
    ensures Contracts(a) == Some([])
  {
    if a != [] {
      NoTransactionsNoContracts(a[1..]);
    }
  }

  /** Exactly the logs whose transactions all create something are listed in full. */
  lemma {:induction false} ListedIff(updates: Log)
    ensures Contracts(updates).Some? <==>
      forall i :: 0 <= i < |updates| && updates[i].item.Transaction? ==>
        exists e :: e in updates[i].item.events && e.Created?
    ensures Contracts(updates).Some? ==>
      forall i :: 0 <= i < |updates| && updates[i].item.Transaction? ==>
        ContractOf(updates[i]).Some? && ContractOf(updates[i]).value in Contracts(updates).value
  {
    if updates != [] {
      ListedIff(updates[1..]);
      assert forall i :: 0 < i < |updates| ==> updates[i] == updates[1..][i - 1];
      assert forall i :: 0 <= i < |updates[1..]| ==> updates[1..][i] == updates[i + 1];
    }
  }

  /**
   * A listing element tells the workflow, the synchronizer and the offset of its transaction, and what it created
   * first.
   */
  ghost predicate Describes(c: ActiveContract, e: Entry<Update>) {
    && e.item.Transaction?
    && c.workflowId == e.item.workflowId && c.synchronizerId == e.item.synchronizerId
    && CreatedFirst(e.item.events, c.createdEvent) && c.reassignmentCounter == e.offset
  }

  /** The k-th element of a listing describes the k-th transaction of the log; at lists where the transactions stand. */
  lemma {:induction false} ListingDescribes(updates: Log) returns (at: seq<nat>, transactions: Log)
    requires Contracts(updates).Some?
    ensures Places(at, updates, transactions)
    ensures forall i :: 0 <= i < |updates| ==> (i in at <==> updates[i].item.Transaction?)
    ensures |Contracts(updates).value| == |transactions|
    ensures forall k :: 0 <= k < |transactions| ==> Describes(Contracts(updates).value[k], transactions[k])
  {
    if updates == [] {
      at, transactions := [], [];
    } else {
      var rest, later := ListingDescribes(updates[1..]);
      var shifted := Shifted(rest, updates, later);
      if updates[0].item.Transaction? {
        at, transactions := [0] + shifted, [updates[0]] + later;
        assert Contracts(updates).value == [ContractOf(updates[0]).value] + Contracts(updates[1..]).value;
      } else {
        at, transactions := shifted, later;
      }
      forall i | 0 <= i < |updates|
        ensures i in at <==> updates[i].item.Transaction?
      {
        ShiftedMembers(rest, shifted, i);
        assert i > 0 ==> updates[i] == updates[1..][i - 1];
      }
    }
  }

  /** The offset of the last transaction of a page, if it has one. */
  function LastTransaction(page: Log): (j: int)
    ensures -1 <= j < |page|
    ensures j >= 0 ==> page[j].item.Transaction?
    ensures forall i :: j < i < |page| ==> page[i].item.NotTransaction?
  {
    if page == [] then -1
    else if page[|page| - 1].item.Transaction? then |page| - 1
    else LastTransaction(page[..|page| - 1])
  }

  /** A page up to its last transaction accounts for exactly what is skipped by restarting behind that transaction. */
  lemma PageWithTransactions(log: Log, begin: int, end: int, limit: nat)
    requires Increasing(log) && LastTransaction(Take(Between(log, begin, end), limit)) >= 0
    ensures var page := Take(Between(log, begin, end), limit);
      var last := page[LastTransaction(page)].offset;
      begin < last <= end
        && Contracts(Between(log, begin, end)) == Append(Contracts(page), Contracts(Between(log, last, end)))
  {
    var s := Between(log, begin, end);
    var page := Take(s, limit);
    var j := LastTransaction(page);
    BetweenAfterEntry(log, begin, end, j);
    BetweenMembers(log, begin, end);
    assert page[j] == s[j];
    UpToLastTransaction(s, page, j);
  }

  lemma UpToLastTransaction(s: Log, page: Log, j: nat)
    requires page <= s && j < |page| && forall i :: j < i < |page| ==> page[i].item.NotTransaction?
    ensures Contracts(s) == Append(Contracts(page), Contracts(s[j + 1..]))
  {
    assert s == s[..j + 1] + s[j + 1..] && page == s[..j + 1] + page[j + 1..];
    ContractsConcat(s[..j + 1], s[j + 1..]);
    ContractsConcat(s[..j + 1], page[j + 1..]);
    NoTransactionsNoContracts(page[j + 1..]);
    AppendNothing(Contracts(s[..j + 1]));
  }

  lemma AppendNothing(a: Listing)
    ensures Append(a, Some([])) == a && Append(Some([]), a) == a
  {
    if a.Some? {
      assert a.value + [] == a.value && [] + a.value == a.value;
    }
  }

  /** A page without a transaction cannot hide one at the next offset. */
  lemma PageWithoutTransactions(log: Log, begin: int, end: int, limit: nat)
    requires Increasing(log) && limit >= 1 && LastTransaction(Take(Between(log, begin, end), limit)) < 0
    ensures Contracts(Between(log, begin, end)) == Contracts(Between(log, begin + 1, end))
  {
    BetweenNext(log, begin, end);
    var s := Between(log, begin, end);
    if s != [] {
      assert Take(s, limit)[0] == s[0];
    }
  }

  lemma AppendAssoc(a: Listing, b: Listing, c: Listing)
    ensures Append(Append(a, b), c) == Append(a, Append(b, c))
  {
    if a.Some? && b.Some? && c.Some? {
      assert a.value + b.value + c.value == a.value + (b.value + c.value);
    }
  }

  /** One response: created contracts are collected and the offset follows the transactions. */
  method ReadPage(page: Log, currentOffset: int) returns (newResults: Listing, offset: int)
    requires Increasing(page) && forall i :: 0 <= i < |page| ==> page[i].offset > currentOffset
    ensures newResults == Contracts(page)
    ensures newResults.Some? ==>
      (if newResults.value == [] then offset + 1 else offset) == NextOffset(page, currentOffset)
  {
    newResults, offset := Some([]), currentOffset;
    for i := 0 to |page|
      invariant newResults.Some? && newResults == Contracts(page[..i])
      invariant offset == if LastTransaction(page[..i]) >= 0
        then page[LastTransaction(page[..i])].offset else currentOffset
      invariant newResults.value == [] <==> LastTransaction(page[..i]) < 0
    {
      var e := page[i];
      assert page[..i + 1] == page[..i] + [e] && page[..i + 1][..i] == page[..i];
      ContractsConcat(page[..i], [e]);
      OneContract(e);
      if e.item.Transaction? {
        var c := ContractOf(e);
        if c.None? {
          assert page == page[..i + 1] + page[i + 1..];
          ContractsConcat(page[..i + 1], page[i + 1..]);
          return None, currentOffset;
        }
        newResults := Some(newResults.value + [c.value]);
        offset := if offset < e.offset then e.offset else offset;
      } else {
        AppendNothing(newResults);
      }
    }
    assert page[..|page|] == page;
  }

  /** What has been read and what is still to come add up to the whole query. */
  ghost predicate Accounts(log: Log, ledgerEnd: int, currentOffset: int, result: Listing) {
    Append(result, Contracts(Between(log, currentOffset, ledgerEnd))) == Contracts(Between(log, 0, ledgerEnd))
  }

  lemma PageIsSound(log: Log, begin: int, end: int, limit: nat)
    requires Increasing(log)
    ensures Increasing(Take(Between(log, begin, end), limit))
    ensures forall i ::
      0 <= i < |Take(Between(log, begin, end), limit)| ==> Take(Between(log, begin, end), limit)[i].offset > begin
  {
    BetweenMembers(log, begin, end);
    BetweenIncreasing(log, begin, end);
    var page := Take(Between(log, begin, end), limit);
    assert forall i :: 0 <= i < |page| ==> page[i] in Between(log, begin, end);
  }

  /** Where the loop goes on after a page. */
  function NextOffset(page: Log, currentOffset: int): int {
    if LastTransaction(page) >= 0 then page[LastTransaction(page)].offset else currentOffset + 1
  }

  /** Reading one page keeps the account, also when the page ends the reading with an error. */
  lemma PageAccounts(log: Log, ledgerEnd: int, currentOffset: int, limit: nat, result: Listing)
    requires Increasing(log) && limit >= 1 && Accounts(log, ledgerEnd, currentOffset, result)
    ensures var page := Take(Between(log, currentOffset, ledgerEnd), limit);
      && NextOffset(page, currentOffset) > currentOffset
      && Accounts(log, ledgerEnd, NextOffset(page, currentOffset), Append(result, Contracts(page)))
  {
    var page := Take(Between(log, currentOffset, ledgerEnd), limit);
    if LastTransaction(page) >= 0 {
      PageWithTransactions(log, currentOffset, ledgerEnd, limit);
      AppendAssoc(result, Contracts(page), Contracts(Between(log, page[LastTransaction(page)].offset, ledgerEnd)));
    } else {
      NoTransactionsNoContracts(page);
      AppendNothing(result);
      PageWithoutTransactions(log, currentOffset, ledgerEnd, limit);
    }
  }

  lemma ErrorStays(log: Log, ledgerEnd: int, currentOffset: int)
    requires Accounts(log, ledgerEnd, currentOffset, None)
    ensures Contracts(Between(log, 0, ledgerEnd)) == None
  {
  }

  lemma NothingLeft(log: Log, ledgerEnd: int, currentOffset: int, result: Listing)
    requires currentOffset >= ledgerEnd && Accounts(log, ledgerEnd, currentOffset, result)
    ensures result == Contracts(Between(log, 0, ledgerEnd))
  {
    NothingBetween(log, currentOffset, ledgerEnd);
    AppendNothing(result);
  }

  /** fetchActiveContractsUntilComplete refines one query for everything in (0, ledgerEnd]. */
  method FetchActiveContractsUntilComplete(log: Log, ledgerEnd: int, limit: nat) returns (result: Listing)
    requires Increasing(log) && limit >= 1
    ensures result == Contracts(Between(log, 0, ledgerEnd))
  {
    result := Some([]);
    var currentOffset := 0;
    AppendNothing(Contracts(Between(log, 0, ledgerEnd)));
    while currentOffset < ledgerEnd
      invariant result.Some? && Accounts(log, ledgerEnd, currentOffset, result)
      decreases ledgerEnd - currentOffset
    {
      var page := Take(Between(log, currentOffset, ledgerEnd), limit);
      PageIsSound(log, currentOffset, ledgerEnd, limit);
      PageAccounts(log, ledgerEnd, currentOffset, limit, result);
      var newResults, offset := ReadPage(page, currentOffset);
      if newResults.None? {
        ErrorStays(log, ledgerEnd, NextOffset(page, currentOffset));
        return None;
      }
      result := Some(result.value + newResults.value);
      currentOffset := if |newResults.value| == 0 then offset + 1 else offset;
    }
    NothingLeft(log, ledgerEnd, currentOffset, result);
  }
}
