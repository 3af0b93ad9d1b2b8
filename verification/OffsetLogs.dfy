/** A server as a pure function of an offset-ordered log: a request returns the first entries after an offset. */
module OffsetLogs {
  datatype Entry<T> = Entry(offset: int, item: T)

  ghost predicate Increasing<T>(log: seq<Entry<T>>) {
    forall i, j :: 0 <= i < j < |log| ==> log[i].offset < log[j].offset
  }

  /** The entries with begin < offset <= end. */
  function Between<T>(log: seq<Entry<T>>, begin: int, end: int): seq<Entry<T>> {
    if log == [] then []
    else if begin < log[0].offset <= end then [log[0]] + Between(log[1..], begin, end)
    else Between(log[1..], begin, end)
  }

  function Take<T>(s: seq<T>, limit: nat): (r: seq<T>)
    ensures |r| <= limit && r <= s
    ensures s != [] && limit > 0 ==> r != [] && r[0] == s[0]
  {
    if |s| <= limit then s else s[..limit]
  }

  lemma {:induction false} BetweenMembers<T>(log: seq<Entry<T>>, begin: int, end: int)
    ensures forall e :: e in Between(log, begin, end) <==> e in log && begin < e.offset <= end
    ensures forall i :: 0 <= i < |Between(log, begin, end)| ==> begin < Between(log, begin, end)[i].offset <= end
  {
    if log != [] {
      BetweenMembers(log[1..], begin, end);
      assert log == [log[0]] + log[1..];
    }
  }

  lemma {:induction false} BetweenIncreasing<T>(log: seq<Entry<T>>, begin: int, end: int)
    requires Increasing(log)
    ensures Increasing(Between(log, begin, end))
  {
    if log != [] {
      BetweenIncreasing(log[1..], begin, end);
      BetweenMembers(log[1..], begin, end);
      var rest := Between(log[1..], begin, end);
      forall i | 0 <= i < |rest|
        ensures log[0].offset < rest[i].offset
      {
        LaterOffset(log, begin, end, rest[i]);
      }
    }
  }

  lemma {:induction false} NothingBetween<T>(log: seq<Entry<T>>, begin: int, end: int)
    requires forall e :: e in log ==> !(begin < e.offset <= end)
    ensures Between(log, begin, end) == []
  {
    if log != [] {
      NothingBetween(log[1..], begin, end);
    }
  }

  /** An increasing log with everything after begin starts later when begin moves to one of its entries. */
  lemma {:induction false} BetweenAfterEntry<T>(log: seq<Entry<T>>, begin: int, end: int, j: nat)
    requires Increasing(log) && j < |Between(log, begin, end)|
    ensures Between(log, Between(log, begin, end)[j].offset, end) == Between(log, begin, end)[j + 1..]
    decreases |log|
  {
    var s, tail := Between(log, begin, end), Between(log[1..], begin, end);
    if begin < log[0].offset <= end {
      assert s == [log[0]] + tail;
      assert s[j + 1..] == tail[j..];
      if j == 0 {
        BetweenSame(log[1..], begin, log[0].offset, end);
      } else {
        BetweenAfterEntry(log[1..], begin, end, j - 1);
        LaterOffset(log, begin, end, tail[j - 1]);
      }
    } else {
      assert s == tail;
      BetweenAfterEntry(log[1..], begin, end, j);
      LaterOffset(log, begin, end, tail[j]);
    }
  }

  lemma LaterOffset<T>(log: seq<Entry<T>>, begin: int, end: int, e: Entry<T>)
    requires Increasing(log) && log != [] && e in Between(log[1..], begin, end)
    ensures log[0].offset < e.offset
  {
    BetweenMembers(log[1..], begin, end);
    var k :| 0 <= k < |log[1..]| && log[1..][k] == e;
    assert log[k + 1] == e;
  }

  /** Two lower bounds with no entry between them are the same. */
  lemma {:induction false} BetweenSame<T>(log: seq<Entry<T>>, a: int, b: int, end: int)
    requires a <= b && forall e :: e in log ==> !(a < e.offset <= b && e.offset <= end)
    ensures Between(log, a, end) == Between(log, b, end)
  {
    if log != [] {
      BetweenSame(log[1..], a, b, end);
    }
  }

  lemma NoneAtNext<T>(log: seq<Entry<T>>, begin: int, end: int)
    requires Increasing(log)
    requires Between(log, begin, end) == [] || Between(log, begin, end)[0].offset != begin + 1
    ensures forall e :: e in log ==> !(begin < e.offset <= begin + 1 && e.offset <= end)
  {
  }

  /** Moving begin up by one drops at most the first entry. */
  lemma BetweenNext<T>(log: seq<Entry<T>>, begin: int, end: int)
    requires Increasing(log)
    ensures var s := Between(log, begin, end);
      Between(log, begin + 1, end) == if s != [] && s[0].offset == begin + 1 then s[1..] else s
  {
    var s := Between(log, begin, end);
    if s != [] && s[0].offset == begin + 1 {
      BetweenAfterEntry(log, begin, end, 0);
    } else {
      NoneAtNext(log, begin, end);
      BetweenSame(log, begin, begin + 1, end);
    }
  }
}
