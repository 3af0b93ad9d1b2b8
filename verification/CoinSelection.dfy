/**
 * Choice of input holdings for a transfer. Amounts are exact reals; the parsing of decimal text and its rounding to
 * doubles is not part of this model.
 */
module CoinSelection {
  import opened Wrappers
  import opened Sequences
  import opened Holdings

  /** The thrown errors, in the order in which they are tested. */
  datatype Selection =
    | Selected(cids: seq<string>)
    | NoHoldings
    | NoUnlockedHoldings
    | InsufficientFunds(missing: real)
    | TooManyInputs

  const MAX_INPUTS: nat := 100

  // ---------- locks ----------

  /** The filter of getInputHoldingsCids. */
  predicate KeptAsUnlocked(h: Holding, now: int) {
    match h.lock
    case None => true
    case Some(lock) => (match lock.expiresAt case None => false case Some(t) => t <= now)
  }

  /** TokenStandardService.isHoldingLocked. */
  predicate IsHoldingLocked(h: Holding, now: int) {
    match h.lock
    case None => false
    case Some(lock) => (match lock.expiresAt case None => true case Some(t) => now < t)
  }

  function Unlocked(hs: seq<Holding>, now: int): (r: seq<Holding>)
    ensures forall h :: h in r <==> h in hs && !IsHoldingLocked(h, now)
    ensures |r| <= |hs|
  {
    if hs == [] then []
    else if KeptAsUnlocked(hs[0], now) then [hs[0]] + Unlocked(hs[1..], now)
    else Unlocked(hs[1..], now)
  }

  /** The filter keeps exactly the unlocked holdings, each at its place in the order. */
  lemma {:induction false} UnlockedInOrder(hs: seq<Holding>, now: int) returns (at: seq<nat>)
    ensures Places(at, hs, Unlocked(hs, now))
    ensures forall k :: 0 <= k < |hs| ==> (k in at <==> !IsHoldingLocked(hs[k], now))
  {
    if hs == [] {
      at := [];
    } else {
      var rest := UnlockedInOrder(hs[1..], now);
      var later := Shifted(rest, hs, Unlocked(hs[1..], now));
      at := if KeptAsUnlocked(hs[0], now) then [0] + later else later;
      forall k | 0 <= k < |hs|
        ensures k in at <==> !IsHoldingLocked(hs[k], now)
      {
        ShiftedMembers(rest, later, k);
        if k > 0 {
          assert hs[k] == hs[1..][k - 1];
        }
      }
    }
  }

  lemma {:induction false} UnlockedAmong(hs: seq<Holding>, now: int)
    ensures Among(Unlocked(hs, now), hs)
  {
    if hs != [] {
      UnlockedAmong(hs[1..], now);
      RestMultiset(hs);
    }
  }

  // ---------- sorting ----------

  ghost predicate Ascending(hs: seq<Holding>) {
    forall i, j :: 0 <= i < j < |hs| ==> hs[i].amount <= hs[j].amount
  }

  /** Before the first larger holding, so that equal amounts keep their order. */
  function InsertAscending(h: Holding, hs: seq<Holding>): seq<Holding> {
    if hs == [] || h.amount <= hs[0].amount then [h] + hs else [hs[0]] + InsertAscending(h, hs[1..])
  }

  /** A stable sort, smallest first. */
  function ToSorted(hs: seq<Holding>): seq<Holding> {
    if hs == [] then [] else InsertAscending(hs[0], ToSorted(hs[1..]))
  }

  lemma {:induction false} InsertPlace(h: Holding, hs: seq<Holding>) returns (p: nat)
    ensures p <= |hs| && InsertAscending(h, hs) == InsertAt(hs, p, h)
    ensures p > 0 ==> hs[p - 1].amount < h.amount
    ensures p < |hs| ==> h.amount <= hs[p].amount
  {
    if hs == [] || h.amount <= hs[0].amount {
      p := 0;
      assert InsertAt(hs, 0, h) == [h] + hs;
    } else {
      var q := InsertPlace(h, hs[1..]);
      p := q + 1;
      InsertAtRest(hs, p, h);
    }
  }

  lemma AscendingWith(h: Holding, hs: seq<Holding>, p: nat)
    requires Ascending(hs) && p <= |hs| && (p > 0 ==> hs[p - 1].amount <= h.amount)
    requires (p < |hs| ==> h.amount <= hs[p].amount)
    ensures Ascending(InsertAt(hs, p, h))
  {
    assert forall i :: 0 <= i < p ==> hs[i].amount <= h.amount;
    assert forall i :: p <= i < |hs| ==> h.amount <= hs[i].amount;
  }

  lemma InsertAscendingSorts(h: Holding, hs: seq<Holding>)
    requires Ascending(hs)
    ensures Ascending(InsertAscending(h, hs))
    ensures multiset(InsertAscending(h, hs)) == multiset{h} + multiset(hs)
  {
    var p := InsertPlace(h, hs);
    AscendingWith(h, hs, p);
    InsertAtMultiset(hs, p, h);
  }

  lemma {:induction false} ToSortedSorts(hs: seq<Holding>)
    ensures Ascending(ToSorted(hs))
    ensures multiset(ToSorted(hs)) == multiset(hs)
    ensures |ToSorted(hs)| == |hs|
  {
    if hs != [] {
      ToSortedSorts(hs[1..]);
      InsertAscendingSorts(hs[0], ToSorted(hs[1..]));
      RestMultiset(hs);
      assert multiset(hs) == multiset{hs[0]} + multiset(hs[1..]);
    }
    SameLength(ToSorted(hs), hs);
  }

  /** The sorted list by places in the given one: by amount, and equal amounts in the order in which they were given. */
  ghost predicate StablySorted(at: seq<nat>, hs: seq<Holding>, sorted: seq<Holding>) {
    && |at| == |sorted| == |hs|
    && (forall i :: 0 <= i < |at| ==> at[i] < |hs| && sorted[i] == hs[at[i]])
    && forall i, j :: 0 <= i < j < |at| ==> Before(sorted[i], at[i], sorted[j], at[j])
  }

  predicate Before(h: Holding, i: nat, k: Holding, j: nat) {
    h.amount < k.amount || (h.amount == k.amount && i < j)
  }

  lemma {:induction false} SortIsStable(hs: seq<Holding>) returns (at: seq<nat>)
    ensures StablySorted(at, hs, ToSorted(hs))
  {
    if hs == [] {
      at := [];
    } else {
      var rest := SortIsStable(hs[1..]);
      var p := InsertPlace(hs[0], ToSorted(hs[1..]));
      var later := seq(|rest|, i requires 0 <= i < |rest| => rest[i] + 1);
      at := InsertAt(later, p, 0);
      StableInsert(hs, ToSorted(hs[1..]), rest, later, p);
    }
  }

  lemma StableInsert(hs: seq<Holding>, sorted: seq<Holding>, rest: seq<nat>, later: seq<nat>, p: nat)
    requires hs != [] && StablySorted(rest, hs[1..], sorted) && p <= |sorted|
    requires |later| == |rest| && forall i :: 0 <= i < |rest| ==> later[i] == rest[i] + 1
    requires p > 0 ==> sorted[p - 1].amount < hs[0].amount
    requires p < |sorted| ==> hs[0].amount <= sorted[p].amount
    ensures StablySorted(InsertAt(later, p, 0), hs, InsertAt(sorted, p, hs[0]))
  {
    var at, r := InsertAt(later, p, 0), InsertAt(sorted, p, hs[0]);
    forall i | 0 <= i < |sorted|
      ensures sorted[i] == hs[later[i]]
      ensures if i < p then Before(sorted[i], later[i], hs[0], 0) else Before(hs[0], 0, sorted[i], later[i])
    {
      assert hs[1..][rest[i]] == hs[later[i]];
      if i < p - 1 {
        assert Before(sorted[i], rest[i], sorted[p - 1], rest[p - 1]);
      } else if i > p {
        assert Before(sorted[p], rest[p], sorted[i], rest[i]);
      }
    }
    forall i, j | 0 <= i < j < |at|
      ensures Before(r[i], at[i], r[j], at[j])
    {
      StablePair(sorted, rest, later, hs[0], p, i, j);
    }
    forall i | 0 <= i < |at|
      ensures at[i] < |hs| && r[i] == hs[at[i]]
    {
      var a := if i < p then i else i - 1;
      assert i != p ==> r[i] == sorted[a] && at[i] == later[a];
    }
  }

  lemma StablePair(sorted: seq<Holding>, rest: seq<nat>, later: seq<nat>, h: Holding, p: nat, i: nat, j: nat)
    requires |later| == |rest| == |sorted| && p <= |sorted| && i < j <= |sorted|
    requires forall k :: 0 <= k < |rest| ==> later[k] == rest[k] + 1
    requires forall a, b :: 0 <= a < b < |sorted| ==> Before(sorted[a], rest[a], sorted[b], rest[b])
    requires forall k :: 0 <= k < |sorted| ==>
      if k < p then Before(sorted[k], later[k], h, 0) else Before(h, 0, sorted[k], later[k])
    ensures var at, r := InsertAt(later, p, 0), InsertAt(sorted, p, h);
      Before(r[i], at[i], r[j], at[j])
  {
    if i != p && j != p {
      var a, b := if i < p then i else i - 1, if j < p then j else j - 1;
      assert Before(sorted[a], rest[a], sorted[b], rest[b]);
    }
  }

  // ---------- the selection ----------

  /** The first holding of exactly this amount. */
  function FindExact(amount: real, hs: seq<Holding>): (r: Option<Holding>)
    ensures r.Some? ==> r.value in hs && r.value.amount == amount
    ensures r.None? ==> forall h :: h in hs ==> h.amount != amount
  {
    if hs == [] then None
    else if hs[0].amount == amount then Some(hs[0])
    else FindExact(amount, hs[1..])
  }

  /** How many further holdings are taken, in this order, until the sum covers the amount or none is left. */
  function Picks(sum: real, amount: real, rest: seq<Holding>): (n: nat)
    ensures n <= |rest|
    decreases |rest|
  {
    if rest == [] || sum >= amount then 0 else 1 + Picks(sum + rest[0].amount, amount, rest[1..])
  }

  /** The largest holding that is taken first: the last of the sorted list. */
  function Largest(hs: seq<Holding>): Holding
    requires hs != []
  {
    ToSortedSorts(hs);
    ToSorted(hs)[|hs| - 1]
  }

  /** All the others, smallest first. */
  function Others(hs: seq<Holding>): (r: seq<Holding>)
    requires hs != []
    ensures |r| == |hs| - 1
  {
    ToSortedSorts(hs);
    ToSorted(hs)[..|hs| - 1]
  }

  /** The holdings taken when none matches exactly: the largest, then the smallest others first. */
  function Taken(amount: real, hs: seq<Holding>): (r: seq<Holding>)
    requires hs != []
  {
    [Largest(hs)] + Others(hs)[..Picks(Largest(hs).amount, amount, Others(hs))]
  }

  function Select(amount: real, hs: seq<Holding>): Selection {
    match FindExact(amount, hs)
    case Some(h) => Selected([h.contractId])
    case None =>
      if hs == [] then NoUnlockedHoldings
      else
        var taken := Taken(amount, hs);
        if Total(taken) < amount then InsufficientFunds(amount - Total(taken))
        else if |taken| > MAX_INPUTS then TooManyInputs
        else Selected(Cids(taken))
  }

  lemma {:induction false} FirstExact(amount: real, hs: seq<Holding>) returns (i: nat)
    requires FindExact(amount, hs).Some?
    ensures i < |hs| && FindExact(amount, hs) == Some(hs[i])
    ensures hs[i].amount == amount && forall j :: 0 <= j < i ==> hs[j].amount != amount
  {
    if hs[0].amount == amount {
      i := 0;
    } else {
      var k := FirstExact(amount, hs[1..]);
      i := k + 1;
      assert forall j :: 0 < j < i ==> hs[j] == hs[1..][j - 1];
    }
  }

  /**
   * Which ids are selected, by the places of the holdings: the first exact match alone, or the last of the stable order
   * and then its first ones.
   */
  lemma SelectedPlaces(amount: real, hs: seq<Holding>) returns (at: seq<nat>)
    requires Select(amount, hs).Selected?
    ensures hs != [] && StablySorted(at, hs, ToSorted(hs))
    ensures var cids := Select(amount, hs).cids;
      if exists h :: h in hs && h.amount == amount then
        exists i :: 0 <= i < |hs| && hs[i].amount == amount && cids == [hs[i].contractId]
          && forall j :: 0 <= j < i ==> hs[j].amount != amount
      else
        && 1 <= |cids| <= |hs| && cids[0] == hs[at[|hs| - 1]].contractId
        && forall k :: 1 <= k < |cids| ==> cids[k] == hs[at[k - 1]].contractId
  {
    at := SortIsStable(hs);
    if FindExact(amount, hs).Some? {
      var i := FirstExact(amount, hs);
    }
  }

  /** The list of unlocked holdings is empty exactly when that is the error. */
  lemma NothingUnlockedIff(amount: real, hs: seq<Holding>)
    ensures Select(amount, hs) == NoUnlockedHoldings <==> hs == []
    ensures Select(amount, hs) != NoHoldings
  {
  }

  lemma {:induction false} PickAnother(sum: real, amount: real, rest: seq<Holding>, i: nat)
    requires i < |rest|
    requires i <= Picks(sum, amount, rest)
    ensures i < Picks(sum, amount, rest) <==> sum + Total(rest[..i]) < amount
    decreases |rest|
  {
    if i > 0 {
      PickAnother(sum + rest[0].amount, amount, rest[1..], i - 1);
      assert rest[..i][1..] == rest[1..][..i - 1];
    }
  }

  lemma TakeOneMore(largest: Holding, rest: seq<Holding>, i: nat)
    requires i < |rest|
    ensures Total([largest] + rest[..i + 1]) == Total([largest] + rest[..i]) + rest[i].amount
    ensures Cids([largest] + rest[..i + 1]) == Cids([largest] + rest[..i]) + [rest[i].contractId]
  {
    TotalSnoc([largest] + rest[..i], rest[i]);
    assert [largest] + rest[..i + 1] == [largest] + rest[..i] + [rest[i]];
  }

  /** getInputHoldingsCidsForAmount. */
  method GetInputHoldingsCidsForAmount(amount: real, unlocked: seq<Holding>) returns (r: Selection)
    ensures r == Select(amount, unlocked)
  {
    var exact := FindExact(amount, unlocked);
    if exact.Some? {
      return Selected([exact.value.contractId]);
    }
    var sorted := ToSorted(unlocked);
    ToSortedSorts(unlocked);
    if sorted == [] {
      return NoUnlockedHoldings;
    }
    var largest := sorted[|sorted| - 1];
    sorted := sorted[..|sorted| - 1];
    assert largest == Largest(unlocked) && sorted == Others(unlocked);
    var currentSum, cids, i := TakeWhileShort(amount, largest, sorted);
    if currentSum < amount {
      return InsufficientFunds(amount - currentSum);
    }
    if |cids| > MAX_INPUTS {
      return TooManyInputs;
    }
    return Selected(cids);
  }

  /** The loop of getInputHoldingsCidsForAmount. */
  method TakeWhileShort(amount: real, largest: Holding, sorted: seq<Holding>)
        returns (currentSum: real, cids: seq<string>, i: nat)
    ensures i == Picks(largest.amount, amount, sorted)
    ensures currentSum == Total([largest] + sorted[..i])
    ensures cids == Cids([largest] + sorted[..i])
  {
    ghost var n := Picks(largest.amount, amount, sorted);
    currentSum := largest.amount;
    cids := [largest.contractId];
    i := 0;
    TotalCons(largest, []);
    while i < |sorted|
      invariant 0 <= i <= n
      invariant currentSum == Total([largest] + sorted[..i])
      invariant cids == Cids([largest] + sorted[..i])
    {
      PickAnother(largest.amount, amount, sorted, i);
      TotalCons(largest, sorted[..i]);
      if currentSum >= amount {
        break;
      }
      TakeOneMore(largest, sorted, i);
      currentSum := currentSum + sorted[i].amount;
      cids := cids + [sorted[i].contractId];
      i := i + 1;
    }
  }

  /** getInputHoldingsCids: chosen inputs win; an absent or zero amount takes everything unlocked. */
  method GetInputHoldingsCids(holdings: seq<Holding>, inputUtxos: Option<seq<string>>, amount: Option<real>, now: int)
        returns (r: Selection)
    ensures inputUtxos.Some? && inputUtxos.value != [] ==> r == Selected(inputUtxos.value)
    ensures !(inputUtxos.Some? && inputUtxos.value != []) ==>
      r == if holdings == [] then NoHoldings
           else if amount.Some? && amount.value != 0.0 then Select(amount.value, Unlocked(holdings, now))
           else Selected(Cids(Unlocked(holdings, now)))
    ensures r == NoHoldings <==> !(inputUtxos.Some? && inputUtxos.value != []) && holdings == []
    ensures r == NoUnlockedHoldings <==>
      && !(inputUtxos.Some? && inputUtxos.value != []) && holdings != [] && amount.Some? && amount.value != 0.0
      && forall h :: h in holdings ==> IsHoldingLocked(h, now)
  {
    if inputUtxos.Some? && |inputUtxos.value| > 0 {
      return Selected(inputUtxos.value);
    }
    if |holdings| == 0 {
      return NoHoldings;
    }
    var unlocked := Unlocked(holdings, now);
    assert unlocked == [] <==> forall h :: h in holdings ==> IsHoldingLocked(h, now) by {
      assert unlocked != [] ==> unlocked[0] in unlocked;
    }
    if amount.Some? && amount.value != 0.0 {
      NothingUnlockedIff(amount.value, unlocked);
      r := GetInputHoldingsCidsForAmount(amount.value, unlocked);
    } else {
      return Selected(Cids(unlocked));
    }
  }

  // ---------- every outcome characterised ----------

  ghost predicate NonNegative(hs: seq<Holding>) {
    forall h :: h in hs ==> h.amount >= 0.0
  }

  lemma LargestAndOthers(hs: seq<Holding>)
    requires hs != []
    ensures Ascending(Others(hs)) && |Others(hs)| == |hs| - 1
    ensures multiset([Largest(hs)] + Others(hs)) == multiset(hs)
    ensures forall h :: h in hs ==> h.amount <= Largest(hs).amount
    ensures Total([Largest(hs)] + Others(hs)) == Largest(hs).amount + Total(Others(hs)) == Total(hs)
  {
    ToSortedSorts(hs);
    LastOfSorted(hs, ToSorted(hs), Largest(hs), Others(hs));
  }

  lemma LastOfSorted(hs: seq<Holding>, sorted: seq<Holding>, largest: Holding, others: seq<Holding>)
    requires Ascending(sorted) && multiset(sorted) == multiset(hs) && sorted == others + [largest]
    ensures Ascending(others) && multiset([largest] + others) == multiset(hs)
    ensures forall h :: h in hs ==> h.amount <= largest.amount
    ensures Total([largest] + others) == largest.amount + Total(others) == Total(hs)
  {
    assert forall i :: 0 <= i < |others| ==> others[i] == sorted[i];
    forall h | h in hs
      ensures h.amount <= largest.amount
    {
      assert h in multiset(sorted);
      var i :| 0 <= i < |sorted| && sorted[i] == h;
      assert sorted[|others|] == largest;
    }
    TotalSnoc(others, largest);
    TotalCons(largest, others);
    SameTotal(hs, sorted);
  }

  lemma {:induction false} TotalMonotone(hs: seq<Holding>, n: nat, m: nat)
    requires NonNegative(hs) && n <= m <= |hs|
    ensures Total(hs[..n]) <= Total(hs[..m])
  {
    if n < m {
      TotalMonotone(hs, n, m - 1);
      TotalSnoc(hs[..m - 1], hs[m - 1]);
      assert hs[..m] == hs[..m - 1] + [hs[m - 1]];
    }
  }

  /** The picks stop at the first prefix that covers, or run to the end. */
  lemma {:induction false} PicksAreLeast(sum: real, amount: real, rest: seq<Holding>)
    ensures Picks(sum, amount, rest) < |rest| ==> sum + Total(rest[..Picks(sum, amount, rest)]) >= amount
    ensures forall i :: 0 <= i < Picks(sum, amount, rest) ==> sum + Total(rest[..i]) < amount
  {
    var n := Picks(sum, amount, rest);
    if n < |rest| {
      PickAnother(sum, amount, rest, n);
    }
    forall i | 0 <= i < n
      ensures sum + Total(rest[..i]) < amount
    {
      PickAnother(sum, amount, rest, i);
    }
  }

  /** The picks in terms of the whole list: they fall short exactly when everything does. */
  lemma PicksCover(first: real, amount: real, rest: seq<Holding>)
    requires NonNegative(rest)
    ensures first + Total(rest[..Picks(first, amount, rest)]) < amount <==> first + Total(rest) < amount
    ensures first + Total(rest) < amount ==> Total(rest[..Picks(first, amount, rest)]) == Total(rest)
  {
    var n := Picks(first, amount, rest);
    PicksAreLeast(first, amount, rest);
    TotalMonotone(rest, n, |rest|);
    assert rest[..|rest|] == rest;
  }

  /** More than m are picked exactly when the first m fall short and there are more. */
  lemma PicksExceed(first: real, amount: real, rest: seq<Holding>, m: nat)
    requires NonNegative(rest)
    ensures Picks(first, amount, rest) > m <==> |rest| > m && first + Total(rest[..m]) < amount
  {
    var n := Picks(first, amount, rest);
    PicksAreLeast(first, amount, rest);
    if m < |rest| && n <= m {
      TotalMonotone(rest, n, m);
    }
  }

  lemma OthersNonNegative(hs: seq<Holding>)
    requires hs != [] && NonNegative(hs)
    ensures NonNegative(Others(hs))
  {
    LargestAndOthers(hs);
    forall h | h in Others(hs)
      ensures h.amount >= 0.0
    {
      assert h in multiset([Largest(hs)] + Others(hs));
      assert h in multiset(hs);
    }
  }

  lemma {:induction false} TotalNonNegative(hs: seq<Holding>)
    requires NonNegative(hs)
    ensures Total(hs) >= 0.0
  {
    if hs != [] {
      assert hs[0] in hs;
      TotalNonNegative(hs[1..]);
    }
  }

  lemma {:induction false} MemberAtMostTotal(hs: seq<Holding>, h: Holding)
    requires NonNegative(hs) && h in hs
    ensures h.amount <= Total(hs)
  {
    assert hs[0] in hs;
    if hs[0] == h {
      TotalNonNegative(hs[1..]);
    } else {
      MemberAtMostTotal(hs[1..], h);
    }
  }

  /** An exact match neither exceeds the largest holding nor everything together. */
  lemma ExactIsCovered(amount: real, hs: seq<Holding>, n: nat)
    requires hs != [] && NonNegative(hs) && FindExact(amount, hs).Some? && n <= |Others(hs)|
    ensures amount <= Largest(hs).amount + Total(Others(hs)[..n])
    ensures amount <= Total(hs)
  {
    LargestAndOthers(hs);
    OthersNonNegative(hs);
    TotalNonNegative(Others(hs)[..n]);
    MemberAtMostTotal(hs, FindExact(amount, hs).value);
  }

  /**
   * Insufficient funds are reported exactly when everything together falls short, and with the amount that is missing.
   */
  lemma InsufficientIff(amount: real, hs: seq<Holding>)
    requires NonNegative(hs)
    ensures Select(amount, hs).InsufficientFunds? <==> hs != [] && Total(hs) < amount
    ensures Select(amount, hs).InsufficientFunds? ==> Select(amount, hs).missing == amount - Total(hs)
  {
    if hs != [] && FindExact(amount, hs).Some? {
      ExactIsCovered(amount, hs, 0);
    } else if hs != [] {
      LargestAndOthers(hs);
      OthersNonNegative(hs);
      PicksCover(Largest(hs).amount, amount, Others(hs));
    }
  }

  /** Too many inputs are reported exactly when there is enough, but not in the largest and the 99 smallest others. */
  lemma TooManyIff(amount: real, hs: seq<Holding>)
    requires NonNegative(hs)
    ensures Select(amount, hs).TooManyInputs? <==>
      && |hs| > 100 && Largest(hs).amount + Total(Others(hs)[..99]) < amount <= Total(hs)
  {
    if hs != [] && FindExact(amount, hs).Some? {
      if |hs| > MAX_INPUTS {
        ExactIsCovered(amount, hs, MAX_INPUTS - 1);
      }
    } else if hs != [] {
      LargestAndOthers(hs);
      OthersNonNegative(hs);
      PicksCover(Largest(hs).amount, amount, Others(hs));
      PicksExceed(Largest(hs).amount, amount, Others(hs), MAX_INPUTS - 1);
    }
  }

  /** t is some of the given holdings, none used more often than it is given. */
  ghost predicate Among(t: seq<Holding>, hs: seq<Holding>) {
    multiset(t) <= multiset(hs)
  }

  lemma PrefixAmong(hs: seq<Holding>, n: nat)
    requires hs != [] && n <= |Others(hs)|
    ensures Among([Largest(hs)] + Others(hs)[..n], hs)
  {
    LargestAndOthers(hs);
    var t, u := [Largest(hs)] + Others(hs)[..n], Others(hs)[n..];
    assert [Largest(hs)] + Others(hs) == t + u;
    assert multiset(t + u) == multiset(t) + multiset(u);
  }

  /** A selection covers the amount with 1 to 100 of the given holdings, and falls short without its last pick. */
  lemma SelectedCovers(amount: real, hs: seq<Holding>) returns (taken: seq<Holding>)
    requires Select(amount, hs).Selected?
    ensures Select(amount, hs).cids == Cids(taken) && 1 <= |taken| <= 100
    ensures Among(taken, hs)
    ensures Total(taken) >= amount
    ensures FindExact(amount, hs).Some? ==> taken == [FindExact(amount, hs).value]
    ensures |taken| > 1 ==> Total(taken[..|taken| - 1]) < amount
  {
    match FindExact(amount, hs)
    case Some(h) =>
      taken := [h];
      assert h in multiset(hs);
      TotalCons(h, []);
      assert [h] + [] == [h];
    case None =>
      taken := Taken(amount, hs);
      var n := |taken| - 1;
      PrefixAmong(hs, n);
      if n > 0 {
        PicksAreLeast(Largest(hs).amount, amount, Others(hs));
        TotalCons(Largest(hs), Others(hs)[..n - 1]);
        assert taken[..n] == [Largest(hs)] + Others(hs)[..n - 1];
      }
  }

  /** When the given contract ids are distinct, so are the chosen ones. */
  lemma ChosenIdsDistinct(t: seq<Holding>, hs: seq<Holding>)
    requires Among(t, hs) && Distinct(Cids(hs))
    ensures Distinct(Cids(t))
  {
    forall i, j | 0 <= i < j < |t|
      ensures t[i].contractId != t[j].contractId
    {
      assert t[i] in multiset(t) && t[j] in multiset(t);
      assert t[i] in hs && t[j] in hs;
      var k :| 0 <= k < |hs| && hs[k] == t[i];
      var l :| 0 <= l < |hs| && hs[l] == t[j];
      assert Cids(hs)[k] == t[i].contractId && Cids(hs)[l] == t[j].contractId;
      if k == l {
        TwoPlaces(t, i, j);
        forall a, b | 0 <= a < b < |hs|
          ensures hs[a] != hs[b]
        {
          assert Cids(hs)[a] != Cids(hs)[b];
        }
        OncePerPlace(hs, t[i]);
        assert false;
      }
    }
  }

  /**
   * From the list of holdings to the chosen ids: a success with an amount is 1 to 100 distinct ids of unlocked holdings
   * of the list that together cover the amount.
   */
  lemma SuccessIsSound(amount: real, holdings: seq<Holding>, now: int) returns (taken: seq<Holding>)
    requires Distinct(Cids(holdings)) && Select(amount, Unlocked(holdings, now)).Selected?
    ensures Select(amount, Unlocked(holdings, now)).cids == Cids(taken) && Distinct(Cids(taken))
    ensures 1 <= |taken| <= 100
    ensures Among(taken, holdings) && forall h :: h in taken ==> h in holdings && !IsHoldingLocked(h, now)
    ensures Total(taken) >= amount
  {
    var unlocked := Unlocked(holdings, now);
    taken := SelectedCovers(amount, unlocked);
    UnlockedAmong(holdings, now);
    ChosenIdsDistinct(taken, holdings);
    forall h | h in taken
      ensures h in unlocked
    {
      assert h in multiset(taken);
    }
  }

  // ---------- optimality ----------

  /** t is a choice of k of the given holdings that contains the largest. */
  ghost predicate ChoiceWithLargest(hs: seq<Holding>, k: nat, t: seq<Holding>)
    requires hs != []
  {
    |t| == k && Among(t, hs) && Largest(hs) in t
  }

  /** Every choice of k of the given holdings that contains the largest covers the amount. */
  ghost predicate AlwaysCovered(hs: seq<Holding>, k: nat, amount: real)
    requires hs != []
  {
    forall t :: ChoiceWithLargest(hs, k, t) ==> Total(t) >= amount
  }

  lemma SplitLast(s: seq<Holding>)
    requires s != []
    ensures multiset(s) == multiset(s[..|s| - 1]) + multiset{s[|s| - 1]}
  {
    assert s == s[..|s| - 1] + [s[|s| - 1]];
  }

  lemma PrefixTotal(s: seq<Holding>, k: nat)
    requires k < |s|
    ensures Total(s[..k + 1]) == Total(s[..k]) + s[k].amount
  {
    TotalSnoc(s[..k], s[k]);
    assert s[..k + 1] == s[..k] + [s[k]];
  }

  lemma DropLast(s: seq<Holding>, t: seq<Holding>, i: nat)
    requires s != [] && Among(t, s) && i < |t| && t[i] == s[|s| - 1]
    ensures Among(Without(t, i), s[..|s| - 1])
  {
    SplitLast(s);
    TotalWithout(t, i);
  }

  lemma AvoidLast(s: seq<Holding>, t: seq<Holding>)
    requires s != [] && Among(t, s) && s[|s| - 1] !in t
    ensures Among(t, s[..|s| - 1])
  {
    SplitLast(s);
    assert s[|s| - 1] !in multiset(t);
  }

  /** Exchange argument: no choice of k holdings from a sorted list totals less than its first k. */
  lemma {:induction false} FirstKAreLeast(s: seq<Holding>, t: seq<Holding>)
    requires Ascending(s) && Among(t, s)
    ensures |t| <= |s| && Total(s[..|t|]) <= Total(t)
    decreases |s|
  {
    if s == [] {
      assert |t| == |multiset(t)| == 0;
    } else if s[|s| - 1] in t {
      var i :| 0 <= i < |t| && t[i] == s[|s| - 1];
      DropLast(s, t, i);
      FirstKAreLeast(s[..|s| - 1], Without(t, i));
      TotalWithout(t, i);
      LastCounts(s, |t| - 1, Total(Without(t, i)), Total(t));
    } else {
      AvoidLast(s, t);
      FirstKAreLeast(s[..|s| - 1], t);
      assert s[..|t|] == s[..|s| - 1][..|t|];
    }
  }

  lemma LastCounts(s: seq<Holding>, k: nat, others: real, total: real)
    requires Ascending(s) && k < |s|
    requires Total(s[..|s| - 1][..k]) <= others && total == s[|s| - 1].amount + others
    ensures Total(s[..k + 1]) <= total
  {
    PrefixTotal(s, k);
    assert s[..|s| - 1][..k] == s[..k];
    assert s[k].amount <= s[|s| - 1].amount;
  }

  /** With the largest fixed, the smallest others are the worst case. */
  lemma WorstChoice(hs: seq<Holding>, k: nat, t: seq<Holding>)
    requires hs != [] && ChoiceWithLargest(hs, k, t)
    ensures 1 <= k <= |Others(hs)| + 1
    ensures Largest(hs).amount + Total(Others(hs)[..k - 1]) <= Total(t)
  {
    LargestAndOthers(hs);
    WorstWithFirst(hs, k, t, Largest(hs), Others(hs));
  }

  lemma WorstWithFirst(hs: seq<Holding>, k: nat, t: seq<Holding>, first: Holding, rest: seq<Holding>)
    requires |t| == k && Among(t, hs) && first in t
    requires Ascending(rest) && multiset([first] + rest) == multiset(hs)
    ensures 1 <= k <= |rest| + 1
    ensures first.amount + Total(rest[..k - 1]) <= Total(t)
  {
    var i :| 0 <= i < |t| && t[i] == first;
    var others := Without(t, i);
    OneLess(hs, t, i, first, rest);
    FirstKAreLeast(rest, others);
    TotalWithout(t, i);
    assert |others| == k - 1;
  }

  lemma OneLess(hs: seq<Holding>, t: seq<Holding>, i: nat, largest: Holding, rest: seq<Holding>)
    requires i < |t| && t[i] == largest && Among(t, hs) && multiset([largest] + rest) == multiset(hs)
    ensures Among(Without(t, i), rest)
  {
    TotalWithout(t, i);
    assert multiset([largest] + rest) == multiset{largest} + multiset(rest);
  }

  lemma SmallestChoice(hs: seq<Holding>, k: nat)
    requires hs != [] && 1 <= k <= |Others(hs)| + 1
    ensures ChoiceWithLargest(hs, k, [Largest(hs)] + Others(hs)[..k - 1])
    ensures Total([Largest(hs)] + Others(hs)[..k - 1]) == Largest(hs).amount + Total(Others(hs)[..k - 1])
  {
    PrefixAmong(hs, k - 1);
    TotalCons(Largest(hs), Others(hs)[..k - 1]);
    assert ([Largest(hs)] + Others(hs)[..k - 1])[0] == Largest(hs);
  }

  /** A number of holdings always covers exactly when the smallest others already do. */
  lemma CoveredIffSmallest(hs: seq<Holding>, k: nat, amount: real)
    requires hs != [] && 1 <= k <= |Others(hs)| + 1
    ensures AlwaysCovered(hs, k, amount) <==> Largest(hs).amount + Total(Others(hs)[..k - 1]) >= amount
  {
    SmallestChoice(hs, k);
    forall t | ChoiceWithLargest(hs, k, t)
      ensures Largest(hs).amount + Total(Others(hs)[..k - 1]) <= Total(t)
    {
      WorstChoice(hs, k, t);
    }
  }

  /**
   * With no exact match, the number of inputs chosen is the least k for which every choice of k holdings that contains
   * the largest covers the amount.
   */
  lemma SelectionIsOptimal(amount: real, hs: seq<Holding>)
    requires hs != [] && FindExact(amount, hs).None? && Select(amount, hs).Selected?
    ensures AlwaysCovered(hs, |Select(amount, hs).cids|, amount)
    ensures forall j :: 1 <= j < |Select(amount, hs).cids| ==> !AlwaysCovered(hs, j, amount)
  {
    var n := Picks(Largest(hs).amount, amount, Others(hs));
    PicksAreLeast(Largest(hs).amount, amount, Others(hs));
    CoveredIffSmallest(hs, n + 1, amount);
    forall j | 1 <= j < n + 1
      ensures !AlwaysCovered(hs, j, amount)
    {
      CoveredIffSmallest(hs, j, amount);
    }
  }
}
