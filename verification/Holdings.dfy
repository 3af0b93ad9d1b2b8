/** Token holdings. Amounts are exact reals: decimal text and its rounding to doubles are not part of this model. */
module Holdings {
  import opened Wrappers

  datatype Lock = Lock(expiresAt: Option<int>)
  datatype Instrument = Instrument(id: string, admin: string)
  datatype Holding = Holding(contractId: string, instrument: Instrument, amount: real, lock: Option<Lock>)

  function Total(hs: seq<Holding>): real {
    if hs == [] then 0.0 else hs[0].amount + Total(hs[1..])
  }

  function Cids(hs: seq<Holding>): (r: seq<string>)
  {
    seq(|hs|, i requires 0 <= i < |hs| => hs[i].contractId)
  }

  lemma {:induction false} TotalSnoc(hs: seq<Holding>, h: Holding)
    ensures Total(hs + [h]) == Total(hs) + h.amount
  {
    if hs == [] {
      assert [] + [h] == [h];
    } else {
      TotalSnoc(hs[1..], h);
      assert (hs + [h])[1..] == hs[1..] + [h];
    }
  }

  lemma TotalCons(h: Holding, hs: seq<Holding>)
    ensures Total([h] + hs) == h.amount + Total(hs)
  {
    assert ([h] + hs)[1..] == hs;
  }

  lemma {:induction false} TotalAppend(a: seq<Holding>, b: seq<Holding>)
    ensures Total(a + b) == Total(a) + Total(b)
  {
    if a == [] {
      assert a + b == b;
    } else {
      TotalAppend(a[1..], b);
      assert (a + b)[1..] == a[1..] + b;
    }
  }

  function Without(hs: seq<Holding>, i: nat): seq<Holding>
    requires i < |hs|
  {
    hs[..i] + hs[i + 1..]
  }

  lemma {:induction false} TotalWithout(hs: seq<Holding>, i: nat)
    requires i < |hs|
    ensures Total(hs) == hs[i].amount + Total(Without(hs, i))
    ensures multiset(Without(hs, i)) == multiset(hs) - multiset{hs[i]}
  {
    assert hs == hs[..i] + [hs[i]] + hs[i + 1..];
    assert multiset(hs) == multiset(hs[..i]) + multiset{hs[i]} + multiset(hs[i + 1..]);
    if i > 0 {
      TotalWithout(hs[1..], i - 1);
      assert Without(hs, i)[1..] == Without(hs[1..], i - 1);
    } else {
      assert Without(hs, i) == hs[1..];
    }
  }

  lemma {:induction false} SameTotal(a: seq<Holding>, b: seq<Holding>)
    requires multiset(a) == multiset(b)
    ensures Total(a) == Total(b)
  {
    assert |a| == |multiset(a)| == |multiset(b)| == |b|;
    if a != [] {
      assert a[0] in multiset(b);
      var i :| 0 <= i < |b| && b[i] == a[0];
      TotalWithout(a, 0);
      TotalWithout(b, i);
      SameTotal(Without(a, 0), Without(b, i));
    }
  }
}
