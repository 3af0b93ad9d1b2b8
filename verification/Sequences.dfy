/** Facts about sequences with distinct elements and about permutations. */
module Sequences {
  ghost predicate Distinct<T>(s: seq<T>) {
    forall i, j :: 0 <= i < j < |s| ==> s[i] != s[j]
  }

  ghost predicate Permutation<T>(a: seq<T>, b: seq<T>) {
    multiset(a) == multiset(b)
  }

  lemma Associative<T>(a: seq<T>, b: seq<T>, c: seq<T>)
    ensures (a + b) + c == a + (b + c)
  {
  }

  /** The parts one after the other. */
  function Flatten<T>(parts: seq<seq<T>>): seq<T> {
    if parts == [] then [] else parts[0] + Flatten(parts[1..])
  }

  lemma {:induction false} FlattenAppend<T>(a: seq<seq<T>>, b: seq<seq<T>>)
    ensures Flatten(a + b) == Flatten(a) + Flatten(b)
  {
    if a == [] {
      assert a + b == b;
    } else {
      FlattenAppend(a[1..], b);
      assert (a + b)[1..] == a[1..] + b && (a + b)[0] == a[0];
      Associative(a[0], Flatten(a[1..]), Flatten(b));
    }
  }

  lemma FlattenSnoc<T>(parts: seq<seq<T>>, last: seq<T>)
    ensures Flatten(parts + [last]) == Flatten(parts) + last
  {
    FlattenAppend(parts, [last]);
    assert Flatten([last][1..]) == [];
    assert last + [] == last;
  }

  lemma {:induction false} DistinctBounded<T>(s: seq<T>, bound: set<T>)
    requires Distinct(s) && forall x :: x in s ==> x in bound
    ensures |s| <= |bound|
  {
    if s != [] {
      var last := s[|s| - 1];
      var front := s[..|s| - 1];
      assert forall x :: x in front ==> x in bound - {last};
      DistinctBounded(front, bound - {last});
    }
  }

  lemma PermutedMember<T>(a: seq<T>, b: seq<T>, x: T)
    requires Permutation(a, b)
    ensures x in a <==> x in b
  {
    assert x in multiset(a) <==> x in multiset(b);
  }

  lemma TwoPlaces<T>(a: seq<T>, i: nat, j: nat)
    requires i < j < |a| && a[i] == a[j]
    ensures multiset(a)[a[i]] >= 2
  {
    assert a == a[..j] + [a[j]] + a[j + 1..];
    assert a[i] == a[..j][i];
    assert a[i] in multiset(a[..j]);
    assert multiset(a) == multiset(a[..j]) + multiset([a[j]]) + multiset(a[j + 1..]);
  }

  function InsertAt<T>(s: seq<T>, p: nat, x: T): seq<T>
    requires p <= |s|
  {
    s[..p] + [x] + s[p..]
  }

  lemma InsertAtMultiset<T>(s: seq<T>, p: nat, x: T)
    requires p <= |s|
    ensures multiset(InsertAt(s, p, x)) == multiset{x} + multiset(s)
  {
    assert s == s[..p] + s[p..];
  }

  lemma InsertAtRest<T>(s: seq<T>, p: nat, x: T)
    requires 1 <= p <= |s|
    ensures InsertAt(s, p, x) == [s[0]] + InsertAt(s[1..], p - 1, x)
  {
  }

  lemma RestMultiset<T>(s: seq<T>)
    requires s != []
    ensures s == [s[0]] + s[1..] && multiset(s[1..]) == multiset(s) - multiset{s[0]}
  {
    assert s == [s[0]] + s[1..];
  }

  lemma SameLength<T>(a: seq<T>, b: seq<T>)
    requires Permutation(a, b)
    ensures |a| == |b|
  {
    assert |a| == |multiset(a)| && |b| == |multiset(b)|;
  }

  /** Keys that tell the elements of a list apart tell those of any arrangement apart. */
  lemma PermutedKeysDistinct<T, K>(a: seq<T>, b: seq<T>, key: T -> K)
    requires Permutation(a, b) && forall i, j :: 0 <= i < j < |a| ==> key(a[i]) != key(a[j])
    ensures forall i, j :: 0 <= i < j < |b| ==> key(b[i]) != key(b[j])
  {
    forall i, j | 0 <= i < j < |b|
      ensures key(b[i]) != key(b[j])
    {
      if key(b[i]) == key(b[j]) {
        PermutedMember(a, b, b[i]);
        PermutedMember(a, b, b[j]);
        TwoPlaces(b, i, j);
        OncePerPlace(a, b[i]);
        assert false;
      }
    }
  }

  /** r is what stands in s at these ascending places. */
  ghost predicate Places<T>(at: seq<nat>, s: seq<T>, r: seq<T>) {
    && |at| == |r|
    && (forall i :: 0 <= i < |at| ==> at[i] < |s| && r[i] == s[at[i]])
    && forall i, j :: 0 <= i < j < |at| ==> at[i] < at[j]
  }

  lemma Shifted<T>(at: seq<nat>, s: seq<T>, r: seq<T>) returns (later: seq<nat>)
    requires s != [] && Places(at, s[1..], r)
    ensures |later| == |at| && forall i :: 0 <= i < |at| ==> later[i] == at[i] + 1
    ensures Places(later, s, r) && Places([0] + later, s, [s[0]] + r)
    ensures forall i :: 0 <= i < |at| ==> s[later[i]] == s[1..][at[i]]
  {
    later := seq(|at|, i requires 0 <= i < |at| => at[i] + 1);
    assert forall i :: 0 <= i < |at| ==> s[later[i]] == s[1..][at[i]];
  }

  lemma PlacesSnoc<T>(at: seq<nat>, s: seq<T>, r: seq<T>)
    requires s != [] && Places(at, s[..|s| - 1], r)
    ensures Places(at, s, r) && Places(at + [|s| - 1], s, r + [s[|s| - 1]])
    ensures forall k: nat :: k in at ==> k < |s| - 1
  {
    assert forall i :: 0 <= i < |at| ==> s[..|s| - 1][at[i]] == s[at[i]];
  }

  lemma ShiftedMembers(at: seq<nat>, later: seq<nat>, k: nat)
    requires |later| == |at| && forall i :: 0 <= i < |at| ==> later[i] == at[i] + 1
    ensures k in later <==> k > 0 && k - 1 in at
  {
    if k > 0 && k - 1 in at {
      var i :| 0 <= i < |at| && at[i] == k - 1;
      assert later[i] == k;
    }
  }

  lemma {:induction false} OncePerPlace<T>(a: seq<T>, x: T)
    requires Distinct(a)
    ensures multiset(a)[x] <= 1
  {
    if a != [] {
      var k := |a| - 1;
      OncePerPlace(a[..k], x);
      assert a == a[..k] + [a[k]];
      if a[k] == x {
        assert x !in a[..k];
      }
    }
  }
}
