/** Rounding of integers to double precision, which is what parseInt does to a 64-bit integer. */
module Numbers {
  const TWO_53: nat := 0x20_0000_0000_0000

  /** The multiple of unit nearest to m, a tie going to the even multiple. */
  function RoundHalfEven(m: nat, unit: nat): (r: nat)
    requires unit > 0
  {
    var q, rest := m / unit, m % unit;
    if 2 * rest < unit || (2 * rest == unit && q % 2 == 0) then q * unit else (q + 1) * unit
  }

  /** The spacing of doubles doubles each time the magnitude passes a power of two from 2^53 on. */
  function RoundFrom(m: nat, unit: nat): nat
    requires unit > 0
    decreases m - unit
  {
    if m <= TWO_53 * unit then RoundHalfEven(m, unit) else RoundFrom(m, 2 * unit)
  }

  function ToDouble(n: int): int {
    if n < 0 then 0 - RoundFrom(-n, 1) else RoundFrom(n, 1)
  }

  // ---------- the spacing that applies to a 64-bit magnitude ----------

  const TWO_54: nat := 2 * TWO_53
  const TWO_63: int := 1024 * TWO_53

  predicate IsUnit(u: nat) {
    u in {1, 2, 4, 8, 16, 32, 64, 128, 256, 512, 1024}
  }

  /** u is the spacing of doubles just below m. */
  predicate UnitOf(m: nat, u: nat) {
    IsUnit(u) && m <= TWO_53 * u && (u == 1 || m > TWO_53 * (u / 2))
  }

  lemma {:induction false} RoundsToUnit(m: nat, from: nat, u: nat)
    requires UnitOf(m, u) && IsUnit(from) && from <= u
    ensures RoundFrom(m, from) == RoundHalfEven(m, u)
    decreases u - from
  {
    if from < u {
      assert 2 * from <= u && IsUnit(2 * from);
      assert m > TWO_53 * from;
      RoundsToUnit(m, 2 * from, u);
    }
  }

  lemma FindUnit(m: nat) returns (u: nat)
    requires m <= TWO_63
    ensures UnitOf(m, u)
  {
    u := 1;
    while m > TWO_53 * u
      invariant IsUnit(u) && (u == 1 || m > TWO_53 * (u / 2))
      decreases 1024 - u
    {
      assert u < 1024;
      u := 2 * u;
    }
  }

  lemma Multiple(k: nat, u: nat, rest: nat)
    requires u > 0 && rest < u
    ensures (k * u + rest) / u == k && (k * u + rest) % u == rest
  {
    var m := k * u + rest;
    assert m == (m / u) * u + m % u;
    if m / u > k {
      MulMonotone(k + 1, m / u, u);
      assert false;
    } else if m / u < k {
      MulMonotone(m / u + 1, k, u);
      assert false;
    }
  }

  lemma MulMonotone(a: nat, b: nat, u: nat)
    requires a <= b
    ensures a * u <= b * u
  {
  }

  /** Rounding gives a multiple of the spacing and stays within the interval that has this spacing. */
  lemma RoundedRange(m: nat, u: nat) returns (k: nat)
    requires UnitOf(m, u)
    ensures RoundHalfEven(m, u) == k * u
    ensures k <= TWO_53 && (u > 1 ==> k >= TWO_53 / 2)
  {
    k := if RoundHalfEven(m, u) == (m / u) * u then m / u else m / u + 1;
  }

  lemma ExactMultiple(k: nat, u: nat)
    requires u > 0
    ensures RoundHalfEven(k * u, u) == k * u
  {
    Multiple(k, u, 0);
  }

  /** A multiple of the spacing in the interval is a double. */
  lemma MultipleIsExact(k: nat, u: nat)
    requires IsUnit(u) && k <= TWO_53 && (u > 1 ==> k >= TWO_53 / 2)
    ensures RoundFrom(k * u, 1) == k * u
  {
    MulMonotone(k, TWO_53, u);
    if u == 1 || k > TWO_53 / 2 {
      if u > 1 {
        MulMonotone(TWO_53 / 2 + 1, k, u);
      }
      RoundsToUnit(k * u, 1, u);
      ExactMultiple(k, u);
    } else {
      var v := u / 2;
      assert k * u == TWO_53 * v;
      assert IsUnit(v);
      RoundsToUnit(TWO_53 * v, 1, v);
      ExactMultiple(TWO_53, v);
    }
  }

  /** The magnitudes up to 2^63 that are doubles. */
  ghost predicate IsDouble(d: nat) {
    exists k: nat, u: nat :: IsMultiple(d, k, u) && IsUnit(u) && k <= TWO_53
  }

  predicate IsMultiple(d: nat, k: nat, u: nat) {
    d == k * u
  }

  function Distance(a: nat, b: nat): nat {
    if a <= b then b - a else a - b
  }

  lemma MultipleApart(q: nat, k: nat, u: nat)
    ensures k < q ==> k * u + u <= q * u
    ensures k == q ==> k * u == q * u
    ensures k == q + 1 ==> k * u == q * u + u
    ensures k > q + 1 ==> k * u >= q * u + 2 * u
    ensures (q + 1) * u == q * u + u
  {
    if k < q {
      MulMonotone(k + 1, q, u);
    } else if k > q + 1 {
      MulMonotone(q + 2, k, u);
    }
  }

  /** The nearest multiple is no further than any other, and of two that are equally near it is the even one. */
  lemma NearestMultiple(m: nat, u: nat, k: nat) returns (q: nat)
    requires u > 0
    ensures RoundHalfEven(m, u) == q * u
    ensures Distance(q * u, m) <= Distance(k * u, m)
    ensures Distance(q * u, m) == Distance(k * u, m) && k != q ==> q % 2 == 0
  {
    var below, rest, up := Neighbours(m, u);
    q := if up then below + 1 else below;
    MultipleApart(below, k, u);
    NearestOfTwo(below * u, u, rest, up, k * u);
  }

  /** The multiple below, what is above it, and whether it is rounded up. */
  lemma Neighbours(m: nat, u: nat) returns (below: nat, rest: nat, up: bool)
    requires u > 0
    ensures rest < u && m == below * u + rest
    ensures up <==> 2 * rest > u || (2 * rest == u && below % 2 != 0)
    ensures RoundHalfEven(m, u) == (if up then below + 1 else below) * u
  {
    below, rest := m / u, m % u;
    up := 2 * rest > u || (2 * rest == u && below % 2 != 0);
  }

  /** Of the multiples below and above, the nearer one is not further than any that is not between them. */
  lemma NearestOfTwo(below: nat, u: nat, rest: nat, up: bool, other: nat)
    requires rest < u && (2 * rest > u ==> up) && (2 * rest < u ==> !up)
    requires other + u <= below || other == below || other == below + u || other >= below + 2 * u
    ensures var r, m := if up then below + u else below, below + rest;
      Distance(r, m) <= Distance(other, m) && (Distance(r, m) == Distance(other, m) && r != other ==> 2 * rest == u)
  {
  }

  /** Rounding twice is rounding once, and a rounded 64-bit magnitude is at most 2^63. */
  lemma RoundTwice(m: nat)
    requires m <= TWO_63
    ensures RoundFrom(RoundFrom(m, 1), 1) == RoundFrom(m, 1) <= TWO_63
    ensures m > TWO_53 ==> RoundFrom(m, 1) >= TWO_53
    ensures m > TWO_54 ==> RoundFrom(m, 1) >= TWO_54
    ensures m <= TWO_53 ==> RoundFrom(m, 1) == m
  {
    var u := FindUnit(m);
    RoundsToUnit(m, 1, u);
    var k := RoundedRange(m, u);
    MultipleIsExact(k, u);
    MulMonotone(k, TWO_53, u);
    if u > 1 {
      MulMonotone(TWO_53 / 2, k, u);
    }
  }

  /** Beyond 2^54 the integer just below a double goes to that double. */
  lemma NeighbourRounds(m: nat)
    requires TWO_54 < m <= TWO_63 && RoundFrom(m, 1) == m
    ensures RoundFrom(m - 1, 1) == m
  {
    var u := FindUnit(m);
    RoundsToUnit(m, 1, u);
    var k := RoundedRange(m, u);
    assert u >= 4;
    BelowMultiple(k, u);
    RoundsToUnit(m - 1, 1, u);
  }

  lemma BelowMultiple(k: nat, u: nat)
    requires k >= 1 && u >= 4
    ensures k * u >= 1 && RoundHalfEven(k * u - 1, u) == k * u
  {
    assert (k - 1) * u + (u - 1) == k * u - 1;
    Multiple(k - 1, u, u - 1);
  }

  lemma CoarserMultiple(j: nat, v: nat, u: nat) returns (i: nat)
    requires u > 0 && v % u == 0
    ensures i * u == j * v
  {
    var w := v / u;
    i := j * w;
    assert v == w * u;
    assert j * (w * u) == (j * w) * u;
  }

  lemma HalfUnit(v: nat, u: nat)
    requires IsUnit(v) && IsUnit(u) && v < u
    ensures v <= u / 2 && u == 2 * (u / 2)
  {
  }

  /** A double of a finer spacing is not above the least multiple of this one. */
  lemma FinerIsBelow(j: nat, v: nat, u: nat, m: nat)
    requires IsUnit(v) && UnitOf(m, u) && v < u && j <= TWO_53
    ensures j * v <= TWO_53 / 2 * u < m
  {
    HalfUnit(v, u);
    MulMonotone(j, TWO_53, v);
    assert TWO_53 * v <= TWO_53 * (u / 2);
  }

  lemma UnitsDivide(v: nat, u: nat)
    requires IsUnit(v) && IsUnit(u) && v >= u
    ensures v % u == 0
  {
  }

  /**
   * What an integer is rounded to is a double, no double is nearer, and of two that are equally near it is the even
   * multiple of the spacing.
   */
  lemma NearestDouble(m: nat, d: nat) returns (q: nat, u: nat)
    requires m <= TWO_63 && IsDouble(d)
    ensures IsDouble(RoundFrom(m, 1)) && UnitOf(m, u) && RoundFrom(m, 1) == q * u
    ensures Distance(q * u, m) <= Distance(d, m)
    ensures Distance(q * u, m) == Distance(d, m) && d != q * u ==> q % 2 == 0
  {
    u := FindUnit(m);
    RoundsToUnit(m, 1, u);
    var n := RoundedRange(m, u);
    assert IsMultiple(RoundFrom(m, 1), n, u);
    var j: nat, v: nat :| IsMultiple(d, j, v) && IsUnit(v) && j <= TWO_53;
    if v >= u {
      UnitsDivide(v, u);
      var i := CoarserMultiple(j, v, u);
      q := NearestMultiple(m, u, i);
    } else {
      FinerIsBelow(j, v, u, m);
      q := NearestMultiple(m, u, TWO_53 / 2);
    }
  }

  /** A 64-bit magnitude no other magnitude is rounded to. */
  predicate Undisturbed(m: nat) {
    m < TWO_53 || (TWO_53 < m < TWO_54 && m % 4 == 2)
  }

  lemma UndisturbedIsAlone(m: nat, other: nat)
    requires Undisturbed(m) && other <= TWO_63 && RoundFrom(other, 1) == RoundFrom(m, 1)
    ensures other == m
  {
    RoundTwice(m);
    RoundTwice(other);
  }

  /** Any other magnitude up to 2^63 shares its double with one next to it or with the double itself. */
  lemma DisturbedHasTwin(m: nat) returns (other: nat)
    requires !Undisturbed(m) && m <= TWO_63
    ensures other <= TWO_63 && other != m && RoundFrom(other, 1) == RoundFrom(m, 1)
  {
    RoundTwice(m);
    if RoundFrom(m, 1) != m {
      other := RoundFrom(m, 1);
    } else if m > TWO_54 {
      NeighbourRounds(m);
      other := m - 1;
    } else if m == TWO_53 {
      other := m + 1;
    } else {
      other := m - 1;
    }
  }
}
