/**
 * The multi-hash of topology transactions, computed twice in the repository: by computeMultiHashForTopology with
 * computeSha256CantonHash, and by TopologyWriteService.combineHashes. Hashes are sorted by their hexadecimal text;
 * localeCompare is taken to order lower-case hexadecimal text character by character.
 */
module Topology {
  import opened Wrappers
  import opened ByteStrings
  import opened Hex
  import opened Sequences
  import opened Reading

  // ---------- orders ----------

  predicate TextLeq(s: string, t: string) {
    s == [] || (t != [] && (s[0] < t[0] || (s[0] == t[0] && TextLeq(s[1..], t[1..]))))
  }

  predicate BytesLeq(a: Bytes, b: Bytes) {
    a == [] || (b != [] && (a[0] < b[0] || (a[0] == b[0] && BytesLeq(a[1..], b[1..]))))
  }

  predicate HexLeq(a: Bytes, b: Bytes) {
    TextLeq(ToHex(a), ToHex(b))
  }

  lemma HexCharMonotone(m: nat, n: nat)
    requires m < 16 && n < 16
    ensures HexChar(m) < HexChar(n) <==> m < n
  {
  }

  lemma ToHexHead(a: Bytes)
    requires a != []
    ensures ToHex(a) == [HexChar(a[0] / 16), HexChar(a[0] % 16)] + ToHex(a[1..])
  {
    var s := [HexChar(a[0] / 16), HexChar(a[0] % 16)] + ToHex(a[1..]);
    forall i | 0 <= i < 2 * |a|
      ensures ToHex(a)[i] == s[i]
    {
      if i >= 2 {
        assert s[i] == ToHex(a[1..])[i - 2];
        assert (i - 2) / 2 == i / 2 - 1 && (i - 2) % 2 == i % 2;
        assert a[1..][(i - 2) / 2] == a[i / 2];
      }
    }
  }

  lemma TextLeqPair(c: char, d: char, s: string, c': char, d': char, t: string)
    ensures TextLeq([c, d] + s, [c', d'] + t) <==> (c < c' || (c == c' && (d < d' || (d == d' && TextLeq(s, t)))))
  {
    assert ([c, d] + s)[1..] == [d] + s && ([c', d'] + t)[1..] == [d'] + t;
    assert ([d] + s)[1..] == s && ([d'] + t)[1..] == t;
  }

  /** Comparing hexadecimal text is comparing the bytes. */
  lemma {:induction false} HexOrderIsByteOrder(a: Bytes, b: Bytes)
    ensures HexLeq(a, b) <==> BytesLeq(a, b)
  {
    if a != [] && b != [] {
      HexOrderIsByteOrder(a[1..], b[1..]);
      ToHexHead(a);
      ToHexHead(b);
      TextLeqPair(HexChar(a[0] / 16), HexChar(a[0] % 16), ToHex(a[1..]), HexChar(b[0] / 16), HexChar(b[0] % 16),
        ToHex(b[1..]));
      HexCharMonotone(a[0] / 16, b[0] / 16);
      HexCharMonotone(b[0] / 16, a[0] / 16);
      HexCharMonotone(a[0] % 16, b[0] % 16);
      HexCharMonotone(b[0] % 16, a[0] % 16);
    }
  }

  lemma {:induction false} BytesLeqTotal(a: Bytes, b: Bytes)
    ensures BytesLeq(a, b) || BytesLeq(b, a)
    ensures BytesLeq(a, b) && BytesLeq(b, a) ==> a == b
  {
    if a != [] && b != [] {
      BytesLeqTotal(a[1..], b[1..]);
      assert a == [a[0]] + a[1..] && b == [b[0]] + b[1..];
    }
  }

  lemma {:induction false} BytesLeqTransitive(a: Bytes, b: Bytes, c: Bytes)
    requires BytesLeq(a, b) && BytesLeq(b, c)
    ensures BytesLeq(a, c)
  {
    if a != [] && b[0] == a[0] && c[0] == b[0] {
      BytesLeqTransitive(a[1..], b[1..], c[1..]);
    }
  }

  lemma HexLeqOrder(a: Bytes, b: Bytes, c: Bytes)
    ensures HexLeq(a, b) || HexLeq(b, a)
    ensures HexLeq(a, b) && HexLeq(b, a) ==> a == b
    ensures HexLeq(a, b) && HexLeq(b, c) ==> HexLeq(a, c)
  {
    HexOrderIsByteOrder(a, b);
    HexOrderIsByteOrder(b, a);
    HexOrderIsByteOrder(b, c);
    HexOrderIsByteOrder(a, c);
    BytesLeqTotal(a, b);
    if BytesLeq(a, b) && BytesLeq(b, c) {
      BytesLeqTransitive(a, b, c);
    }
  }

  // ---------- sorting ----------

  ghost predicate SortedByHex(s: seq<Bytes>) {
    forall i, j :: 0 <= i < j < |s| ==> HexLeq(s[i], s[j])
  }

  function Insert(h: Bytes, s: seq<Bytes>): seq<Bytes> {
    if s == [] || HexLeq(h, s[0]) then [h] + s else [s[0]] + Insert(h, s[1..])
  }

  function SortByHex(s: seq<Bytes>): seq<Bytes> {
    if s == [] then [] else Insert(s[0], SortByHex(s[1..]))
  }

  /** Where the element goes: behind everything that is not above it. */
  lemma {:induction false} InsertPlace(h: Bytes, s: seq<Bytes>) returns (p: nat)
    ensures p <= |s| && Insert(h, s) == InsertAt(s, p, h)
    ensures p > 0 ==> HexLeq(s[p - 1], h)
    ensures p < |s| ==> HexLeq(h, s[p])
  {
    if s == [] || HexLeq(h, s[0]) {
      p := 0;
      assert InsertAt(s, 0, h) == [h] + s;
    } else {
      var q := InsertPlace(h, s[1..]);
      p := q + 1;
      InsertAtRest(s, p, h);
      HexLeqOrder(h, s[0], s[0]);
    }
  }

  lemma SortedWith(h: Bytes, s: seq<Bytes>, p: nat)
    requires SortedByHex(s) && p <= |s| && (p > 0 ==> HexLeq(s[p - 1], h)) && (p < |s| ==> HexLeq(h, s[p]))
    ensures SortedByHex(InsertAt(s, p, h))
  {
    forall i | 0 <= i < |s|
      ensures i < p ==> HexLeq(s[i], h)
      ensures i >= p ==> HexLeq(h, s[i])
    {
      if i < p - 1 {
        HexLeqOrder(s[i], s[p - 1], h);
      } else if i > p {
        HexLeqOrder(h, s[p], s[i]);
      }
    }
  }

  lemma InsertSorts(h: Bytes, s: seq<Bytes>)
    requires SortedByHex(s)
    ensures SortedByHex(Insert(h, s))
    ensures multiset(Insert(h, s)) == multiset{h} + multiset(s)
  {
    var p := InsertPlace(h, s);
    SortedWith(h, s, p);
    InsertAtMultiset(s, p, h);
  }

  lemma {:induction false} SortByHexSorts(s: seq<Bytes>)
    ensures SortedByHex(SortByHex(s))
    ensures multiset(SortByHex(s)) == multiset(s)
  {
    if s != [] {
      SortByHexSorts(s[1..]);
      InsertSorts(s[0], SortByHex(s[1..]));
      assert s == [s[0]] + s[1..];
    }
  }

  /** A sorted arrangement is unique, so any correct sort gives the same list. */
  lemma {:induction false} SortedUnique(s: seq<Bytes>, t: seq<Bytes>)
    requires SortedByHex(s) && SortedByHex(t) && multiset(s) == multiset(t)
    ensures s == t
  {
    SameLength(s, t);
    if s != [] {
      assert s[0] in multiset(t) && t[0] in multiset(s);
      FirstIsLeast(s, t[0]);
      FirstIsLeast(t, s[0]);
      HexLeqOrder(s[0], t[0], t[0]);
      RestMultiset(s);
      RestMultiset(t);
      SortedUnique(s[1..], t[1..]);
    }
  }

  lemma FirstIsLeast(s: seq<Bytes>, h: Bytes)
    requires SortedByHex(s) && h in multiset(s)
    ensures HexLeq(s[0], h)
  {
    var i :| 0 <= i < |s| && s[i] == h;
    HexLeqOrder(h, h, h);
  }

  // ---------- the two computations ----------

  /** Every hash behind its length. */
  function Prefixed(hashes: seq<Bytes>): Bytes {
    if hashes == [] then [] else EncodeBytes(hashes[0]) + Prefixed(hashes[1..])
  }

  lemma {:induction false} PrefixedSnoc(hashes: seq<Bytes>, h: Bytes)
    ensures Prefixed(hashes + [h]) == Prefixed(hashes) + EncodeBytes(h)
  {
    if hashes == [] {
      assert [h][1..] == [] && [] + [h] == [h];
    } else {
      PrefixedSnoc(hashes[1..], h);
      assert (hashes + [h])[1..] == hashes[1..] + [h];
    }
  }

  lemma PrefixedStep(hashes: seq<Bytes>, i: nat)
    requires i < |hashes|
    ensures Prefixed(hashes[..i + 1]) == Prefixed(hashes[..i]) + EncodeBytes(hashes[i])
  {
    PrefixedSnoc(hashes[..i], hashes[i]);
    assert hashes[..i + 1] == hashes[..i] + [hashes[i]];
  }

  lemma FlattenTwo(parts: seq<Bytes>, p: Bytes, q: Bytes)
    ensures Flatten(parts + [p, q]) == Flatten(parts) + (p + q)
  {
    FlattenSnoc(parts, p);
    FlattenSnoc(parts + [p], q);
    assert parts + [p, q] == parts + [p] + [q];
  }

  lemma SortByHexLength(s: seq<Bytes>)
    ensures |SortByHex(s)| == |s|
  {
    SortByHexSorts(s);
    assert |SortByHex(s)| == |multiset(SortByHex(s))|;
  }

  function MultiHash(hashes: seq<Bytes>): Bytes {
    EncodeInt32(|hashes|) + Prefixed(SortByHex(hashes))
  }

  method Merge(parts: seq<Bytes>) returns (r: Bytes)
    ensures r == Flatten(parts)
  {
    JoinIsFlatten(parts);
    var merged := MkByteArray(parts);
    r := merged[..];
  }

  /** What the library's sort with this comparison promises. */
  ghost predicate SortedArrangement(s: seq<Bytes>, t: seq<Bytes>) {
    SortedByHex(t) && multiset(t) == multiset(s)
  }

  lemma AnySortIsTheSort(s: seq<Bytes>, t: seq<Bytes>)
    requires SortedArrangement(s, t)
    ensures t == SortByHex(s) && |t| == |s|
  {
    SortByHexSorts(s);
    SortByHexLength(s);
    SortedUnique(t, SortByHex(s));
  }

  method SortCopy(hashes: seq<Bytes>) returns (sorted: seq<Bytes>)
    ensures SortedArrangement(hashes, sorted)
  {
    SortByHexSorts(hashes);
    sorted := SortByHex(hashes);
  }

  method SortInPlace(hashes: array<Bytes>)
    modifies hashes
    ensures SortedArrangement(old(hashes[..]), hashes[..])
  {
    var sorted := SortCopy(hashes[..]);
    AnySortIsTheSort(hashes[..], sorted);
    forall i | 0 <= i < hashes.Length {
      hashes[i] := sorted[i];
    }
    assert hashes[..] == sorted;
  }

  lemma MultiHashStep(parts: seq<Bytes>, count: Bytes, hashes: seq<Bytes>, i: nat)
    requires i < |hashes| && Flatten(parts) == count + Prefixed(hashes[..i])
    ensures Flatten(parts + [EncodeInt32(|hashes[i]|), hashes[i]]) == count + Prefixed(hashes[..i + 1])
  {
    FlattenTwo(parts, EncodeInt32(|hashes[i]|), hashes[i]);
    PrefixedStep(hashes, i);
  }

  /** tx-visualizer: leaves its argument alone and collects the parts in a list. */
  method ComputeMultiHashForTopology(hashes: seq<Bytes>) returns (r: Bytes)
    ensures r == MultiHash(hashes)
  {
    var sortedHashes := SortCopy(hashes);
    AnySortIsTheSort(hashes, sortedHashes);
    var concatenatedHashes := [EncodeInt32(|sortedHashes|)];
    for i := 0 to |sortedHashes|
      invariant Flatten(concatenatedHashes) == EncodeInt32(|sortedHashes|) + Prefixed(sortedHashes[..i])
    {
      var h := sortedHashes[i];
      MultiHashStep(concatenatedHashes, EncodeInt32(|sortedHashes|), sortedHashes, i);
      concatenatedHashes := concatenatedHashes + [EncodeInt32(|h|), h];
    }
    assert sortedHashes[..|sortedHashes|] == sortedHashes;
    r := Merge(concatenatedHashes);
  }

  /** writeUInt32BE refuses what does not fit. */
  function PrefixedInt(value: int, bytes: Bytes): Code {
    if 0 <= value < TWO_32 then Some(EncodeInt32(value) + bytes) else None
  }

  const MULTIHASH_PREFIX: Bytes := [0x12, 0x20]

  /** computeSha256CantonHash of tx-visualizer. */
  function CantonHash(sha: Hash, purpose: int, bytes: Bytes): Bytes {
    MULTIHASH_PREFIX + sha(EncodeInt32(purpose) + bytes)
  }

  /** computeSha256CantonHash of the topology service, as hexadecimal text. */
  function CantonHashText(sha: Hash, purpose: int, bytes: Bytes): Option<string> {
    match PrefixedInt(purpose, bytes)
    case None => None
    case Some(input) => Some(ToHex(MULTIHASH_PREFIX + sha(input)))
  }

  lemma CantonHashTextReads(sha: Hash, purpose: int, bytes: Bytes)
    requires 0 <= purpose < TWO_32
    ensures CantonHashText(sha, purpose, bytes).Some?
    ensures HexBytes(CantonHashText(sha, purpose, bytes).value) == CantonHash(sha, purpose, bytes)
  {
    HexBytesToHex(CantonHash(sha, purpose, bytes));
  }

  const TOPOLOGY_PURPOSE: int := 55

  lemma TopologyPurpose()
    ensures EncodeInt32(TOPOLOGY_PURPOSE) == [0, 0, 0, 55]
  {
    assert BigEndian(0, 1) == [0] by { assert BigEndian(0, 0) == []; }
    assert BigEndian(0, 2) == [0, 0];
    assert BigEndian(0, 3) == [0, 0, 0];
  }

  /** The end of combineHashes: the hash as text, read back as bytes. */
  method HashAsText(sha: Hash, bytes: Bytes) returns (r: Bytes)
    ensures r == CantonHash(sha, TOPOLOGY_PURPOSE, bytes)
  {
    var text := CantonHashText(sha, TOPOLOGY_PURPOSE, bytes);
    CantonHashTextReads(sha, TOPOLOGY_PURPOSE, bytes);
    var parsed := ParseHex(text.value);
    r := parsed[..];
  }

  /** The loop of combineHashes. */
  method Concatenate(hashes: array<Bytes>) returns (concatenatedHashes: Bytes)
    ensures concatenatedHashes == EncodeInt32(hashes.Length) + Prefixed(hashes[..])
  {
    ghost var all := hashes[..];
    concatenatedHashes := EncodeInt32(hashes.Length);
    for i := 0 to hashes.Length
      invariant concatenatedHashes == EncodeInt32(hashes.Length) + Prefixed(all[..i])
    {
      var h := hashes[i];
      PrefixedStep(all, i);
      Associative(EncodeInt32(hashes.Length), Prefixed(all[..i]), EncodeBytes(h));
      concatenatedHashes := concatenatedHashes + (EncodeInt32(|h|) + h);
    }
    assert all[..hashes.Length] == all;
  }

  /** combineHashes: sorts its argument in place and grows one buffer. */
  method CombineHashes(sha: Hash, base64: Bytes -> string, hashes: array<Bytes>) returns (r: string)
    modifies hashes
    ensures hashes[..] == SortByHex(old(hashes[..]))
    ensures r == base64([0x12, 0x20] + sha([0, 0, 0, 55] + MultiHash(old(hashes[..]))))
  {
    TopologyPurpose();
    ghost var given := hashes[..];
    SortInPlace(hashes);
    AnySortIsTheSort(given, hashes[..]);
    var concatenatedHashes := Concatenate(hashes);
    var bytes := HashAsText(sha, concatenatedHashes);
    r := base64(bytes);
  }

  /** The two implementations of computeSha256CantonHash agree exactly on the purposes that fit in 32 bits. */
  lemma CantonHashesAgreeIff(sha: Hash, purpose: int, bytes: Bytes)
    ensures CantonHashText(sha, purpose, bytes) == Some(ToHex(CantonHash(sha, purpose, bytes))) <==>
      0 <= purpose < TWO_32
  {
  }

  /** What the topology controller compares: both ways of hashing a list of hashes give the same text. */
  method BothAgree(sha: Hash, base64: Bytes -> string, hashes: array<Bytes>)
        returns (combinedHash: string, computedHash: string)
    modifies hashes
    ensures combinedHash == computedHash == base64([0x12, 0x20] + sha([0, 0, 0, 55] + MultiHash(old(hashes[..]))))
  {
    TopologyPurpose();
    var multi := ComputeMultiHashForTopology(hashes[..]);
    computedHash := base64(CantonHash(sha, TOPOLOGY_PURPOSE, multi));
    combinedHash := CombineHashes(sha, base64, hashes);
  }

  /** The order of the hashes does not matter. */
  lemma MultiHashPermutation(a: seq<Bytes>, b: seq<Bytes>)
    requires multiset(a) == multiset(b)
    ensures MultiHash(a) == MultiHash(b)
  {
    SortByHexSorts(a);
    SortByHexSorts(b);
    SortedUnique(SortByHex(a), SortByHex(b));
    SortByHexLength(a);
    SortByHexLength(b);
  }

  lemma {:induction false} PrefixedIsJoin(hashes: seq<Bytes>)
    ensures Join(seq(|hashes|, i requires 0 <= i < |hashes| => Some(EncodeBytes(hashes[i])))) == Some(Prefixed(hashes))
  {
    if hashes != [] {
      var codes: seq<Code> := seq(|hashes|, i requires 0 <= i < |hashes| => Some(EncodeBytes(hashes[i])));
      PrefixedIsJoin(hashes[1..]);
      assert codes[1..] == seq(|hashes[1..]|, i requires 0 <= i < |hashes[1..]| => Some(EncodeBytes(hashes[1..][i])));
    }
  }

  lemma SortedMember(hashes: seq<Bytes>, i: nat)
    requires i < |SortByHex(hashes)|
    ensures SortByHex(hashes)[i] in hashes
  {
    SortByHexSorts(hashes);
    assert SortByHex(hashes)[i] in multiset(SortByHex(hashes));
  }

  /** The preimage is read back as the hashes in ascending order: their number, then each behind its length. */
  lemma MultiHashReads(hashes: seq<Bytes>)
    requires |hashes| < TWO_32 && forall h :: h in hashes ==> |h| < TWO_32
    ensures SortedArrangement(hashes, SortByHex(hashes))
    ensures Reads(ReadStrings, MultiHash(hashes), SortByHex(hashes))
  {
    var sorted := SortByHex(hashes);
    var codes: seq<Code> := seq(|sorted|, i requires 0 <= i < |sorted| => Some(EncodeBytes(sorted[i])));
    SortByHexSorts(hashes);
    SortByHexLength(hashes);
    PrefixedIsJoin(sorted);
    JoinTwo(Some(EncodeInt32(|sorted|)), Join(codes));
    forall i | 0 <= i < |sorted|
      ensures Reads(ReadBytes, codes[i].value, sorted[i])
    {
      SortedMember(hashes, i);
      BytesRead(sorted[i]);
    }
    forall rest
      ensures ReadStrings(MultiHash(hashes) + rest) == Some((sorted, rest))
    {
      RepeatedReads(ReadBytes, codes, sorted, rest);
    }
  }

  /** Equal preimages come from the same hashes, each as often. */
  lemma MultiHashInjective(a: seq<Bytes>, b: seq<Bytes>)
    requires |a| < TWO_32 && |b| < TWO_32
    requires (forall h :: h in a ==> |h| < TWO_32) && (forall h :: h in b ==> |h| < TWO_32)
    requires MultiHash(a) == MultiHash(b)
    ensures multiset(a) == multiset(b)
  {
    MultiHashReads(a);
    MultiHashReads(b);
    ReadOneWay(ReadStrings, MultiHash(a), SortByHex(a), [], MultiHash(b), SortByHex(b), []);
  }
}
