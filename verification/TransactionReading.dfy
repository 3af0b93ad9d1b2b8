/** What is hashed for a prepared transaction, read back: purposes, versions, roots and every metadata field. */
module TransactionReading {
  import opened Wrappers
  import opened ByteStrings
  import opened Values
  import opened Nodes
  import opened NodeGraphs
  import opened Transactions
  import opened Reading
  import opened NodeReading

  /** An input contract is known by its time and the digest of its create node. */
  datatype ContractShape = ContractShape(createdAt: int, digest: Bytes)

  // ---------- the format ----------

  function ReadTime(s: Bytes): Read<int> {
    ReadNat(8, s)
  }

  function ReadOptionalTime(s: Bytes): Read<Option<int>> {
    ReadOptional(ReadTime, s)
  }

  function ReadGroup(s: Bytes): Read<int> {
    ReadNat(4, s)
  }

  function ReadContract(s: Bytes): Read<ContractShape> {
    var (createdAt, t) :- ReadTime(s);
    var (digest, rest) :- ReadDigest(t);
    Some((ContractShape(createdAt, digest), rest))
  }

  function ReadContracts(s: Bytes): Read<seq<ContractShape>> {
    ReadRepeated(ReadContract, s)
  }

  /** The purpose of a prepared transaction. */
  function ReadPurpose(s: Bytes): Read<()> {
    if |s| >= 4 && s[..4] == [0x00, 0x00, 0x00, 0x30] then Some(((), s[4..])) else None
  }

  function ReadByte(expected: byte, s: Bytes): Read<()> {
    if s != [] && s[0] == expected then Some(((), s[1..])) else None
  }

  /** Everything in front of the times; submitter information is never absent here. */
  function ReadMetadataHeader(s: Bytes): Read<Metadata> {
    var (actAs, s1) :- ReadStrings(s);
    var (commandId, s2) :- ReadBytes(s1);
    var (transactionUuid, s3) :- ReadBytes(s2);
    var (mediatorGroup, s4) :- ReadGroup(s3);
    var (synchronizerId, rest) :- ReadBytes(s4);
    Some((Metadata(
            submitterInfo := Some(SubmitterInfo(actAs := actAs, commandId := commandId)),
            transactionUuid := transactionUuid, mediatorGroup := mediatorGroup, synchronizerId := synchronizerId,
            minLedgerEffectiveTime := None, maxLedgerEffectiveTime := None, preparationTime := 0,
            inputContracts := []), rest))
  }

  function ReadMetadataTimes(header: Metadata, s: Bytes): Read<(Metadata, seq<ContractShape>)> {
    var (minTime, s1) :- ReadOptionalTime(s);
    var (maxTime, s2) :- ReadOptionalTime(s1);
    var (preparationTime, s3) :- ReadTime(s2);
    var (contracts, rest) :- ReadContracts(s3);
    Some(((header.(
             minLedgerEffectiveTime := minTime, maxLedgerEffectiveTime := maxTime, preparationTime := preparationTime),
           contracts), rest))
  }

  function ReadMetadata(s: Bytes): Read<(Metadata, seq<ContractShape>)> {
    var (_, s1) :- ReadPurpose(s);
    var (_, s2) :- ReadByte(1, s1);
    var (header, s3) :- ReadMetadataHeader(s2);
    ReadMetadataTimes(header, s3)
  }

  /** The version and the digests of the roots. */
  function ReadTransaction(s: Bytes): Read<(Utf8, seq<Bytes>)> {
    var (_, s1) :- ReadPurpose(s);
    var (version, s2) :- ReadBytes(s1);
    var (digests, rest) :- ReadDigests(s2);
    Some(((version, digests), rest))
  }

  /** Version 2 of the hashing scheme, then the two digests. */
  function ReadFinal(s: Bytes): Read<(Bytes, Bytes)> {
    var (_, s1) :- ReadPurpose(s);
    var (_, s2) :- ReadByte(2, s1);
    var (transactionHash, s3) :- ReadDigest(s2);
    var (metadataHash, rest) :- ReadDigest(s3);
    Some(((transactionHash, metadataHash), rest))
  }

  // ---------- what is well-formed ----------

  ghost predicate WfTime(t: int) {
    0 <= t < TWO_64
  }

  ghost predicate WfOptionalTime(t: Option<int>) {
    t.Some? ==> WfTime(t.value)
  }

  ghost predicate WfMetadata(m: Metadata) {
    && WfStrings(SubmitterOf(m).actAs) && Short(SubmitterOf(m).commandId) && Short(m.transactionUuid)
    && 0 <= m.mediatorGroup < TWO_32 && Short(m.synchronizerId)
    && WfOptionalTime(m.minLedgerEffectiveTime) && WfOptionalTime(m.maxLedgerEffectiveTime) && WfTime(m.preparationTime)
    && Short(m.inputContracts)
    && forall i :: 0 <= i < |m.inputContracts| ==> WfInputContract(m.inputContracts[i])
  }

  ghost predicate WfInputContract(ic: InputContract) {
    WfTime(ic.createdAt) && (ic.contract.Some? ==> WfCreate(ic.contract.value))
  }

  /** The metadata with absent submitter information written out. */
  function Normal(m: Metadata): Metadata {
    if m.submitterInfo.Some? then m else m.(submitterInfo := Some(SubmitterInfo(actAs := [], commandId := [])))
  }

  // ---------- reading undoes encoding ----------

  lemma TimeReads(t: int)
    requires WfTime(t)
    ensures Reads(ReadTime, EncodeInt64(t), t)
  {
    forall rest
      ensures ReadTime(EncodeInt64(t) + rest) == Some((t, rest))
    {
      Front(EncodeInt64(t), rest);
      Int64Value(t);
    }
  }

  lemma OptionalTimeReads(t: Option<int>)
    requires WfOptionalTime(t)
    ensures EncodeOptionalTime(t).Some? && Reads(ReadOptionalTime, EncodeOptionalTime(t).value, t)
  {
    var code: Option<Code> := match t case None => None case Some(n) => Some(Some(EncodeInt64(n)));
    OptionalSome(code);
    if t.Some? {
      TimeReads(t.value);
    }
    forall rest
      ensures ReadOptionalTime(EncodeOptionalTime(t).value + rest) == Some((t, rest))
    {
      OptionalReads(ReadTime, code, t, rest);
    }
  }

  lemma GroupReads(n: int)
    requires 0 <= n < TWO_32
    ensures Reads(ReadGroup, EncodeInt32(n), n)
  {
    forall rest
      ensures ReadGroup(EncodeInt32(n) + rest) == Some((n, rest))
    {
      NatReads(n, rest);
    }
  }

  /** The contract is encoded as a create node without a seed. */
  function ContractShapeOf(sha: Hash, ic: InputContract): ContractShape
    requires EncodeInputContract(sha, ic).Some?
  {
    var code := EncodeCreateNode(ic.contract.value, None);
    JoinTwo(Some(EncodeInt64(ic.createdAt)), DigestOf(sha, code));
    ContractShape(ic.createdAt, sha(code.value))
  }

  lemma ContractReads(sha: Hash, ic: InputContract)
    requires WfInputContract(ic) && EncodeInputContract(sha, ic).Some?
    ensures Reads(ReadContract, EncodeInputContract(sha, ic).value, ContractShapeOf(sha, ic))
  {
    var code := EncodeCreateNode(ic.contract.value, None);
    JoinTwo(Some(EncodeInt64(ic.createdAt)), DigestOf(sha, code));
    var time, digest := EncodeInt64(ic.createdAt), sha(code.value);
    TimeReads(ic.createdAt);
    DigestReads(digest);
    forall rest
      ensures ReadContract(EncodeInputContract(sha, ic).value + rest) == Some((ContractShapeOf(sha, ic), rest))
    {
      ContractSteps(ic.createdAt, time, digest, rest);
    }
  }

  lemma ContractSteps(createdAt: int, time: Bytes, digest: Bytes, rest: Bytes)
    requires Reads(ReadTime, time, createdAt) && Reads(ReadDigest, digest, digest)
    ensures ReadContract(time + digest + rest) == Some((ContractShape(createdAt, digest), rest))
  {
    Sequences.Associative(time, digest, rest);
    assert ReadTime(time + (digest + rest)) == Some((createdAt, digest + rest));
    assert ReadDigest(digest + rest) == Some((digest, rest));
  }

  ghost predicate ContractsEncode(sha: Hash, ics: seq<InputContract>) {
    forall i :: 0 <= i < |ics| ==> EncodeInputContract(sha, ics[i]).Some?
  }

  function ContractShapes(sha: Hash, ics: seq<InputContract>): seq<ContractShape>
    requires ContractsEncode(sha, ics)
  {
    seq(|ics|, i requires 0 <= i < |ics| => ContractShapeOf(sha, ics[i]))
  }

  lemma ContractsRead(sha: Hash, ics: seq<InputContract>)
    requires Short(ics) && forall i :: 0 <= i < |ics| ==> WfInputContract(ics[i])
    requires EncodeRepeated(InputContractCodes(sha, ics)).Some?
    ensures ContractsEncode(sha, ics)
    ensures Reads(ReadContracts, EncodeRepeated(InputContractCodes(sha, ics)).value, ContractShapes(sha, ics))
  {
    var codes := InputContractCodes(sha, ics);
    RepeatedSome(codes);
    assert forall i :: 0 <= i < |ics| ==> codes[i] == EncodeInputContract(sha, ics[i]);
    forall rest
      ensures ReadContracts(EncodeRepeated(codes).value + rest) == Some((ContractShapes(sha, ics), rest))
    {
      forall i | 0 <= i < |ics|
        ensures Reads(ReadContract, codes[i].value, ContractShapes(sha, ics)[i])
      {
        ContractReads(sha, ics[i]);
      }
      RepeatedReads(ReadContract, codes, ContractShapes(sha, ics), rest);
    }
  }

  /** What the header says; the times are not read yet. */
  function HeaderOf(m: Metadata): Metadata {
    Normal(m).(
      minLedgerEffectiveTime := None, maxLedgerEffectiveTime := None, preparationTime := 0, inputContracts := [])
  }

  lemma MetadataHeaderSteps(m: Metadata, p: Bytes, q: Bytes, r: Bytes, s: Bytes, t: Bytes, rest: Bytes)
    requires Reads(ReadStrings, p, SubmitterOf(m).actAs) && Reads(ReadBytes, q, SubmitterOf(m).commandId)
    requires Reads(ReadBytes, r, m.transactionUuid) && Reads(ReadGroup, s, m.mediatorGroup)
    requires Reads(ReadBytes, t, m.synchronizerId)
    ensures ReadMetadataHeader(p + (q + (r + (s + (t + rest))))) == Some((HeaderOf(m), rest))
  {
    assert ReadStrings(p + (q + (r + (s + (t + rest))))) == Some((SubmitterOf(m).actAs, q + (r + (s + (t + rest)))));
    assert ReadBytes(q + (r + (s + (t + rest)))) == Some((SubmitterOf(m).commandId, r + (s + (t + rest))));
    assert ReadBytes(r + (s + (t + rest))) == Some((m.transactionUuid, s + (t + rest)));
    assert ReadGroup(s + (t + rest)) == Some((m.mediatorGroup, t + rest));
    assert ReadBytes(t + rest) == Some((m.synchronizerId, rest));
  }

  lemma MetadataHeaderReads(m: Metadata, rest: Bytes)
    requires WfMetadata(m) && Join(MetadataHeader(m)).Some?
    ensures Join(MetadataHeader(m)).value + rest == [1] + (Join(MetadataHeader(m)[1..]).value + rest)
    ensures ReadMetadataHeader(Join(MetadataHeader(m)[1..]).value + rest) == Some((HeaderOf(m), rest))
  {
    var ps := MetadataHeader(m);
    JoinSome(ps);
    JoinFront(ps, rest);
    JoinFront(ps[1..], rest);
    assert ps[1..][1..] == ps[2..];
    FourParts(ps[2..], rest);
    StringsRead(SubmitterOf(m).actAs);
    BytesRead(SubmitterOf(m).commandId);
    BytesRead(m.transactionUuid);
    GroupReads(m.mediatorGroup);
    BytesRead(m.synchronizerId);
    MetadataHeaderSteps(m, ps[1].value, ps[2].value, ps[3].value, ps[4].value, ps[5].value, rest);
  }

  lemma MetadataTimesSteps(m: Metadata, contracts: seq<ContractShape>, p: Bytes, q: Bytes, r: Bytes,
        s: Bytes, rest: Bytes)
    requires Reads(ReadOptionalTime, p, m.minLedgerEffectiveTime)
    requires Reads(ReadOptionalTime, q, m.maxLedgerEffectiveTime)
    requires Reads(ReadTime, r, m.preparationTime) && Reads(ReadContracts, s, contracts)
    ensures ReadMetadataTimes(HeaderOf(m), p + (q + (r + (s + rest))))
      == Some(((Normal(m).(inputContracts := []), contracts), rest))
  {
    assert ReadOptionalTime(p + (q + (r + (s + rest)))) == Some((m.minLedgerEffectiveTime, q + (r + (s + rest))));
    assert ReadOptionalTime(q + (r + (s + rest))) == Some((m.maxLedgerEffectiveTime, r + (s + rest)));
    assert ReadTime(r + (s + rest)) == Some((m.preparationTime, s + rest));
    assert ReadContracts(s + rest) == Some((contracts, rest));
  }

  lemma MetadataTimesRead(sha: Hash, m: Metadata, rest: Bytes)
    requires WfMetadata(m) && Join(MetadataTimes(sha, m)).Some?
    ensures ContractsEncode(sha, m.inputContracts)
    ensures ReadMetadataTimes(HeaderOf(m), Join(MetadataTimes(sha, m)).value + rest)
      == Some(((Normal(m).(inputContracts := []), ContractShapes(sha, m.inputContracts)), rest))
  {
    var ps := MetadataTimes(sha, m);
    FourParts(ps, rest);
    OptionalTimeReads(m.minLedgerEffectiveTime);
    OptionalTimeReads(m.maxLedgerEffectiveTime);
    TimeReads(m.preparationTime);
    ContractsRead(sha, m.inputContracts);
    MetadataTimesSteps(m, ContractShapes(sha, m.inputContracts), ps[0].value, ps[1].value, ps[2].value,
      ps[3].value, rest);
  }

  lemma PurposeReads(rest: Bytes)
    ensures ReadPurpose(PREPARED_TRANSACTION_HASH_PURPOSE + rest) == Some(((), rest))
  {
    Front(PREPARED_TRANSACTION_HASH_PURPOSE, rest);
  }

  /** Every hashed metadata field is read back, and of each input contract its time and digest. */
  lemma MetadataReads(sha: Hash, m: Metadata)
    requires WfMetadata(m) && MetadataInput(sha, m).Some?
    ensures ContractsEncode(sha, m.inputContracts)
    ensures Reads(ReadMetadata, MetadataInput(sha, m).value,
              (Normal(m).(inputContracts := []), ContractShapes(sha, m.inputContracts)))
  {
    var ps, qs := MetadataHeader(m), MetadataTimes(sha, m);
    JoinTwo(Some(PREPARED_TRANSACTION_HASH_PURPOSE), Join(ps + qs));
    JoinAppend(ps, qs, []);
    MetadataTimesRead(sha, m, []);
    forall rest
      ensures ReadMetadata(MetadataInput(sha, m).value + rest)
        == Some(((Normal(m).(inputContracts := []), ContractShapes(sha, m.inputContracts)), rest))
    {
      JoinAppend(ps, qs, rest);
      var s, t := Join(ps + qs).value + rest, Join(qs).value + rest;
      Sequences.Associative(PREPARED_TRANSACTION_HASH_PURPOSE, Join(ps + qs).value, rest);
      PurposeReads(s);
      MetadataHeaderReads(m, t);
      Front([1], Join(ps[1..]).value + t);
      MetadataTimesRead(sha, m, rest);
    }
  }

  /** The version and the digests of the roots are read back. */
  lemma TransactionReads(version: Utf8, ds: seq<Code>)
    requires Short(version) && Short(ds) && AllDigests(ds) && RootsInput(version, ds).Some?
    ensures AllSome(ds) && Reads(ReadTransaction, RootsInput(version, ds).value, (version, Contents(ds)))
  {
    var v, r := EncodeBytes(version), EncodeRepeated(ds);
    JoinTwo(Some(v), r);
    JoinTwo(Some(PREPARED_TRANSACTION_HASH_PURPOSE), Join([Some(v), r]));
    RepeatedSome(ds);
    DigestsRead(ds);
    BytesRead(version);
    forall rest
      ensures ReadTransaction(RootsInput(version, ds).value + rest) == Some(((version, Contents(ds)), rest))
    {
      Sequences.Associative(PREPARED_TRANSACTION_HASH_PURPOSE, v + r.value, rest);
      Sequences.Associative(v, r.value, rest);
      PurposeReads(v + (r.value + rest));
    }
  }

  /** The two digests are read back. */
  lemma FinalReads(t: Code, m: Code)
    requires AllDigests([t, m]) && FinalInput(t, m).Some?
    ensures t.Some? && m.Some? && Reads(ReadFinal, FinalInput(t, m).value, (t.value, m.value))
  {
    var ps := [Some(PREPARED_TRANSACTION_HASH_PURPOSE), Some([HASHING_SCHEME_VERSION]), t, m];
    assert [t, m][0] == t && [t, m][1] == m;
    FourParts(ps, []);
    DigestReads(t.value);
    DigestReads(m.value);
    forall rest
      ensures ReadFinal(FinalInput(t, m).value + rest) == Some(((t.value, m.value), rest))
    {
      FourParts(ps, rest);
      PurposeReads([2] + (t.value + (m.value + rest)));
      Front([2], t.value + (m.value + rest));
    }
  }

  /** The digest of a prepared transaction, down to the encodings of its trees and input contracts. */
  lemma PreparedReads(sha: Hash, p: PreparedTransaction, rank: map<NodeId, nat>, ts: seq<Tree>)
      returns (final: Bytes, transaction: Bytes, metadata: Bytes)
    requires RankedPrepared(p, rank) && EncodePreparedTransaction(sha, p, rank).Some?
    requires Short(p.transaction.value.version) && Short(p.transaction.value.roots) && WfMetadata(p.metadata.value)
    requires UnfoldsAll(BuildDict(p.transaction.value.nodes), p.transaction.value.nodeSeeds, p.transaction.value.roots,
               ts)
    ensures AllEncode(sha, ts) && ContractsEncode(sha, p.metadata.value.inputContracts)
    ensures ComputePreparedTransaction(sha, p, rank) == Some(sha(final))
    ensures ReadFinal(final) == Some(((sha(transaction), sha(metadata)), []))
    ensures ReadTransaction(transaction) == Some(((p.transaction.value.version, HashesOf(sha, ts)), []))
    ensures ReadMetadata(metadata)
      == Some(((Normal(p.metadata.value).(inputContracts := []), ContractShapes(sha, p.metadata.value.inputContracts)),
               []))
  {
    var tx, m := p.transaction.value, p.metadata.value;
    final := EncodePreparedTransaction(sha, p, rank).value;
    FinalReads(DigestOf(sha, TransactionInput(sha, tx, rank)), DigestOf(sha, MetadataInput(sha, m)));
    transaction, metadata := TransactionInput(sha, tx, rank).value, MetadataInput(sha, m).value;
    NothingBehind(ReadFinal, final, (sha(transaction), sha(metadata)));
    InputOfTrees(sha, tx, rank, ts);
    TreesRead(sha, tx.version, ts);
    MetadataReads(sha, m);
    NothingBehind(ReadMetadata, metadata,
      (Normal(m).(inputContracts := []), ContractShapes(sha, m.inputContracts)));
  }

  lemma NothingBehind<T>(read: Reader<T>, code: Bytes, x: T)
    requires Reads(read, code, x)
    ensures read(code) == Some((x, []))
  {
    assert code + [] == code;
  }

  lemma TreesRead(sha: Hash, version: Utf8, ts: seq<Tree>)
    requires Short(version) && Short(ts) && RootsInput(version, ChildDigests(sha, ts)).Some?
    ensures AllEncode(sha, ts)
    ensures ReadTransaction(RootsInput(version, ChildDigests(sha, ts)).value)
      == Some(((version, HashesOf(sha, ts)), []))
  {
    TransactionReads(version, ChildDigests(sha, ts));
    HashesAreContents(sha, ts);
    NothingBehind(ReadTransaction, RootsInput(version, ChildDigests(sha, ts)).value, (version, HashesOf(sha, ts)));
  }

  lemma InputOfTrees(sha: Hash, tx: DamlTransaction, rank: map<NodeId, nat>, ts: seq<Tree>)
    requires RankedFor(tx, rank) && UnfoldsAll(BuildDict(tx.nodes), tx.nodeSeeds, tx.roots, ts)
    ensures TransactionInput(sha, tx, rank) == RootsInput(tx.version, ChildDigests(sha, ts))
  {
    DictEncodesTrees(sha, BuildDict(tx.nodes), tx.nodeSeeds, tx.roots, rank, ts);
  }
}
