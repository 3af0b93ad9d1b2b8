/**
 * Prepared transactions: nodes are looked up by id and encoded, and the result is hashed together with the metadata.
 */
module Transactions {
  import opened Wrappers
  import opened ByteStrings
  import opened Values
  import opened Nodes
  import opened NodeGraphs

  datatype DamlTransaction = DamlTransaction(
    version: Utf8,
    roots: seq<NodeId>,
    nodes: seq<NodeEntry>,
    nodeSeeds: seq<NodeSeed>)

  datatype SubmitterInfo = SubmitterInfo(actAs: seq<Utf8>, commandId: Utf8)

  /** No create stands for a contract of an unsupported version. */
  datatype InputContract = InputContract(contract: Option<Create>, createdAt: int)

  /** The hashed part of the metadata. */
  datatype Metadata = Metadata(
    submitterInfo: Option<SubmitterInfo>,
    transactionUuid: Utf8,
    mediatorGroup: int,
    synchronizerId: Utf8,
    minLedgerEffectiveTime: Option<int>,
    maxLedgerEffectiveTime: Option<int>,
    preparationTime: int,
    inputContracts: seq<InputContract>)

  datatype PreparedTransaction = PreparedTransaction(transaction: Option<DamlTransaction>, metadata: Option<Metadata>)

  const PREPARED_TRANSACTION_HASH_PURPOSE: Bytes := [0, 0, 0, 0x30]
  const HASHING_SCHEME_VERSION: byte := 2

  // ---------- the dictionary encoder ----------

  /** The digest of the node with this id. The rank only bounds the recursion. */
  function EncodeNodeId(sha: Hash, dict: NodesDict, seeds: seq<NodeSeed>, id: NodeId,
        ghost rank: map<NodeId, nat>): Code
    requires Ranked(dict, rank) && id in rank
    decreases rank[id], 1
  {
    if id in dict then DigestOf(sha, EncodeNode(sha, dict, seeds, id, rank)) else None
  }

  function EncodeNode(sha: Hash, dict: NodesDict, seeds: seq<NodeSeed>, id: NodeId, ghost rank: map<NodeId, nat>): Code
    requires Ranked(dict, rank) && id in rank && id in dict
    decreases rank[id], 0
  {
    match dict[id]
    case CreateNode(c) => EncodeCreateNode(c, FindSeed(id, seeds))
    case ExerciseNode(e, kids) =>
      if !ExerciseSupported(e) then None // rejected in front of the children, as ExerciseEncodes says
      else
        assert forall i :: 0 <= i < |kids| ==> Edge(dict, id, kids[i]);
        var digests := seq(|kids|, i requires 0 <= i < |kids| => EncodeNodeId(sha, dict, seeds, kids[i], rank));
        (match FindSeed(id, seeds)
         case None => None
         case Some(seed) => EncodeExerciseNode(e, seed, digests))
    case FetchNode(f) => EncodeFetchNode(f)
    case RollbackNode(kids) =>
      assert forall i :: 0 <= i < |kids| ==> Edge(dict, id, kids[i]);
      EncodeRollbackNode(seq(|kids|, i requires 0 <= i < |kids| => EncodeNodeId(sha, dict, seeds, kids[i], rank)))
    case UnsupportedNode => None
  }

  function NodeDigests(sha: Hash, dict: NodesDict, seeds: seq<NodeSeed>, ids: seq<NodeId>,
        ghost rank: map<NodeId, nat>): (digests: seq<Code>)
    requires Ranked(dict, rank) && forall i :: 0 <= i < |ids| ==> ids[i] in rank
  {
    seq(|ids|, i requires 0 <= i < |ids| => EncodeNodeId(sha, dict, seeds, ids[i], rank))
  }

  // ---------- the tree an id stands for ----------

  /** t is what the node with this id unfolds to, with its seed and with every child id followed. */
  ghost predicate Unfolds(dict: NodesDict, seeds: seq<NodeSeed>, id: NodeId, t: Tree)
    decreases t
  {
    && id in dict
    && match dict[id]
       case CreateNode(c) => t == CreateTree(c, FindSeed(id, seeds))
       case ExerciseNode(e, kids) =>
         t.ExerciseTree? && t.exercise == e && FindSeed(id, seeds) == Some(t.seed)
           && UnfoldsAll(dict, seeds, kids, t.children)
       case FetchNode(f) => t == FetchTree(f)
       case RollbackNode(kids) => t.RollbackTree? && UnfoldsAll(dict, seeds, kids, t.children)
       case UnsupportedNode => false
  }

  ghost predicate UnfoldsAll(dict: NodesDict, seeds: seq<NodeSeed>, ids: seq<NodeId>, ts: seq<Tree>)
    decreases ts
  {
    |ids| == |ts| && forall i :: 0 <= i < |ids| ==> Unfolds(dict, seeds, ids[i], ts[i])
  }

  lemma {:induction false} UnfoldsUnique(dict: NodesDict, seeds: seq<NodeSeed>, id: NodeId, t: Tree, u: Tree)
    requires Unfolds(dict, seeds, id, t) && Unfolds(dict, seeds, id, u)
    ensures t == u
    decreases t
  {
    match dict[id]
    case ExerciseNode(_, kids) => UnfoldsAllUnique(dict, seeds, kids, t.children, u.children);
    case RollbackNode(kids) => UnfoldsAllUnique(dict, seeds, kids, t.children, u.children);
    case _ =>
  }

  lemma {:induction false} UnfoldsAllUnique(dict: NodesDict, seeds: seq<NodeSeed>, ids: seq<NodeId>, ts: seq<Tree>,
        us: seq<Tree>)
    requires UnfoldsAll(dict, seeds, ids, ts) && UnfoldsAll(dict, seeds, ids, us)
    ensures ts == us
    decreases ts
  {
    forall i | 0 <= i < |ids|
      ensures ts[i] == us[i]
    {
      UnfoldsUnique(dict, seeds, ids[i], ts[i], us[i]);
    }
  }

  /** Looking nodes up by id computes the digest of the tree. */
  lemma {:induction false} DictEncodesTree(sha: Hash, dict: NodesDict, seeds: seq<NodeSeed>, id: NodeId,
        rank: map<NodeId, nat>, t: Tree)
    requires Ranked(dict, rank) && id in rank
    requires Unfolds(dict, seeds, id, t)
    ensures EncodeNode(sha, dict, seeds, id, rank) == EncodeTree(sha, t)
    ensures EncodeNodeId(sha, dict, seeds, id, rank) == DigestOf(sha, EncodeTree(sha, t))
    decreases t
  {
    match dict[id]
    case ExerciseNode(e, kids) =>
      if !ExerciseSupported(e) {
        ExerciseEncodes(e, t.seed, ChildDigests(sha, t.children));
      } else {
        KidsRanked(dict, rank, id);
        DictEncodesTrees(sha, dict, seeds, kids, rank, t.children);
        assert NodeDigests(sha, dict, seeds, kids, rank)
          == seq(|kids|, i requires 0 <= i < |kids| => EncodeNodeId(sha, dict, seeds, kids[i], rank));
      }
    case RollbackNode(kids) =>
      KidsRanked(dict, rank, id);
      DictEncodesTrees(sha, dict, seeds, kids, rank, t.children);
      assert NodeDigests(sha, dict, seeds, kids, rank)
        == seq(|kids|, i requires 0 <= i < |kids| => EncodeNodeId(sha, dict, seeds, kids[i], rank));
    case _ =>
  }

  lemma KidsRanked(dict: NodesDict, rank: map<NodeId, nat>, id: NodeId)
    requires Ranked(dict, rank) && id in rank && id in dict
    ensures forall i ::
      0 <= i < |Children(dict[id])| ==> Children(dict[id])[i] in rank && rank[Children(dict[id])[i]] < rank[id]
  {
    forall i | 0 <= i < |Children(dict[id])|
      ensures Children(dict[id])[i] in rank && rank[Children(dict[id])[i]] < rank[id]
    {
      assert Edge(dict, id, Children(dict[id])[i]);
    }
  }

  lemma {:induction false} DictEncodesTrees(sha: Hash, dict: NodesDict, seeds: seq<NodeSeed>, ids: seq<NodeId>,
        rank: map<NodeId, nat>, ts: seq<Tree>)
    requires Ranked(dict, rank) && forall i :: 0 <= i < |ids| ==> ids[i] in rank
    requires UnfoldsAll(dict, seeds, ids, ts)
    ensures NodeDigests(sha, dict, seeds, ids, rank) == ChildDigests(sha, ts)
    decreases ts
  {
    forall i | 0 <= i < |ids|
      ensures EncodeNodeId(sha, dict, seeds, ids[i], rank) == ChildDigests(sha, ts)[i]
    {
      DictEncodesTree(sha, dict, seeds, ids[i], rank, ts[i]);
    }
  }

  // ---------- exactly when the encoder succeeds ----------

  /** The id resolves to a node of a supported kind with everything the encoder insists on. */
  predicate Supported(dict: NodesDict, seeds: seq<NodeSeed>, id: NodeId) {
    && id in dict
    && match dict[id]
       case CreateNode(c) => CreateSupported(c)
       case ExerciseNode(e, _) => FindSeed(id, seeds).Some? && ExerciseSupported(e)
       case FetchNode(f) => FetchSupported(f)
       case RollbackNode(_) => true
       case UnsupportedNode => false
  }

  lemma NodeEncodes(sha: Hash, dict: NodesDict, seeds: seq<NodeSeed>, id: NodeId, rank: map<NodeId, nat>)
    requires Ranked(dict, rank) && id in rank
    ensures EncodeNodeId(sha, dict, seeds, id, rank).Some? <==>
      Supported(dict, seeds, id)
        && forall b :: Edge(dict, id, b) ==> b in rank && EncodeNodeId(sha, dict, seeds, b, rank).Some?
  {
    if id in dict {
      KidsRanked(dict, rank, id);
      match dict[id]
      case CreateNode(c) => CreateEncodes(c, FindSeed(id, seeds));
      case FetchNode(f) => FetchEncodes(f);
      case ExerciseNode(e, kids) =>
        if ExerciseSupported(e) {
          var ds := seq(|kids|, i requires 0 <= i < |kids| => EncodeNodeId(sha, dict, seeds, kids[i], rank));
          if FindSeed(id, seeds).Some? {
            ExerciseEncodes(e, FindSeed(id, seeds).value, ds);
          }
          EdgesCoverKids(sha, dict, seeds, id, rank, ds);
        }
      case RollbackNode(kids) =>
        var ds := seq(|kids|, i requires 0 <= i < |kids| => EncodeNodeId(sha, dict, seeds, kids[i], rank));
        RollbackEncodes(ds);
        EdgesCoverKids(sha, dict, seeds, id, rank, ds);
      case UnsupportedNode =>
    }
  }

  lemma EdgesCoverKids(sha: Hash, dict: NodesDict, seeds: seq<NodeSeed>, id: NodeId, rank: map<NodeId, nat>,
        ds: seq<Code>)
    requires Ranked(dict, rank) && id in rank && id in dict
    requires forall i :: 0 <= i < |Children(dict[id])| ==> Children(dict[id])[i] in rank
    requires |ds| == |Children(dict[id])|
    requires forall i :: 0 <= i < |ds| ==> ds[i] == EncodeNodeId(sha, dict, seeds, Children(dict[id])[i], rank)
    ensures AllSome(ds) <==>
      forall b :: Edge(dict, id, b) ==> b in rank && EncodeNodeId(sha, dict, seeds, b, rank).Some?
  {
    var kids := Children(dict[id]);
    if forall b :: Edge(dict, id, b) ==> b in rank && EncodeNodeId(sha, dict, seeds, b, rank).Some? {
      forall i | 0 <= i < |ds|
        ensures ds[i].Some?
      {
        assert Edge(dict, id, kids[i]);
      }
    }
  }

  /** On a ranked graph an id encodes exactly when every id reachable from it is supported. */
  lemma {:induction false} EncodesIffReachableSupported(sha: Hash, dict: NodesDict, seeds: seq<NodeSeed>, id: NodeId,
        rank: map<NodeId, nat>)
    requires Ranked(dict, rank) && id in rank
    ensures EncodeNodeId(sha, dict, seeds, id, rank).Some? <==>
      forall x :: Reaches(dict, id, x) ==> Supported(dict, seeds, x)
    decreases rank[id]
  {
    NodeEncodes(sha, dict, seeds, id, rank);
    ReachesSelf(dict, id);
    forall b | Edge(dict, id, b)
      ensures b in rank
      ensures EncodeNodeId(sha, dict, seeds, b, rank).Some? <==>
        forall x :: Reaches(dict, b, x) ==> Supported(dict, seeds, x)
    {
      EncodesIffReachableSupported(sha, dict, seeds, b, rank);
    }
    if EncodeNodeId(sha, dict, seeds, id, rank).Some? {
      forall x | Reaches(dict, id, x)
        ensures Supported(dict, seeds, x)
      {
        ReachesOrSelf(dict, id, x);
      }
    }
    if forall x :: Reaches(dict, id, x) ==> Supported(dict, seeds, x) {
      forall b, x | Edge(dict, id, b) && Reaches(dict, b, x)
        ensures Supported(dict, seeds, x)
      {
        ReachesFromChild(dict, id, b, x);
      }
    }
  }

  /** An id that encodes unfolds to a tree. */
  lemma {:induction false} EncodedUnfolds(sha: Hash, dict: NodesDict, seeds: seq<NodeSeed>, id: NodeId,
        rank: map<NodeId, nat>) returns (t: Tree)
    requires Ranked(dict, rank) && id in rank
    requires EncodeNodeId(sha, dict, seeds, id, rank).Some?
    ensures Unfolds(dict, seeds, id, t)
    decreases rank[id], 0
  {
    NodeEncodes(sha, dict, seeds, id, rank);
    KidsRanked(dict, rank, id);
    forall i | 0 <= i < |Children(dict[id])|
      ensures EncodeNodeId(sha, dict, seeds, Children(dict[id])[i], rank).Some?
    {
      assert Edge(dict, id, Children(dict[id])[i]);
    }
    match dict[id]
    case CreateNode(c) => t := CreateTree(c, FindSeed(id, seeds));
    case ExerciseNode(e, kids) =>
      var ts := EncodedUnfoldAll(sha, dict, seeds, kids, rank, rank[id]);
      t := ExerciseTree(e, FindSeed(id, seeds).value, ts);
    case FetchNode(f) => t := FetchTree(f);
    case RollbackNode(kids) =>
      var ts := EncodedUnfoldAll(sha, dict, seeds, kids, rank, rank[id]);
      t := RollbackTree(ts);
  }

  lemma {:induction false} EncodedUnfoldAll(sha: Hash, dict: NodesDict, seeds: seq<NodeSeed>, ids: seq<NodeId>,
        rank: map<NodeId, nat>, bound: nat)
      returns (ts: seq<Tree>)
    requires Ranked(dict, rank) && forall i :: 0 <= i < |ids| ==> ids[i] in rank && rank[ids[i]] < bound
    requires forall i :: 0 <= i < |ids| ==> EncodeNodeId(sha, dict, seeds, ids[i], rank).Some?
    ensures UnfoldsAll(dict, seeds, ids, ts)
    decreases bound - 1, 1, |ids|
  {
    if ids == [] {
      ts := [];
    } else {
      var t := EncodedUnfolds(sha, dict, seeds, ids[0], rank);
      var rest := EncodedUnfoldAll(sha, dict, seeds, ids[1..], rank, bound);
      ts := [t] + rest;
    }
  }

  // ---------- the whole prepared transaction ----------

  function EncodeInputContract(sha: Hash, ic: InputContract): Code {
    match ic.contract
    case None => None
    case Some(c) => Join([Some(EncodeInt64(ic.createdAt)), DigestOf(sha, EncodeCreateNode(c, None))])
  }

  function EncodeOptionalTime(time: Option<int>): Code {
    EncodeOptional(match time case None => None case Some(t) => Some(Some(EncodeInt64(t))))
  }

  function InputContractCodes(sha: Hash, ics: seq<InputContract>): (codes: seq<Code>)
  {
    seq(|ics|, i requires 0 <= i < |ics| => EncodeInputContract(sha, ics[i]))
  }

  /** Absent submitter information is encoded like an empty one. */
  function SubmitterOf(m: Metadata): SubmitterInfo {
    match m.submitterInfo
    case None => SubmitterInfo([], [])
    case Some(info) => info
  }

  function MetadataParts(sha: Hash, m: Metadata): seq<Code> {
    MetadataHeader(m) + MetadataTimes(sha, m)
  }

  function MetadataHeader(m: Metadata): seq<Code> {
    [Some([1]),
     EncodeStrings(SubmitterOf(m).actAs),
     Some(EncodeBytes(SubmitterOf(m).commandId)),
     Some(EncodeBytes(m.transactionUuid)),
     Some(EncodeInt32(m.mediatorGroup)),
     Some(EncodeBytes(m.synchronizerId))]
  }

  function MetadataTimes(sha: Hash, m: Metadata): seq<Code> {
    [EncodeOptionalTime(m.minLedgerEffectiveTime),
     EncodeOptionalTime(m.maxLedgerEffectiveTime),
     Some(EncodeInt64(m.preparationTime)),
     EncodeRepeated(InputContractCodes(sha, m.inputContracts))]
  }

  /** What is hashed for the metadata. */
  function MetadataInput(sha: Hash, m: Metadata): Code {
    Join([Some(PREPARED_TRANSACTION_HASH_PURPOSE), Join(MetadataParts(sha, m))])
  }

  ghost predicate RankedFor(tx: DamlTransaction, rank: map<NodeId, nat>) {
    Ranked(BuildDict(tx.nodes), rank) && forall i :: 0 <= i < |tx.roots| ==> tx.roots[i] in rank
  }

  /** What is hashed for the transaction, given the codes of its roots. */
  function RootsInput(version: Utf8, roots: seq<Code>): Code {
    Join([Some(PREPARED_TRANSACTION_HASH_PURPOSE), Join([Some(EncodeBytes(version)), EncodeRepeated(roots)])])
  }

  function TransactionInput(sha: Hash, tx: DamlTransaction, ghost rank: map<NodeId, nat>): Code
    requires RankedFor(tx, rank)
  {
    RootsInput(tx.version, NodeDigests(sha, BuildDict(tx.nodes), tx.nodeSeeds, tx.roots, rank))
  }

  /** What is hashed last. */
  function FinalInput(transactionHash: Code, metadataHash: Code): Code {
    Join([Some(PREPARED_TRANSACTION_HASH_PURPOSE), Some([HASHING_SCHEME_VERSION]), transactionHash, metadataHash])
  }

  ghost predicate RankedPrepared(p: PreparedTransaction, rank: map<NodeId, nat>) {
    p.transaction.Some? ==> RankedFor(p.transaction.value, rank)
  }

  function EncodePreparedTransaction(sha: Hash, p: PreparedTransaction, ghost rank: map<NodeId, nat>): Code
    requires RankedPrepared(p, rank)
  {
    match (p.transaction, p.metadata)
    case (Some(tx), Some(m)) =>
      FinalInput(DigestOf(sha, TransactionInput(sha, tx, rank)), DigestOf(sha, MetadataInput(sha, m)))
    case _ => None
  }

  function ComputePreparedTransaction(sha: Hash, p: PreparedTransaction, ghost rank: map<NodeId, nat>): Code
    requires RankedPrepared(p, rank)
  {
    DigestOf(sha, EncodePreparedTransaction(sha, p, rank))
  }
}
