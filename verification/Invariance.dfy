/** When the dictionary encoder terminates, when it succeeds, and what its result does not depend on. */
module Invariance {
  import opened Wrappers
  import opened ByteStrings
  import opened Values
  import opened Nodes
  import opened NodeGraphs
  import opened Transactions
  import opened Binding
  import opened Sequences

  // ---------- termination ----------

  ghost predicate NoCycleReached(dict: NodesDict, roots: seq<NodeId>) {
    forall p :: Cycle(dict, p) ==> !ReachedFrom(dict, roots, p[0])
  }

  /** No chain of nested calls of the encoder, each for a child of the node of the one before, is longer than n. */
  ghost predicate CallsBounded(dict: NodesDict, roots: seq<NodeId>, n: nat) {
    forall p :: Walk(dict, p) && p[0] in roots ==> |p| <= n
  }

  lemma RankedBoundsCalls(tx: DamlTransaction, rank: map<NodeId, nat>) returns (n: nat)
    requires RankedFor(tx, rank)
    ensures CallsBounded(BuildDict(tx.nodes), tx.roots, n)
  {
    n := RankBound(tx.roots, rank);
    forall p | Walk(BuildDict(tx.nodes), p) && p[0] in tx.roots
      ensures |p| <= n
    {
      var i :| 0 <= i < |tx.roots| && tx.roots[i] == p[0];
      RanksFallAlongWalks(BuildDict(tx.nodes), rank, p);
    }
  }

  lemma BoundedReachesNoCycle(dict: NodesDict, roots: seq<NodeId>, n: nat)
    requires CallsBounded(dict, roots, n)
    ensures NoCycleReached(dict, roots)
  {
    forall c | Cycle(dict, c)
      ensures !ReachedFrom(dict, roots, c[0])
    {
      if ReachedFrom(dict, roots, c[0]) {
        var r :| r in roots && Reaches(dict, r, c[0]);
        var p :| Walk(dict, p) && p[0] == r && p[|p| - 1] == c[0];
        var w := RoundTheCycle(dict, p, c, n);
        assert false;
      }
    }
  }

  lemma NoCycleHasRank(tx: DamlTransaction) returns (rank: map<NodeId, nat>)
    requires NoCycleReached(BuildDict(tx.nodes), tx.roots)
    ensures RankedFor(tx, rank)
  {
    var dict := BuildDict(tx.nodes);
    var ids := dict.Keys + (set a, b | a in dict && b in Children(dict[a]) :: b) + (set r | r in tx.roots);
    var region := set x | x in ids && ReachedFrom(dict, tx.roots, x);
    forall a, b | a in region && Edge(dict, a, b)
      ensures b in region
    {
      var r :| r in tx.roots && Reaches(dict, r, a);
      ReachesStep(dict, r, a, b);
    }
    rank := AcyclicHasRank(dict, region);
    forall i | 0 <= i < |tx.roots|
      ensures tx.roots[i] in rank
    {
      ReachesSelf(dict, tx.roots[i]);
      assert tx.roots[i] in region;
    }
  }

  /**
   * The chains of nested calls are bounded exactly when the roots reach no cycle along the children that are encoded,
   * and exactly then there is a rank.
   */
  lemma TerminatesIffNoCycleReached(tx: DamlTransaction)
    ensures (exists n: nat :: CallsBounded(BuildDict(tx.nodes), tx.roots, n)) <==>
      NoCycleReached(BuildDict(tx.nodes), tx.roots)
    ensures (exists rank :: RankedFor(tx, rank)) <==> NoCycleReached(BuildDict(tx.nodes), tx.roots)
  {
    var dict := BuildDict(tx.nodes);
    if rank :| RankedFor(tx, rank) {
      var n := RankedBoundsCalls(tx, rank);
      BoundedReachesNoCycle(dict, tx.roots, n);
    }
    if n: nat :| CallsBounded(dict, tx.roots, n) {
      BoundedReachesNoCycle(dict, tx.roots, n);
    }
    if NoCycleReached(dict, tx.roots) {
      var rank := NoCycleHasRank(tx);
      var n := RankedBoundsCalls(tx, rank);
    }
  }

  /** An exercise that is its own child, but has no template id, is rejected without a second call. */
  lemma RejectedCycleTerminates(e: Exercise)
    requires e.templateId.None?
    ensures var tx := DamlTransaction([], ["0"], [NodeEntry("0", ExerciseNode(e, ["0"]))], []);
      NoCycleReached(BuildDict(tx.nodes), tx.roots)
  {
    var tx := DamlTransaction([], ["0"], [NodeEntry("0", ExerciseNode(e, ["0"]))], []);
    var dict := BuildDict(tx.nodes);
    assert tx.nodes[..0] == [];
    assert BuildDict(tx.nodes[..0]) == map[];
    assert dict["0"] == ExerciseNode(e, ["0"]) && dict.Keys == {"0"};
    assert Children(dict["0"]) == [];
    forall p
      ensures !Cycle(dict, p)
    {
      if |p| > 1 {
        assert !Edge(dict, p[0], p[0 + 1]);
      }
    }
  }

  ghost predicate ReachedSupported(tx: DamlTransaction) {
    forall x :: ReachedFrom(BuildDict(tx.nodes), tx.roots, x) ==> Supported(BuildDict(tx.nodes), tx.nodeSeeds, x)
  }

  predicate ContractsSupported(m: Metadata) {
    forall i :: 0 <= i < |m.inputContracts| ==>
      m.inputContracts[i].contract.Some? && CreateSupported(m.inputContracts[i].contract.value)
  }

  /** The whole computation succeeds exactly when every reached id and every input contract is supported. */
  lemma SucceedsIff(sha: Hash, p: PreparedTransaction, rank: map<NodeId, nat>)
    requires RankedPrepared(p, rank)
    ensures ComputePreparedTransaction(sha, p, rank).Some? <==>
      p.transaction.Some? && p.metadata.Some? && ReachedSupported(p.transaction.value)
        && ContractsSupported(p.metadata.value)
  {
    if p.transaction.Some? && p.metadata.Some? {
      var tx, m := p.transaction.value, p.metadata.value;
      RootsEncode(sha, tx, rank);
      MetadataEncodes(sha, m);
      FinalEncodes(DigestOf(sha, TransactionInput(sha, tx, rank)), DigestOf(sha, MetadataInput(sha, m)));
    }
  }

  /** Some well-formed prepared transaction is hashed: the empty one. */
  lemma EmptyTransactionIsHashed(sha: Hash) returns (p: PreparedTransaction)
    ensures WfPrepared(p) && RankedPrepared(p, map[]) && ComputePreparedTransaction(sha, p, map[]).Some?
  {
    var tx := DamlTransaction([], [], [], []);
    p := PreparedTransaction(Some(tx), Some(Metadata(None, [], 0, [], None, None, 0, [])));
    SucceedsIff(sha, p, map[]);
  }

  lemma FinalEncodes(t: Code, d: Code)
    ensures FinalInput(t, d).Some? <==> t.Some? && d.Some?
  {
    var parts := [Some(PREPARED_TRANSACTION_HASH_PURPOSE), Some([HASHING_SCHEME_VERSION]), t, d];
    JoinSome(parts);
    assert parts[2] == t && parts[3] == d;
  }

  lemma RootsEncode(sha: Hash, tx: DamlTransaction, rank: map<NodeId, nat>)
    requires RankedFor(tx, rank)
    ensures TransactionInput(sha, tx, rank).Some? <==> ReachedSupported(tx)
  {
    var dict := BuildDict(tx.nodes);
    var ds := NodeDigests(sha, dict, tx.nodeSeeds, tx.roots, rank);
    RepeatedSome(ds);
    JoinTwo(Some(EncodeBytes(tx.version)), EncodeRepeated(ds));
    JoinTwo(Some(PREPARED_TRANSACTION_HASH_PURPOSE), Join([Some(EncodeBytes(tx.version)), EncodeRepeated(ds)]));
    assert TransactionInput(sha, tx, rank).Some? <==> AllSome(ds);
    forall i | 0 <= i < |ds|
      ensures ds[i].Some? <==> forall x :: Reaches(dict, tx.roots[i], x) ==> Supported(dict, tx.nodeSeeds, x)
    {
      EncodesIffReachableSupported(sha, dict, tx.nodeSeeds, tx.roots[i], rank);
    }
    if AllSome(ds) {
      forall x | ReachedFrom(dict, tx.roots, x)
        ensures Supported(dict, tx.nodeSeeds, x)
      {
        var r :| r in tx.roots && Reaches(dict, r, x);
        var i :| 0 <= i < |tx.roots| && tx.roots[i] == r;
        assert ds[i].Some?;
      }
    }
    if ReachedSupported(tx) {
      forall i | 0 <= i < |ds|
        ensures ds[i].Some?
      {
        assert tx.roots[i] in tx.roots;
        assert forall x :: Reaches(dict, tx.roots[i], x) ==> ReachedFrom(dict, tx.roots, x);
      }
    }
  }

  lemma ContractCodesSome(sha: Hash, m: Metadata)
    ensures EncodeRepeated(InputContractCodes(sha, m.inputContracts)).Some? <==> ContractsSupported(m)
  {
    var codes := InputContractCodes(sha, m.inputContracts);
    forall i | 0 <= i < |codes|
      ensures codes[i].Some? <==>
        m.inputContracts[i].contract.Some? && CreateSupported(m.inputContracts[i].contract.value)
    {
      var ic := m.inputContracts[i];
      if ic.contract.Some? {
        CreateEncodes(ic.contract.value, None);
        JoinTwo(Some(EncodeInt64(ic.createdAt)), DigestOf(sha, EncodeCreateNode(ic.contract.value, None)));
      }
    }
    RepeatedSome(codes);
  }

  lemma MetadataEncodes(sha: Hash, m: Metadata)
    ensures MetadataInput(sha, m).Some? <==> ContractsSupported(m)
  {
    var ps, qs := MetadataHeader(m), MetadataTimes(sha, m);
    JoinTwo(Some(PREPARED_TRANSACTION_HASH_PURPOSE), Join(MetadataParts(sha, m)));
    JoinSome(ps + qs);
    StringsSome(SubmitterOf(m).actAs);
    TimeSome(m.minLedgerEffectiveTime);
    TimeSome(m.maxLedgerEffectiveTime);
    var codes := InputContractCodes(sha, m.inputContracts);
    ContractCodesSome(sha, m);
    assert (ps + qs)[9] == EncodeRepeated(codes);
    assert (ps + qs)[6] == EncodeOptionalTime(m.minLedgerEffectiveTime)
      && (ps + qs)[7] == EncodeOptionalTime(m.maxLedgerEffectiveTime);
    assert forall i :: 0 <= i < 9 ==> (ps + qs)[i].Some?;
  }

  lemma TimeSome(t: Option<int>)
    ensures EncodeOptionalTime(t).Some?
  {
    OptionalSome(match t case None => None case Some(n) => Some(Some(EncodeInt64(n))));
  }

  // ---------- what the result does not depend on ----------

  function RenameIds(ids: seq<NodeId>, f: NodeId -> NodeId): (r: seq<NodeId>)
  {
    seq(|ids|, i requires 0 <= i < |ids| => f(ids[i]))
  }

  function RenameNode(node: Node, f: NodeId -> NodeId): Node {
    match node
    case ExerciseNode(e, kids) => ExerciseNode(e, RenameIds(kids, f))
    case RollbackNode(kids) => RollbackNode(RenameIds(kids, f))
    case _ => node
  }

  /** What the first dictionary knows of x, the second knows of f(x). */
  ghost predicate Matches(dict: NodesDict, seeds: seq<NodeSeed>, dict': NodesDict, seeds': seq<NodeSeed>,
        f: NodeId -> NodeId, x: NodeId) {
    && (x in dict <==> f(x) in dict')
    && (x in dict ==> dict'[f(x)] == RenameNode(dict[x], f))
    && FindSeed(f(x), seeds') == FindSeed(x, seeds)
  }

  lemma {:induction false} MatchingCodes(
    sha: Hash, dict: NodesDict, seeds: seq<NodeSeed>, rank: map<NodeId, nat>,
    dict': NodesDict, seeds': seq<NodeSeed>, rank': map<NodeId, nat>, f: NodeId -> NodeId, id: NodeId)
    requires Ranked(dict, rank) && id in rank && Ranked(dict', rank') && f(id) in rank'
    requires forall x :: Reaches(dict, id, x) ==> Matches(dict, seeds, dict', seeds', f, x)
    ensures EncodeNodeId(sha, dict, seeds, id, rank) == EncodeNodeId(sha, dict', seeds', f(id), rank')
    decreases rank[id]
  {
    ReachesSelf(dict, id);
    assert Matches(dict, seeds, dict', seeds', f, id);
    if id in dict {
      var kids, kids' := Children(dict[id]), Children(dict'[f(id)]);
      assert kids' == RenameIds(kids, f);
      KidsRanked(dict, rank, id);
      KidsRanked(dict', rank', f(id));
      var ds := seq(|kids|, i requires 0 <= i < |kids| => EncodeNodeId(sha, dict, seeds, kids[i], rank));
      var ds' := seq(|kids'|, i requires 0 <= i < |kids'| => EncodeNodeId(sha, dict', seeds', kids'[i], rank'));
      forall i | 0 <= i < |kids|
        ensures ds[i] == ds'[i]
      {
        assert Edge(dict, id, kids[i]);
        forall x | Reaches(dict, kids[i], x)
          ensures Matches(dict, seeds, dict', seeds', f, x)
        {
          ReachesFromChild(dict, id, kids[i], x);
        }
        assert kids'[i] == f(kids[i]);
        MatchingCodes(sha, dict, seeds, rank, dict', seeds', rank', f, kids[i]);
      }
      assert ds == ds';
    }
  }

  /** Same version and metadata, roots renamed by f, and dictionaries that match wherever the roots lead. */
  ghost predicate MatchingTransactions(tx: DamlTransaction, tx': DamlTransaction, f: NodeId -> NodeId) {
    && tx.version == tx'.version && tx'.roots == RenameIds(tx.roots, f)
    && forall x :: ReachedFrom(BuildDict(tx.nodes), tx.roots, x) ==>
         Matches(BuildDict(tx.nodes), tx.nodeSeeds, BuildDict(tx'.nodes), tx'.nodeSeeds, f, x)
  }

  lemma MatchedEdge(tx: DamlTransaction, tx': DamlTransaction, f: NodeId -> NodeId, x: NodeId, b: NodeId)
        returns (y: NodeId)
    requires MatchingTransactions(tx, tx', f) && ReachedFrom(BuildDict(tx.nodes), tx.roots, x)
    requires Edge(BuildDict(tx'.nodes), f(x), b)
    ensures Edge(BuildDict(tx.nodes), x, y) && f(y) == b && ReachedFrom(BuildDict(tx.nodes), tx.roots, y)
  {
    var dict, dict' := BuildDict(tx.nodes), BuildDict(tx'.nodes);
    assert Matches(dict, tx.nodeSeeds, dict', tx'.nodeSeeds, f, x);
    var kids := Children(dict[x]);
    assert Children(dict'[f(x)]) == RenameIds(kids, f);
    var i :| 0 <= i < |kids| && RenameIds(kids, f)[i] == b;
    y := kids[i];
    assert Edge(dict, x, y);
    var r :| r in tx.roots && Reaches(dict, r, x);
    ReachesStep(dict, r, x, y);
  }

  /** The images of the reached ids keep their ranks. */
  lemma MatchingRank(tx: DamlTransaction, rank: map<NodeId, nat>, tx': DamlTransaction, f: NodeId -> NodeId)
        returns (rank': map<NodeId, nat>)
    requires RankedFor(tx, rank) && MatchingTransactions(tx, tx', f)
    requires forall x, y ::
      ReachedFrom(BuildDict(tx.nodes), tx.roots, x) && ReachedFrom(BuildDict(tx.nodes), tx.roots, y) && f(x) == f(y) ==>
      x == y
    ensures RankedFor(tx', rank')
  {
    var dict, dict' := BuildDict(tx.nodes), BuildDict(tx'.nodes);
    rank' := map x | x in rank && ReachedFrom(dict, tx.roots, x) :: f(x) := rank[x];
    forall a, b | a in rank' && Edge(dict', a, b)
      ensures b in rank' && rank'[b] < rank'[a]
    {
      var x :| x in rank && ReachedFrom(dict, tx.roots, x) && f(x) == a;
      var y := MatchedEdge(tx, tx', f, x, b);
      assert f(y) in rank';
    }
    forall i | 0 <= i < |tx'.roots|
      ensures tx'.roots[i] in rank'
    {
      ReachesSelf(dict, tx.roots[i]);
      assert ReachedFrom(dict, tx.roots, tx.roots[i]);
    }
  }

  lemma MatchingResult(sha: Hash, m: Option<Metadata>, tx: DamlTransaction, rank: map<NodeId, nat>,
        tx': DamlTransaction, rank': map<NodeId, nat>, f: NodeId -> NodeId)
    requires RankedFor(tx, rank) && RankedFor(tx', rank') && MatchingTransactions(tx, tx', f)
    ensures ComputePreparedTransaction(sha, PreparedTransaction(Some(tx), m), rank)
         == ComputePreparedTransaction(sha, PreparedTransaction(Some(tx'), m), rank')
  {
    var dict, dict' := BuildDict(tx.nodes), BuildDict(tx'.nodes);
    var ds := NodeDigests(sha, dict, tx.nodeSeeds, tx.roots, rank);
    var ds' := NodeDigests(sha, dict', tx'.nodeSeeds, tx'.roots, rank');
    forall i | 0 <= i < |ds|
      ensures ds[i] == ds'[i]
    {
      forall x | Reaches(dict, tx.roots[i], x)
        ensures Matches(dict, tx.nodeSeeds, dict', tx'.nodeSeeds, f, x)
      {
        assert tx.roots[i] in tx.roots;
        assert ReachedFrom(dict, tx.roots, x);
      }
      assert tx'.roots[i] == f(tx.roots[i]);
      MatchingCodes(sha, dict, tx.nodeSeeds, rank, dict', tx'.nodeSeeds, rank', f, tx.roots[i]);
    }
    assert ds == ds';
  }

  ghost predicate Agree(tx: DamlTransaction, tx': DamlTransaction) {
    && tx.version == tx'.version && tx.roots == tx'.roots
    && forall x :: ReachedFrom(BuildDict(tx.nodes), tx.roots, x) ==>
         && (x in BuildDict(tx.nodes) <==> x in BuildDict(tx'.nodes))
         && (x in BuildDict(tx.nodes) ==> BuildDict(tx.nodes)[x] == BuildDict(tx'.nodes)[x])
         && FindSeed(x, tx.nodeSeeds) == FindSeed(x, tx'.nodeSeeds)
  }

  /** Dictionaries and seeds that agree wherever the roots lead give the same result; ranks never matter. */
  lemma AgreeingResult(sha: Hash, m: Option<Metadata>, tx: DamlTransaction, rank: map<NodeId, nat>,
        tx': DamlTransaction, rank': map<NodeId, nat>)
    requires RankedFor(tx, rank) && RankedFor(tx', rank') && Agree(tx, tx')
    ensures ComputePreparedTransaction(sha, PreparedTransaction(Some(tx), m), rank)
         == ComputePreparedTransaction(sha, PreparedTransaction(Some(tx'), m), rank')
  {
    MatchingResult(sha, m, tx, rank, tx', rank', x => x);
  }

  // ---------- reordering ----------

  ghost predicate DistinctNodeIds(nodes: seq<NodeEntry>) {
    forall i, j :: 0 <= i < j < |nodes| ==> nodes[i].nodeId != nodes[j].nodeId
  }

  ghost predicate DistinctSeedIds(seeds: seq<NodeSeed>) {
    forall i, j :: 0 <= i < j < |seeds| ==> seeds[i].nodeId != seeds[j].nodeId
  }

  /** With distinct ids the dictionary holds exactly the listed nodes. */
  lemma {:induction false} DictHoldsEntries(nodes: seq<NodeEntry>, id: NodeId)
    requires DistinctNodeIds(nodes)
    ensures forall n :: (id in BuildDict(nodes) && BuildDict(nodes)[id] == n) <==> NodeEntry(id, n) in nodes
  {
    if nodes != [] {
      var k := |nodes| - 1;
      DictHoldsEntries(nodes[..k], id);
      assert nodes == nodes[..k] + [nodes[k]];
      assert forall i :: 0 <= i < k ==> nodes[..k][i].nodeId != nodes[k].nodeId;
    }
  }

  /** With distinct ids looking up a seed finds the one listed. */
  lemma {:induction false} SeedIsListed(seeds: seq<NodeSeed>, id: NodeId)
    requires DistinctSeedIds(seeds)
    ensures forall s :: FindSeed(id, seeds) == Some(s) <==> NodeSeed(id, s) in seeds
  {
    if seeds != [] {
      SeedIsListed(seeds[1..], id);
      assert seeds == [seeds[0]] + seeds[1..];
      assert forall i :: 0 <= i < |seeds[1..]| ==> seeds[1..][i].nodeId != seeds[0].nodeId;
    }
  }

  lemma PermutedDict(a: seq<NodeEntry>, b: seq<NodeEntry>)
    requires DistinctNodeIds(a) && Permutation(a, b)
    ensures BuildDict(a) == BuildDict(b)
  {
    PermutedKeysDistinct(a, b, (e: NodeEntry) => e.nodeId);
    forall id
      ensures id in BuildDict(a) <==> id in BuildDict(b)
      ensures id in BuildDict(a) ==> BuildDict(a)[id] == BuildDict(b)[id]
    {
      DictHoldsEntries(a, id);
      DictHoldsEntries(b, id);
      if id in BuildDict(a) {
        PermutedMember(a, b, NodeEntry(id, BuildDict(a)[id]));
      }
      if id in BuildDict(b) {
        PermutedMember(a, b, NodeEntry(id, BuildDict(b)[id]));
      }
    }
  }

  lemma PermutedSeed(a: seq<NodeSeed>, b: seq<NodeSeed>, id: NodeId)
    requires DistinctSeedIds(a) && Permutation(a, b)
    ensures FindSeed(id, a) == FindSeed(id, b)
  {
    PermutedKeysDistinct(a, b, (e: NodeSeed) => e.nodeId);
    SeedIsListed(a, id);
    SeedIsListed(b, id);
    if FindSeed(id, a).Some? {
      PermutedMember(a, b, NodeSeed(id, FindSeed(id, a).value));
    }
    if FindSeed(id, b).Some? {
      PermutedMember(a, b, NodeSeed(id, FindSeed(id, b).value));
    }
  }

  /** The order in which nodes and seeds are listed does not matter. */
  lemma ReorderingKeepsResult(sha: Hash, m: Option<Metadata>, tx: DamlTransaction, rank: map<NodeId, nat>,
        nodes: seq<NodeEntry>, seeds: seq<NodeSeed>)
    requires RankedFor(tx, rank)
    requires DistinctNodeIds(tx.nodes) && Permutation(tx.nodes, nodes)
    requires DistinctSeedIds(tx.nodeSeeds) && Permutation(tx.nodeSeeds, seeds)
    ensures RankedFor(tx.(nodes := nodes, nodeSeeds := seeds), rank)
    ensures ComputePreparedTransaction(sha, PreparedTransaction(Some(tx), m), rank)
         == ComputePreparedTransaction(sha, PreparedTransaction(Some(tx.(nodes := nodes, nodeSeeds := seeds)), m), rank)
  {
    PermutedDict(tx.nodes, nodes);
    forall id
      ensures FindSeed(id, tx.nodeSeeds) == FindSeed(id, seeds)
    {
      PermutedSeed(tx.nodeSeeds, seeds, id);
    }
    AgreeingResult(sha, m, tx, rank, tx.(nodes := nodes, nodeSeeds := seeds), rank);
  }

  // ---------- unreachable nodes ----------

  /** The entries of a list of nodes that the roots of tx lead to, in their order. */
  ghost function ReachedNodes(tx: DamlTransaction, nodes: seq<NodeEntry>): seq<NodeEntry> {
    if nodes == [] then []
    else
      var last, front := nodes[|nodes| - 1], ReachedNodes(tx, nodes[..|nodes| - 1]);
      if ReachedFrom(BuildDict(tx.nodes), tx.roots, last.nodeId) then front + [last] else front
  }

  ghost function ReachedSeeds(tx: DamlTransaction, seeds: seq<NodeSeed>): seq<NodeSeed> {
    if seeds == [] then []
    else if ReachedFrom(BuildDict(tx.nodes), tx.roots, seeds[0].nodeId) then [seeds[0]] + ReachedSeeds(tx, seeds[1..])
    else ReachedSeeds(tx, seeds[1..])
  }

  lemma {:induction false} DictOfReached(tx: DamlTransaction, nodes: seq<NodeEntry>, id: NodeId)
    requires ReachedFrom(BuildDict(tx.nodes), tx.roots, id)
    ensures id in BuildDict(nodes) <==> id in BuildDict(ReachedNodes(tx, nodes))
    ensures id in BuildDict(nodes) ==> BuildDict(nodes)[id] == BuildDict(ReachedNodes(tx, nodes))[id]
  {
    if nodes != [] {
      var last, front := nodes[|nodes| - 1], ReachedNodes(tx, nodes[..|nodes| - 1]);
      DictOfReached(tx, nodes[..|nodes| - 1], id);
      assert (front + [last])[..|front|] == front;
    }
  }

  lemma {:induction false} SeedOfReached(tx: DamlTransaction, seeds: seq<NodeSeed>, id: NodeId)
    requires ReachedFrom(BuildDict(tx.nodes), tx.roots, id)
    ensures FindSeed(id, seeds) == FindSeed(id, ReachedSeeds(tx, seeds))
  {
    if seeds != [] {
      SeedOfReached(tx, seeds[1..], id);
    }
  }

  /**
   * Nodes and seeds that no root leads to may be added or removed anywhere in the lists, even if they form cycles or
   * cannot be encoded: the other transaction is ranked too, and has the same result.
   */
  lemma UnreachableNodesKeepResult(sha: Hash, m: Option<Metadata>, tx: DamlTransaction, rank: map<NodeId, nat>,
        tx': DamlTransaction)
    requires RankedFor(tx, rank)
    requires tx.version == tx'.version && tx.roots == tx'.roots
    requires ReachedNodes(tx, tx.nodes) == ReachedNodes(tx, tx'.nodes)
    requires ReachedSeeds(tx, tx.nodeSeeds) == ReachedSeeds(tx, tx'.nodeSeeds)
    ensures exists rank' :: RankedFor(tx', rank')
    ensures forall rank' :: RankedFor(tx', rank') ==>
      ComputePreparedTransaction(sha, PreparedTransaction(Some(tx), m), rank)
      == ComputePreparedTransaction(sha, PreparedTransaction(Some(tx'), m), rank')
  {
    forall x | ReachedFrom(BuildDict(tx.nodes), tx.roots, x)
      ensures x in BuildDict(tx.nodes) <==> x in BuildDict(tx'.nodes)
      ensures x in BuildDict(tx.nodes) ==> BuildDict(tx.nodes)[x] == BuildDict(tx'.nodes)[x]
      ensures FindSeed(x, tx.nodeSeeds) == FindSeed(x, tx'.nodeSeeds)
    {
      DictOfReached(tx, tx.nodes, x);
      DictOfReached(tx, tx'.nodes, x);
      SeedOfReached(tx, tx.nodeSeeds, x);
      SeedOfReached(tx, tx'.nodeSeeds, x);
    }
    var rank' := MatchingRank(tx, rank, tx', x => x);
    forall r | RankedFor(tx', r)
      ensures ComputePreparedTransaction(sha, PreparedTransaction(Some(tx), m), rank)
           == ComputePreparedTransaction(sha, PreparedTransaction(Some(tx'), m), r)
    {
      MatchingResult(sha, m, tx, rank, tx', r, x => x);
    }
  }

  // ---------- renaming ----------

  ghost predicate InjectiveOn(f: NodeId -> NodeId, ids: set<NodeId>) {
    forall a, b :: a in ids && b in ids && f(a) == f(b) ==> a == b
  }

  function RenameNodes(nodes: seq<NodeEntry>, f: NodeId -> NodeId): (r: seq<NodeEntry>)
  {
    seq(|nodes|, i requires 0 <= i < |nodes| => NodeEntry(f(nodes[i].nodeId), RenameNode(nodes[i].node, f)))
  }

  function RenameSeeds(seeds: seq<NodeSeed>, f: NodeId -> NodeId): (r: seq<NodeSeed>)
  {
    seq(|seeds|, i requires 0 <= i < |seeds| => NodeSeed(f(seeds[i].nodeId), seeds[i].seed))
  }

  function RenameTransaction(tx: DamlTransaction, f: NodeId -> NodeId): DamlTransaction {
    DamlTransaction(tx.version, RenameIds(tx.roots, f), RenameNodes(tx.nodes, f), RenameSeeds(tx.nodeSeeds, f))
  }

  /** Every id the transaction mentions. */
  ghost function MentionedIds(tx: DamlTransaction): set<NodeId> {
    (set r | r in tx.roots)
    + (set i | 0 <= i < |tx.nodes| :: tx.nodes[i].nodeId)
    + (set i, b | 0 <= i < |tx.nodes| && b in Listed(tx.nodes[i].node) :: b)
    + (set i | 0 <= i < |tx.nodeSeeds| :: tx.nodeSeeds[i].nodeId)
  }

  lemma {:induction false} RenamedDict(nodes: seq<NodeEntry>, f: NodeId -> NodeId, ids: set<NodeId>, x: NodeId)
    requires InjectiveOn(f, ids) && x in ids && forall i :: 0 <= i < |nodes| ==> nodes[i].nodeId in ids
    ensures x in BuildDict(nodes) <==> f(x) in BuildDict(RenameNodes(nodes, f))
    ensures x in BuildDict(nodes) ==> BuildDict(RenameNodes(nodes, f))[f(x)] == RenameNode(BuildDict(nodes)[x], f)
  {
    if nodes != [] {
      var k := |nodes| - 1;
      RenamedDict(nodes[..k], f, ids, x);
      assert RenameNodes(nodes, f)[..k] == RenameNodes(nodes[..k], f);
      assert nodes[k].nodeId in ids;
    }
  }

  lemma {:induction false} RenamedSeed(seeds: seq<NodeSeed>, f: NodeId -> NodeId, ids: set<NodeId>, x: NodeId)
    requires InjectiveOn(f, ids) && x in ids && forall i :: 0 <= i < |seeds| ==> seeds[i].nodeId in ids
    ensures FindSeed(f(x), RenameSeeds(seeds, f)) == FindSeed(x, seeds)
  {
    if seeds != [] {
      RenamedSeed(seeds[1..], f, ids, x);
      assert RenameSeeds(seeds, f)[1..] == RenameSeeds(seeds[1..], f);
      assert seeds[0].nodeId in ids;
    }
  }

  lemma {:induction false} WalksStayMentioned(tx: DamlTransaction, p: seq<NodeId>)
    requires Walk(BuildDict(tx.nodes), p) && p[0] in MentionedIds(tx)
    ensures p[|p| - 1] in MentionedIds(tx)
  {
    if |p| > 1 {
      var a, b := p[|p| - 2], p[|p| - 1];
      assert Edge(BuildDict(tx.nodes), a, b);
      var entry := DictEntry(tx.nodes, a);
      assert b in Listed(tx.nodes[entry].node);
    }
  }

  /**
   * Renaming ids consistently, without making two mentioned ids the same, keeps the transaction ranked and its result.
   */
  lemma RenamingKeepsResult(sha: Hash, m: Option<Metadata>, tx: DamlTransaction, rank: map<NodeId, nat>,
        f: NodeId -> NodeId)
    requires InjectiveOn(f, MentionedIds(tx)) && RankedFor(tx, rank)
    ensures exists rank' :: RankedFor(RenameTransaction(tx, f), rank')
    ensures forall rank' :: RankedFor(RenameTransaction(tx, f), rank') ==>
      ComputePreparedTransaction(sha, PreparedTransaction(Some(tx), m), rank)
      == ComputePreparedTransaction(sha, PreparedTransaction(Some(RenameTransaction(tx, f)), m), rank')
  {
    var dict, tx' := BuildDict(tx.nodes), RenameTransaction(tx, f);
    forall x | ReachedFrom(dict, tx.roots, x)
      ensures x in MentionedIds(tx) && Matches(dict, tx.nodeSeeds, BuildDict(tx'.nodes), tx'.nodeSeeds, f, x)
    {
      var r :| r in tx.roots && Reaches(dict, r, x);
      var p :| Walk(dict, p) && p[0] == r && p[|p| - 1] == x;
      WalksStayMentioned(tx, p);
      RenamedDict(tx.nodes, f, MentionedIds(tx), x);
      RenamedSeed(tx.nodeSeeds, f, MentionedIds(tx), x);
    }
    var rank' := MatchingRank(tx, rank, tx', f);
    forall r | RankedFor(tx', r)
      ensures ComputePreparedTransaction(sha, PreparedTransaction(Some(tx), m), rank)
           == ComputePreparedTransaction(sha, PreparedTransaction(Some(tx'), m), r)
    {
      MatchingResult(sha, m, tx, rank, tx', r, f);
    }
  }
}
