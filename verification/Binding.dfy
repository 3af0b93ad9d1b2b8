/** Equal digests bind the whole transaction, or exhibit a collision of the hash between the two runs. */
module Binding {
  import opened Wrappers
  import opened ByteStrings
  import opened Values
  import opened Nodes
  import opened NodeGraphs
  import opened Transactions
  import opened Reading
  import opened NodeReading
  import opened TransactionReading

  /** Two different byte strings, one hashed in each run, with the same digest. */
  ghost predicate Collide(sha: Hash, a: set<Bytes>, b: set<Bytes>) {
    exists x, y :: x in a && y in b && x != y && sha(x) == sha(y)
  }

  function Inputs(code: Code): set<Bytes> {
    match code
    case None => {}
    case Some(bytes) => {bytes}
  }

  /** The byte strings hashed for this node and everything below it. */
  ghost function TreeInputs(sha: Hash, t: Tree): set<Bytes>
    decreases t
  {
    Inputs(EncodeTree(sha, t)) + match t
      case ExerciseTree(_, _, ts) => ForestInputs(sha, ts)
      case RollbackTree(ts) => ForestInputs(sha, ts)
      case _ => {}
  }

  ghost function ForestInputs(sha: Hash, ts: seq<Tree>): set<Bytes>
    decreases ts
  {
    set i, x | 0 <= i < |ts| && x in TreeInputs(sha, ts[i]) :: x
  }

  /** Equal encodings come from equal nodes with equal child digests. */
  lemma SameNode(sha: Hash, t: Tree, u: Tree)
    requires WfTree(t) && WfTree(u)
    requires EncodeTree(sha, t).Some? && EncodeTree(sha, t) == EncodeTree(sha, u)
    ensures match t
      case CreateTree(_, _) => t == u
      case FetchTree(_) => t == u
      case ExerciseTree(e, seed, ts) =>
        && u.ExerciseTree? && e == u.exercise && seed == u.seed
        && ChildDigests(sha, ts) == ChildDigests(sha, u.children) && AllSome(ChildDigests(sha, ts))
      case RollbackTree(ts) =>
        u.RollbackTree? && ChildDigests(sha, ts) == ChildDigests(sha, u.children) && AllSome(ChildDigests(sha, ts))
  {
    SameEncoding(sha, t, u);
    if t.ExerciseTree? || t.RollbackTree? {
      EncodedChildren(sha, t);
      EncodedChildren(sha, u);
      SameDigests(sha, t.children, u.children);
    }
  }

  lemma EncodedChildren(sha: Hash, t: Tree)
    requires (t.ExerciseTree? || t.RollbackTree?) && EncodeTree(sha, t).Some?
    ensures AllSome(ChildDigests(sha, t.children)) && AllEncode(sha, t.children)
    ensures match ShapeOf(sha, t)
      case ExerciseShape(_, _, digests) => digests == HashesOf(sha, t.children)
      case RollbackShape(digests) => digests == HashesOf(sha, t.children)
      case _ => true
  {
    if t.ExerciseTree? {
      ExerciseEncodes(t.exercise, t.seed, ChildDigests(sha, t.children));
    } else {
      RollbackEncodes(ChildDigests(sha, t.children));
    }
    HashesAreContents(sha, t.children);
  }

  lemma SameDigests(sha: Hash, ts: seq<Tree>, us: seq<Tree>)
    requires AllSome(ChildDigests(sha, ts)) && AllSome(ChildDigests(sha, us))
    requires AllEncode(sha, ts) && AllEncode(sha, us) && HashesOf(sha, ts) == HashesOf(sha, us)
    ensures ChildDigests(sha, ts) == ChildDigests(sha, us)
  {
    HashesAreContents(sha, ts);
    HashesAreContents(sha, us);
    SameContents(ChildDigests(sha, ts), ChildDigests(sha, us));
  }

  lemma SameContents(ds: seq<Code>, es: seq<Code>)
    requires AllSome(ds) && AllSome(es) && Contents(ds) == Contents(es)
    ensures ds == es
  {
    assert |ds| == |Contents(ds)| == |es|;
    forall i | 0 <= i < |ds|
      ensures ds[i] == es[i]
    {
      assert ds[i].value == Contents(ds)[i] == Contents(es)[i] == es[i].value;
    }
  }

  /** Trees with the same digest are equal, or their runs collide. */
  lemma {:induction false} TreeBinding(sha: Hash, t: Tree, u: Tree)
    requires WfTree(t) && WfTree(u)
    requires DigestOf(sha, EncodeTree(sha, t)).Some?
    requires DigestOf(sha, EncodeTree(sha, t)) == DigestOf(sha, EncodeTree(sha, u))
    ensures t == u || Collide(sha, TreeInputs(sha, t), TreeInputs(sha, u))
    decreases t
  {
    var a, b := EncodeTree(sha, t).value, EncodeTree(sha, u).value;
    if a != b {
      assert a in TreeInputs(sha, t) && b in TreeInputs(sha, u);
    } else {
      SameNode(sha, t, u);
      if t.ExerciseTree? || t.RollbackTree? {
        ForestBinding(sha, t.children, u.children);
      }
    }
  }

  lemma {:induction false} ForestBinding(sha: Hash, ts: seq<Tree>, us: seq<Tree>)
    requires (forall i :: 0 <= i < |ts| ==> WfTree(ts[i])) && (forall i :: 0 <= i < |us| ==> WfTree(us[i]))
    requires AllSome(ChildDigests(sha, ts)) && ChildDigests(sha, ts) == ChildDigests(sha, us)
    ensures ts == us || Collide(sha, ForestInputs(sha, ts), ForestInputs(sha, us))
    decreases ts
  {
    assert |ts| == |us|;
    forall i | 0 <= i < |ts|
      ensures ts[i] == us[i] || Collide(sha, ForestInputs(sha, ts), ForestInputs(sha, us))
    {
      assert ChildDigests(sha, ts)[i] == ChildDigests(sha, us)[i];
      TreeBinding(sha, ts[i], us[i]);
      if Collide(sha, TreeInputs(sha, ts[i]), TreeInputs(sha, us[i])) {
        assert TreeInputs(sha, ts[i]) <= ForestInputs(sha, ts);
        assert TreeInputs(sha, us[i]) <= ForestInputs(sha, us);
      }
    }
  }

  // ---------- metadata ----------

  function ContractInputs(ics: seq<InputContract>): set<Bytes> {
    set i | 0 <= i < |ics| && ics[i].contract.Some? && EncodeCreateNode(ics[i].contract.value, None).Some?
      :: EncodeCreateNode(ics[i].contract.value, None).value
  }

  /** Input contracts with the same times and digests are equal, or their encodings collide. */
  lemma ContractsBinding(sha: Hash, a: seq<InputContract>, b: seq<InputContract>)
    requires (forall i :: 0 <= i < |a| ==> WfInputContract(a[i]))
    requires (forall i :: 0 <= i < |b| ==> WfInputContract(b[i]))
    requires ContractsEncode(sha, a) && ContractsEncode(sha, b) && ContractShapes(sha, a) == ContractShapes(sha, b)
    ensures a == b || Collide(sha, ContractInputs(a), ContractInputs(b))
  {
    assert |a| == |ContractShapes(sha, a)| == |b|;
    forall i | 0 <= i < |a|
      ensures a[i] == b[i] || Collide(sha, ContractInputs(a), ContractInputs(b))
    {
      assert ContractShapeOf(sha, a[i]) == ContractShapes(sha, a)[i] == ContractShapes(sha, b)[i];
      JoinTwo(Some(EncodeInt64(a[i].createdAt)), DigestOf(sha, EncodeCreateNode(a[i].contract.value, None)));
      JoinTwo(Some(EncodeInt64(b[i].createdAt)), DigestOf(sha, EncodeCreateNode(b[i].contract.value, None)));
      var c, d := EncodeCreateNode(a[i].contract.value, None), EncodeCreateNode(b[i].contract.value, None);
      if c == d {
        SameEncoding(sha, CreateTree(a[i].contract.value, None), CreateTree(b[i].contract.value, None));
      } else {
        assert c.value in ContractInputs(a) && d.value in ContractInputs(b);
      }
    }
  }

  /** Equal metadata inputs come from equal metadata, up to a collision of input contracts. */
  lemma MetadataBinding(sha: Hash, m: Metadata, n: Metadata)
    requires WfMetadata(m) && WfMetadata(n)
    requires MetadataInput(sha, m).Some? && MetadataInput(sha, m) == MetadataInput(sha, n)
    ensures Normal(m) == Normal(n) || Collide(sha, ContractInputs(m.inputContracts), ContractInputs(n.inputContracts))
  {
    MetadataReads(sha, m);
    MetadataReads(sha, n);
    var code := MetadataInput(sha, m).value;
    ReadOneWay(ReadMetadata, code, (Normal(m).(inputContracts := []), ContractShapes(sha, m.inputContracts)), [],
      code, (Normal(n).(inputContracts := []), ContractShapes(sha, n.inputContracts)), []);
    ContractsBinding(sha, m.inputContracts, n.inputContracts);
    assert Normal(m) == Normal(m).(inputContracts := []).(inputContracts := m.inputContracts);
  }

  // ---------- prepared transactions ----------

  ghost predicate WfNode(node: Node) {
    match node
    case CreateNode(c) => WfCreate(c)
    case ExerciseNode(e, kids) => WfExercise(e) && Short(kids)
    case FetchNode(f) => WfFetch(f)
    case RollbackNode(kids) => Short(kids)
    case UnsupportedNode => true
  }

  ghost predicate WfTransaction(tx: DamlTransaction) {
    && Short(tx.version) && Short(tx.roots)
    && (forall i :: 0 <= i < |tx.nodes| ==> WfNode(tx.nodes[i].node))
    && forall i :: 0 <= i < |tx.nodeSeeds| ==> WfSeed(tx.nodeSeeds[i].seed)
  }

  ghost predicate WfPrepared(p: PreparedTransaction) {
    (p.transaction.Some? ==> WfTransaction(p.transaction.value)) && (p.metadata.Some? ==> WfMetadata(p.metadata.value))
  }

  lemma {:induction false} UnfoldingIsWf(tx: DamlTransaction, id: NodeId, t: Tree)
    requires WfTransaction(tx) && Unfolds(BuildDict(tx.nodes), tx.nodeSeeds, id, t)
    ensures WfTree(t)
    decreases t
  {
    var dict := BuildDict(tx.nodes);
    var entry := DictEntry(tx.nodes, id);
    assert WfNode(dict[id]);
    FirstSeed(id, tx.nodeSeeds);
    if t.ExerciseTree? || t.RollbackTree? {
      forall i | 0 <= i < |t.children|
        ensures WfTree(t.children[i])
      {
        UnfoldingIsWf(tx, Listed(dict[id])[i], t.children[i]);
      }
    }
  }

  ghost predicate ReachedFrom(dict: NodesDict, roots: seq<NodeId>, id: NodeId) {
    exists r :: r in roots && Reaches(dict, r, id)
  }

  ghost predicate HashesNode(sha: Hash, tx: DamlTransaction, rank: map<NodeId, nat>, x: Bytes)
    requires RankedFor(tx, rank)
  {
    var dict := BuildDict(tx.nodes);
    exists id :: ReachedFrom(dict, tx.roots, id) && id in rank && id in dict
      && EncodeNode(sha, dict, tx.nodeSeeds, id, rank) == Some(x)
  }

  /** x is one of the byte strings hashed when p is hashed. */
  ghost predicate Hashes(sha: Hash, p: PreparedTransaction, rank: map<NodeId, nat>, x: Bytes)
    requires RankedPrepared(p, rank)
  {
    || EncodePreparedTransaction(sha, p, rank) == Some(x)
    || (p.transaction.Some?
      && (TransactionInput(sha, p.transaction.value, rank) == Some(x) || HashesNode(sha, p.transaction.value, rank, x)))
    || (p.metadata.Some?
      && (MetadataInput(sha, p.metadata.value) == Some(x) || x in ContractInputs(p.metadata.value.inputContracts)))
  }

  lemma {:induction false} TreeInputsAreHashed(sha: Hash, tx: DamlTransaction, rank: map<NodeId, nat>, id: NodeId,
        t: Tree, x: Bytes)
    requires RankedFor(tx, rank)
    requires ReachedFrom(BuildDict(tx.nodes), tx.roots, id) && id in rank
    requires Unfolds(BuildDict(tx.nodes), tx.nodeSeeds, id, t)
    requires EncodeTree(sha, t).Some? && x in TreeInputs(sha, t)
    ensures HashesNode(sha, tx, rank, x)
    decreases t
  {
    var dict := BuildDict(tx.nodes);
    if EncodeTree(sha, t) == Some(x) {
      DictEncodesTree(sha, dict, tx.nodeSeeds, id, rank, t);
    } else {
      var ts := t.children;
      var i :| 0 <= i < |ts| && x in TreeInputs(sha, ts[i]);
      var kid := Listed(dict[id])[i];
      ChildrenEncode(sha, t, i);
      assert Edge(dict, id, kid);
      var r :| r in tx.roots && Reaches(dict, r, id);
      ReachesStep(dict, r, id, kid);
      TreeInputsAreHashed(sha, tx, rank, kid, ts[i], x);
    }
  }

  /** A node that encodes has children that encode, and if it is an exercise nothing else in it is rejected. */
  lemma ChildrenEncode(sha: Hash, t: Tree, i: nat)
    requires (t.ExerciseTree? || t.RollbackTree?) && i < |t.children| && EncodeTree(sha, t).Some?
    ensures EncodeTree(sha, t.children[i]).Some? && (t.ExerciseTree? ==> ExerciseSupported(t.exercise))
  {
    var ds := ChildDigests(sha, t.children);
    if t.ExerciseTree? {
      ExerciseEncodes(t.exercise, t.seed, ds);
    } else {
      RollbackEncodes(ds);
    }
    assert ds[i].Some?;
  }

  lemma ReachesStep(dict: NodesDict, a: NodeId, b: NodeId, c: NodeId)
    requires Reaches(dict, a, b) && Edge(dict, b, c)
    ensures Reaches(dict, a, c)
  {
    var p :| Walk(dict, p) && p[0] == a && p[|p| - 1] == b;
    var q := p + [c];
    forall i | 0 <= i < |q| - 1
      ensures Edge(dict, q[i], q[i + 1])
    {
      if i < |p| - 1 {
        assert Edge(dict, p[i], p[i + 1]);
      }
    }
    assert Walk(dict, q);
  }

  lemma ForestInputsAreHashed(sha: Hash, tx: DamlTransaction, rank: map<NodeId, nat>, ts: seq<Tree>, x: Bytes)
    requires RankedFor(tx, rank)
    requires UnfoldsAll(BuildDict(tx.nodes), tx.nodeSeeds, tx.roots, ts) && AllSome(ChildDigests(sha, ts))
    requires x in ForestInputs(sha, ts)
    ensures HashesNode(sha, tx, rank, x)
  {
    var i :| 0 <= i < |ts| && x in TreeInputs(sha, ts[i]);
    ReachesSelf(BuildDict(tx.nodes), tx.roots[i]);
    assert ChildDigests(sha, ts)[i].Some?;
    TreeInputsAreHashed(sha, tx, rank, tx.roots[i], ts[i], x);
  }

  /** The same version and the same trees under the roots. */
  ghost predicate SameTrees(tx: DamlTransaction, ux: DamlTransaction) {
    && tx.version == ux.version
    && exists ts ::
      UnfoldsAll(BuildDict(tx.nodes), tx.nodeSeeds, tx.roots, ts)
      && UnfoldsAll(BuildDict(ux.nodes), ux.nodeSeeds, ux.roots, ts)
  }

  /** Everything that is meant to be signed is the same. */
  ghost predicate SameContent(p: PreparedTransaction, q: PreparedTransaction) {
    && p.transaction.Some? && q.transaction.Some? && SameTrees(p.transaction.value, q.transaction.value)
    && p.metadata.Some? && q.metadata.Some? && Normal(p.metadata.value) == Normal(q.metadata.value)
  }

  ghost predicate RunsCollide(sha: Hash, p: PreparedTransaction, rank: map<NodeId, nat>, q: PreparedTransaction,
        rank': map<NodeId, nat>)
    requires RankedPrepared(p, rank) && RankedPrepared(q, rank')
  {
    exists x, y :: Hashes(sha, p, rank, x) && Hashes(sha, q, rank', y) && x != y && sha(x) == sha(y)
  }

  lemma RootsBinding(sha: Hash, tx: DamlTransaction, rank: map<NodeId, nat>, ux: DamlTransaction,
        rank': map<NodeId, nat>)
    requires WfTransaction(tx) && WfTransaction(ux) && RankedFor(tx, rank) && RankedFor(ux, rank')
    requires TransactionInput(sha, tx, rank).Some?
    requires TransactionInput(sha, tx, rank) == TransactionInput(sha, ux, rank')
    ensures SameTrees(tx, ux)
      || exists x, y :: HashesNode(sha, tx, rank, x) && HashesNode(sha, ux, rank', y) && x != y && sha(x) == sha(y)
  {
    var ds := NodeDigests(sha, BuildDict(tx.nodes), tx.nodeSeeds, tx.roots, rank);
    var es := NodeDigests(sha, BuildDict(ux.nodes), ux.nodeSeeds, ux.roots, rank');
    RootsDecodable(tx.version, ds, ux.version, es);
    var ts := UnfoldRoots(sha, tx, rank);
    var us := UnfoldRoots(sha, ux, rank');
    ForestBinding(sha, ts, us);
    if ts != us {
      var x, y :| x in ForestInputs(sha, ts) && y in ForestInputs(sha, us) && x != y && sha(x) == sha(y);
      ForestInputsAreHashed(sha, tx, rank, ts, x);
      ForestInputsAreHashed(sha, ux, rank', us, y);
    }
  }

  lemma UnfoldRoots(sha: Hash, tx: DamlTransaction, rank: map<NodeId, nat>) returns (ts: seq<Tree>)
    requires WfTransaction(tx) && RankedFor(tx, rank)
    requires AllSome(NodeDigests(sha, BuildDict(tx.nodes), tx.nodeSeeds, tx.roots, rank))
    ensures UnfoldsAll(BuildDict(tx.nodes), tx.nodeSeeds, tx.roots, ts)
    ensures forall i :: 0 <= i < |ts| ==> WfTree(ts[i])
    ensures NodeDigests(sha, BuildDict(tx.nodes), tx.nodeSeeds, tx.roots, rank) == ChildDigests(sha, ts)
  {
    var dict := BuildDict(tx.nodes);
    forall i | 0 <= i < |tx.roots|
      ensures EncodeNodeId(sha, dict, tx.nodeSeeds, tx.roots[i], rank).Some?
    {
      assert NodeDigests(sha, dict, tx.nodeSeeds, tx.roots, rank)[i].Some?;
    }
    var bound := RankBound(tx.roots, rank);
    ts := EncodedUnfoldAll(sha, dict, tx.nodeSeeds, tx.roots, rank, bound);
    forall i | 0 <= i < |ts|
      ensures WfTree(ts[i])
    {
      UnfoldingIsWf(tx, tx.roots[i], ts[i]);
    }
    DictEncodesTrees(sha, dict, tx.nodeSeeds, tx.roots, rank, ts);
  }

  lemma {:induction false} RankBound(ids: seq<NodeId>, rank: map<NodeId, nat>) returns (bound: nat)
    requires forall i :: 0 <= i < |ids| ==> ids[i] in rank
    ensures forall i :: 0 <= i < |ids| ==> rank[ids[i]] < bound
  {
    bound := 0;
    for k := 0 to |ids|
      invariant forall i :: 0 <= i < k ==> rank[ids[i]] < bound
    {
      bound := if rank[ids[k]] < bound then bound else rank[ids[k]] + 1;
    }
  }

  lemma RootsDecodable(v: Utf8, ds: seq<Code>, w: Utf8, es: seq<Code>)
    requires Short(v) && Short(w) && Short(ds) && Short(es) && AllDigests(ds) && AllDigests(es)
    requires RootsInput(v, ds).Some? && RootsInput(v, ds) == RootsInput(w, es)
    ensures v == w && ds == es && AllSome(ds)
  {
    TransactionReads(v, ds);
    TransactionReads(w, es);
    var code := RootsInput(v, ds).value;
    ReadOneWay(ReadTransaction, code, (v, Contents(ds)), [], code, (w, Contents(es)), []);
    SameContents(ds, es);
  }

  lemma FinalDecodable(t: Code, m: Code, t': Code, m': Code)
    requires AllDigests([t, m]) && AllDigests([t', m'])
    requires FinalInput(t, m).Some? && FinalInput(t, m) == FinalInput(t', m')
    ensures t.Some? && m.Some? && t == t' && m == m'
  {
    FinalReads(t, m);
    FinalReads(t', m');
    var code := FinalInput(t, m).value;
    ReadOneWay(ReadFinal, code, (t.value, m.value), [], code, (t'.value, m'.value), []);
  }

  lemma HashedPairCollides(
    sha: Hash, p: PreparedTransaction, rank: map<NodeId, nat>, q: PreparedTransaction, rank': map<NodeId, nat>,
      x: Bytes, y: Bytes)
    requires RankedPrepared(p, rank) && RankedPrepared(q, rank')
    requires Hashes(sha, p, rank, x) && Hashes(sha, q, rank', y) && x != y && sha(x) == sha(y)
    ensures RunsCollide(sha, p, rank, q, rank')
  {
  }

  lemma TransactionBinding(sha: Hash, p: PreparedTransaction, rank: map<NodeId, nat>, q: PreparedTransaction,
        rank': map<NodeId, nat>)
    requires WfPrepared(p) && WfPrepared(q) && RankedPrepared(p, rank) && RankedPrepared(q, rank')
    requires p.transaction.Some? && q.transaction.Some?
    requires DigestOf(sha, TransactionInput(sha, p.transaction.value, rank)).Some?
    requires DigestOf(sha, TransactionInput(sha, p.transaction.value, rank))
      == DigestOf(sha, TransactionInput(sha, q.transaction.value, rank'))
    ensures SameTrees(p.transaction.value, q.transaction.value) || RunsCollide(sha, p, rank, q, rank')
  {
    var tx, ux := p.transaction.value, q.transaction.value;
    var t, t' := TransactionInput(sha, tx, rank), TransactionInput(sha, ux, rank');
    if t != t' {
      HashedPairCollides(sha, p, rank, q, rank', t.value, t'.value);
    } else {
      RootsBinding(sha, tx, rank, ux, rank');
      if !SameTrees(tx, ux) {
        var x, y :| HashesNode(sha, tx, rank, x) && HashesNode(sha, ux, rank', y) && x != y && sha(x) == sha(y);
        HashedPairCollides(sha, p, rank, q, rank', x, y);
      }
    }
  }

  lemma MetadataRunBinding(sha: Hash, p: PreparedTransaction, rank: map<NodeId, nat>, q: PreparedTransaction,
        rank': map<NodeId, nat>)
    requires WfPrepared(p) && WfPrepared(q) && RankedPrepared(p, rank) && RankedPrepared(q, rank')
    requires p.metadata.Some? && q.metadata.Some?
    requires DigestOf(sha, MetadataInput(sha, p.metadata.value)).Some?
    requires DigestOf(sha, MetadataInput(sha, p.metadata.value)) == DigestOf(sha, MetadataInput(sha, q.metadata.value))
    ensures Normal(p.metadata.value) == Normal(q.metadata.value) || RunsCollide(sha, p, rank, q, rank')
  {
    var m, n := p.metadata.value, q.metadata.value;
    var d, d' := MetadataInput(sha, m), MetadataInput(sha, n);
    if d != d' {
      HashedPairCollides(sha, p, rank, q, rank', d.value, d'.value);
    } else {
      MetadataBinding(sha, m, n);
      if Normal(m) != Normal(n) {
        var x, y :| x in ContractInputs(m.inputContracts) && y in ContractInputs(n.inputContracts) && x != y
          && sha(x) == sha(y);
        HashedPairCollides(sha, p, rank, q, rank', x, y);
      }
    }
  }

  /** Prepared transactions with the same digest have the same content, or the two runs collide. */
  lemma EqualDigestsBind(sha: Hash, p: PreparedTransaction, rank: map<NodeId, nat>, q: PreparedTransaction,
        rank': map<NodeId, nat>)
    requires WfPrepared(p) && WfPrepared(q) && RankedPrepared(p, rank) && RankedPrepared(q, rank')
    requires ComputePreparedTransaction(sha, p, rank).Some?
    requires ComputePreparedTransaction(sha, p, rank) == ComputePreparedTransaction(sha, q, rank')
    ensures SameContent(p, q) || RunsCollide(sha, p, rank, q, rank')
  {
    var a, b := EncodePreparedTransaction(sha, p, rank), EncodePreparedTransaction(sha, q, rank');
    if a != b {
      HashedPairCollides(sha, p, rank, q, rank', a.value, b.value);
    } else {
      FinalDecodable(
        DigestOf(sha, TransactionInput(sha, p.transaction.value, rank)),
          DigestOf(sha, MetadataInput(sha, p.metadata.value)),
        DigestOf(sha, TransactionInput(sha, q.transaction.value, rank')),
          DigestOf(sha, MetadataInput(sha, q.metadata.value)));
      TransactionBinding(sha, p, rank, q, rank');
      MetadataRunBinding(sha, p, rank, q, rank');
    }
  }

  /** The same content always gives the same digest. */
  lemma SameContentSameDigest(sha: Hash, p: PreparedTransaction, rank: map<NodeId, nat>, q: PreparedTransaction,
        rank': map<NodeId, nat>)
    requires RankedPrepared(p, rank) && RankedPrepared(q, rank')
    requires SameContent(p, q)
    ensures ComputePreparedTransaction(sha, p, rank) == ComputePreparedTransaction(sha, q, rank')
  {
    var tx, ux := p.transaction.value, q.transaction.value;
    var ts :| UnfoldsAll(BuildDict(tx.nodes), tx.nodeSeeds, tx.roots, ts)
      && UnfoldsAll(BuildDict(ux.nodes), ux.nodeSeeds, ux.roots, ts);
    DictEncodesTrees(sha, BuildDict(tx.nodes), tx.nodeSeeds, tx.roots, rank, ts);
    DictEncodesTrees(sha, BuildDict(ux.nodes), ux.nodeSeeds, ux.roots, rank', ts);
    assert MetadataInput(sha, p.metadata.value) == MetadataInput(sha, Normal(p.metadata.value));
    assert MetadataInput(sha, q.metadata.value) == MetadataInput(sha, Normal(q.metadata.value));
  }
}
