/** The dictionary of transaction nodes as a graph: walks, cycles, ranks and look-up of nodes and seeds by id. */
module NodeGraphs {
  import opened Wrappers
  import opened ByteStrings
  import opened Nodes
  import opened Sequences

  type NodeId = string

  /** UnsupportedNode: an unknown version or an unknown kind of node. */
  datatype Node =
    | CreateNode(create: Create)
    | ExerciseNode(exercise: Exercise, children: seq<NodeId>)
    | FetchNode(fetch: Fetch)
    | RollbackNode(children: seq<NodeId>)
    | UnsupportedNode

  datatype NodeEntry = NodeEntry(nodeId: NodeId, node: Node)

  /** The id is the decimal text of the seed's node number. */
  datatype NodeSeed = NodeSeed(nodeId: NodeId, seed: Bytes)

  type NodesDict = map<NodeId, Node>

  /** A later entry with the same id replaces an earlier one. */
  function BuildDict(nodes: seq<NodeEntry>): NodesDict {
    if nodes == [] then map[]
    else
      var last := nodes[|nodes| - 1];
      BuildDict(nodes[..|nodes| - 1])[last.nodeId := last.node]
  }

  method CreateNodesDict(nodes: seq<NodeEntry>) returns (dict: NodesDict)
    ensures dict == BuildDict(nodes)
  {
    dict := map[];
    for i := 0 to |nodes|
      invariant dict == BuildDict(nodes[..i])
    {
      assert nodes[..i + 1][..i] == nodes[..i];
      dict := dict[nodes[i].nodeId := nodes[i].node];
    }
    assert nodes[..|nodes|] == nodes;
  }

  /** The dictionary knows exactly the ids of the list. */
  lemma {:induction false} DictKeys(nodes: seq<NodeEntry>, id: NodeId)
    ensures id in BuildDict(nodes) <==> exists i :: 0 <= i < |nodes| && nodes[i].nodeId == id
  {
    if nodes != [] {
      var n := |nodes| - 1;
      DictKeys(nodes[..n], id);
      assert forall i :: 0 <= i < n ==> nodes[..n][i] == nodes[i];
    }
  }

  /** An id stands for the node of its last entry. */
  lemma {:induction false} DictEntry(nodes: seq<NodeEntry>, id: NodeId) returns (i: nat)
    requires id in BuildDict(nodes)
    ensures i < |nodes| && nodes[i] == NodeEntry(id, BuildDict(nodes)[id])
    ensures forall j :: i < j < |nodes| ==> nodes[j].nodeId != id
  {
    var n := |nodes| - 1;
    if nodes[n].nodeId == id {
      i := n;
    } else {
      i := DictEntry(nodes[..n], id);
      assert forall j :: 0 <= j < n ==> nodes[..n][j] == nodes[j];
    }
  }

  /** The first seed with this id. */
  function FindSeed(id: NodeId, seeds: seq<NodeSeed>): Option<Bytes> {
    if seeds == [] then None
    else if seeds[0].nodeId == id then Some(seeds[0].seed)
    else FindSeed(id, seeds[1..])
  }

  lemma {:induction false} FirstSeed(id: NodeId, seeds: seq<NodeSeed>)
    ensures FindSeed(id, seeds).None? <==> forall i :: 0 <= i < |seeds| ==> seeds[i].nodeId != id
    ensures FindSeed(id, seeds).Some? ==>
      exists i :: 0 <= i < |seeds| && seeds[i] == NodeSeed(id, FindSeed(id, seeds).value)
        && forall j :: 0 <= j < i ==> seeds[j].nodeId != id
  {
    if seeds != [] {
      FirstSeed(id, seeds[1..]);
      if seeds[0].nodeId == id {
        assert seeds[0] == NodeSeed(id, FindSeed(id, seeds).value);
      } else {
        assert forall i :: 0 <= i < |seeds[1..]| ==> seeds[1..][i] == seeds[i + 1];
        if FindSeed(id, seeds).Some? {
          var i :| 0 <= i < |seeds[1..]| && seeds[1..][i] == NodeSeed(id, FindSeed(id, seeds[1..]).value)
            && forall j :: 0 <= j < i ==> seeds[1..][j].nodeId != id;
          assert seeds[i + 1] == NodeSeed(id, FindSeed(id, seeds).value);
          assert forall j :: 0 < j < i + 1 ==> seeds[j] == seeds[1..][j - 1];
        }
      }
    }
  }

  /** The children a node lists. */
  function Listed(node: Node): seq<NodeId> {
    match node
    case ExerciseNode(_, kids) => kids
    case RollbackNode(kids) => kids
    case _ => []
  }

  /**
   * The children the encoder goes on to. It takes the fields of an exercise one after the other, the children last, so
   * an exercise with another field that is rejected never gets to them. A missing seed is noticed only after them.
   */
  function Children(node: Node): seq<NodeId> {
    if node.ExerciseNode? && !ExerciseSupported(node.exercise) then [] else Listed(node)
  }

  predicate Edge(dict: NodesDict, a: NodeId, b: NodeId) {
    a in dict && b in Children(dict[a])
  }

  ghost predicate Walk(dict: NodesDict, p: seq<NodeId>) {
    p != [] && forall i :: 0 <= i < |p| - 1 ==> Edge(dict, p[i], p[i + 1])
  }

  lemma WalkOnwards(dict: NodesDict, p: seq<NodeId>, q: seq<NodeId>)
    requires Walk(dict, p) && Walk(dict, q) && p[|p| - 1] == q[0]
    ensures Walk(dict, p + q[1..]) && (p + q[1..])[|p + q[1..]| - 1] == q[|q| - 1]
  {
    var w := p + q[1..];
    forall i | 0 <= i < |w| - 1
      ensures Edge(dict, w[i], w[i + 1])
    {
      if i < |p| - 1 {
        assert Edge(dict, p[i], p[i + 1]);
      } else {
        assert Edge(dict, q[i - (|p| - 1)], q[i - (|p| - 1) + 1]);
      }
    }
  }

  ghost predicate Reaches(dict: NodesDict, a: NodeId, b: NodeId) {
    exists p :: Walk(dict, p) && p[0] == a && p[|p| - 1] == b
  }

  lemma ReachesSelf(dict: NodesDict, a: NodeId)
    ensures Reaches(dict, a, a)
  {
    assert Walk(dict, [a]);
  }

  lemma ReachesFromChild(dict: NodesDict, a: NodeId, b: NodeId, c: NodeId)
    requires Edge(dict, a, b) && Reaches(dict, b, c)
    ensures Reaches(dict, a, c)
  {
    var p :| Walk(dict, p) && p[0] == b && p[|p| - 1] == c;
    var q := [a] + p;
    forall i | 0 <= i < |q| - 1
      ensures Edge(dict, q[i], q[i + 1])
    {
      if i > 0 {
        assert Edge(dict, p[i - 1], p[i]);
      }
    }
    assert Walk(dict, q);
  }

  lemma ReachesOrSelf(dict: NodesDict, a: NodeId, c: NodeId)
    requires Reaches(dict, a, c)
    ensures a == c || exists b :: Edge(dict, a, b) && Reaches(dict, b, c)
  {
    var p :| Walk(dict, p) && p[0] == a && p[|p| - 1] == c;
    if |p| > 1 {
      var q := p[1..];
      forall i | 0 <= i < |q| - 1
        ensures Edge(dict, q[i], q[i + 1])
      {
        assert Edge(dict, p[i + 1], p[i + 2]);
      }
      assert Walk(dict, q);
      assert Edge(dict, p[0], p[1]);
    }
  }

  // ---------- ranks and cycles ----------

  /** The ids with a rank are closed under children, and ranks fall along every edge. */
  ghost predicate Ranked(dict: NodesDict, rank: map<NodeId, nat>) {
    forall a, b :: a in rank && Edge(dict, a, b) ==> b in rank && rank[b] < rank[a]
  }

  ghost predicate Closed(dict: NodesDict, region: set<NodeId>) {
    forall a, b :: a in region && Edge(dict, a, b) ==> b in region
  }

  ghost predicate Cycle(dict: NodesDict, p: seq<NodeId>) {
    Walk(dict, p) && |p| > 1 && p[0] == p[|p| - 1]
  }

  ghost predicate Acyclic(dict: NodesDict, region: set<NodeId>) {
    forall p :: Cycle(dict, p) ==> p[0] !in region
  }

  /** An id of `from` that has no child in `from`. */
  ghost predicate Bottom(dict: NodesDict, from: set<NodeId>, a: NodeId) {
    a in from && forall b :: b in from ==> !Edge(dict, a, b)
  }

  /** Without a bottom a walk inside `from` can be made as long as one likes, so it must repeat an id. */
  lemma {:induction false} LongWalk(dict: NodesDict, from: set<NodeId>, n: nat) returns (p: seq<NodeId>)
    requires from != {}
    requires forall a :: !Bottom(dict, from, a)
    ensures Walk(dict, p) && |p| == n + 1 && forall x :: x in p ==> x in from
  {
    if n == 0 {
      var a :| a in from;
      p := [a];
    } else {
      var q := LongWalk(dict, from, n - 1);
      var a := q[|q| - 1];
      assert !Bottom(dict, from, a);
      var b :| b in from && Edge(dict, a, b);
      p := q + [b];
    }
  }

  lemma CycleWithoutBottom(dict: NodesDict, from: set<NodeId>) returns (c: seq<NodeId>)
    requires from != {}
    requires forall a :: !Bottom(dict, from, a)
    ensures Cycle(dict, c) && c[0] in from
  {
    var p := LongWalk(dict, from, |from|);
    if Distinct(p) {
      DistinctBounded(p, from);
      assert false;
    }
    var i, j :| 0 <= i < j < |p| && p[i] == p[j];
    c := p[i..j + 1];
    forall k | 0 <= k < |c| - 1
      ensures Edge(dict, c[k], c[k + 1])
    {
      assert Edge(dict, p[i + k], p[i + k + 1]);
    }
  }

  lemma BottomExists(dict: NodesDict, from: set<NodeId>)
    requires from != {} && Acyclic(dict, from)
    ensures exists a :: Bottom(dict, from, a)
  {
    if forall a :: !Bottom(dict, from, a) {
      var c := CycleWithoutBottom(dict, from);
      assert false;
    }
  }

  /** A closed region without a cycle can be ranked. */
  lemma AcyclicHasRank(dict: NodesDict, region: set<NodeId>) returns (rank: map<NodeId, nat>)
    requires Closed(dict, region) && Acyclic(dict, region)
    ensures Ranked(dict, rank) && rank.Keys == region
  {
    rank := ExtendRank(dict, region, map[], 0);
  }

  lemma {:induction false} ExtendRank(dict: NodesDict, region: set<NodeId>, rank: map<NodeId, nat>, next: nat)
        returns (full: map<NodeId, nat>)
    requires Closed(dict, region) && Acyclic(dict, region)
    requires Ranked(dict, rank) && rank.Keys <= region
    requires forall a :: a in rank ==> rank[a] < next
    ensures Ranked(dict, full) && full.Keys == region
    decreases region - rank.Keys
  {
    var rest := region - rank.Keys;
    if rest == {} {
      full := rank;
      assert forall a :: a in region ==> a in rest || a in rank.Keys;
    } else {
      BottomExists(dict, rest);
      var a :| Bottom(dict, rest, a);
      var more := rank[a := next];
      forall x, y | x in more && Edge(dict, x, y)
        ensures y in more && more[y] < more[x]
      {
        if x == a {
          assert y in region && y !in rest;
        } else {
          assert y in rank;
        }
      }
      full := ExtendRank(dict, region, more, next + 1);
    }
  }

  /** And a region with a cycle cannot. */
  lemma {:induction false} RanksFallAlongWalks(dict: NodesDict, rank: map<NodeId, nat>, p: seq<NodeId>)
    requires Ranked(dict, rank) && Walk(dict, p) && p[0] in rank
    ensures p[|p| - 1] in rank && rank[p[|p| - 1]] <= rank[p[0]] - (|p| - 1)
  {
    if |p| > 1 {
      var q := p[..|p| - 1];
      assert Walk(dict, q);
      RanksFallAlongWalks(dict, rank, q);
      assert Edge(dict, p[|p| - 2], p[|p| - 1]);
    }
  }

  lemma RankedIsAcyclic(dict: NodesDict, rank: map<NodeId, nat>)
    requires Ranked(dict, rank)
    ensures Acyclic(dict, rank.Keys)
  {
    forall p | Cycle(dict, p)
      ensures p[0] !in rank.Keys
    {
      if p[0] in rank {
        RanksFallAlongWalks(dict, rank, p);
      }
    }
  }

  /** Going round a cycle makes a walk that leads to it as long as one likes. */
  lemma {:induction false} RoundTheCycle(dict: NodesDict, p: seq<NodeId>, c: seq<NodeId>, n: nat)
        returns (w: seq<NodeId>)
    requires Walk(dict, p) && Cycle(dict, c) && p[|p| - 1] == c[0]
    ensures Walk(dict, w) && |w| > n && w[0] == p[0] && w[|w| - 1] == c[0]
  {
    if n == 0 {
      w := p;
    } else {
      var q := RoundTheCycle(dict, p, c, n - 1);
      WalkOnwards(dict, q, c);
      w := q + c[1..];
    }
  }
}
