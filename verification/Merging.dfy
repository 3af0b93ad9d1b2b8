/** Merging of holdings: grouped by instrument, cut into chunks of at most 100 inputs, each transferred to oneself. */
module Merging {
  import opened Holdings
  import opened Sequences

  datatype Group = Group(key: string, members: seq<Holding>)

  /** What createTransfer is asked for. */
  datatype Transfer = Transfer(instrument: Instrument, amount: real, inputs: seq<string>)

  const TRANSFER_INPUT_LIMIT: nat := 100

  // ---------- grouping keys ----------

  const SEPARATOR: string := "::"

  function Key(instrument: Instrument): string {
    instrument.id + SEPARATOR + instrument.admin
  }

  predicate SeparatorAt(s: string, p: nat) {
    p + 1 < |s| && s[p] == ':' && s[p + 1] == ':'
  }

  ghost predicate HasSeparator(s: string) {
    exists p: nat :: SeparatorAt(s, p)
  }

  /** Another instrument has the same key. */
  ghost predicate SharesKey(instrument: Instrument) {
    exists other :: other != instrument && Key(other) == Key(instrument)
  }

  lemma SplitAt(key: string, p: nat)
    requires SeparatorAt(key, p)
    ensures Key(Instrument(key[..p], key[p + 2..])) == key
  {
    assert key == key[..p] + [key[p], key[p + 1]] + key[p + 2..];
  }

  lemma KeySeparator(instrument: Instrument)
    ensures SeparatorAt(Key(instrument), |instrument.id|)
    ensures Key(instrument)[..|instrument.id|] == instrument.id
    ensures Key(instrument)[|instrument.id| + 2..] == instrument.admin
  {
  }

  /** Any other place where the key could be cut gives another instrument. */
  lemma SharedBySplit(instrument: Instrument, p: nat)
    requires SeparatorAt(Key(instrument), p) && p != |instrument.id|
    ensures SharesKey(instrument)
  {
    var key := Key(instrument);
    SplitAt(key, p);
    var other := Instrument(key[..p], key[p + 2..]);
    assert |other.id| == p;
    assert other != instrument && Key(other) == key;
  }

  lemma SharedIsSplit(instrument: Instrument, other: Instrument)
    requires other != instrument && Key(other) == Key(instrument)
    ensures |other.id| != |instrument.id| && SeparatorAt(Key(instrument), |other.id|)
  {
    KeySeparator(instrument);
    KeySeparator(other);
  }

  /** Exactly which instruments are not identified by their grouping key. */
  lemma SharesKeyIff(instrument: Instrument)
    ensures SharesKey(instrument) <==> HasSeparator(instrument.id + ":") || HasSeparator(":" + instrument.admin)
  {
    var key, n := Key(instrument), |instrument.id|;
    if SharesKey(instrument) {
      var other :| other != instrument && Key(other) == key;
      SharedIsSplit(instrument, other);
      var p := |other.id|;
      if p < n {
        assert SeparatorAt(instrument.id + ":", p);
      } else {
        assert SeparatorAt(":" + instrument.admin, p - n - 1);
      }
    }
    if p: nat :| SeparatorAt(instrument.id + ":", p) {
      assert SeparatorAt(key, p);
      SharedBySplit(instrument, p);
    }
    if p: nat :| SeparatorAt(":" + instrument.admin, p) {
      assert SeparatorAt(key, n + 1 + p);
      SharedBySplit(instrument, n + 1 + p);
    }
  }

  /** Among ids in which no separator can start, the key identifies the instrument. */
  lemma KeyIdentifies(a: Instrument, b: Instrument)
    requires !HasSeparator(a.id + ":") && !HasSeparator(b.id + ":")
    requires Key(a) == Key(b)
    ensures a == b
  {
    KeySeparator(a);
    KeySeparator(b);
    if |a.id| < |b.id| {
      assert SeparatorAt(b.id + ":", |a.id|);
      assert false;
    } else if |b.id| < |a.id| {
      assert SeparatorAt(a.id + ":", |b.id|);
      assert false;
    }
  }

  lemma NoColonNoSeparator(id: string)
    requires ':' !in id
    ensures !HasSeparator(id + ":")
  {
    forall p: nat
      ensures !SeparatorAt(id + ":", p)
    {
      if p < |id| {
        assert (id + ":")[p] == id[p];
      }
    }
  }

  /** Two different instruments that end up in one group. */
  lemma KeysCanCollide()
    ensures Key(Instrument("a", "b::c")) == Key(Instrument("a::b", "c"))
  {
  }

  // ---------- grouping ----------

  function AddToGroups(groups: seq<Group>, u: Holding): seq<Group> {
    if groups == [] then [Group(Key(u.instrument), [u])]
    else if groups[0].key == Key(u.instrument) then [Group(groups[0].key, groups[0].members + [u])] + groups[1..]
    else [groups[0]] + AddToGroups(groups[1..], u)
  }

  /** Object.groupBy: groups in order of first appearance, members in order. */
  function GroupBy(utxos: seq<Holding>): seq<Group> {
    if utxos == [] then [] else AddToGroups(GroupBy(utxos[..|utxos| - 1]), utxos[|utxos| - 1])
  }

  /** The utxos with this key, in order. */
  function WithKey(utxos: seq<Holding>, key: string): seq<Holding> {
    if utxos == [] then []
    else
      var last := utxos[|utxos| - 1];
      WithKey(utxos[..|utxos| - 1], key) + if Key(last.instrument) == key then [last] else []
  }

  ghost predicate GroupsOf(utxos: seq<Holding>, groups: seq<Group>) {
    && (forall i, j :: 0 <= i < j < |groups| ==> groups[i].key != groups[j].key)
    && (forall i :: 0 <= i < |groups| ==> groups[i].members != [] && groups[i].members == WithKey(utxos, groups[i].key))
    && (forall u :: u in utxos ==> HasGroup(groups, Key(u.instrument)))
  }

  ghost predicate HasGroup(groups: seq<Group>, key: string) {
    exists i :: 0 <= i < |groups| && groups[i].key == key
  }

  lemma HasGroupRest(groups: seq<Group>, key: string)
    requires groups != []
    ensures HasGroup(groups, key) <==> groups[0].key == key || HasGroup(groups[1..], key)
  {
    if HasGroup(groups, key) && groups[0].key != key {
      var i :| 0 <= i < |groups| && groups[i].key == key;
      assert groups[1..][i - 1].key == key;
    } else if HasGroup(groups[1..], key) {
      var i :| 0 <= i < |groups[1..]| && groups[1..][i].key == key;
      assert groups[i + 1].key == key;
    }
  }

  lemma {:induction false} AddKeepsKeys(groups: seq<Group>, u: Holding)
    ensures |AddToGroups(groups, u)| == |groups| + if HasGroup(groups, Key(u.instrument)) then 0 else 1
    ensures forall i :: 0 <= i < |groups| ==> AddToGroups(groups, u)[i].key == groups[i].key
    ensures !HasGroup(groups, Key(u.instrument)) ==> AddToGroups(groups, u)[|groups|] == Group(Key(u.instrument), [u])
  {
    if groups != [] {
      HasGroupRest(groups, Key(u.instrument));
      if groups[0].key != Key(u.instrument) {
        AddKeepsKeys(groups[1..], u);
        var r := AddToGroups(groups[1..], u);
        forall i | 0 <= i < |groups|
          ensures AddToGroups(groups, u)[i].key == groups[i].key
        {
          assert i > 0 ==> groups[i] == groups[1..][i - 1] && AddToGroups(groups, u)[i] == r[i - 1];
        }
      }
    }
  }

  lemma {:induction false} AddExtendsOne(groups: seq<Group>, u: Holding)
    requires forall i, j :: 0 <= i < j < |groups| ==> groups[i].key != groups[j].key
    ensures forall i :: 0 <= i < |groups| && i < |AddToGroups(groups, u)| ==>
      AddToGroups(groups, u)[i].members == groups[i].members + if groups[i].key == Key(u.instrument) then [u] else []
  {
    if groups != [] {
      var r := AddToGroups(groups, u);
      if groups[0].key == Key(u.instrument) {
        forall i | 0 <= i < |groups|
          ensures r[i].members == groups[i].members + if groups[i].key == Key(u.instrument) then [u] else []
        {
          if i > 0 {
            assert groups[0].key != groups[i].key;
          }
        }
      } else {
        AddExtendsOne(groups[1..], u);
        assert forall i :: 0 < i < |groups| ==> groups[i] == groups[1..][i - 1];
      }
    }
  }

  lemma AddToGroupsOf(before: seq<Holding>, groups: seq<Group>, u: Holding)
    requires GroupsOf(before, groups)
    ensures GroupsOf(before + [u], AddToGroups(groups, u))
  {
    var r := AddToGroups(groups, u);
    AddKeepsKeys(groups, u);
    AddExtendsOne(groups, u);
    forall i | 0 <= i < |r|
      ensures r[i].members != [] && r[i].members == WithKey(before + [u], r[i].key)
      ensures i < |groups| || !HasGroup(groups, r[i].key)
    {
      if i == |groups| {
        NoneWithKey(before, groups, r[i].key);
      }
    }
    forall i, j | 0 <= i < j < |r|
      ensures r[i].key != r[j].key
    {
      if j == |groups| {
        assert groups[i].key == r[i].key;
      }
    }
    forall v | v in before + [u]
      ensures HasGroup(r, Key(v.instrument))
    {
      GroupStays(groups, u, Key(v.instrument));
    }
  }

  /** Every group holds exactly the utxos with its key, keys are distinct and none is missing. */
  lemma {:induction false} GroupByGroups(utxos: seq<Holding>)
    ensures GroupsOf(utxos, GroupBy(utxos))
  {
    if utxos != [] {
      var k := |utxos| - 1;
      GroupByGroups(utxos[..k]);
      AddToGroupsOf(utxos[..k], GroupBy(utxos[..k]), utxos[k]);
      assert utxos == utxos[..k] + [utxos[k]];
    }
  }

  lemma GroupStays(groups: seq<Group>, u: Holding, key: string)
    requires HasGroup(groups, key) || Key(u.instrument) == key
    ensures HasGroup(AddToGroups(groups, u), key)
  {
    AddKeepsKeys(groups, u);
    var r := AddToGroups(groups, u);
    if HasGroup(groups, key) {
      var i :| 0 <= i < |groups| && groups[i].key == key;
      assert r[i].key == key;
    } else {
      assert r[|groups|].key == key;
    }
  }

  lemma NoneWithKey(utxos: seq<Holding>, groups: seq<Group>, key: string)
    requires GroupsOf(utxos, groups) && !HasGroup(groups, key)
    ensures WithKey(utxos, key) == []
  {
    EmptyWithKey(utxos, key);
  }

  lemma {:induction false} EmptyWithKey(utxos: seq<Holding>, key: string)
    requires forall u :: u in utxos ==> Key(u.instrument) != key
    ensures WithKey(utxos, key) == []
  {
    if utxos != [] {
      EmptyWithKey(utxos[..|utxos| - 1], key);
    }
  }

  lemma {:induction false} WithKeyMembers(utxos: seq<Holding>, key: string)
    ensures forall u :: u in WithKey(utxos, key) <==> u in utxos && Key(u.instrument) == key
  {
    if utxos != [] {
      WithKeyMembers(utxos[..|utxos| - 1], key);
      assert utxos == utxos[..|utxos| - 1] + [utxos[|utxos| - 1]];
    }
  }

  /** A group holds its utxos in their order. */
  lemma {:induction false} WithKeyInOrder(utxos: seq<Holding>, key: string) returns (at: seq<nat>)
    ensures Places(at, utxos, WithKey(utxos, key))
    ensures forall k :: 0 <= k < |utxos| ==> (k in at <==> Key(utxos[k].instrument) == key)
  {
    if utxos == [] {
      at := [];
    } else {
      var n := |utxos| - 1;
      var front := WithKeyInOrder(utxos[..n], key);
      PlacesSnoc(front, utxos, WithKey(utxos[..n], key));
      at := if Key(utxos[n].instrument) == key then front + [n] else front;
      forall k | 0 <= k < |utxos|
        ensures k in at <==> Key(utxos[k].instrument) == key
      {
        assert k < n ==> utxos[..n][k] == utxos[k];
      }
      assert WithKey(utxos[..n], key) + [] == WithKey(utxos[..n], key);
    }
  }

  /** The utxo at this place is the first one with the key. */
  ghost predicate FirstWithKey(utxos: seq<Holding>, key: string, place: nat) {
    && place < |utxos| && Key(utxos[place].instrument) == key
    && forall k :: 0 <= k < place ==> Key(utxos[k].instrument) != key
  }

  lemma FirstInFront(front: seq<Holding>, u: Holding, key: string, place: nat)
    ensures FirstWithKey(front, key, place) ==> FirstWithKey(front + [u], key, place)
    ensures Key(u.instrument) == key && (forall v :: v in front ==> Key(v.instrument) != key) ==>
      FirstWithKey(front + [u], key, |front|)
  {
  }

  /** The places rise, and each is the first one with the key of its group. */
  ghost predicate InOrderOf(at: seq<nat>, utxos: seq<Holding>, groups: seq<Group>) {
    && |at| == |groups| && (forall i, j :: 0 <= i < j < |at| ==> at[i] < at[j])
    && forall i :: 0 <= i < |at| ==> FirstWithKey(utxos, groups[i].key, at[i])
  }

  lemma NextInOrder(at: seq<nat>, front: seq<Holding>, groups: seq<Group>, u: Holding) returns (next: seq<nat>)
    requires InOrderOf(at, front, groups) && forall v :: v in front ==> HasGroup(groups, Key(v.instrument))
    ensures InOrderOf(next, front + [u], AddToGroups(groups, u))
  {
    AddKeepsKeys(groups, u);
    var r, key := AddToGroups(groups, u), Key(u.instrument);
    forall i | 0 <= i < |at|
      ensures FirstWithKey(front + [u], r[i].key, at[i]) && at[i] < |front|
    {
      FirstInFront(front, u, groups[i].key, at[i]);
    }
    if HasGroup(groups, key) {
      next := at;
    } else {
      next := at + [|front|];
      NewKey(front, groups, key);
      FirstInFront(front, u, key, |front|);
    }
  }

  lemma NewKey(front: seq<Holding>, groups: seq<Group>, key: string)
    requires !HasGroup(groups, key) && forall v :: v in front ==> HasGroup(groups, Key(v.instrument))
    ensures forall v :: v in front ==> Key(v.instrument) != key
  {
  }

  /** Groups stand in the order in which their keys first appear. */
  lemma {:induction false} GroupsInOrder(utxos: seq<Holding>) returns (at: seq<nat>)
    ensures InOrderOf(at, utxos, GroupBy(utxos))
  {
    if utxos == [] {
      at := [];
    } else {
      var n := |utxos| - 1;
      at := GroupsInOrder(utxos[..n]);
      GroupByGroups(utxos[..n]);
      at := NextInOrder(at, utxos[..n], GroupBy(utxos[..n]), utxos[n]);
      assert utxos == utxos[..n] + [utxos[n]];
    }
  }

  // ---------- chunks ----------

  /** Math.ceil(n / 100) */
  function TransferCount(n: nat): nat {
    (n + TRANSFER_INPUT_LIMIT - 1) / TRANSFER_INPUT_LIMIT
  }

  function Chunk<T>(group: seq<T>, i: nat): (r: seq<T>)
    requires i < TransferCount(|group|)
    ensures 1 <= |r| <= TRANSFER_INPUT_LIMIT
  {
    var start := i * TRANSFER_INPUT_LIMIT;
    var end := if start + TRANSFER_INPUT_LIMIT < |group| then start + TRANSFER_INPUT_LIMIT else |group|;
    group[start..end]
  }

  function Chunks<T>(group: seq<T>): (r: seq<seq<T>>)
  {
    seq(TransferCount(|group|), i requires 0 <= i < TransferCount(|group|) => Chunk(group, i))
  }

  lemma {:induction false} ChunksCover<T>(group: seq<T>, k: nat)
    requires k <= TransferCount(|group|)
    ensures Flatten(Chunks(group)[..k])
      == group[..if k * TRANSFER_INPUT_LIMIT < |group| then k * TRANSFER_INPUT_LIMIT else |group|]
  {
    if k > 0 {
      ChunksCover(group, k - 1);
      var cs := Chunks(group);
      assert cs[..k] == cs[..k - 1] + [cs[k - 1]];
      FlattenAppend(cs[..k - 1], [cs[k - 1]]);
      assert Flatten([cs[k - 1]]) == cs[k - 1] + [];
      assert cs[k - 1] == Chunk(group, k - 1);
    }
  }

  /** The chunks hold the group in order: a hundred each, and the rest in the last one. */
  lemma FlattenChunks<T>(group: seq<T>)
    ensures Flatten(Chunks(group)) == group
    ensures forall i :: 0 <= i < |Chunks(group)| - 1 ==> |Chunks(group)[i]| == 100
    ensures forall i :: 0 <= i < |Chunks(group)| ==> 1 <= |Chunks(group)[i]| <= 100
  {
    ChunksCover(group, TransferCount(|group|));
    assert Chunks(group)[..TransferCount(|group|)] == Chunks(group);
  }

  // ---------- merging ----------

  function TransferOf(instrument: Instrument, chunk: seq<Holding>): Transfer {
    Transfer(instrument, Total(chunk), Cids(chunk))
  }

  /** The inputs of every transfer, group after group. */
  function InputChunks(groups: seq<Group>): seq<seq<Holding>> {
    if groups == [] then [] else Chunks(groups[0].members) + InputChunks(groups[1..])
  }

  function GroupTransfers(group: seq<Holding>): (r: seq<Transfer>)
    requires group != []
  {
    seq(TransferCount(|group|),
      i requires 0 <= i < TransferCount(|group|) => TransferOf(group[0].instrument, Chunk(group, i)))
  }

  function AllTransfers(groups: seq<Group>): seq<Transfer>
    requires forall i :: 0 <= i < |groups| ==> groups[i].members != []
  {
    if groups == [] then [] else GroupTransfers(groups[0].members) + AllTransfers(groups[1..])
  }

  lemma {:induction false} AllTransfersSnoc(groups: seq<Group>, k: nat)
    requires k < |groups| && forall i :: 0 <= i < |groups| ==> groups[i].members != []
    ensures AllTransfers(groups[..k + 1]) == AllTransfers(groups[..k]) + GroupTransfers(groups[k].members)
  {
    if k == 0 {
      assert groups[..1] == [groups[0]] && groups[..1][1..] == [];
    } else {
      AllTransfersSnoc(groups[1..], k - 1);
      assert groups[..k + 1][1..] == groups[1..][..k] && groups[..k][1..] == groups[1..][..k - 1];
    }
  }

  /** mergeHoldingUtxos up to the requests it makes. */
  method MergeHoldingUtxos(utxos: seq<Holding>) returns (transfers: seq<Transfer>)
    ensures GroupsOf(utxos, GroupBy(utxos))
    ensures transfers == AllTransfers(GroupBy(utxos))
  {
    var groups := GroupBy(utxos);
    GroupByGroups(utxos);
    transfers := [];
    for i := 0 to |groups|
      invariant transfers == AllTransfers(groups[..i])
    {
      AllTransfersSnoc(groups, i);
      transfers := transfers + GroupTransfers(groups[i].members);
    }
    assert groups[..|groups|] == groups;
  }

  /** The k-th transfer takes the k-th chunk, and is for the instrument of the first member of the chunk's group. */
  ghost predicate Matches(groups: seq<Group>, transfers: seq<Transfer>, chunks: seq<seq<Holding>>) {
    && |transfers| == |chunks|
    && forall k :: 0 <= k < |chunks| ==>
         && 1 <= |chunks[k]| <= 100
         && transfers[k].inputs == Cids(chunks[k]) && transfers[k].amount == Total(chunks[k])
         && exists g :: g in groups && g.members != [] && transfers[k].instrument == g.members[0].instrument
                        && forall u :: u in chunks[k] ==> u in g.members
  }

  lemma {:induction false} TransfersMatch(groups: seq<Group>)
    requires forall i :: 0 <= i < |groups| ==> groups[i].members != []
    ensures Matches(groups, AllTransfers(groups), InputChunks(groups))
  {
    if groups != [] {
      var g := groups[0];
      var n := TransferCount(|g.members|);
      TransfersMatch(groups[1..]);
      var ts, cs := AllTransfers(groups), InputChunks(groups);
      forall k | 0 <= k < |cs|
        ensures 1 <= |cs[k]| <= TRANSFER_INPUT_LIMIT
        ensures ts[k].inputs == Cids(cs[k]) && ts[k].amount == Total(cs[k])
        ensures exists h ::
          h in groups && h.members != [] && ts[k].instrument == h.members[0].instrument
          && forall u :: u in cs[k] ==> u in h.members
      {
        if k < n {
          assert cs[k] == Chunk(g.members, k) && ts[k] == TransferOf(g.members[0].instrument, Chunk(g.members, k));
          assert g in groups;
        } else {
          assert cs[k] == InputChunks(groups[1..])[k - n] && ts[k] == AllTransfers(groups[1..])[k - n];
          var h :| h in groups[1..] && h.members != [] && ts[k].instrument == h.members[0].instrument
            && forall u :: u in cs[k] ==> u in h.members;
          assert h in groups;
        }
      }
    }
  }

  /**
   * Each transfer takes 1 to 100 inputs of one instrument and moves exactly what they hold, if no id has a separator in
   * it.
   */
  lemma TransfersAreSound(utxos: seq<Holding>)
    requires forall u :: u in utxos ==> !HasSeparator(u.instrument.id + ":")
    ensures GroupsOf(utxos, GroupBy(utxos))
    ensures |AllTransfers(GroupBy(utxos))| == |InputChunks(GroupBy(utxos))|
    ensures forall k :: 0 <= k < |InputChunks(GroupBy(utxos))| ==>
      && 1 <= |InputChunks(GroupBy(utxos))[k]| <= 100
      && AllTransfers(GroupBy(utxos))[k].inputs == Cids(InputChunks(GroupBy(utxos))[k])
      && AllTransfers(GroupBy(utxos))[k].amount == Total(InputChunks(GroupBy(utxos))[k])
      && forall u :: u in InputChunks(GroupBy(utxos))[k] ==> u.instrument == AllTransfers(GroupBy(utxos))[k].instrument
  {
    var groups := GroupBy(utxos);
    GroupByGroups(utxos);
    TransfersMatch(groups);
    var ts, cs := AllTransfers(groups), InputChunks(groups);
    forall k: nat, u: Holding | k < |cs| && u in cs[k]
      ensures u.instrument == ts[k].instrument
    {
      var g :| g in groups && g.members != [] && ts[k].instrument == g.members[0].instrument
        && forall v :: v in cs[k] ==> v in g.members;
      WithKeyMembers(utxos, g.key);
      assert g.members[0] in g.members;
      KeyIdentifies(u.instrument, g.members[0].instrument);
    }
  }

  lemma {:induction false} GroupsPartition(utxos: seq<Holding>)
    ensures multiset(Flatten(InputChunks(GroupBy(utxos)))) == multiset(utxos)
  {
    if utxos != [] {
      var k := |utxos| - 1;
      GroupsPartition(utxos[..k]);
      assert utxos == utxos[..k] + [utxos[k]];
      AddPartition(GroupBy(utxos[..k]), utxos[k]);
    }
  }

  lemma {:induction false} AddPartition(groups: seq<Group>, u: Holding)
    ensures multiset(Flatten(InputChunks(AddToGroups(groups, u))))
      == multiset(Flatten(InputChunks(groups))) + multiset{u}
  {
    if groups == [] {
      OneGroupFlatten([Group(Key(u.instrument), [u])]);
      assert InputChunks([]) == [] && Flatten<Holding>([]) == [];
    } else {
      var r := AddToGroups(groups, u);
      OneGroupFlatten(groups);
      OneGroupFlatten(r);
      if groups[0].key == Key(u.instrument) {
        assert r[1..] == groups[1..];
        assert r[0].members == groups[0].members + [u];
      } else {
        AddPartition(groups[1..], u);
        assert r[1..] == AddToGroups(groups[1..], u);
      }
    }
  }

  lemma OneGroupFlatten(groups: seq<Group>)
    requires groups != []
    ensures Flatten(InputChunks(groups)) == groups[0].members + Flatten(InputChunks(groups[1..]))
  {
    FlattenAppend(Chunks(groups[0].members), InputChunks(groups[1..]));
    FlattenChunks(groups[0].members);
  }

  /** Some transfer takes an input that is not of its own instrument. */
  ghost predicate MixesInstruments(utxos: seq<Holding>)
    requires GroupsOf(utxos, GroupBy(utxos))
  {
    var transfers, chunks := AllTransfers(GroupBy(utxos)), InputChunks(GroupBy(utxos));
    exists k, u :: 0 <= k < |chunks| && k < |transfers| && u in chunks[k] && u.instrument != transfers[k].instrument
  }

  /** Two of the utxos have the same grouping key, but different instruments. */
  ghost predicate SharedKeyIn(utxos: seq<Holding>) {
    exists u, v :: u in utxos && v in utxos && Key(u.instrument) == Key(v.instrument) && u.instrument != v.instrument
  }

  /** Every member of a group is an input of a transfer for the instrument of the group's first member. */
  lemma {:induction false} MemberIsTransferred(groups: seq<Group>, g: nat, u: Holding) returns (k: nat)
    requires forall i :: 0 <= i < |groups| ==> groups[i].members != []
    requires g < |groups| && u in groups[g].members
    ensures k < |InputChunks(groups)| && k < |AllTransfers(groups)| && u in InputChunks(groups)[k]
    ensures AllTransfers(groups)[k].instrument == groups[g].members[0].instrument
  {
    var members := groups[0].members;
    if g == 0 {
      k := ChunkOf(members, u);
      assert InputChunks(groups)[k] == Chunk(members, k) && AllTransfers(groups)[k] == GroupTransfers(members)[k];
    } else {
      var j := MemberIsTransferred(groups[1..], g - 1, u);
      k := j + TransferCount(|members|);
      assert InputChunks(groups)[k] == InputChunks(groups[1..])[j]
        && AllTransfers(groups)[k] == AllTransfers(groups[1..])[j];
    }
  }

  lemma ChunkOf(members: seq<Holding>, u: Holding) returns (i: nat)
    requires u in members
    ensures i < TransferCount(|members|) && u in Chunk(members, i)
  {
    var j :| 0 <= j < |members| && members[j] == u;
    i := j / TRANSFER_INPUT_LIMIT;
    assert Chunk(members, i)[j - i * TRANSFER_INPUT_LIMIT] == u;
  }

  /**
   * Some transfer takes an input of another instrument exactly when two of the utxos share a key without sharing the
   * instrument.
   */
  lemma MixesInstrumentsIff(utxos: seq<Holding>)
    ensures GroupsOf(utxos, GroupBy(utxos))
    ensures MixesInstruments(utxos) <==> SharedKeyIn(utxos)
  {
    var groups := GroupBy(utxos);
    GroupByGroups(utxos);
    TransfersMatch(groups);
    if MixesInstruments(utxos) {
      MixedShareKey(utxos);
    }
    if SharedKeyIn(utxos) {
      var u, v :| u in utxos && v in utxos && Key(u.instrument) == Key(v.instrument) && u.instrument != v.instrument;
      SharedKeyMixes(utxos, u, v);
    }
  }

  lemma MixedShareKey(utxos: seq<Holding>)
    requires GroupsOf(utxos, GroupBy(utxos)) && MixesInstruments(utxos)
    ensures SharedKeyIn(utxos)
  {
    var groups := GroupBy(utxos);
    TransfersMatch(groups);
    var transfers, chunks := AllTransfers(groups), InputChunks(groups);
    var k: int, u: Holding :| 0 <= k < |chunks| && k < |transfers| && u in chunks[k]
      && u.instrument != transfers[k].instrument;
    var g :| g in groups && g.members != [] && transfers[k].instrument == g.members[0].instrument
      && forall w :: w in chunks[k] ==> w in g.members;
    WithKeyMembers(utxos, g.key);
    assert u in g.members && g.members[0] in g.members;
  }

  lemma SharedKeyMixes(utxos: seq<Holding>, u: Holding, v: Holding)
    requires GroupsOf(utxos, GroupBy(utxos)) && u in utxos && v in utxos
    requires Key(u.instrument) == Key(v.instrument) && u.instrument != v.instrument
    ensures MixesInstruments(utxos)
  {
    var groups := GroupBy(utxos);
    assert HasGroup(groups, Key(u.instrument));
    var g :| 0 <= g < |groups| && groups[g].key == Key(u.instrument);
    WithKeyMembers(utxos, groups[g].key);
    var odd := if u.instrument == groups[g].members[0].instrument then v else u;
    var k := MemberIsTransferred(groups, g, odd);
  }

  function Amounts(transfers: seq<Transfer>): real {
    if transfers == [] then 0.0 else transfers[0].amount + Amounts(transfers[1..])
  }

  lemma {:induction false} AmountsAreTotals(transfers: seq<Transfer>, chunks: seq<seq<Holding>>)
    requires |transfers| == |chunks| && forall k :: 0 <= k < |chunks| ==> transfers[k].amount == Total(chunks[k])
    ensures Amounts(transfers) == Total(Flatten(chunks))
  {
    if chunks != [] {
      AmountsAreTotals(transfers[1..], chunks[1..]);
      TotalAppend(chunks[0], Flatten(chunks[1..]));
    }
  }

  /** Every utxo is an input of exactly one transfer, and the transfers together move exactly what the utxos hold. */
  lemma MergingConserves(utxos: seq<Holding>)
    ensures GroupsOf(utxos, GroupBy(utxos))
    ensures Matches(GroupBy(utxos), AllTransfers(GroupBy(utxos)), InputChunks(GroupBy(utxos)))
    ensures multiset(Flatten(InputChunks(GroupBy(utxos)))) == multiset(utxos)
    ensures Amounts(AllTransfers(GroupBy(utxos))) == Total(utxos)
  {
    var groups := GroupBy(utxos);
    GroupByGroups(utxos);
    GroupsPartition(utxos);
    TransfersMatch(groups);
    AmountsAreTotals(AllTransfers(groups), InputChunks(groups));
    SameTotal(Flatten(InputChunks(groups)), utxos);
  }

  /** One transfer per hundred utxos of a key, rounded up, added over the groups. */
  function CountPerGroup(utxos: seq<Holding>, groups: seq<Group>): nat {
    if groups == [] then 0 else TransferCount(|WithKey(utxos, groups[0].key)|) + CountPerGroup(utxos, groups[1..])
  }

  lemma {:induction false} TransfersCounted(utxos: seq<Holding>, groups: seq<Group>)
    requires forall i ::
      0 <= i < |groups| ==> groups[i].members != [] && groups[i].members == WithKey(utxos, groups[i].key)
    ensures |AllTransfers(groups)| == CountPerGroup(utxos, groups)
  {
    if groups != [] {
      TransfersCounted(utxos, groups[1..]);
    }
  }
}
