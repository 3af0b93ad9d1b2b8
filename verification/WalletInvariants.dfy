/** What every run of wallet operations and synchronisations keeps. */
module WalletInvariants {
  import opened Wrappers
  import opened Wallets
  import opened Sequences

  ghost predicate KeysUnique(ws: seq<Wallet>) {
    forall i, j :: 0 <= i < j < |ws| ==> !(ws[i].partyId == ws[j].partyId && ws[i].networkId == ws[j].networkId)
  }

  ghost predicate OnePrimary(ws: seq<Wallet>) {
    forall i, j :: 0 <= i < j < |ws| && ws[i].networkId == ws[j].networkId ==> !(ws[i].primary && ws[j].primary)
  }

  /** Every network in which there is a wallet has a primary one. */
  ghost predicate PrimaryEverywhere(ws: seq<Wallet>) {
    forall i :: 0 <= i < |ws| ==> PrimaryIn(ws, ws[i].networkId)
  }

  ghost predicate Consistent(ws: seq<Wallet>) {
    KeysUnique(ws) && OnePrimary(ws)
  }

  lemma AppendConsistent(ws: seq<Wallet>, w: Wallet)
    requires Consistent(ws) && !Holds(ws, w.partyId, w.networkId)
    ensures Consistent(Append(ws, w))
  {
    var r, n := Append(ws, w), |ws|;
    assert forall i :: 0 <= i < n ==> r[i].partyId == ws[i].partyId && r[i].networkId == ws[i].networkId;
    assert forall i :: 0 <= i < n ==> !IsAt(ws[i], w.partyId, w.networkId);
  }

  lemma AppendHasPrimary(ws: seq<Wallet>, w: Wallet, net: string)
    requires net == w.networkId || PrimaryIn(ws, net)
    requires AnyIn(ws, w.networkId) ==> PrimaryIn(ws, w.networkId)
    ensures PrimaryIn(Append(ws, w), net)
  {
    var r, n := Append(ws, w), |ws|;
    if net == w.networkId && r[n].primary {
      assert r[n].networkId == net;
    } else {
      var k :| 0 <= k < n && ws[k].networkId == net && ws[k].primary;
      assert r[k] == ws[k];
    }
  }

  lemma AppendKeeps(ws: seq<Wallet>, w: Wallet)
    requires Consistent(ws) && !Holds(ws, w.partyId, w.networkId)
    ensures Consistent(Append(ws, w))
    ensures PrimaryEverywhere(ws) ==> PrimaryEverywhere(Append(ws, w))
  {
    AppendConsistent(ws, w);
    if PrimaryEverywhere(ws) {
      var r, n := Append(ws, w), |ws|;
      forall i | 0 <= i < |r|
        ensures PrimaryIn(r, r[i].networkId)
      {
        assert i < n ==> r[i].networkId == ws[i].networkId;
        AppendHasPrimary(ws, w, r[i].networkId);
      }
    }
  }

  lemma MarkPrimaryKeeps(ws: seq<Wallet>, party: string, net: string)
    requires Consistent(ws) && Holds(ws, party, net)
    ensures Consistent(MarkPrimary(ws, party, net))
    ensures PrimaryEverywhere(ws) ==> PrimaryEverywhere(MarkPrimary(ws, party, net))
  {
    var r := MarkPrimary(ws, party, net);
    assert forall i :: 0 <= i < |ws| ==> r[i].partyId == ws[i].partyId && r[i].networkId == ws[i].networkId;
    forall i, j | 0 <= i < j < |r| && r[i].networkId == r[j].networkId
      ensures !(r[i].primary && r[j].primary)
    {
      if r[i].networkId != net {
        assert r[i] == ws[i] && r[j] == ws[j];
      }
    }
    if PrimaryEverywhere(ws) {
      forall i | 0 <= i < |r|
        ensures PrimaryIn(r, r[i].networkId)
      {
        MarkPrimaryHasPrimary(ws, party, net, i);
      }
    }
  }

  lemma MarkPrimaryHasPrimary(ws: seq<Wallet>, party: string, net: string, i: nat)
    requires Holds(ws, party, net) && i < |ws| && PrimaryIn(ws, ws[i].networkId)
    ensures PrimaryIn(MarkPrimary(ws, party, net), ws[i].networkId)
  {
    var r := MarkPrimary(ws, party, net);
    if ws[i].networkId == net {
      var m :| 0 <= m < |ws| && IsAt(ws[m], party, net);
      assert r[m].networkId == net && r[m].primary;
    } else {
      var k :| 0 <= k < |ws| && ws[k].networkId == ws[i].networkId && ws[k].primary;
      assert r[k] == ws[k];
    }
  }

  lemma RelabelKeeps(ws: seq<Wallet>, party: string, net: string, status: WalletStatus, txId: string)
    requires Consistent(ws)
    ensures Consistent(Relabel(ws, party, net, status, txId))
    ensures PrimaryEverywhere(ws) ==> PrimaryEverywhere(Relabel(ws, party, net, status, txId))
  {
    var r := Relabel(ws, party, net, status, txId);
    assert forall i ::
      0 <= i < |ws| ==>
      r[i].partyId == ws[i].partyId && r[i].networkId == ws[i].networkId && r[i].primary == ws[i].primary;
    if PrimaryEverywhere(ws) {
      forall i | 0 <= i < |r|
        ensures PrimaryIn(r, r[i].networkId)
      {
        assert PrimaryIn(ws, ws[i].networkId);
        var k :| 0 <= k < |ws| && ws[k].networkId == ws[i].networkId && ws[k].primary;
        assert r[k].networkId == r[i].networkId && r[k].primary;
      }
    }
  }

  /** What is left after a removal, with the place where it was before. */
  lemma {:induction false} DeleteIndex(ws: seq<Wallet>, party: string, net: string) returns (at: seq<nat>)
    ensures Places(at, ws, Delete(ws, party, net))
    ensures forall i :: 0 <= i < |at| ==> !IsAt(ws[at[i]], party, net)
  {
    if ws == [] {
      at := [];
    } else {
      var rest := DeleteIndex(ws[1..], party, net);
      var later := Shifted(rest, ws, Delete(ws[1..], party, net));
      at := if IsAt(ws[0], party, net) then later else [0] + later;
    }
  }

  lemma {:induction false} DeleteHolds(ws: seq<Wallet>, party: string, net: string, p: string, n: string)
    requires Holds(ws, p, n) && !(p == party && n == net)
    ensures Holds(Delete(ws, party, net), p, n)
  {
    var i :| 0 <= i < |ws| && IsAt(ws[i], p, n);
    var r, tail := Delete(ws, party, net), Delete(ws[1..], party, net);
    if i == 0 {
      assert IsAt(r[0], p, n);
    } else {
      assert IsAt(ws[1..][i - 1], p, n);
      DeleteHolds(ws[1..], party, net, p, n);
      var j :| 0 <= j < |tail| && IsAt(tail[j], p, n);
      assert IsAt(r[j + |r| - |tail|], p, n);
    }
  }

  lemma DeleteKeeps(ws: seq<Wallet>, party: string, net: string)
    requires Consistent(ws)
    ensures Consistent(Delete(ws, party, net))
  {
    var at := DeleteIndex(ws, party, net);
  }

  /** The wallet is the primary one of a network in which there is another one. */
  predicate PrimaryWithSiblings(ws: seq<Wallet>, party: string, net: string) {
    && (exists i :: 0 <= i < |ws| && IsAt(ws[i], party, net) && ws[i].primary)
    && exists j :: 0 <= j < |ws| && ws[j].networkId == net && ws[j].partyId != party
  }

  lemma {:induction false} DeletePrimary(ws: seq<Wallet>, party: string, net: string, k: nat)
    requires k < |ws| && ws[k].primary && !IsAt(ws[k], party, net)
    ensures PrimaryIn(Delete(ws, party, net), ws[k].networkId)
  {
    var r, tail := Delete(ws, party, net), Delete(ws[1..], party, net);
    if k == 0 {
      assert r[0] == ws[0];
    } else {
      DeletePrimary(ws[1..], party, net, k - 1);
      var j :| 0 <= j < |tail| && tail[j].networkId == ws[k].networkId && tail[j].primary;
      assert r[j + |r| - |tail|] == tail[j];
    }
  }

  /** Every network keeps a primary wallet exactly when the wallet removed is not a primary one with siblings. */
  lemma RemovalKeepsPrimaryIff(ws: seq<Wallet>, party: string, net: string)
    requires Consistent(ws) && PrimaryEverywhere(ws)
    ensures PrimaryEverywhere(Delete(ws, party, net)) <==> !PrimaryWithSiblings(ws, party, net)
  {
    if PrimaryWithSiblings(ws, party, net) {
      RemovalLosesPrimary(ws, party, net);
    } else {
      RemovalKeepsPrimary(ws, party, net);
    }
  }

  lemma RemovalLosesPrimary(ws: seq<Wallet>, party: string, net: string)
    requires Consistent(ws) && PrimaryWithSiblings(ws, party, net)
    ensures !PrimaryEverywhere(Delete(ws, party, net))
  {
    var r := Delete(ws, party, net);
    var at := DeleteIndex(ws, party, net);
    var i :| 0 <= i < |ws| && IsAt(ws[i], party, net) && ws[i].primary;
    var j :| 0 <= j < |ws| && ws[j].networkId == net && ws[j].partyId != party;
    assert IsAt(ws[j], ws[j].partyId, net);
    DeleteHolds(ws, party, net, ws[j].partyId, net);
    var m :| 0 <= m < |r| && IsAt(r[m], ws[j].partyId, net);
    forall k | 0 <= k < |r| && r[k].networkId == net
      ensures !r[k].primary
    {
      assert r[k] == ws[at[k]] && at[k] != i;
    }
    assert !PrimaryIn(r, r[m].networkId);
  }

  lemma RemovalKeepsPrimary(ws: seq<Wallet>, party: string, net: string)
    requires Consistent(ws) && PrimaryEverywhere(ws) && !PrimaryWithSiblings(ws, party, net)
    ensures PrimaryEverywhere(Delete(ws, party, net))
  {
    var r := Delete(ws, party, net);
    var at := DeleteIndex(ws, party, net);
    forall i | 0 <= i < |r|
      ensures PrimaryIn(r, r[i].networkId)
    {
      var w := ws[at[i]];
      assert r[i] == w;
      assert PrimaryIn(ws, w.networkId);
      var k :| 0 <= k < |ws| && ws[k].networkId == w.networkId && ws[k].primary;
      assert !IsAt(w, party, net);
      if IsAt(ws[k], party, net) {
        assert false;
      }
      DeletePrimary(ws, party, net, k);
    }
  }

  /** A removal that takes the primary wallet away from the others of the current network. */
  predicate RemovesPrimary(s: UserState, networks: set<string>, op: Op) {
    var current := CurrentNetwork(s.session, networks);
    op.RemoveWallet? && current.Some? && PrimaryWithSiblings(s.wallets, op.gone, current.value)
  }

  /**
   * One operation keeps keys unique and primaries single; every network keeps a primary wallet exactly unless the
   * primary one is removed from among others.
   */
  lemma StepKeeps(s: UserState, networks: set<string>, op: Op)
    requires Consistent(s.wallets) && MemStep(s, networks, op).Some?
    ensures Consistent(MemStep(s, networks, op).value.wallets)
    ensures PrimaryEverywhere(s.wallets) ==>
      (PrimaryEverywhere(MemStep(s, networks, op).value.wallets) <==> !RemovesPrimary(s, networks, op))
  {
    var current := CurrentNetwork(s.session, networks);
    match op
    case AddWallet(w) => AppendKeeps(s.wallets, w);
    case SetPrimaryWallet(party) => MarkPrimaryKeeps(s.wallets, party, current.value);
    case UpdateWallet(status, party, network, txId) =>
      RelabelKeeps(s.wallets, party, if network.Some? then network.value else current.value, status, txId);
    case RemoveWallet(party) =>
      DeleteKeeps(s.wallets, party, current.value);
      if PrimaryEverywhere(s.wallets) {
        RemovalKeepsPrimaryIff(s.wallets, party, current.value);
      }
    case _ =>
  }

  /**
   * An update is for the network it names, or else for the current one; it fails only if it names none and there is no
   * current one. It changes status and transaction id of the wallets of its party in that network, and nothing else.
   */
  lemma UpdateChanges(s: UserState, networks: set<string>, op: Op)
    requires op.UpdateWallet?
    ensures MemStep(s, networks, op).None? <==> op.network.None? && CurrentNetwork(s.session, networks).None?
    ensures MemStep(s, networks, op).Some? ==>
      var r, current := MemStep(s, networks, op).value, CurrentNetwork(s.session, networks);
      && r.session == s.session && |r.wallets| == |s.wallets|
      && forall i :: 0 <= i < |s.wallets| ==>
        var w := s.wallets[i];
        var named := Some(w.networkId) == if op.network.Some? then op.network else current;
        r.wallets[i] == if named && w.partyId == op.target
          then w.(status := op.status, externalTxId := Some(op.externalTxId)) else w
  {
  }

  // ---------- synchronisation ----------

  /** A party listed twice already has its wallet. */
  ghost predicate NewPartiesDistinct(ws: seq<Wallet>, net: string, parties: seq<string>) {
    forall i, j :: 0 <= i < j < |parties| && parties[i] == parties[j] ==> Holds(ws, parties[i], net)
  }

  lemma {:induction false} ParticipantWalletsAre(ws: seq<Wallet>, net: string, parties: seq<string>)
    ensures forall i :: 0 <= i < |ParticipantWallets(ws, net, parties)| ==>
      var w := ParticipantWallets(ws, net, parties)[i];
      w.networkId == net && !w.primary && w.partyId in parties && !Holds(ws, w.partyId, net)
    ensures forall p :: p in parties && !Holds(ws, p, net) ==> Holds(ParticipantWallets(ws, net, parties), p, net)
  {
    if parties != [] {
      ParticipantWalletsAre(ws, net, parties[1..]);
      var r, tail := ParticipantWallets(ws, net, parties), ParticipantWallets(ws, net, parties[1..]);
      var d := |r| - |tail|;
      assert forall i :: 0 <= i < |tail| ==> r[d + i] == tail[i];
      forall p | p in parties && !Holds(ws, p, net)
        ensures Holds(r, p, net)
      {
        if p in parties[1..] {
          var i :| 0 <= i < |tail| && IsAt(tail[i], p, net);
          assert IsAt(r[d + i], p, net);
        } else {
          assert IsAt(r[0], p, net);
        }
      }
    }
  }

  lemma KeysUniqueCons(w: Wallet, tail: seq<Wallet>)
    ensures KeysUnique([w] + tail) <==> KeysUnique(tail) && !Holds(tail, w.partyId, w.networkId)
  {
    var r := [w] + tail;
    if KeysUnique(r) {
      forall i | 0 <= i < |tail|
        ensures !IsAt(tail[i], w.partyId, w.networkId)
      {
        assert r[0] == w && r[i + 1] == tail[i];
      }
      forall i, j | 0 <= i < j < |tail|
        ensures !(tail[i].partyId == tail[j].partyId && tail[i].networkId == tail[j].networkId)
      {
        assert r[i + 1] == tail[i] && r[j + 1] == tail[j];
      }
    }
    if KeysUnique(tail) && !Holds(tail, w.partyId, w.networkId) {
      forall i, j | 0 <= i < j < |r|
        ensures !(r[i].partyId == r[j].partyId && r[i].networkId == r[j].networkId)
      {
        assert !IsAt(tail[j - 1], w.partyId, w.networkId);
      }
    }
  }

  lemma NewPartiesCons(ws: seq<Wallet>, net: string, p: string, ps: seq<string>)
    ensures NewPartiesDistinct(ws, net, [p] + ps) <==>
      NewPartiesDistinct(ws, net, ps) && (p in ps ==> Holds(ws, p, net))
  {
    var r := [p] + ps;
    if NewPartiesDistinct(ws, net, r) {
      forall i, j | 0 <= i < j < |ps| && ps[i] == ps[j]
        ensures Holds(ws, ps[i], net)
      {
        assert r[i + 1] == r[j + 1];
      }
      if p in ps {
        var j :| 0 <= j < |ps| && ps[j] == p;
        assert r[0] == r[j + 1];
      }
    }
  }

  lemma {:induction false} ParticipantKeysUnique(ws: seq<Wallet>, net: string, parties: seq<string>)
    ensures KeysUnique(ParticipantWallets(ws, net, parties)) <==> NewPartiesDistinct(ws, net, parties)
  {
    if parties != [] {
      var p, ps := parties[0], parties[1..];
      var tail := ParticipantWallets(ws, net, ps);
      ParticipantKeysUnique(ws, net, ps);
      ParticipantWalletsAre(ws, net, ps);
      assert parties == [p] + ps;
      NewPartiesCons(ws, net, p, ps);
      if !Holds(ws, p, net) {
        KeysUniqueCons(Wallet(false, Allocated, p, net, None), tail);
      }
    }
  }

  lemma KeysUniqueConcat(a: seq<Wallet>, b: seq<Wallet>, net: string)
    requires KeysUnique(a)
    requires forall i :: 0 <= i < |b| ==> b[i].networkId == net && !Holds(a, b[i].partyId, net)
    ensures KeysUnique(a + b) <==> KeysUnique(b)
  {
    if KeysUnique(a + b) {
      forall i, j | 0 <= i < j < |b|
        ensures !(b[i].partyId == b[j].partyId && b[i].networkId == b[j].networkId)
      {
        assert (a + b)[|a| + i] == b[i] && (a + b)[|a| + j] == b[j];
      }
    }
    if KeysUnique(b) {
      forall i, j | 0 <= i < j < |a + b|
        ensures !((a + b)[i].partyId == (a + b)[j].partyId && (a + b)[i].networkId == (a + b)[j].networkId)
      {
        if i < |a| <= j {
          assert !Holds(a, b[j - |a|].partyId, net);
          assert !IsAt(a[i], b[j - |a|].partyId, net);
        }
      }
    }
  }

  lemma EnsurePrimaryKeeps(ws: seq<Wallet>, net: string)
    requires OnePrimary(ws)
    ensures OnePrimary(EnsurePrimary(ws, net))
    ensures KeysUnique(EnsurePrimary(ws, net)) <==> KeysUnique(ws)
    ensures AnyIn(ws, net) ==> PrimaryIn(EnsurePrimary(ws, net), net)
    ensures forall n :: n != net && PrimaryIn(ws, n) ==> PrimaryIn(EnsurePrimary(ws, net), n)
  {
    var r := EnsurePrimary(ws, net);
    assert forall i :: 0 <= i < |ws| ==> r[i].partyId == ws[i].partyId && r[i].networkId == ws[i].networkId;
    if AnyIn(ws, net) && !PrimaryIn(ws, net) {
      var m := FirstIn(ws, net);
      assert r[m].networkId == net && r[m].primary;
      assert forall i :: 0 <= i < |ws| && ws[i].networkId == net ==> !ws[i].primary;
    }
    forall n | n != net && PrimaryIn(ws, n)
      ensures PrimaryIn(r, n)
    {
      var k :| 0 <= k < |ws| && ws[k].networkId == n && ws[k].primary;
      assert r[k] == ws[k];
    }
  }

  /**
   * Synchronising keeps primaries single and leaves the current network with exactly one if it has wallets; keys stay
   * unique exactly when no new party is listed twice.
   */
  lemma SyncKeeps(s: UserState, networks: set<string>, parties: seq<string>)
    requires Consistent(s.wallets) && CurrentNetwork(s.session, networks).Some?
    ensures OnePrimary(Sync(s, networks, parties).wallets)
    ensures KeysUnique(Sync(s, networks, parties).wallets) <==>
      NewPartiesDistinct(s.wallets, CurrentNetwork(s.session, networks).value, parties)
    ensures AnyIn(Sync(s, networks, parties).wallets, CurrentNetwork(s.session, networks).value)
      ==> PrimaryIn(Sync(s, networks, parties).wallets, CurrentNetwork(s.session, networks).value)
    ensures PrimaryEverywhere(s.wallets) ==> PrimaryEverywhere(Sync(s, networks, parties).wallets)
    ensures forall p ::
      p in parties ==> Holds(Sync(s, networks, parties).wallets, p, CurrentNetwork(s.session, networks).value)
  {
    var net := CurrentNetwork(s.session, networks).value;
    var added := ParticipantWallets(s.wallets, net, parties);
    var all := s.wallets + added;
    var r := Sync(s, networks, parties).wallets;
    ParticipantWalletsAre(s.wallets, net, parties);
    ParticipantKeysUnique(s.wallets, net, parties);
    KeysUniqueConcat(s.wallets, added, net);
    EnsurePrimaryKeeps(all, net);
    assert forall i :: 0 <= i < |all| ==> r[i].partyId == all[i].partyId && r[i].networkId == all[i].networkId;
    if AnyIn(r, net) {
      var i :| 0 <= i < |r| && r[i].networkId == net;
      assert all[i].networkId == net;
    }
    if PrimaryEverywhere(s.wallets) {
      SyncPrimaryEverywhere(s.wallets, added, net);
    }
    SyncHolds(s.wallets, added, net, parties);
  }

  lemma SyncPrimaryEverywhere(ws: seq<Wallet>, added: seq<Wallet>, net: string)
    requires PrimaryEverywhere(ws) && OnePrimary(ws + added)
      && forall i :: 0 <= i < |added| ==> added[i].networkId == net
    ensures PrimaryEverywhere(EnsurePrimary(ws + added, net))
  {
    var all := ws + added;
    var r := EnsurePrimary(all, net);
    EnsurePrimaryKeeps(all, net);
    forall i | 0 <= i < |r|
      ensures PrimaryIn(r, r[i].networkId)
    {
      assert r[i].networkId == all[i].networkId;
      if all[i].networkId != net {
        assert PrimaryIn(ws, ws[i].networkId);
        var k :| 0 <= k < |ws| && ws[k].networkId == ws[i].networkId && ws[k].primary;
        assert all[k] == ws[k];
        assert PrimaryIn(all, all[i].networkId);
      } else {
        assert AnyIn(all, net);
      }
    }
  }

  lemma SyncHolds(ws: seq<Wallet>, added: seq<Wallet>, net: string, parties: seq<string>)
    requires forall p :: p in parties && !Holds(ws, p, net) ==> Holds(added, p, net)
    ensures forall p :: p in parties ==> Holds(EnsurePrimary(ws + added, net), p, net)
  {
    var all := ws + added;
    var r := EnsurePrimary(all, net);
    assert forall i :: 0 <= i < |all| ==> r[i].partyId == all[i].partyId && r[i].networkId == all[i].networkId;
    forall p | p in parties
      ensures Holds(r, p, net)
    {
      if Holds(ws, p, net) {
        var i :| 0 <= i < |ws| && IsAt(ws[i], p, net);
        assert IsAt(r[i], p, net);
      } else {
        var i :| 0 <= i < |added| && IsAt(added[i], p, net);
        assert all[|ws| + i] == added[i];
        assert IsAt(r[|ws| + i], p, net);
      }
    }
  }

  /** The parties that have no wallet yet, in their order, with the place where each is listed. */
  lemma {:induction false} NewParties(ws: seq<Wallet>, net: string, parties: seq<string>) returns (at: seq<nat>)
    ensures |at| == |ParticipantWallets(ws, net, parties)|
    ensures Places(at, parties, PartiesOf(ParticipantWallets(ws, net, parties)))
    ensures forall k :: 0 <= k < |parties| ==> (k in at <==> !Holds(ws, parties[k], net))
  {
    if parties == [] {
      at := [];
    } else {
      var tail := ParticipantWallets(ws, net, parties[1..]);
      var rest := NewParties(ws, net, parties[1..]);
      var later := Shifted(rest, parties, PartiesOf(tail));
      at := if Holds(ws, parties[0], net) then later else [0] + later;
      assert !Holds(ws, parties[0], net) ==>
        PartiesOf(ParticipantWallets(ws, net, parties)) == [parties[0]] + PartiesOf(tail);
      forall k | 0 <= k < |parties|
        ensures k in at <==> !Holds(ws, parties[k], net)
      {
        ShiftedMembers(rest, later, k);
        assert k > 0 ==> parties[k] == parties[1..][k - 1];
      }
    }
  }

  function PartiesOf(ws: seq<Wallet>): seq<string> {
    seq(|ws|, i requires 0 <= i < |ws| => ws[i].partyId)
  }

  lemma {:induction false} NewWalletsAre(ws: seq<Wallet>, net: string, parties: seq<string>, i: nat)
    requires i < |ParticipantWallets(ws, net, parties)|
    ensures var w := ParticipantWallets(ws, net, parties)[i];
      w == Wallet(primary := false, status := Allocated, partyId := w.partyId, networkId := net, externalTxId := None)
  {
    if Holds(ws, parties[0], net) {
      NewWalletsAre(ws, net, parties[1..], i);
    } else if i > 0 {
      NewWalletsAre(ws, net, parties[1..], i - 1);
    }
  }

  /** The wallet at this place is in the network and none in front of it is. */
  ghost predicate FirstOf(ws: seq<Wallet>, net: string, i: nat)
    requires i < |ws|
  {
    ws[i].networkId == net && forall j :: 0 <= j < i ==> ws[j].networkId != net
  }

  lemma EnsuredPrimary(ws: seq<Wallet>, net: string, r: seq<Wallet>)
    requires r == EnsurePrimary(ws, net)
    ensures |r| == |ws|
    ensures forall i :: 0 <= i < |ws| ==> r[i] == ws[i].(primary := r[i].primary)
    ensures forall i :: 0 <= i < |ws| ==>
      (r[i].primary <==> ws[i].primary || (!PrimaryIn(ws, net) && FirstOf(r, net, i)))
  {
    forall i | 0 <= i < |ws|
      ensures r[i].primary <==> ws[i].primary || (!PrimaryIn(ws, net) && FirstOf(r, net, i))
    {
      assert forall j :: 0 <= j < |ws| ==> r[j].networkId == ws[j].networkId;
    }
  }

  lemma PrimaryInFront(ws: seq<Wallet>, added: seq<Wallet>, net: string)
    requires forall i :: 0 <= i < |added| ==> !added[i].primary
    ensures PrimaryIn(ws + added, net) <==> PrimaryIn(ws, net)
  {
    if PrimaryIn(ws, net) {
      var k :| 0 <= k < |ws| && ws[k].networkId == net && ws[k].primary;
      assert (ws + added)[k] == ws[k];
    }
  }

  /** r holds the old wallets and behind them an allocated one for each place of the list, in ascending order. */
  ghost predicate OldThenNew(ws: seq<Wallet>, r: seq<Wallet>, net: string, parties: seq<string>, at: seq<nat>) {
    && |r| == |ws| + |at|
    && (forall i :: 0 <= i < |ws| ==> r[i] == ws[i].(primary := r[i].primary))
    && (forall i :: |ws| <= i < |r| ==>
      r[i] == Wallet(primary := r[i].primary, status := Allocated, partyId := r[i].partyId, networkId := net,
        externalTxId := None))
    && Places(at, parties, PartiesOf(r[|ws|..]))
  }

  /** A flag is set if it was, or if the network had no primary wallet and this is its first one. */
  ghost predicate FlagsEnsured(ws: seq<Wallet>, r: seq<Wallet>, net: string) {
    forall i :: 0 <= i < |r| ==>
      (r[i].primary <==> (i < |ws| && ws[i].primary) || (!PrimaryIn(ws, net) && FirstOf(r, net, i)))
  }

  /**
   * What a synchronisation stores: the old wallets, then an allocated one for each listed party that had none, in the
   * order of the list. A flag changes only if the network had no primary wallet, and then that of its first one.
   */
  lemma SyncStores(s: UserState, networks: set<string>, parties: seq<string>) returns (at: seq<nat>)
    requires CurrentNetwork(s.session, networks).Some?
    ensures Sync(s, networks, parties).session == s.session
    ensures var net := CurrentNetwork(s.session, networks).value;
      && OldThenNew(s.wallets, Sync(s, networks, parties).wallets, net, parties, at)
      && (forall k :: 0 <= k < |parties| ==> (k in at <==> !Holds(s.wallets, parties[k], net)))
      && FlagsEnsured(s.wallets, Sync(s, networks, parties).wallets, net)
  {
    var net := CurrentNetwork(s.session, networks).value;
    at := NewParties(s.wallets, net, parties);
    StoredWallets(s.wallets, net, parties, at);
  }

  lemma StoredWallets(ws: seq<Wallet>, net: string, parties: seq<string>, at: seq<nat>)
    requires |at| == |ParticipantWallets(ws, net, parties)|
    requires Places(at, parties, PartiesOf(ParticipantWallets(ws, net, parties)))
    ensures OldThenNew(ws, EnsurePrimary(ws + ParticipantWallets(ws, net, parties), net), net, parties, at)
    ensures FlagsEnsured(ws, EnsurePrimary(ws + ParticipantWallets(ws, net, parties), net), net)
  {
    var added := ParticipantWallets(ws, net, parties);
    var r := EnsurePrimary(ws + added, net);
    forall i | 0 <= i < |added|
      ensures added[i] == Wallet(false, Allocated, added[i].partyId, net, None)
    {
      NewWalletsAre(ws, net, parties, i);
    }
    PrimaryInFront(ws, added, net);
    EnsuredPrimary(ws + added, net, r);
    assert PartiesOf(r[|ws|..]) == PartiesOf(added);
  }

  // ---------- runs ----------

  datatype Event = Do(op: Op) | SyncWith(parties: seq<string>)

  /** A failing operation leaves the state as it is. */
  function Apply(s: UserState, networks: set<string>, e: Event): UserState {
    match e
    case Do(op) => (match MemStep(s, networks, op) case None => s case Some(t) => t)
    case SyncWith(parties) => Sync(s, networks, parties)
  }

  function Run(s: UserState, networks: set<string>, events: seq<Event>): UserState
    decreases |events|
  {
    if events == [] then s else Run(Apply(s, networks, events[0]), networks, events[1..])
  }

  ghost predicate DistinctSyncs(events: seq<Event>) {
    forall i :: 0 <= i < |events| && events[i].SyncWith? ==> Distinct(events[i].parties)
  }

  /** No event of the run removes a primary wallet from among others. */
  predicate NoPrimaryRemoved(s: UserState, networks: set<string>, events: seq<Event>)
    decreases |events|
  {
    events == []
    || (!(events[0].Do? && RemovesPrimary(s, networks, events[0].op))
      && NoPrimaryRemoved(Apply(s, networks, events[0]), networks, events[1..]))
  }

  /**
   * Every run keeps keys unique and at most one primary per network; if it never removes a primary wallet from among
   * others, every network with a wallet keeps a primary one.
   */
  lemma {:induction false} RunKeeps(s: UserState, networks: set<string>, events: seq<Event>)
    requires Consistent(s.wallets) && DistinctSyncs(events)
    ensures Consistent(Run(s, networks, events).wallets)
    ensures PrimaryEverywhere(s.wallets) && NoPrimaryRemoved(s, networks, events) ==>
      PrimaryEverywhere(Run(s, networks, events).wallets)
    decreases |events|
  {
    if events != [] {
      match events[0] {
        case Do(op) =>
          if MemStep(s, networks, op).Some? {
            StepKeeps(s, networks, op);
          }
        case SyncWith(parties) =>
          if CurrentNetwork(s.session, networks).Some? {
            SyncKeeps(s, networks, parties);
          }
      }
      RunKeeps(Apply(s, networks, events[0]), networks, events[1..]);
    }
  }

  /** A removal can leave a network with a wallet but no primary one. */
  lemma RemovalCanLeaveNoPrimary()
    ensures exists s: UserState, networks: set<string>, events: seq<Event> ::
      PrimaryEverywhere(s.wallets) && Consistent(s.wallets) && !PrimaryEverywhere(Run(s, networks, events).wallets)
  {
    var a, b := Wallet(true, Allocated, "a", "n", None), Wallet(false, Allocated, "b", "n", None);
    var s := UserState([a, b], Some("n"));
    var events := [Do(RemoveWallet("a"))];
    assert PrimaryIn(s.wallets, "n") by { assert s.wallets[0].primary; }
    assert IsAt(s.wallets[0], "a", "n") && s.wallets[1].partyId != "a";
    RemovalKeepsPrimaryIff(s.wallets, "a", "n");
    assert Run(s, {"n"}, events)
      == Run(s.(wallets := Delete(s.wallets, "a", "n")), {"n"}, []) by { assert events[1..] == []; }
  }
}
