/** The in-memory store: wallet objects whose primary flag is flipped in place. */
module InMemoryStore {
  import opened Wrappers
  import opened Sequences
  import opened Wallets

  /** All fields but `primary` are replaced together with the object. */
  class WalletObject {
    var primary: bool
    const status: WalletStatus
    const partyId: string
    const networkId: string
    const externalTxId: Option<string>

    constructor (w: Wallet)
      ensures View() == w
    {
      primary, status, partyId, networkId, externalTxId := w.primary, w.status, w.partyId, w.networkId, w.externalTxId;
    }

    function View(): Wallet
      reads this
    {
      Wallet(primary, status, partyId, networkId, externalTxId)
    }
  }

  function Views(ws: seq<WalletObject>): (r: seq<Wallet>)
    reads ws
  {
    seq(|ws|, i requires 0 <= i < |ws| reads ws => ws[i].View())
  }

  lemma HeldIfIn(ws: seq<WalletObject>, w: WalletObject)
    ensures w in ws ==> Holds(Views(ws), w.partyId, w.networkId)
  {
    if w in ws {
      var i :| 0 <= i < |ws| && ws[i] == w;
      assert IsAt(Views(ws)[i], w.partyId, w.networkId);
    }
  }

  /** The storage of one user, on which the methods of StoreInternal work once the user is known. */
  class UserStorage {
    var wallets: seq<WalletObject>
    var session: Option<string>

    constructor ()
      ensures Valid() && State() == UserState([], None)
    {
      wallets := [];
      session := None;
    }

    ghost predicate Valid()
      reads this
    {
      Distinct(wallets)
    }

    function State(): UserState
      reads this, wallets
    {
      UserState(Views(wallets), session)
    }

    method SetPrimaryWallet(networks: set<string>, partyId: string) returns (ok: bool)
      requires Valid()
      modifies this, wallets
      ensures Valid() && wallets == old(wallets)
      ensures ok == MemStep(old(State()), networks, Op.SetPrimaryWallet(partyId)).Some?
      ensures State() == if ok
        then MemStep(old(State()), networks, Op.SetPrimaryWallet(partyId)).value else old(State())
    {
      var network := CurrentNetwork(session, networks);
      if network.None? || !Holds(Views(wallets), partyId, network.value) {
        return false;
      }
      ghost var before := Views(wallets);
      for i := 0 to |wallets|
        invariant Distinct(wallets) && wallets == old(wallets) && session == old(session)
        invariant forall j :: 0 <= j < i ==> wallets[j].View() == MarkPrimary(before, partyId, network.value)[j]
        invariant forall j :: i <= j < |wallets| ==> wallets[j].View() == before[j]
      {
        if wallets[i].networkId == network.value {
          wallets[i].primary := wallets[i].partyId == partyId;
        }
      }
      assert Views(wallets) == MarkPrimary(before, partyId, network.value);
      return true;
    }

    /** Turns the flag of every wallet of a network off. */
    method DemoteAll(net: string)
      requires Valid()
      modifies wallets
      ensures Views(wallets) == Demote(old(Views(wallets)), net)
    {
      ghost var before := Views(wallets);
      for i := 0 to |wallets|
        invariant forall j :: 0 <= j < i ==> wallets[j].View() == Demote(before, net)[j]
        invariant forall j :: i <= j < |wallets| ==> wallets[j].View() == before[j]
      {
        if wallets[i].networkId == net {
          wallets[i].primary := false;
        }
      }
    }

    method AddWallet(networks: set<string>, wallet: WalletObject) returns (ok: bool)
      requires Valid()
      modifies this, wallets, wallet
      ensures Valid()
      ensures ok == MemStep(old(State()), networks, Op.AddWallet(old(wallet.View()))).Some?
      ensures State() == if ok
        then MemStep(old(State()), networks, Op.AddWallet(old(wallet.View()))).value else old(State())
      ensures ok ==> wallets == old(wallets) + [wallet]
    {
      ghost var given := wallet.View();
      if Holds(Views(wallets), wallet.partyId, wallet.networkId) {
        return false;
      }
      HeldIfIn(wallets, wallet);
      ghost var before := Views(wallets);
      if !AnyIn(Views(wallets), wallet.networkId) {
        wallet.primary := true;
      }
      assert Views(wallets) == before;
      if wallet.primary {
        DemoteAll(wallet.networkId);
      }
      wallets := wallets + [wallet];
      assert Views(wallets) == Append(before, given);
      return true;
    }

    method UpdateWallet(networks: set<string>, status: WalletStatus, partyId: string, network: Option<string>,
          externalTxId: string) returns (ok: bool)
      requires Valid()
      modifies this
      ensures Valid()
      ensures ok == MemStep(old(State()), networks, Op.UpdateWallet(status, partyId, network, externalTxId)).Some?
      ensures State() == if ok
        then MemStep(old(State()), networks, Op.UpdateWallet(status, partyId, network, externalTxId)).value
        else old(State())
    {
      var target := Target(network, CurrentNetwork(session, networks));
      if target.None? {
        return false;
      }
      ghost var before := Views(wallets);
      var updated: seq<WalletObject> := [];
      for i := 0 to |wallets|
        invariant wallets == old(wallets) && session == old(session) && |updated| == i
        invariant Views(wallets) == before
        invariant forall j ::
          0 <= j < i ==> updated[j].View() == Relabel(before, partyId, target.value, status, externalTxId)[j]
        invariant forall j :: 0 <= j < i ==> updated[j] == wallets[j] || updated[j] !in wallets
        invariant Distinct(updated)
      {
        var w := wallets[i];
        assert before[i] == w.View();
        if w.partyId == partyId && w.networkId == target.value {
          w := new WalletObject(Wallet(w.primary, status, w.partyId, w.networkId, Some(externalTxId)));
        }
        updated := updated + [w];
      }
      wallets := updated;
      assert Views(wallets) == Relabel(before, partyId, target.value, status, externalTxId);
      return true;
    }

    method RemoveWallet(networks: set<string>, partyId: string) returns (ok: bool)
      requires Valid()
      modifies this
      ensures Valid()
      ensures ok == MemStep(old(State()), networks, Op.RemoveWallet(partyId)).Some?
      ensures State() == if ok then MemStep(old(State()), networks, Op.RemoveWallet(partyId)).value else old(State())
    {
      var network := CurrentNetwork(session, networks);
      if network.None? {
        return false;
      }
      KeepOthersViews(wallets, partyId, network.value);
      wallets := KeepOthers(wallets, partyId, network.value);
      return true;
    }

    method SetSession(network: string)
      modifies this`session
      ensures State() == old(State()).(session := Some(network))
    {
      session := Some(network);
    }

    method RemoveSession()
      modifies this`session
      ensures State() == old(State()).(session := None)
    {
      session := None;
    }

    /** syncWallets, given the parties the user can act as. */
    method SyncWallets(networks: set<string>, parties: seq<string>)
      requires Valid()
      modifies this, wallets
      ensures Valid()
      ensures State() == Sync(old(State()), networks, parties)
    {
      var network := CurrentNetwork(session, networks);
      if network.None? {
        return;
      }
      var net := network.value;
      ghost var before := Views(wallets);
      var added := NewWallets(ParticipantWallets(Views(wallets), net, parties));
      var all := wallets + added;
      assert Views(all) == before + ParticipantWallets(before, net, parties);
      if AnyIn(Views(all), net) && !PrimaryIn(Views(all), net) {
        all[FirstIn(Views(all), net)].primary := true;
      }
      wallets := all;
      assert Views(wallets) == EnsurePrimary(before + ParticipantWallets(before, net, parties), net);
    }
  }

  method NewWallets(ws: seq<Wallet>) returns (objects: seq<WalletObject>)
    ensures Views(objects) == ws && Distinct(objects) && fresh(objects)
  {
    objects := [];
    for i := 0 to |ws|
      invariant |objects| == i && fresh(objects) && Distinct(objects)
      invariant forall j :: 0 <= j < i ==> objects[j].View() == ws[j]
    {
      var w := new WalletObject(ws[i]);
      objects := objects + [w];
    }
  }

  /** The objects that removeWallet keeps; the fields it looks at never change. */
  function KeepOthers(ws: seq<WalletObject>, party: string, net: string): (r: seq<WalletObject>)
    ensures forall w :: w in r ==> w in ws
    ensures Distinct(ws) ==> Distinct(r)
  {
    if ws == [] then []
    else
      var rest := KeepOthers(ws[1..], party, net);
      assert Distinct(ws) ==> ws[0] !in ws[1..] && ws[0] !in rest;
      if ws[0].partyId == party && ws[0].networkId == net then rest else [ws[0]] + rest
  }

  lemma {:induction false} KeepOthersViews(ws: seq<WalletObject>, party: string, net: string)
    ensures Views(KeepOthers(ws, party, net)) == Delete(Views(ws), party, net)
  {
    if ws != [] {
      KeepOthersViews(ws[1..], party, net);
      assert Views(ws)[1..] == Views(ws[1..]);
      assert Views(ws)[0] == ws[0].View();
      var rest := KeepOthers(ws[1..], party, net);
      assert Views([ws[0]] + rest) == [ws[0].View()] + Views(rest);
    }
  }
}
