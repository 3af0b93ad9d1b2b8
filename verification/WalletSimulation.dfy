/** The two implementations of the store interface, step by step. */
module WalletSimulation {
  import opened Wrappers
  import opened Wallets
  import opened WalletInvariants
  import opened WalletTables

  function TextOf(txId: Option<string>): string {
    match txId
    case None => ""
    case Some(t) => t
  }

  /** The row shows the same primary flag, status and external transaction id as the wallet. */
  predicate Same(w: Wallet, row: WalletRow) {
    w.primary == (row.primary != 0) && w.status == ToWalletStatus(row.status)
      && TextOf(w.externalTxId) == TextOf(row.externalTxId)
  }

  function KeyOf(w: Wallet, user: string): WalletKey {
    WalletKey(w.partyId, w.networkId, user)
  }

  /** The user's rows and the user's list hold the same wallets, each once, with the same contents. */
  ghost predicate Simulates(t: WalletTable, user: string, ws: seq<Wallet>) {
    && KeysUnique(ws)
    && (forall i :: 0 <= i < |ws| ==> KeyOf(ws[i], user) in t && Same(ws[i], t[KeyOf(ws[i], user)]))
    && forall k :: k in t && k.userId == user ==> Holds(ws, k.partyId, k.networkId)
  }

  ghost predicate StatesMatch(db: Database, user: string, s: UserState) {
    Simulates(db.wallets, user, s.wallets) && SessionOf(db, user) == s.session
  }

  /** An update of one list element at a time matches an update of one row at a time. */
  lemma PointwiseSimulates(t: WalletTable, t': WalletTable, user: string, ws: seq<Wallet>, ws': seq<Wallet>)
    requires Simulates(t, user, ws)
    requires t'.Keys == t.Keys && |ws'| == |ws|
    requires forall i :: 0 <= i < |ws| ==> ws'[i].partyId == ws[i].partyId && ws'[i].networkId == ws[i].networkId
    requires forall i :: 0 <= i < |ws| ==> Same(ws'[i], t'[KeyOf(ws[i], user)])
    ensures Simulates(t', user, ws')
  {
    forall k | k in t' && k.userId == user
      ensures Holds(ws', k.partyId, k.networkId)
    {
      var i :| 0 <= i < |ws| && IsAt(ws[i], k.partyId, k.networkId);
      assert IsAt(ws'[i], k.partyId, k.networkId);
    }
  }

  // ---------- adding ----------

  /** What decides whether the two ways of adding a wallet agree; known are the networks that exist for any user. */
  predicate AddAgrees(s: UserState, networks: set<string>, known: set<string>, w: Wallet) {
    var current := CurrentNetwork(s.session, networks);
    || Holds(s.wallets, w.partyId, w.networkId)
    || (current.Some? && w.networkId in known
      && (w.primary || (AnyIn(s.wallets, current.value) <==> AnyIn(s.wallets, w.networkId))))
  }

  lemma AddToCurrentAgrees(s: UserState, networks: set<string>, known: set<string>, w: Wallet)
    requires networks <= known && CurrentNetwork(s.session, networks) == Some(w.networkId)
    ensures AddAgrees(s, networks, known, w)
  {
  }

  lemma DemoteSimulates(t: WalletTable, user: string, ws: seq<Wallet>, net: string)
    requires Simulates(t, user, ws) && TableOk(t)
    ensures Simulates(DemoteRows(t, user, net), user, Demote(ws, net))
  {
    PointwiseSimulates(t, DemoteRows(t, user, net), user, ws, Demote(ws, net));
  }

  lemma InsertSimulates(t: WalletTable, user: string, ws: seq<Wallet>, w: Wallet)
    requires Simulates(t, user, ws) && !Holds(ws, w.partyId, w.networkId)
    ensures Simulates(t[KeyOf(w, user) := FromWallet(w, user).1], user, ws + [w])
  {
    var t', ws' := t[KeyOf(w, user) := FromWallet(w, user).1], ws + [w];
    assert forall i :: 0 <= i < |ws| ==> !IsAt(ws[i], w.partyId, w.networkId);
    forall k | k in t' && k.userId == user
      ensures Holds(ws', k.partyId, k.networkId)
    {
      if k in t {
        var i :| 0 <= i < |ws| && IsAt(ws[i], k.partyId, k.networkId);
        assert ws'[i] == ws[i];
      } else {
        assert ws'[|ws|] == w;
      }
    }
  }

  lemma AddSimulates(t: WalletTable, known: set<string>, user: string, ws: seq<Wallet>, current: string, w: Wallet)
    requires Simulates(t, user, ws) && TableOk(t)
    requires !Holds(ws, w.partyId, w.networkId) && w.networkId in known
    requires w.primary || (AnyIn(ws, current) <==> AnyIn(ws, w.networkId))
    ensures SqlAdd(t, known, user, current, w).Some?
    ensures Simulates(SqlAdd(t, known, user, current, w).value, user, Append(ws, w))
  {
    var added := w.(primary := w.primary || !AnyIn(ws, w.networkId));
    DemoteSimulates(t, user, ws, w.networkId);
    var t' := if added.primary then DemoteRows(t, user, w.networkId) else t;
    var ws' := if added.primary then Demote(ws, w.networkId) else ws;
    InsertSimulates(t', user, ws', added);
  }

  /** In every other case one of the stores fails where the other does not, or the new wallets differ. */
  lemma AddDiverges(db: Database, user: string, s: UserState, w: Wallet)
    requires StatesMatch(db, user, s) && TableOk(db.wallets)
    requires !AddAgrees(s, VisibleNetworks(db, user), db.networks.Keys, w)
    ensures MemStep(s, VisibleNetworks(db, user), AddWallet(w)).Some?
    ensures SqlStep(db, user, AddWallet(w)).Some? ==>
      !StatesMatch(SqlStep(db, user, AddWallet(w)).value, user,
        MemStep(s, VisibleNetworks(db, user), AddWallet(w)).value)
  {
    var ws, t := s.wallets, db.wallets;
    var current := CurrentNetwork(s.session, VisibleNetworks(db, user));
    if current.Some? && w.networkId in db.networks {
      var ws', t' := Append(ws, w), SqlAdd(t, db.networks.Keys, user, current.value, w).value;
      assert ws'[|ws|].primary == !AnyIn(ws, w.networkId);
      assert t'[KeyOf(ws'[|ws|], user)].primary == if AnyIn(ws, current.value) then 0 else 1;
      assert !Same(ws'[|ws|], t'[KeyOf(ws'[|ws|], user)]);
    }
  }

  /** A wallet for a network that does not exist is taken by the in-memory store and refused by the SQL store. */
  lemma UnknownNetworkDiverges(db: Database, user: string, s: UserState, w: Wallet)
    requires StatesMatch(db, user, s) && w.networkId !in db.networks && !Holds(s.wallets, w.partyId, w.networkId)
    ensures MemStep(s, VisibleNetworks(db, user), AddWallet(w)).Some? && SqlStep(db, user, AddWallet(w)).None?
  {
  }

  // ---------- the other operations ----------

  lemma SetPrimarySimulates(db: Database, user: string, s: UserState, party: string)
    requires StatesMatch(db, user, s) && TableOk(db.wallets)
    ensures var networks := VisibleNetworks(db, user);
      && (SqlStep(db, user, SetPrimaryWallet(party)).Some? <==> MemStep(s, networks, SetPrimaryWallet(party)).Some?)
      && (SqlStep(db, user, SetPrimaryWallet(party)).Some? ==>
            StatesMatch(SqlStep(db, user, SetPrimaryWallet(party)).value, user,
              MemStep(s, networks, SetPrimaryWallet(party)).value))
  {
    var current := CurrentNetwork(s.session, VisibleNetworks(db, user));
    if current.Some? {
      var net := current.value;
      if Holds(s.wallets, party, net) {
        var t := db.wallets;
        var t' := SqlStep(db, user, SetPrimaryWallet(party)).value.wallets;
        SinglePrimaryCleared(t, user, net, party, t');
        forall i | 0 <= i < |s.wallets|
          ensures Same(MarkPrimary(s.wallets, party, net)[i], t'[KeyOf(s.wallets[i], user)])
        {
          assert Same(s.wallets[i], t[KeyOf(s.wallets[i], user)]);
        }
        PointwiseSimulates(t, t', user, s.wallets, MarkPrimary(s.wallets, party, net));
      }
    }
  }

  lemma UpdateSimulates(t: WalletTable, user: string, ws: seq<Wallet>, party: string, net: string, status: WalletStatus,
        txId: string)
    requires Simulates(t, user, ws)
    ensures Simulates(RelabelRow(t, WalletKey(party, net, user), status, txId), user,
      Relabel(ws, party, net, status, txId))
  {
    PointwiseSimulates(t, RelabelRow(t, WalletKey(party, net, user), status, txId), user, ws,
      Relabel(ws, party, net, status, txId));
  }

  lemma RemoveSimulates(t: WalletTable, user: string, ws: seq<Wallet>, party: string, net: string)
    requires Simulates(t, user, ws)
    ensures Simulates(DeleteRow(t, WalletKey(party, net, user)), user, Delete(ws, party, net))
  {
    var t', ws' := DeleteRow(t, WalletKey(party, net, user)), Delete(ws, party, net);
    var at := DeleteIndex(ws, party, net);
    forall k | k in t' && k.userId == user
      ensures Holds(ws', k.partyId, k.networkId)
    {
      DeleteHolds(ws, party, net, k.partyId, k.networkId);
    }
  }

  /** One operation fails in both stores or in neither, and afterwards they still match. */
  lemma StepSimulates(db: Database, user: string, s: UserState, networks: set<string>, op: Op)
    requires StatesMatch(db, user, s) && TableOk(db.wallets) && networks == VisibleNetworks(db, user)
    requires op.AddWallet? ==> AddAgrees(s, networks, db.networks.Keys, op.wallet)
    ensures SqlStep(db, user, op).Some? <==> MemStep(s, networks, op).Some?
    ensures SqlStep(db, user, op).Some? ==>
      StatesMatch(SqlStep(db, user, op).value, user, MemStep(s, networks, op).value)
  {
    var current := CurrentNetwork(s.session, networks);
    match op
    case AddWallet(w) =>
      if !Holds(s.wallets, w.partyId, w.networkId) {
        AddSimulates(db.wallets, db.networks.Keys, user, s.wallets, current.value, w);
      }
    case SetPrimaryWallet(party) => SetPrimarySimulates(db, user, s, party);
    case UpdateWallet(status, party, network, txId) =>
      if network.Some? || current.Some? {
        UpdateSimulates(db.wallets, user, s.wallets, party, Target(network, current).value, status, txId);
      }
    case RemoveWallet(party) =>
      if current.Some? {
        RemoveSimulates(db.wallets, user, s.wallets, party, current.value);
      }
    case SetSession(net) => NewSession(db.sessions, user, net, user);
    case RemoveSession => SessionGone(db.sessions, user, user);
  }

  /** Wallets and sessions of other users, and the networks, are as before. */
  ghost predicate OthersUnchanged(db: Database, db': Database, user: string) {
    && (forall k ::
      k in db.wallets.Keys + db'.wallets.Keys && k.userId != user ==>
      k in db.wallets && k in db'.wallets && db'.wallets[k] == db.wallets[k])
    && (forall u :: u != user ==> SessionOf(db', u) == SessionOf(db, u))
    && db'.networks == db.networks
  }

  lemma StepLeavesOthers(db: Database, user: string, op: Op)
    requires SqlStep(db, user, op).Some?
    ensures OthersUnchanged(db, SqlStep(db, user, op).value, user)
  {
    forall u | u != user
      ensures SessionOf(SqlStep(db, user, op).value, u) == SessionOf(db, u)
    {
      match op
      case SetSession(net) => NewSession(db.sessions, user, net, u);
      case RemoveSession => SessionGone(db.sessions, user, u);
      case _ =>
    }
  }

  // ---------- runs ----------

  /** A failing operation leaves the database as it is. */
  function AfterStep(db: Database, r: Option<Database>): Database {
    match r
    case None => db
    case Some(d) => d
  }

  /** The outcomes (true for success) and the final database of a run. */
  ghost function SqlRun(db: Database, user: string, ops: seq<Op>): (seq<bool>, Database)
    decreases |ops|
  {
    if ops == [] then ([], db)
    else
      var r := SqlStep(db, user, ops[0]);
      var rest := SqlRun(AfterStep(db, r), user, ops[1..]);
      ([r.Some?] + rest.0, rest.1)
  }

  function MemRun(s: UserState, networks: set<string>, ops: seq<Op>): (seq<bool>, UserState)
    decreases |ops|
  {
    if ops == [] then ([], s)
    else
      var r := MemStep(s, networks, ops[0]);
      var rest := MemRun(match r case None => s case Some(t) => t, networks, ops[1..]);
      ([r.Some?] + rest.0, rest.1)
  }

  /** Every wallet is added while the two stores agree on adding it, in particular to the current network. */
  predicate AddsAgree(s: UserState, networks: set<string>, known: set<string>, ops: seq<Op>)
    decreases |ops|
  {
    ops == []
    || ((ops[0].AddWallet? ==> AddAgrees(s, networks, known, ops[0].wallet))
        && AddsAgree(match MemStep(s, networks, ops[0]) case None => s case Some(t) => t, networks, known, ops[1..]))
  }

  /**
   * Runs of the two stores give the same successes and failures and end in matching states; other users are not
   * affected.
   */
  lemma {:induction false} RunSimulates(db: Database, user: string, s: UserState, networks: set<string>, ops: seq<Op>)
    requires StatesMatch(db, user, s) && DatabaseOk(db) && networks == VisibleNetworks(db, user)
    requires AddsAgree(s, networks, db.networks.Keys, ops)
    ensures SqlRun(db, user, ops).0 == MemRun(s, networks, ops).0
    ensures StatesMatch(SqlRun(db, user, ops).1, user, MemRun(s, networks, ops).1)
    ensures DatabaseOk(SqlRun(db, user, ops).1)
    ensures OthersUnchanged(db, SqlRun(db, user, ops).1, user)
    decreases |ops|
  {
    if ops != [] {
      var r := SqlStep(db, user, ops[0]);
      StepSimulates(db, user, s, networks, ops[0]);
      if r.Some? {
        StepKeepsOk(db, user, ops[0]);
        StepLeavesOthers(db, user, ops[0]);
        assert VisibleNetworks(r.value, user) == networks;
      }
      RunSimulates(AfterStep(db, r), user, match MemStep(s, networks, ops[0]) case None => s case Some(t) => t,
        networks, ops[1..]);
    }
  }

  /** Reading a wallet back from its row gives the wallet, an absent transaction id being read as empty. */
  lemma WalletRoundTrip(w: Wallet, user: string)
    ensures ToWallet(FromWallet(w, user).0, FromWallet(w, user).1) == w.(externalTxId := Some(TextOf(w.externalTxId)))
    ensures FromWallet(w, user).0 == WalletKey(partyId := w.partyId, networkId := w.networkId, userId := user)
    ensures FromWallet(w, user).1 == WalletRow(
      primary := if w.primary then 1 else 0,
      status := Some(if w.status == Allocated then "allocated" else "initialized"),
      externalTxId := w.externalTxId)
  {
    assert StatusText(w.status) == "allocated" <==> w.status == Allocated by {
      assert StatusText(Initialized)[0] == 'i';
    }
  }

  lemma EmptyStoresMatch(user: string, networks: map<string, Option<string>>)
    ensures StatesMatch(Database(map[], [], networks), user, UserState([], None))
    ensures DatabaseOk(Database(map[], [], networks))
  {
  }
}
