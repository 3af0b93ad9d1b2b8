/** What every operation of the SQL store keeps of what the tables promise, whatever the other store does. */
module WalletTables {
  import opened Wrappers
  import opened Wallets

  /** Clearing the one primary wallet found, and then setting one, clears every other one of this user and network. */
  lemma SinglePrimaryCleared(t: WalletTable, user: string, net: string, party: string, t': WalletTable)
    requires TableOk(t) && WalletKey(party, net, user) in t
    requires
      var cleared := if exists k ::
        IsPrimaryOf(t, user, net, k) then (var k :| IsPrimaryOf(t, user, net, k); SetPrimaryRow(t, k, 0)) else t;
      t' == SetPrimaryRow(cleared, WalletKey(party, net, user), 1)
    ensures t'.Keys == t.Keys && TableOk(t')
    ensures forall k ::
      k in t ==> t'[k] == if Of(k, user, net) then t[k].(primary := if k.partyId == party then 1 else 0) else t[k]
  {
    forall k | k in t
      ensures t'[k] == if Of(k, user, net) then t[k].(primary := if k.partyId == party then 1 else 0) else t[k]
    {
      if Of(k, user, net) && t[k].primary == 1 {
        assert IsPrimaryOf(t, user, net, k);
      }
    }
  }

  lemma InsertTableOk(t: WalletTable, user: string, w: Wallet)
    requires TableOk(t) && FromWallet(w, user).0 !in t
    requires w.primary ==> !exists k :: IsPrimaryOf(t, user, w.networkId, k)
    ensures TableOk(t[FromWallet(w, user).0 := FromWallet(w, user).1])
  {
    assert forall l :: l in t && Of(l, user, w.networkId) && t[l].primary == 1 ==> IsPrimaryOf(t, user, w.networkId, l);
  }

  lemma AddKeepsOk(t: WalletTable, known: set<string>, user: string, current: string, w: Wallet)
    requires TableOk(t) && SqlAdd(t, known, user, current, w).Some?
    ensures TableOk(SqlAdd(t, known, user, current, w).value)
    ensures SqlAdd(t, known, user, current, w).value.Keys == t.Keys + {FromWallet(w, user).0}
  {
    var added := w.(primary := w.primary || !UserHasWalletIn(t, user, current));
    InsertTableOk(if added.primary then DemoteRows(t, user, w.networkId) else t, user, added);
  }

  // ---------- primary wallets ----------

  predicate PrimaryAt(t: WalletTable, user: string, net: string) {
    exists p :: p in t && Of(p, user, net) && t[p].primary == 1
  }

  /** Every network in which the user has a wallet has a primary one of the user. */
  ghost predicate UserPrimaryEverywhere(t: WalletTable, user: string) {
    forall k :: k in t && k.userId == user ==> PrimaryAt(t, user, k.networkId)
  }

  predicate OtherWalletIn(t: WalletTable, key: WalletKey) {
    exists l :: l in t && Of(l, key.userId, key.networkId) && l != key
  }

  /** The key is of a primary wallet in a network in which the user has another one. */
  predicate PrimaryAmongOthers(t: WalletTable, key: WalletKey) {
    key in t && t[key].primary == 1 && OtherWalletIn(t, key)
  }

  /**
   * The operations after which a network of the user has wallets but no primary one: removing the primary one from
   * among others, and adding one that is not primary, while the current network has a wallet, to another that has none.
   */
  predicate LosesPrimary(db: Database, user: string, op: Op) {
    var current := CurrentNetwork(SessionOf(db, user), VisibleNetworks(db, user));
    match op
    case AddWallet(w) =>
      !w.primary && current.Some? && UserHasWalletIn(db.wallets, user, current.value)
        && !UserHasWalletIn(db.wallets, user, w.networkId)
    case RemoveWallet(party) => current.Some? && PrimaryAmongOthers(db.wallets, WalletKey(party, current.value, user))
    case _ => false
  }

  lemma AddKeepsPrimaryIff(t: WalletTable, known: set<string>, user: string, current: string, w: Wallet)
    requires TableOk(t) && UserPrimaryEverywhere(t, user) && SqlAdd(t, known, user, current, w).Some?
    ensures UserPrimaryEverywhere(SqlAdd(t, known, user, current, w).value, user) <==>
      w.primary || !UserHasWalletIn(t, user, current) || UserHasWalletIn(t, user, w.networkId)
  {
    var t', key := SqlAdd(t, known, user, current, w).value, FromWallet(w, user).0;
    if w.primary || !UserHasWalletIn(t, user, current) {
      assert t'[key].primary == 1;
      forall k | k in t' && k.userId == user
        ensures PrimaryAt(t', user, k.networkId)
      {
        if k.networkId == w.networkId {
          assert Of(key, user, k.networkId);
        } else {
          var p :| p in t && Of(p, user, k.networkId) && t[p].primary == 1;
          assert t'[p] == t[p];
        }
      }
    } else if UserHasWalletIn(t, user, w.networkId) {
      var l :| l in t && Of(l, user, w.networkId);
      forall k | k in t' && k.userId == user
        ensures PrimaryAt(t', user, k.networkId)
      {
        assert PrimaryAt(t, user, k.networkId) by {
          assert if k == key then l.networkId == k.networkId else k in t;
        }
        var p :| p in t && Of(p, user, k.networkId) && t[p].primary == 1;
        assert t'[p] == t[p];
      }
    } else {
      assert forall p :: p in t' && Of(p, user, w.networkId) ==> p == key;
      assert t'[key].primary == 0 && key.userId == user;
      assert !PrimaryAt(t', user, key.networkId);
    }
  }

  lemma SetKeepsPrimary(t: WalletTable, t': WalletTable, user: string, net: string, party: string)
    requires UserPrimaryEverywhere(t, user) && WalletKey(party, net, user) in t && t'.Keys == t.Keys
    requires forall k :: k in t ==>
      t'[k] == if Of(k, user, net) then t[k].(primary := if k.partyId == party then 1 else 0) else t[k]
    ensures UserPrimaryEverywhere(t', user)
  {
    forall k | k in t' && k.userId == user
      ensures PrimaryAt(t', user, k.networkId)
    {
      if k.networkId == net {
        assert t'[WalletKey(party, net, user)].primary == 1;
      } else {
        assert PrimaryAt(t, user, k.networkId);
        var p :| p in t && Of(p, user, k.networkId) && t[p].primary == 1;
        assert t'[p] == t[p];
      }
    }
  }

  lemma UpdateKeepsPrimary(t: WalletTable, user: string, key: WalletKey, status: WalletStatus, txId: string)
    requires UserPrimaryEverywhere(t, user)
    ensures UserPrimaryEverywhere(RelabelRow(t, key, status, txId), user)
  {
    var t' := RelabelRow(t, key, status, txId);
    forall k | k in t' && k.userId == user
      ensures PrimaryAt(t', user, k.networkId)
    {
      assert PrimaryAt(t, user, k.networkId);
      var p :| p in t && Of(p, user, k.networkId) && t[p].primary == 1;
      assert t'[p].primary == 1;
    }
  }

  lemma RemoveKeepsPrimaryIff(t: WalletTable, key: WalletKey)
    requires TableOk(t) && UserPrimaryEverywhere(t, key.userId)
    ensures UserPrimaryEverywhere(DeleteRow(t, key), key.userId) <==> !PrimaryAmongOthers(t, key)
  {
    var t', user := DeleteRow(t, key), key.userId;
    if PrimaryAmongOthers(t, key) {
      var l :| l in t && Of(l, user, key.networkId) && l != key;
      assert l in t' && l.userId == user;
      assert !PrimaryAt(t', user, l.networkId);
    } else {
      forall k | k in t' && k.userId == user
        ensures PrimaryAt(t', user, k.networkId)
      {
        assert PrimaryAt(t, user, k.networkId);
        var p :| p in t && Of(p, user, k.networkId) && t[p].primary == 1;
        assert p == key ==> Of(k, user, key.networkId) && k != key;
        assert p in t' && t'[p] == t[p];
      }
    }
  }

  /** Exactly which operations of the SQL store leave a network of the user with wallets but no primary one. */
  lemma StepKeepsPrimaryIff(db: Database, user: string, op: Op)
    requires DatabaseOk(db) && UserPrimaryEverywhere(db.wallets, user) && SqlStep(db, user, op).Some?
    ensures UserPrimaryEverywhere(SqlStep(db, user, op).value.wallets, user) <==> !LosesPrimary(db, user, op)
  {
    var current := CurrentNetwork(SessionOf(db, user), VisibleNetworks(db, user));
    match op
    case AddWallet(w) => AddKeepsPrimaryIff(db.wallets, db.networks.Keys, user, current.value, w);
    case SetPrimaryWallet(party) =>
      var t' := SqlStep(db, user, op).value.wallets;
      SinglePrimaryCleared(db.wallets, user, current.value, party, t');
      SetKeepsPrimary(db.wallets, t', user, current.value, party);
    case UpdateWallet(status, party, network, txId) =>
      UpdateKeepsPrimary(db.wallets, user, WalletKey(party, Target(network, current).value, user), status, txId);
    case RemoveWallet(party) => RemoveKeepsPrimaryIff(db.wallets, WalletKey(party, current.value, user));
    case _ =>
  }

  // ---------- sessions ----------

  lemma {:induction false} SessionGone(rows: seq<SessionRow>, user: string, u: string)
    ensures FirstSession(WithoutUser(rows, user), u) == if u == user then None else FirstSession(rows, u)
  {
    if rows != [] {
      SessionGone(rows[1..], user, u);
    }
  }

  lemma {:induction false} FirstSessionSnoc(rows: seq<SessionRow>, row: SessionRow, u: string)
    ensures FirstSession(rows + [row], u) ==
      if FirstSession(rows, u).Some? then FirstSession(rows, u) else if row.userId == u then Some(row.network) else None
  {
    if rows == [] {
      assert rows + [row] == [row] && [row][1..] == [];
    } else {
      FirstSessionSnoc(rows[1..], row, u);
      assert (rows + [row])[1..] == rows[1..] + [row];
    }
  }

  /** The new session is the user's, and those of others stay. */
  lemma NewSession(rows: seq<SessionRow>, user: string, net: string, u: string)
    ensures FirstSession(WithoutUser(rows, user) + [SessionRow(user, net)], u) == if u == user
      then Some(net) else FirstSession(rows, u)
  {
    SessionGone(rows, user, u);
    FirstSessionSnoc(WithoutUser(rows, user), SessionRow(user, net), u);
  }

  /**
   * After a login to a network that network is the current one exactly when it is a global one or the user's own; after
   * a logout there is none.
   */
  lemma LoginMakesCurrent(db: Database, user: string, net: string)
    ensures var after := SqlStep(db, user, SetSession(net)).value;
      CurrentNetwork(SessionOf(after, user), VisibleNetworks(after, user)) == Some(net) <==>
        net != "" && net in db.networks && db.networks[net] in {None, Some(user)}
    ensures var after := SqlStep(db, user, SetSession(net)).value;
      CurrentNetwork(SessionOf(after, user), VisibleNetworks(after, user)) in {None, Some(net)}
    ensures var after := SqlStep(db, user, RemoveSession).value;
      CurrentNetwork(SessionOf(after, user), VisibleNetworks(after, user)) == None
  {
    NewSession(db.sessions, user, net, user);
    SessionGone(db.sessions, user, user);
  }

  lemma {:induction false} WithoutUserMembers(rows: seq<SessionRow>, user: string)
    ensures forall i ::
      0 <= i < |WithoutUser(rows, user)| ==>
      WithoutUser(rows, user)[i] in rows && WithoutUser(rows, user)[i].userId != user
  {
    if rows != [] {
      WithoutUserMembers(rows[1..], user);
    }
  }

  lemma {:induction false} WithoutUserOneEach(rows: seq<SessionRow>, user: string)
    requires OneSessionEach(rows)
    ensures OneSessionEach(WithoutUser(rows, user))
  {
    if rows != [] {
      var rest := WithoutUser(rows[1..], user);
      WithoutUserOneEach(rows[1..], user);
      WithoutUserMembers(rows[1..], user);
      forall j | 0 <= j < |rest|
        ensures rest[j].userId != rows[0].userId
      {
        var k :| 0 <= k < |rows[1..]| && rows[1..][k] == rest[j];
        assert rows[k + 1] == rest[j];
      }
    }
  }

  // ---------- every step ----------

  /** Every operation keeps the unique index, the reference to existing networks and one session per user. */
  lemma StepKeepsOk(db: Database, user: string, op: Op)
    requires DatabaseOk(db) && SqlStep(db, user, op).Some?
    ensures DatabaseOk(SqlStep(db, user, op).value)
  {
    var current := CurrentNetwork(SessionOf(db, user), VisibleNetworks(db, user));
    match op
    case AddWallet(w) => AddKeepsOk(db.wallets, db.networks.Keys, user, current.value, w);
    case SetPrimaryWallet(party) =>
      SinglePrimaryCleared(db.wallets, user, current.value, party, SqlStep(db, user, op).value.wallets);
    case UpdateWallet(status, party, network, txId) =>
    case RemoveWallet(party) =>
    case SetSession(net) =>
      WithoutUserOneEach(db.sessions, user);
      WithoutUserMembers(db.sessions, user);
    case RemoveSession => WithoutUserOneEach(db.sessions, user);
  }
}
