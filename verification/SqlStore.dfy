/** The SQL store: statements on tables shared by all users. */
module SqlStore {
  import opened Wrappers
  import opened Wallets
  import opened WalletTables

  class StoreSql {
    var wallets: WalletTable
    var sessions: seq<SessionRow>
    var networks: map<string, Option<string>>

    constructor (networks: map<string, Option<string>>)
      ensures Tables() == Database(map[], [], networks) && DatabaseOk(Tables())
    {
      wallets := map[];
      sessions := [];
      this.networks := networks;
    }

    function Tables(): Database
      reads this
    {
      Database(wallets, sessions, networks)
    }

    function Current(user: string): Option<string>
      reads this
    {
      CurrentNetwork(SessionOf(Tables(), user), VisibleNetworks(Tables(), user))
    }

    method SetPrimaryWallet(user: string, partyId: string) returns (ok: bool)
      requires DatabaseOk(Tables())
      modifies this
      ensures DatabaseOk(Tables())
      ensures ok == SqlStep(old(Tables()), user, Op.SetPrimaryWallet(partyId)).Some?
      ensures Tables() == if ok then SqlStep(old(Tables()), user, Op.SetPrimaryWallet(partyId)).value else old(Tables())
    {
      var network := Current(user);
      if network.None? || WalletKey(partyId, network.value, user) !in wallets {
        return false;
      }
      StepKeepsOk(Tables(), user, Op.SetPrimaryWallet(partyId));
      var net := network.value;
      if exists k :: k in wallets && IsPrimaryOf(wallets, user, net, k) {
        var k :| k in wallets && IsPrimaryOf(wallets, user, net, k);
        wallets := SetPrimaryRow(wallets, k, 0);
      }
      wallets := SetPrimaryRow(wallets, WalletKey(partyId, net, user), 1);
      return true;
    }

    method AddWallet(user: string, wallet: Wallet) returns (ok: bool)
      requires DatabaseOk(Tables())
      modifies this
      ensures DatabaseOk(Tables())
      ensures ok == SqlStep(old(Tables()), user, Op.AddWallet(wallet)).Some?
      ensures Tables() == if ok then SqlStep(old(Tables()), user, Op.AddWallet(wallet)).value else old(Tables())
    {
      var network := Current(user);
      if network.None? {
        return false;
      }
      if wallet.networkId == network.value && WalletKey(wallet.partyId, wallet.networkId, user) in wallets {
        return false;
      }
      var added := wallet;
      if !UserHasWalletIn(wallets, user, network.value) {
        added := added.(primary := true);
      }
      var begin := wallets;
      if added.primary {
        wallets := DemoteRows(wallets, user, wallet.networkId);
      }
      var (key, row) := FromWallet(added, user);
      if key in wallets || key.networkId !in networks {
        // the primary key or the reference to networks refuses the row and the transaction is rolled back
        wallets := begin;
        return false;
      }
      wallets := wallets[key := row];
      AddKeepsOk(begin, networks.Keys, user, network.value, wallet);
      return true;
    }

    method UpdateWallet(user: string, status: WalletStatus, partyId: string, network: Option<string>,
          externalTxId: string)
        returns (ok: bool)
      requires DatabaseOk(Tables())
      modifies this
      ensures DatabaseOk(Tables())
      ensures ok == SqlStep(old(Tables()), user, Op.UpdateWallet(status, partyId, network, externalTxId)).Some?
      ensures Tables() == if ok
        then SqlStep(old(Tables()), user, Op.UpdateWallet(status, partyId, network, externalTxId)).value
        else old(Tables())
      ensures ok ==> wallets.Keys == old(wallets.Keys)
      ensures ok ==> forall k :: k in wallets ==>
        if k.userId == user && k.partyId == partyId
          && Some(k.networkId) == (if network.Some? then network else old(Current(user)))
        then ToWalletStatus(wallets[k].status) == status && wallets[k].externalTxId == Some(externalTxId)
          && wallets[k].primary == old(wallets[k].primary)
        else wallets[k] == old(wallets[k])
    {
      var target := Target(network, Current(user));
      if target.None? {
        return false;
      }
      wallets := RelabelRow(wallets, WalletKey(partyId, target.value, user), status, externalTxId);
      return true;
    }

    method RemoveWallet(user: string, partyId: string) returns (ok: bool)
      requires DatabaseOk(Tables())
      modifies this
      ensures DatabaseOk(Tables())
      ensures ok == SqlStep(old(Tables()), user, Op.RemoveWallet(partyId)).Some?
      ensures Tables() == if ok then SqlStep(old(Tables()), user, Op.RemoveWallet(partyId)).value else old(Tables())
      ensures ok ==>
        old(Current(user)).Some? && wallets == old(wallets) - {WalletKey(partyId, old(Current(user)).value, user)}
    {
      var network := Current(user);
      if network.None? {
        return false;
      }
      wallets := DeleteRow(wallets, WalletKey(partyId, network.value, user));
      return true;
    }

    /** Deletes the rows of the user's old session and inserts the new one. */
    method SetSession(user: string, network: string)
      requires DatabaseOk(Tables())
      modifies this
      ensures DatabaseOk(Tables())
      ensures Some(Tables()) == SqlStep(old(Tables()), user, Op.SetSession(network))
      ensures forall u :: SessionOf(Tables(), u) == if u == user then Some(network) else SessionOf(old(Tables()), u)
    {
      StepKeepsOk(Tables(), user, Op.SetSession(network));
      forall u
        ensures FirstSession(WithoutUser(sessions, user) + [SessionRow(user, network)], u) == if u == user
          then Some(network) else FirstSession(sessions, u)
      {
        NewSession(sessions, user, network, u);
      }
      sessions := WithoutUser(sessions, user);
      sessions := sessions + [SessionRow(user, network)];
    }

    method RemoveSession(user: string)
      requires DatabaseOk(Tables())
      modifies this
      ensures DatabaseOk(Tables())
      ensures Some(Tables()) == SqlStep(old(Tables()), user, Op.RemoveSession)
      ensures forall u :: SessionOf(Tables(), u) == if u == user then None else SessionOf(old(Tables()), u)
    {
      StepKeepsOk(Tables(), user, Op.RemoveSession);
      forall u
        ensures FirstSession(WithoutUser(sessions, user), u) == if u == user then None else FirstSession(sessions, u)
      {
        SessionGone(sessions, user, u);
      }
      sessions := WithoutUser(sessions, user);
    }
  }
}
