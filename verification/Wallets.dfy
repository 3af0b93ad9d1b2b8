/**
 * Wallet operations as functions on values: the in-memory store on the list of one user's wallets, the SQL store on
 * tables shared by all users.
 */
module Wallets {
  import opened Wrappers

  datatype WalletStatus = Initialized | Allocated

  /** The fields that the operations read or write; the others are carried along unchanged. */
  datatype Wallet = Wallet(
    primary: bool,
    status: WalletStatus,
    partyId: string,
    networkId: string,
    externalTxId: Option<string>)

  datatype Op =
    | AddWallet(wallet: Wallet)
    | SetPrimaryWallet(partyId: string)
    | UpdateWallet(status: WalletStatus, target: string, network: Option<string>, externalTxId: string)
    | RemoveWallet(gone: string)
    | SetSession(sessionNetwork: string)
    | RemoveSession

  /** getCurrentNetwork: None is a thrown error. */
  function CurrentNetwork(session: Option<string>, networks: set<string>): Option<string> {
    match session
    case None => None
    case Some(n) => if n != "" && n in networks then Some(n) else None
  }

  /** The network an update is for: the one given, or else the current one. */
  function Target(network: Option<string>, current: Option<string>): Option<string> {
    match network
    case Some(n) => Some(n)
    case None => current
  }

  predicate IsAt(w: Wallet, party: string, net: string) {
    w.partyId == party && w.networkId == net
  }

  predicate Holds(ws: seq<Wallet>, party: string, net: string) {
    exists i :: 0 <= i < |ws| && IsAt(ws[i], party, net)
  }

  predicate AnyIn(ws: seq<Wallet>, net: string) {
    exists i :: 0 <= i < |ws| && ws[i].networkId == net
  }

  predicate PrimaryIn(ws: seq<Wallet>, net: string) {
    exists i :: 0 <= i < |ws| && ws[i].networkId == net && ws[i].primary
  }

  // ---------- the in-memory store ----------

  datatype UserState = UserState(wallets: seq<Wallet>, session: Option<string>)

  /** In this network, exactly the wallets of this party become primary. */
  function MarkPrimary(ws: seq<Wallet>, party: string, net: string): (r: seq<Wallet>)
  {
    seq(|ws|, i requires 0 <= i < |ws| => if ws[i].networkId == net
      then ws[i].(primary := ws[i].partyId == party) else ws[i])
  }

  function Demote(ws: seq<Wallet>, net: string): (r: seq<Wallet>)
  {
    seq(|ws|, i requires 0 <= i < |ws| => if ws[i].networkId == net then ws[i].(primary := false) else ws[i])
  }

  /** The first wallet of a network is made primary, and a new primary wallet demotes the others. */
  function Append(ws: seq<Wallet>, wallet: Wallet): seq<Wallet> {
    var added := wallet.(primary := wallet.primary || !AnyIn(ws, wallet.networkId));
    (if added.primary then Demote(ws, wallet.networkId) else ws) + [added]
  }

  function Relabel(ws: seq<Wallet>, party: string, net: string, status: WalletStatus, txId: string): (r: seq<Wallet>)
  {
    seq(|ws|, i requires 0 <= i < |ws| => if IsAt(ws[i], party, net)
      then ws[i].(status := status, externalTxId := Some(txId)) else ws[i])
  }

  function Delete(ws: seq<Wallet>, party: string, net: string): seq<Wallet> {
    if ws == [] then []
    else if IsAt(ws[0], party, net) then Delete(ws[1..], party, net)
    else [ws[0]] + Delete(ws[1..], party, net)
  }

  /** None is a thrown error; the state is then unchanged. */
  function MemStep(s: UserState, networks: set<string>, op: Op): Option<UserState> {
    var current := CurrentNetwork(s.session, networks);
    match op
    case AddWallet(w) =>
      if Holds(s.wallets, w.partyId, w.networkId) then None else Some(s.(wallets := Append(s.wallets, w)))
    case SetPrimaryWallet(party) =>
      if current.None? || !Holds(s.wallets, party, current.value) then None
      else Some(s.(wallets := MarkPrimary(s.wallets, party, current.value)))
    case UpdateWallet(status, party, network, txId) =>
      (match Target(network, current)
       case None => None
       case Some(net) => Some(s.(wallets := Relabel(s.wallets, party, net, status, txId))))
    case RemoveWallet(party) =>
      if current.None? then None else Some(s.(wallets := Delete(s.wallets, party, current.value)))
    case SetSession(net) => Some(s.(session := Some(net)))
    case RemoveSession => Some(s.(session := None))
  }

  // ---------- synchronisation with the participant ----------

  /** The wallets made for parties that have none in this network. */
  function ParticipantWallets(ws: seq<Wallet>, net: string, parties: seq<string>): seq<Wallet> {
    if parties == [] then []
    else if Holds(ws, parties[0], net) then ParticipantWallets(ws, net, parties[1..])
    else [Wallet(false, Allocated, parties[0], net, None)] + ParticipantWallets(ws, net, parties[1..])
  }

  function FirstIn(ws: seq<Wallet>, net: string): (i: nat)
    requires AnyIn(ws, net)
    ensures i < |ws| && ws[i].networkId == net && forall j :: 0 <= j < i ==> ws[j].networkId != net
  {
    if ws[0].networkId == net then 0
    else
      assert AnyIn(ws[1..], net) by {
        var i :| 0 <= i < |ws| && ws[i].networkId == net;
        assert ws[1..][i - 1] == ws[i];
      }
      1 + FirstIn(ws[1..], net)
  }

  /** A network that has wallets but no primary one gets its first wallet as primary. */
  function EnsurePrimary(ws: seq<Wallet>, net: string): (r: seq<Wallet>)
  {
    if AnyIn(ws, net) && !PrimaryIn(ws, net) then
      var i := FirstIn(ws, net);
      ws[i := ws[i].(primary := true)]
    else ws
  }

  /** syncWallets: without a current network nothing happens. */
  function Sync(s: UserState, networks: set<string>, parties: seq<string>): UserState {
    match CurrentNetwork(s.session, networks)
    case None => s
    case Some(net) => s.(wallets := EnsurePrimary(s.wallets + ParticipantWallets(s.wallets, net, parties), net))
  }

  // ---------- the SQL store ----------

  /** The primary key of the wallets table. */
  datatype WalletKey = WalletKey(partyId: string, networkId: string, userId: string)

  /** `primary` is 0 or 1; status and external transaction id may be NULL. */
  datatype WalletRow = WalletRow(primary: int, status: Option<string>, externalTxId: Option<string>)

  type WalletTable = map<WalletKey, WalletRow>

  /** The sessions table has no key. */
  datatype SessionRow = SessionRow(userId: string, network: string)

  /** Networks with their owners; None is a global network. */
  datatype Database = Database(wallets: WalletTable, sessions: seq<SessionRow>, networks: map<string, Option<string>>)

  /** listNetworks: the global networks and the user's own. */
  function VisibleNetworks(db: Database, user: string): set<string> {
    set n | n in db.networks && (db.networks[n] == None || db.networks[n] == Some(user))
  }

  function StatusText(s: WalletStatus): string {
    match s
    case Initialized => "initialized"
    case Allocated => "allocated"
  }

  function ToWalletStatus(status: Option<string>): WalletStatus {
    if status == Some("allocated") then Allocated else Initialized
  }

  function FromWallet(w: Wallet, user: string): (WalletKey, WalletRow) {
    (WalletKey(w.partyId, w.networkId, user),
      WalletRow(if w.primary then 1 else 0, Some(StatusText(w.status)), w.externalTxId))
  }

  /** What getAllWallets returns for a row; a NULL transaction id is read as the empty string. */
  function ToWallet(key: WalletKey, row: WalletRow): Wallet {
    Wallet(row.primary != 0, ToWalletStatus(row.status), key.partyId, key.networkId,
           Some(match row.externalTxId case None => "" case Some(t) => t))
  }

  predicate Of(key: WalletKey, user: string, net: string) {
    key.userId == user && key.networkId == net
  }

  predicate UserHasWalletIn(t: WalletTable, user: string, net: string) {
    exists k :: k in t && Of(k, user, net)
  }

  /** UPDATE wallets SET primary = 0 WHERE primary = 1 and network and user match. */
  function DemoteRows(t: WalletTable, user: string, net: string): WalletTable {
    map k | k in t :: if Of(k, user, net) && t[k].primary == 1 then t[k].(primary := 0) else t[k]
  }

  /** UPDATE wallets SET primary = value for one key. */
  function SetPrimaryRow(t: WalletTable, key: WalletKey, value: int): WalletTable {
    map k | k in t :: if k == key then t[k].(primary := value) else t[k]
  }

  function RelabelRow(t: WalletTable, key: WalletKey, status: WalletStatus, txId: string): WalletTable {
    map k | k in t :: if k == key then t[k].(status := Some(StatusText(status)), externalTxId := Some(txId)) else t[k]
  }

  function DeleteRow(t: WalletTable, key: WalletKey): WalletTable {
    map k | k in t && k != key :: t[k]
  }

  /** The unique partial index: at most one primary wallet per network and user. */
  ghost predicate OnePrimaryIndex(t: WalletTable) {
    forall k, l :: k in t && l in t && t[k].primary == 1 && t[l].primary == 1 ==>
      k.networkId == l.networkId && k.userId == l.userId ==> k == l
  }

  ghost predicate TableOk(t: WalletTable) {
    OnePrimaryIndex(t) && forall k :: k in t ==> t[k].primary == 0 || t[k].primary == 1
  }

  /** SELECT … WHERE userId = user, first row. */
  function FirstSession(rows: seq<SessionRow>, user: string): Option<string> {
    if rows == [] then None
    else if rows[0].userId == user then Some(rows[0].network)
    else FirstSession(rows[1..], user)
  }

  /** DELETE FROM sessions WHERE userId = user. */
  function WithoutUser(rows: seq<SessionRow>, user: string): seq<SessionRow> {
    if rows == [] then []
    else if rows[0].userId == user then WithoutUser(rows[1..], user)
    else [rows[0]] + WithoutUser(rows[1..], user)
  }

  function SessionOf(db: Database, user: string): Option<string> {
    FirstSession(db.sessions, user)
  }

  ghost predicate OneSessionEach(rows: seq<SessionRow>) {
    forall i, j :: 0 <= i < j < |rows| ==> rows[i].userId != rows[j].userId
  }

  /** What the tables promise: the unique index, wallets only in networks that exist, and one session per user. */
  ghost predicate DatabaseOk(db: Database) {
    TableOk(db.wallets) && (forall k :: k in db.wallets ==> k.networkId in db.networks) && OneSessionEach(db.sessions)
  }

  predicate IsPrimaryOf(t: WalletTable, user: string, net: string, k: WalletKey) {
    k in t && Of(k, user, net) && t[k].primary != 0
  }

  /**
   * addWallet looks only at the wallets of the current network; the table refuses an existing key and a network that
   * does not exist.
   */
  function SqlAdd(t: WalletTable, known: set<string>, user: string, current: string, w: Wallet): Option<WalletTable> {
    var (key, _) := FromWallet(w, user);
    if key in t || w.networkId !in known then None
    else
      var added := w.(primary := w.primary || !UserHasWalletIn(t, user, current));
      var demoted := if added.primary then DemoteRows(t, user, w.networkId) else t;
      Some(demoted[key := FromWallet(added, user).1])
  }

  ghost function SqlStep(db: Database, user: string, op: Op): Option<Database> {
    var current := CurrentNetwork(SessionOf(db, user), VisibleNetworks(db, user));
    match op
    case AddWallet(w) =>
      if current.None? then None
      else
        (match SqlAdd(db.wallets, db.networks.Keys, user, current.value, w)
         case None => None
         case Some(t) => Some(db.(wallets := t)))
    case SetPrimaryWallet(party) =>
      if current.None? || WalletKey(party, current.value, user) !in db.wallets then None
      else
        var cleared := if exists k :: IsPrimaryOf(db.wallets, user, current.value, k)
                   then (var k :| IsPrimaryOf(db.wallets, user, current.value, k); SetPrimaryRow(db.wallets, k, 0))
                   else db.wallets;
        Some(db.(wallets := SetPrimaryRow(cleared, WalletKey(party, current.value, user), 1)))
    case UpdateWallet(status, party, network, txId) =>
      (match Target(network, current)
       case None => None
       case Some(net) => Some(db.(wallets := RelabelRow(db.wallets, WalletKey(party, net, user), status, txId))))
    case RemoveWallet(party) =>
      if current.None? then None else Some(db.(wallets := DeleteRow(db.wallets, WalletKey(party, current.value, user))))
    case SetSession(net) => Some(db.(sessions := WithoutUser(db.sessions, user) + [SessionRow(user, net)]))
    case RemoveSession => Some(db.(sessions := WithoutUser(db.sessions, user)))
  }
}
