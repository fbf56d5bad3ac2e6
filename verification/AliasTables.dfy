/**
 * The alias, address, challenge and recovery tables, and what each single
 * database statement of src/aliases/aliases.service.ts does to them.
 *
 * An alias keeps its own address rows, in creation order: every statement of the
 * service selects addresses by alias. Challenges are keyed by their unique nonce
 * and recoveries by their unique token hash.
 */
module AliasTables {
  import opened Common
  import opened AliasSigning

  const CHALLENGE_TTL_MS := 5 * 60 * 1000
  const RECOVERY_TTL_MS := 30 * 60 * 1000
  const RECOVERY_MAX_ATTEMPTS := 5
  const RECOVERY_RESEND_MS := 60 * 1000
  const MAX_ADDRESSES := 20
  const MAX_PER_CONSUMER := 25
  const SWEEP_GRACE_MS := 24 * 60 * 60 * 1000

  type Id = string

  /** A stored token hash. SHA-256 is taken to be injective. */
  datatype Hash = Hash(token: string)

  datatype Status = ACTIVE | SUSPENDED

  datatype Row = Row(id: Id, chain: Chain, address: string, network: string, primary: bool)

  datatype Alias = Alias(consumer: Id, name: string, email: string, status: Status, rows: seq<Row>)

  datatype Challenge = Challenge(alias: Option<Id>, body: Body, expiresAt: int, consumed: bool)

  datatype Recovery = Recovery(
    alias: Id, email: string, createdAt: int, expiresAt: int, consumed: bool, attempts: nat)

  /** `names` is the unique index on `alias.name`. */
  datatype Db = Db(
    aliases: map<Id, Alias>,
    names: map<string, Id>,
    challenges: map<string, Challenge>,
    recoveries: map<Hash, Recovery>)

  const EMPTY := Db(map[], map[], map[], map[])

  // ---------- alias ----------

  function FindByName(db: Db, name: string): Option<Id> {
    if name in db.names then Some(db.names[name]) else None
  }

  function FindOwned(db: Db, consumer: Id, name: string): Option<Id> {
    match FindByName(db, name)
    case Some(id) => if id in db.aliases && db.aliases[id].consumer == consumer then Some(id) else None
    case None => None
  }

  function FindActive(db: Db, name: string): Option<Id> {
    match FindByName(db, name)
    case Some(id) => if id in db.aliases && db.aliases[id].status == ACTIVE then Some(id) else None
    case None => None
  }

  function CountHeld(db: Db, consumer: Id): nat {
    |set id | id in db.aliases && db.aliases[id].consumer == consumer|
  }

  /** `alias.create` with its first address: None is the unique index on the name. */
  function InsertAlias(db: Db, id: Id, alias: Alias): Option<Db> {
    if alias.name in db.names then None
    else Some(db.(aliases := db.aliases[id := alias], names := db.names[alias.name := id]))
  }

  /** `alias.delete`, with the cascade to its addresses, challenges and recoveries. */
  function DeleteAlias(db: Db, id: Id): Option<Db> {
    if id !in db.aliases then None
    else Some(Db(
      map i | i in db.aliases && i != id :: db.aliases[i],
      map n | n in db.names && n != db.aliases[id].name :: db.names[n],
      map n | n in db.challenges && db.challenges[n].alias != Some(id) :: db.challenges[n],
      map h | h in db.recoveries && db.recoveries[h].alias != id :: db.recoveries[h]))
  }

  function SetStatus(db: Db, id: Id, status: Status): Db {
    if id in db.aliases then db.(aliases := db.aliases[id := db.aliases[id].(status := status)]) else db
  }

  // ---------- alias_address ----------

  function RowsOf(db: Db, id: Id): seq<Row> {
    if id in db.aliases then db.aliases[id].rows else []
  }

  function SetRows(db: Db, id: Id, rows: seq<Row>): Db
    requires id in db.aliases
  {
    db.(aliases := db.aliases[id := db.aliases[id].(rows := rows)])
  }

  predicate InGroup(row: Row, chain: Chain, network: string) {
    row.chain == chain && row.network == network
  }

  function CountGroup(rows: seq<Row>, chain: Chain, network: string): nat {
    if rows == [] then 0
    else (if InGroup(rows[0], chain, network) then 1 else 0) + CountGroup(rows[1..], chain, network)
  }

  /** Index of the first row (the oldest) that `p` accepts, or `|rows|`. */
  function FirstIndex(rows: seq<Row>, p: Row -> bool): (k: nat)
    ensures k <= |rows|
    ensures k < |rows| ==> p(rows[k])
    ensures forall i :: 0 <= i < k ==> !p(rows[i])
  {
    if rows == [] then 0 else if p(rows[0]) then 0 else 1 + FirstIndex(rows[1..], p)
  }

  function IndexOfRow(rows: seq<Row>, id: Id): (k: nat)
    ensures k <= |rows|
    ensures k < |rows| ==> rows[k].id == id
    ensures forall i :: 0 <= i < k ==> rows[i].id != id
  {
    FirstIndex(rows, (row: Row) => row.id == id)
  }

  /** Unique index (aliasId, chain, network, address). */
  predicate DistinctAddresses(rows: seq<Row>) {
    forall i, j :: 0 <= i < j < |rows| && InGroup(rows[j], rows[i].chain, rows[i].network) ==> rows[i].address != rows[j].address
  }

  /**
   * Partial unique index (aliasId, network) WHERE isPrimary. The migration that
   * added the other chains did not widen it to (aliasId, chain, network).
   */
  predicate OnePrimaryPerNetwork(rows: seq<Row>) {
    forall i, j :: 0 <= i < j < |rows| && rows[i].primary && rows[j].primary ==> rows[i].network != rows[j].network
  }

  /** What both unique indexes let commit. */
  function Commit(rows: seq<Row>): Option<seq<Row>> {
    if DistinctAddresses(rows) && OnePrimaryPerNetwork(rows) then Some(rows) else None
  }

  function Demote(rows: seq<Row>, chain: Chain, network: string): (out: seq<Row>)
    ensures |out| == |rows|
    ensures forall i :: 0 <= i < |rows| ==>
      out[i] == if InGroup(rows[i], chain, network) then rows[i].(primary := false) else rows[i]
  {
    seq(|rows|, i requires 0 <= i < |rows| =>
      if InGroup(rows[i], chain, network) then rows[i].(primary := false) else rows[i])
  }

  /** `addAddress`'s transaction: demote the group's default if needed, then insert. */
  function PlaceRow(rows: seq<Row>, row: Row): Option<seq<Row>> {
    Commit((if row.primary then Demote(rows, row.chain, row.network) else rows) + [row])
  }

  function Without(rows: seq<Row>, k: nat): (out: seq<Row>)
    requires k < |rows|
    ensures |out| == |rows| - 1
    ensures forall i :: 0 <= i < |out| ==> out[i] == rows[if i < k then i else i + 1]
  {
    rows[..k] + rows[k + 1..]
  }

  function Promote(rows: seq<Row>, chain: Chain, network: string): (out: seq<Row>)
    ensures |out| == |rows|
  {
    var k := FirstIndex(rows, (r: Row) => InGroup(r, chain, network));
    if k < |rows| then rows[k := rows[k].(primary := true)] else rows
  }

  /** `removeAddress`'s transaction, on the row read before it. */
  function RemoveRow(rows: seq<Row>, row: Row): Option<seq<Row>> {
    var k := IndexOfRow(rows, row.id);
    if k == |rows| then None
    else
      var rest := Without(rows, k);
      Commit(if row.primary then Promote(rest, row.chain, row.network) else rest)
  }

  // ---------- alias_challenge ----------

  /** `aliasChallenge.create`: None is the foreign key to an alias that is gone. */
  function InsertChallenge(db: Db, challenge: Challenge): Option<Db> {
    if challenge.alias.Some? && challenge.alias.value !in db.aliases then None
    else Some(db.(challenges := db.challenges[challenge.body.nonce := challenge]))
  }

  /** `spendChallenge`'s read: there, issued for exactly `body`, unspent and unexpired. */
  predicate Spendable(db: Db, body: Body, now: int) {
    body.nonce in db.challenges
    && var c := db.challenges[body.nonce];
    c.body == body && !c.consumed && now < c.expiresAt
  }

  predicate Unconsumed(db: Db, nonce: string) {
    nonce in db.challenges && !db.challenges[nonce].consumed
  }

  /** `updateMany where consumedAt: null`: consumes at most the one row. */
  function ConsumeChallenge(db: Db, nonce: string): Db {
    if Unconsumed(db, nonce)
    then db.(challenges := db.challenges[nonce := db.challenges[nonce].(consumed := true)])
    else db
  }

  // ---------- alias_recovery ----------

  predicate RecentlyMailed(db: Db, alias: Id, now: int) {
    exists h :: h in db.recoveries && db.recoveries[h].alias == alias && now - RECOVERY_RESEND_MS < db.recoveries[h].createdAt
  }

  /** Every unspent recovery of `alias` is spent. */
  function BurnRecoveries(db: Db, alias: Id): Db {
    db.(recoveries := map h | h in db.recoveries ::
      if db.recoveries[h].alias == alias then db.recoveries[h].(consumed := true) else db.recoveries[h])
  }

  function InsertRecovery(db: Db, hash: Hash, recovery: Recovery): Option<Db> {
    if recovery.alias !in db.aliases then None
    else Some(db.(recoveries := db.recoveries[hash := recovery]))
  }

  predicate Countable(db: Db, hash: Hash, now: int) {
    hash in db.recoveries
    && var r := db.recoveries[hash];
    !r.consumed && now < r.expiresAt && r.attempts < RECOVERY_MAX_ATTEMPTS
  }

  /** `completeRecovery`'s read: a live recovery of this alias. */
  predicate Live(db: Db, alias: Id, hash: Hash, now: int) {
    Countable(db, hash, now) && db.recoveries[hash].alias == alias
  }

  function CountAttempt(db: Db, hash: Hash): Db
    requires hash in db.recoveries
  {
    db.(recoveries := db.recoveries[hash := db.recoveries[hash].(attempts := db.recoveries[hash].attempts + 1)])
  }

  predicate Unspent(db: Db, hash: Hash) {
    hash in db.recoveries && !db.recoveries[hash].consumed
  }

  /** `completeRecovery`'s transaction: spend the token, drop every address, add the new one, change the owner. */
  function TakeOver(db: Db, hash: Hash, alias: Id, consumer: Id, row: Row): Option<Db> {
    if !Unspent(db, hash) || alias !in db.aliases then None
    else Some(db.(
      recoveries := db.recoveries[hash := db.recoveries[hash].(consumed := true)],
      aliases := db.aliases[alias := db.aliases[alias].(rows := [row], consumer := consumer)]))
  }

  // ---------- resolution ----------

  function Filter(rows: seq<Row>, p: Row -> bool): (out: seq<Row>)
    ensures forall r :: r in out <==> r in rows && p(r)
  {
    if rows == [] then []
    else
      assert rows == [rows[0]] + rows[1..];
      (if p(rows[0]) then [rows[0]] else []) + Filter(rows[1..], p)
  }

  /** Addresses on `chain` (and `network`, when named): defaults first, then the oldest first. */
  function ResolvedRows(rows: seq<Row>, chain: Chain, network: Option<string>): seq<Row> {
    var shown := Filter(rows, (r: Row) => r.chain == chain && (network.None? || r.network == network.value));
    Filter(shown, (r: Row) => r.primary) + Filter(shown, (r: Row) => !r.primary)
  }

  function PrimaryAddress(rows: seq<Row>): Option<string> {
    var k := FirstIndex(rows, (r: Row) => r.primary);
    if k < |rows| then Some(rows[k].address) else None
  }

  function Resolve(db: Db, name: string, network: Option<string>, chain: Chain): Option<(seq<Row>, Option<string>)> {
    match FindActive(db, name)
    case None => None
    case Some(id) =>
      var shown := ResolvedRows(RowsOf(db, id), chain, network);
      Some((shown, PrimaryAddress(shown)))
  }
}
