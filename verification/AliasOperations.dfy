/** What single operations promise their callers. */
module AliasOperations {
  import opened Common
  import opened AliasSigning
  import opened AliasTables
  import opened AliasProtocol
  import opened AliasSteps
  import opened AliasSafety

  // ---------- Challenges and tokens ----------

  /** An issued challenge can be spent for exactly what it was asked for, and until its five minutes are over. */
  lemma IssuedIsSpendable(c: NewChallenge, alias: Option<Id>, db: Db, now: int, nonce: string, body: Body, later: int)
    requires Open(c, alias, db, now, nonce).pc == Done(Issued(body))
    ensures body == Body(c.purpose, c.name, c.chain, c.address, c.network, nonce)
    ensures Spendable(Open(c, alias, db, now, nonce).db, body, later) <==> later < now + CHALLENGE_TTL_MS
  {
  }

  /** A new token retires every older one of its alias, and lives thirty minutes. */
  lemma NewTokenRetiresOlder(s: Start, id: Id, db: Db, now: int, token: string, hash: Hash, later: int)
    requires id in db.aliases && Hash(token) !in db.recoveries
    ensures var db' := TokenStep(s, id, BurnRecoveries(db, id), now, token).db;
            Live(db', id, hash, later) <==> hash == Hash(token) && later < now + RECOVERY_TTL_MS
  {
  }

  /** A released alias leaves nothing behind: its name is free, and no challenge or recovery names it. */
  lemma ReleaseForgets(id: Id, db: Db)
    requires NamesOf(db) && id in db.aliases
    ensures var out := ReleaseStep(id, db);
            && out.pc == Done(Released(id)) && id !in out.db.aliases && FindByName(out.db, db.aliases[id].name) == None
            && (forall n :: n in out.db.challenges ==> out.db.challenges[n].alias != Some(id))
            && (forall h :: h in out.db.recoveries ==> out.db.recoveries[h].alias != id)
            && (forall i :: i in db.aliases && i != id ==> i in out.db.aliases && out.db.aliases[i] == db.aliases[i])
  {
  }

  // ---------- Rows ----------

  /** An add puts its row last, and takes the default flag from its own group only, and only to take it over. */
  lemma PlacementIsExact(rows: seq<Row>, row: Row, i: nat)
    requires PlaceRow(rows, row).Some? && i < |rows|
    ensures var rows' := PlaceRow(rows, row).value;
            && |rows'| == |rows| + 1 && rows'[|rows|] == row && SameAccount(rows[i], rows'[i])
            && (rows'[i].primary <==> rows[i].primary && !(row.primary && InGroup(rows[i], row.chain, row.network)))
  {
    hide DistinctAddresses, OnePrimaryPerNetwork;
  }

  /** A removal takes out the one row, and gives its default flag to the oldest row left in its group. */
  lemma RemovalIsExact(rows: seq<Row>, row: Row, i: nat)
    requires RemoveRow(rows, row).Some? && i < |RemoveRow(rows, row).value|
    ensures var k := IndexOfRow(rows, row.id);
            var rest, rows' := Without(rows, k), RemoveRow(rows, row).value;
            && |rows'| == |rows| - 1 && SameAccount(rest[i], rows'[i])
            && (rows'[i].primary <==>
                  rest[i].primary
                  || (row.primary && InGroup(rest[i], row.chain, row.network)
                      && forall j :: 0 <= j < i ==> !InGroup(rest[j], row.chain, row.network)))
  {
    hide DistinctAddresses, OnePrimaryPerNetwork, Without;
    var rest := Without(rows, IndexOfRow(rows, row.id));
    if row.primary {
      PromotesOldest(rest, row.chain, row.network, i);
    }
  }

  lemma PromotesOldest(rows: seq<Row>, chain: Chain, network: string, i: nat)
    requires i < |rows|
    ensures var out := Promote(rows, chain, network);
            && SameAccount(rows[i], out[i])
            && (out[i].primary <==>
                  rows[i].primary || (InGroup(rows[i], chain, network) && forall j :: 0 <= j < i ==> !InGroup(rows[j], chain, network)))
  {
    var p := (r: Row) => InGroup(r, chain, network);
    var k := FirstIndex(rows, p);
    assert forall j :: 0 <= j < |rows| ==> p(rows[j]) == InGroup(rows[j], chain, network);
  }
}
