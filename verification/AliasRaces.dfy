/**
 * Runs from the empty tables in which two requests overlap between what they read
 * and what they write: two removals that leave an alias no address, and an add that
 * counted a default which a removal then takes away.
 */
module AliasRaces {
  import opened Common
  import opened AliasSigning
  import opened AliasTables
  import opened AliasProtocol
  import opened AliasSteps
  import opened AliasSafety
  import opened AliasTheorems
  import opened AliasCap
  import opened AliasDefaults
  import opened AliasService
  import opened AliasWitness

  /** "ana" is alias `id` of consumer "c", with these rows. */
  predicate HasRows(db: Db, id: Id, rows: seq<Row>) {
    && id in db.aliases && db.aliases[id].consumer == "c" && db.aliases[id].status == ACTIVE
    && FindByName(db, "ana") == Some(id) && db.aliases[id].rows == rows
  }

  function RemoveOf(rowId: Id): Request {
    ToRemove(Remove("c", "ana", rowId))
  }

  /** A removal that has found its row and counted more than one. */
  lemma RemovalCounts(db: Db, now: int, id: Id, rows: seq<Row>, rowId: Id)
    requires HasRows(db, id, rows) && |rows| >= 2 && IndexOfRow(rows, rowId) < |rows|
    ensures Ahead(db, now, Begin(RemoveOf(rowId)), 3) == Some((db, RemoveAllowed(id, rows[IndexOfRow(rows, rowId)])))
  {
    hide IndexOfRow;
    var row := rows[IndexOfRow(rows, rowId)];
    var remove := Remove("c", "ana", rowId);
    assert Step(Accepts, db, now, "", Begin(RemoveOf(rowId))) == Out(db, RemoveOwned(remove, id), Quiet);
    assert Step(Accepts, db, now, "", RemoveOwned(remove, id)) == Out(db, RowFound(id, row), Quiet);
    assert Step(Accepts, db, now, "", RowFound(id, row)) == Out(db, RemoveAllowed(id, row), Quiet);
    assert Ahead(db, now, RowFound(id, row), 1) == Some((db, RemoveAllowed(id, row)));
    assert Ahead(db, now, RemoveOwned(remove, id), 2) == Some((db, RemoveAllowed(id, row)));
  }

  /** What its delete leaves. */
  lemma RemovalDeletes(db: Db, now: int, rnd: string, id: Id, rows: seq<Row>, row: Row)
    requires HasRows(db, id, rows) && RemoveRow(rows, row).Some?
    ensures var f := Finish(Accepts, db, now, rnd, RemoveAllowed(id, row));
            HasRows(f.0, id, RemoveRow(rows, row).value) && f.1 == Removed(row.id)
  {
    hide RemoveRow, Finish;
    Unroll(Accepts, db, now, rnd, RemoveAllowed(id, row));
  }

  // ---------- No address ----------

  /** Two rows of one group, the first its default. */
  predicate TwoRows(rows: seq<Row>) {
    && |rows| == 2 && rows[0].id != rows[1].id && rows[0].primary && !rows[1].primary
    && InGroup(rows[1], rows[0].chain, rows[0].network)
  }

  lemma FirstRemoval(rows: seq<Row>)
    requires TwoRows(rows)
    ensures RemoveRow(rows, rows[0]) == Some([rows[1].(primary := true)])
  {
    assert IndexOfRow(rows, rows[0].id) == 0;
    var rest := Without(rows, 0);
    assert rest == [rows[1]];
    var k := FirstIndex(rest, (r: Row) => InGroup(r, rows[0].chain, rows[0].network));
    assert k == 0;
    assert Promote(rest, rows[0].chain, rows[0].network) == [rows[1].(primary := true)];
  }

  lemma SecondRemoval(left: Row, asRead: Row)
    requires left.id == asRead.id && !asRead.primary
    ensures RemoveRow([left], asRead) == Some([])
  {
    assert IndexOfRow([left], asRead.id) == 0;
    assert Without([left], 0) == [];
  }

  lemma TwoFilled(es: seq<Event>, id: Id) returns (rows: seq<Row>)
    requires Valid(Accepts, START, es) && Holds(Exec(Accepts, START, es).db, id, 2)
    ensures |rows| == 2 && TwoRows(rows) && HasRows(Exec(Accepts, START, es).db, id, rows)
  {
    hide Valid, Exec, Name;
    rows := Exec(Accepts, START, es).db.aliases[id].rows;
    assert IsNth(rows[0], 0) && IsNth(rows[1], 1);
    if rows[0].id == rows[1].id {
      RowIdsAreUnique(Accepts, es, id, rows[0], rows[1]);
    }
  }

  /**
   * A run from the empty tables in which two removals of an alias's two addresses are
   * both allowed, each having counted two, and both remove: the alias is left with none.
   */
  lemma OverlappingRemovalsEmptyAnAlias() returns (es: seq<Event>, id: Id, a: Tid, b: Tid)
    ensures Valid(Accepts, START, es)
    ensures var s := Exec(Accepts, START, es);
            && id in s.db.aliases && s.db.aliases[id].rows == [] && a != b && a in s.requests && b in s.requests
            && s.requests[a].Done? && s.requests[a].outcome.Removed?
            && s.requests[b].Done? && s.requests[b].outcome.Removed?
  {
    hide Finish, AtMostAdding, Valid, Exec, Ahead, Below, HasRows, RemoveRow, TwoRows, Holds;
    var es0, alias, c, t := Filled(3, 2);
    var s0 := Exec(Accepts, START, es0);
    var rows := TwoFilled(es0, alias);
    BothCount(s0.db, s0.clock, alias, rows);
    var es1 := PartServed(s0, c, t, RemoveOf(rows[0].id), 3, [], 3);
    var s1 := Exec(Accepts, s0, es1);
    var es2 := PartServed(s1, c + 3, t + 1, RemoveOf(rows[1].id), 3, [t], 3);
    var s2 := Exec(Accepts, s1, es2);
    var es3 := Answered(s2, c + 6, t + 2, t, [t, t + 1], 3);
    var s3 := Exec(Accepts, s2, es3);
    var es4 := Answered(s3, c + 17, t + 2, t + 1, [t, t + 1], 3);
    BothRemove(s2.db, s2.clock, Name(c + 6), Name(c + 17), alias, rows);
    AdderParts(START, es0, es1, 3);
    AdderParts(START, es0 + es1, es2, 3);
    AdderParts(START, es0 + es1 + es2, es3, 3);
    AdderParts(START, es0 + es1 + es2 + es3, es4, 3);
    es, id, a, b := es0 + es1 + es2 + es3 + es4, alias, t, t + 1;
  }

  lemma BothCount(db: Db, now: int, id: Id, rows: seq<Row>)
    requires HasRows(db, id, rows) && TwoRows(rows)
    ensures Ahead(db, now, Begin(RemoveOf(rows[0].id)), 3) == Some((db, RemoveAllowed(id, rows[0])))
    ensures Ahead(db, now, Begin(RemoveOf(rows[1].id)), 3) == Some((db, RemoveAllowed(id, rows[1])))
  {
    hide HasRows, Ahead;
    assert IndexOfRow(rows, rows[0].id) == 0 && IndexOfRow(rows, rows[1].id) == 1;
    RemovalCounts(db, now, id, rows, rows[0].id);
    RemovalCounts(db, now, id, rows, rows[1].id);
  }

  lemma BothRemove(db: Db, now: int, rnd: string, rnd': string, id: Id, rows: seq<Row>)
    requires HasRows(db, id, rows) && TwoRows(rows)
    ensures var first := Finish(Accepts, db, now, rnd, RemoveAllowed(id, rows[0]));
            var second := Finish(Accepts, first.0, now, rnd', RemoveAllowed(id, rows[1]));
            && first.1.Removed? && second.1.Removed? && id in second.0.aliases && second.0.aliases[id].rows == []
  {
    hide Finish;
    FirstRemoval(rows);
    RemovalDeletes(db, now, rnd, id, rows, rows[0]);
    var left := rows[1].(primary := true);
    SecondRemoval(left, rows[1]);
    RemovalDeletes(Finish(Accepts, db, now, rnd, RemoveAllowed(id, rows[0])).0, now, rnd', id, [left], rows[1]);
  }

  // ---------- No default ----------

  lemma {:induction false} AheadFinishes(db: Db, now: int, rnd: string, pc: Pc, n: nat)
    requires Ahead(db, now, pc, n).Some?
    ensures var a := Ahead(db, now, pc, n).value;
            Finish(Accepts, db, now, rnd, pc) == Finish(Accepts, a.0, now, rnd, a.1)
    decreases n
  {
    hide Step, Draws;
    if n > 0 {
      OnlyDrawsUseRandomness(Accepts, db, now, rnd, "", pc);
      var out := Step(Accepts, db, now, "", pc);
      AheadFinishes(out.db, now, rnd, out.pc, n - 1);
    }
  }

  function StellarAdd(address: string, network: string, nonce: string): Add {
    Add("c", "ana", Stellar, address, network, nonce, "", false)
  }

  function StellarBody(address: string, network: string, nonce: string): Body {
    Body(ADD_ADDRESS, "ana", Stellar, address, network, nonce)
  }

  /** An add that has spent its challenge and counted its group. */
  lemma AddCounts(db: Db, now: int, id: Id, rows: seq<Row>, address: string, network: string, nonce: string)
    requires HasRows(db, id, rows) && |rows| < MAX_ADDRESSES && Spendable(db, StellarBody(address, network, nonce), now)
    ensures var first := CountGroup(rows, Stellar, network) == 0;
            var db' := ConsumeChallenge(db, nonce);
            && Ahead(db, now, Begin(ToAdd(StellarAdd(address, network, nonce))), 5)
               == Some((db', Placing(StellarBody(address, network, nonce), id, first)))
            && HasRows(db', id, rows)
  {
    hide Ahead, CountGroup;
    var add, body := StellarAdd(address, network, nonce), StellarBody(address, network, nonce);
    var db' := ConsumeChallenge(db, nonce);
    var placing := Placing(body, id, CountGroup(rows, Stellar, network) == 0);
    assert Step(Accepts, db, now, "", Begin(ToAdd(add))) == Out(db, AddOwned(add, id), Quiet);
    assert Step(Accepts, db, now, "", AddOwned(add, id)) == Out(db, Spending(body, "", ForAdd(add, id)), Quiet);
    var verified := Verified(body, "", ForAdd(add, id), now);
    assert Step(Accepts, db, now, "", Spending(body, "", ForAdd(add, id))).pc == verified;
    assert Step(Accepts, db, now, "", verified).pc == Consumed(body, ForAdd(add, id));
    assert Step(Accepts, db', now, "", Consumed(body, ForAdd(add, id))) == Out(db', placing, Quiet);
    FiveAhead(db, db', now, add, body, id, placing);
  }

  lemma FiveAhead(db: Db, db': Db, now: int, add: Add, body: Body, id: Id, placing: Pc)
    requires var verified := Verified(body, "", ForAdd(add, id), now);
             && Step(Accepts, db, now, "", Begin(ToAdd(add))) == Out(db, AddOwned(add, id), Quiet)
             && Step(Accepts, db, now, "", AddOwned(add, id)) == Out(db, Spending(body, "", ForAdd(add, id)), Quiet)
             && (var out := Step(Accepts, db, now, "", Spending(body, "", ForAdd(add, id))); out.db == db && out.pc == verified)
             && (var out := Step(Accepts, db, now, "", verified); out.db == db' && out.pc == Consumed(body, ForAdd(add, id)))
             && Step(Accepts, db', now, "", Consumed(body, ForAdd(add, id))) == Out(db', placing, Quiet)
    ensures Ahead(db, now, Begin(ToAdd(add)), 5) == Some((db', placing))
  {
    hide Step;
    assert Ahead(db', now, Consumed(body, ForAdd(add, id)), 1) == Some((db', placing));
    assert Ahead(db, now, Verified(body, "", ForAdd(add, id), now), 2) == Some((db', placing));
    assert Ahead(db, now, Spending(body, "", ForAdd(add, id)), 3) == Some((db', placing));
    assert Ahead(db, now, AddOwned(add, id), 4) == Some((db', placing));
  }

  lemma PlacingInserts(db: Db, now: int, rnd: string, id: Id, rows: seq<Row>, body: Body, primary: bool)
    requires HasRows(db, id, rows) && PlaceRow(rows, InsertedRow(body, rnd, primary)).Some?
    ensures HasRows(
      Finish(Accepts, db, now, rnd, Placing(body, id, primary)).0, id, PlaceRow(rows, InsertedRow(body, rnd, primary)).value)
  {
    hide PlaceRow, Finish, InsertedRow;
    Unroll(Accepts, db, now, rnd, Placing(body, id, primary));
  }

  /** The claimed address, a default on "public", and one on "testnet", the default there. */
  predicate OnTwoNetworks(rows: seq<Row>) {
    && |rows| == 2 && rows[0].primary && rows[1].primary
    && InGroup(rows[0], Stellar, "public") && InGroup(rows[1], Stellar, "testnet")
  }

  lemma SecondNetwork(row: Row, rnd: string, address: string, nonce: string)
    requires IsNth(row, 0)
    ensures var row' := InsertedRow(StellarBody(address, "testnet", nonce), rnd, true);
            && CountGroup([row], Stellar, "testnet") == 0
            && PlaceRow([row], row') == Some([row, row']) && OnTwoNetworks([row, row'])
  {
    var row' := InsertedRow(StellarBody(address, "testnet", nonce), rnd, true);
    assert Demote([row], Stellar, "testnet") == [row];
    assert [row] + [row'] == [row, row'];
  }

  lemma Asks(s: System, c: nat, t: nat, id: Id, rows: seq<Row>, address: string, network: string) returns (es: seq<Event>)
    requires HasRows(s.db, id, rows) && Below(s, c, t) && OnlyOpen(s, [])
    ensures Valid(Accepts, s, es) && AtMostAdding(Accepts, s, es, 2)
    ensures var s' := Exec(Accepts, s, es);
            && HasRows(s'.db, id, rows) && Below(s', c + 11, t + 1) && OnlyOpen(s', []) && s'.clock == s.clock
            && Spendable(s'.db, StellarBody(address, network, Name(c)), s.clock)
  {
    hide Finish, AtMostAdding, Valid, Exec, Spendable, Name;
    es := Served(s, c, t, AskFor(ADD_ADDRESS, Stellar, address, network), [], 2);
    ChallengeIssued(s.db, s.clock, Name(c), ADD_ADDRESS, Stellar, address, network, id);
  }

  lemma TwoNetworks() returns (es: seq<Event>, id: Id, rows: seq<Row>, c: nat, t: nat)
    ensures Valid(Accepts, START, es) && AtMostAdding(Accepts, START, es, 2)
    ensures var s := Exec(Accepts, START, es);
            HasRows(s.db, id, rows) && OnTwoNetworks(rows) && Below(s, c, t) && OnlyOpen(s, [])
  {
    hide Finish, AtMostAdding, Valid, Exec, Spendable, Name, Ahead, PlaceRow, CountGroup, OnTwoNetworks, InsertedRow,
      StellarAdd, StellarBody, Below, OnlyOpen;
    var es0, alias, c0, t0 := AliasWitness.Claimed(2);
    var s0 := Exec(Accepts, START, es0);
    var row := s0.db.aliases[alias].rows[0];
    assert IsNth(row, 0) && s0.db.aliases[alias].rows == [row];
    var es1 := Asks(s0, c0, t0, alias, [row], "B", "testnet");
    var s1 := Exec(Accepts, s0, es1);
    var add := ToAdd(StellarAdd("B", "testnet", Name(c0)));
    var es2 := Served(s1, c0 + 11, t0 + 1, add, [], 2);
    AddCounts(s1.db, s1.clock, alias, [row], "B", "testnet", Name(c0));
    AheadFinishes(s1.db, s1.clock, Name(c0 + 11), Begin(add), 5);
    SecondNetwork(row, Name(c0 + 11), "B", Name(c0));
    var body := StellarBody("B", "testnet", Name(c0));
    PlacingInserts(ConsumeChallenge(s1.db, Name(c0)), s1.clock, Name(c0 + 11), alias, [row], body, true);
    AdderParts(START, es0, es1, 2);
    AdderParts(START, es0 + es1, es2, 2);
    es, id, rows, c, t := es0 + es1 + es2, alias, [row, InsertedRow(body, Name(c0 + 11), true)], c0 + 22, t0 + 2;
  }

  lemma FirstTaken(rows: seq<Row>)
    requires OnTwoNetworks(rows)
    ensures IndexOfRow(rows, rows[0].id) == 0 && RemoveRow(rows, rows[0]) == Some([rows[1]])
    ensures CountGroup(rows, Stellar, "public") != 0
  {
    assert IndexOfRow(rows, rows[0].id) == 0;
    assert Without(rows, 0) == [rows[1]];
    assert FirstIndex([rows[1]], (r: Row) => InGroup(r, Stellar, "public")) == 1;
  }

  lemma PlacedBeside(row: Row, row': Row)
    requires row.primary && !row'.primary && row.network != row'.network
    ensures PlaceRow([row], row') == Some([row, row'])
  {
    assert [row] + [row'] == [row, row'];
  }

  lemma ShownAlone(row: Row, row': Row, chain: Chain, network: Option<string>)
    requires !Shows(row, chain, network) && Shows(row', chain, network) && !row'.primary
    ensures ResolvedRows([row, row'], chain, network) == [row'] && PrimaryAddress([row']) == None
  {
    var shown := (r: Row) => r.chain == chain && (network.None? || r.network == network.value);
    FilterSecond(row, row', shown);
    FilterOne(row', (r: Row) => r.primary);
    FilterOne(row', (r: Row) => !r.primary);
  }

  lemma FilterOne(row: Row, p: Row -> bool)
    ensures Filter([row], p) == if p(row) then [row] else []
  {
    assert [row][1..] == [];
  }

  lemma FilterSecond(row: Row, row': Row, p: Row -> bool)
    requires !p(row) && p(row')
    ensures Filter([row, row'], p) == [row']
  {
    assert [row, row'][1..] == [row'];
    FilterOne(row', p);
  }

  /**
   * A run from the empty tables in which an add counts the one default of its group,
   * so that it brings none, a removal takes that default, with no row of the group to
   * hand it to, and the add inserts: resolve lists the address and names no primary.
   */
  lemma ResolveCanLoseItsDefault() returns (es: seq<Event>, row: Row)
    ensures Valid(Accepts, START, es)
    ensures Resolve(Exec(Accepts, START, es).db, "ana", Some("public"), Stellar) == Some(([row], None))
  {
    hide Finish, AtMostAdding, Valid, Exec, Spendable, Name, Ahead, PlaceRow, RemoveRow, CountGroup, InsertedRow,
      StellarAdd, StellarBody, Below, ResolvedRows, PrimaryAddress, IndexOfRow, HasRows;
    var es0, id, rows, c, t := TwoNetworks();
    var s0 := Exec(Accepts, START, es0);
    var es1 := Asks(s0, c, t, id, rows, "X", "public");
    var s1 := Exec(Accepts, s0, es1);
    FirstTaken(rows);
    AddCounts(s1.db, s1.clock, id, rows, "X", "public", Name(c));
    var es2 := PartServed(s1, c + 11, t + 1, ToAdd(StellarAdd("X", "public", Name(c))), 5, [], 2);
    var s2 := Exec(Accepts, s1, es2);
    RemovalCounts(s2.db, s2.clock, id, rows, rows[0].id);
    var es3 := Served(s2, c + 16, t + 2, RemoveOf(rows[0].id), [t + 1], 2);
    AheadFinishes(s2.db, s2.clock, Name(c + 16), Begin(RemoveOf(rows[0].id)), 3);
    RemovalDeletes(s2.db, s2.clock, Name(c + 16), id, rows, rows[0]);
    var s3 := Exec(Accepts, s2, es3);
    var es4 := Answered(s3, c + 27, t + 3, t + 1, [t + 1], 2);
    row := InsertedRow(StellarBody("X", "public", Name(c)), Name(c + 27), false);
    InsertedUndefaulted(Name(c), Name(c + 27));
    PlacedBeside(rows[1], row);
    ShownAlone(rows[1], row, Stellar, Some("public"));
    PlacingInserts(s3.db, s3.clock, Name(c + 27), id, [rows[1]], StellarBody("X", "public", Name(c)), false);
    ResolvesTo(Exec(Accepts, s3, es4).db, id, [rows[1], row]);
    AdderParts(START, es0, es1, 2);
    AdderParts(START, es0 + es1, es2, 2);
    AdderParts(START, es0 + es1 + es2, es3, 2);
    AdderParts(START, es0 + es1 + es2 + es3, es4, 2);
    es := es0 + es1 + es2 + es3 + es4;
  }

  lemma InsertedUndefaulted(nonce: string, rnd: string)
    ensures var row := InsertedRow(StellarBody("X", "public", nonce), rnd, false);
            !row.primary && InGroup(row, Stellar, "public")
  {
  }

  lemma ResolvesTo(db: Db, id: Id, rows: seq<Row>)
    requires HasRows(db, id, rows)
    ensures var shown := ResolvedRows(rows, Stellar, Some("public"));
            Resolve(db, "ana", Some("public"), Stellar) == Some((shown, PrimaryAddress(shown)))
  {
    hide ResolvedRows, PrimaryAddress;
  }
}
