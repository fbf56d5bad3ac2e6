/**
 * The default address of each group. In every interleaving no network of an alias
 * has two defaults. An alias has an address, and every group of it a default, exactly
 * as long as each write of its rows commits while what its request read still supports
 * it, as it does when requests do not overlap on them; and then `resolve` answers a
 * default whenever it lists any address.
 */
module AliasDefaults {
  import opened Common
  import opened AliasSigning
  import opened AliasTables
  import opened AliasProtocol
  import opened AliasSteps
  import opened AliasHistory
  import opened AliasSafety

  // ---------- Every interleaving ----------

  /** Both unique indexes on an alias's rows. */
  predicate Indexed(rows: seq<Row>) {
    DistinctAddresses(rows) && OnePrimaryPerNetwork(rows)
  }

  predicate AllIndexed(db: Db) {
    forall id :: id in db.aliases ==> Indexed(db.aliases[id].rows)
  }

  lemma CommitsIndexed(rows: seq<Row>, row: Row)
    ensures PlaceRow(rows, row).Some? ==> Indexed(PlaceRow(rows, row).value)
    ensures RemoveRow(rows, row).Some? ==> Indexed(RemoveRow(rows, row).value)
  {
    hide DistinctAddresses, OnePrimaryPerNetwork;
  }

  lemma SingleIndexed(row: Row)
    ensures Indexed([row])
  {
  }

  lemma StepKeepsIndexes(oracle: Oracle, db: Db, now: int, rnd: string, pc: Pc)
    requires AllIndexed(db)
    ensures AllIndexed(Step(oracle, db, now, rnd, pc).db)
  {
    hide Step, PlaceRow, RemoveRow, Indexed;
    var db' := Step(oracle, db, now, rnd, pc).db;
    forall id | id in db'.aliases
      ensures Indexed(db'.aliases[id].rows)
    {
      StepRows(oracle, db, now, rnd, pc, id);
      if pc.Placing? {
        CommitsIndexed(RowsOf(db, id), InsertedRow(pc.body, rnd, pc.primary));
      } else if pc.RemoveAllowed? {
        CommitsIndexed(RowsOf(db, id), pc.row);
      } else if pc.Consumed? {
        SingleIndexed(InsertedRow(pc.body, rnd, true));
      }
    }
  }

  lemma {:induction false} IndexesAlways(oracle: Oracle, s: System, es: seq<Event>)
    requires AllIndexed(s.db) && Valid(oracle, s, es)
    ensures AllIndexed(Exec(oracle, s, es).db)
    decreases |es|
  {
    if es != [] {
      if es[0].Run? {
        StepKeepsIndexes(oracle, s.db, s.clock, es[0].rnd, s.requests[es[0].tid]);
      }
      IndexesAlways(oracle, Apply(oracle, s, es[0]), es[1..]);
    }
  }

  // ---------- An address, and a default in every group ----------

  ghost predicate HasDefault(rows: seq<Row>, chain: Chain, network: string) {
    exists p :: p in rows && p.primary && InGroup(p, chain, network)
  }

  /** At least one row, and a default (by the index, exactly one) in every group that has a row. */
  ghost predicate Tidy(rows: seq<Row>) {
    rows != [] && Indexed(rows) && forall r :: r in rows ==> HasDefault(rows, r.chain, r.network)
  }

  /** `row` is still the row of its id. */
  predicate Current(rows: seq<Row>, row: Row) {
    var k := IndexOfRow(rows, row.id);
    k < |rows| && rows[k] == row
  }

  lemma {:induction false} CountGroupZero(rows: seq<Row>, chain: Chain, network: string)
    ensures CountGroup(rows, chain, network) == 0 <==> forall r :: r in rows ==> !InGroup(r, chain, network)
  {
    if rows != [] {
      CountGroupZero(rows[1..], chain, network);
      assert rows == [rows[0]] + rows[1..];
    }
  }

  /** Every group of `rows` keeps a default in `PlaceRow`'s result, unless the new row takes it over. */
  lemma PlaceKeepsDefault(rows: seq<Row>, row: Row, chain: Chain, network: string)
    requires PlaceRow(rows, row).Some? && HasDefault(rows, chain, network)
    ensures HasDefault(PlaceRow(rows, row).value, chain, network)
  {
    hide DistinctAddresses, OnePrimaryPerNetwork;
    var rows' := PlaceRow(rows, row).value;
    assert rows'[|rows|] == row;
    if !(row.primary && InGroup(row, chain, network)) {
      var j :| 0 <= j < |rows| && rows[j].primary && InGroup(rows[j], chain, network);
      assert rows'[j] == rows[j];
    }
  }

  /**
   * An add's demotion and insert leave every group with a default exactly when a row
   * of a group that is empty at the insert comes as its default.
   */
  lemma PlaceKeepsTidy(rows: seq<Row>, row: Row)
    requires Tidy(rows) && PlaceRow(rows, row).Some?
    ensures Tidy(PlaceRow(rows, row).value) <==> (CountGroup(rows, row.chain, row.network) == 0 ==> row.primary)
  {
    hide DistinctAddresses, OnePrimaryPerNetwork, HasDefault;
    var rows' := PlaceRow(rows, row).value;
    CommitsIndexed(rows, row);
    if CountGroup(rows, row.chain, row.network) == 0 && !row.primary {
      CountGroupZero(rows, row.chain, row.network);
      NoDefaultInserted(rows, row);
    } else {
      forall r | r in rows'
        ensures HasDefault(rows', r.chain, r.network)
      {
        var i :| 0 <= i < |rows'| && rows'[i] == r;
        if i < |rows| {
          assert rows[i] in rows;
          PlaceKeepsDefault(rows, row, r.chain, r.network);
        } else if row.primary {
          assert r == row;
          assert HasDefault(rows', row.chain, row.network) by { IsDefault(rows', i); }
        } else {
          CountGroupZero(rows, row.chain, row.network);
          PlaceKeepsDefault(rows, row, row.chain, row.network);
        }
      }
    }
  }

  lemma NoDefaultInserted(rows: seq<Row>, row: Row)
    requires PlaceRow(rows, row).Some? && !row.primary
    requires forall r :: r in rows ==> !InGroup(r, row.chain, row.network)
    ensures row in PlaceRow(rows, row).value && !HasDefault(PlaceRow(rows, row).value, row.chain, row.network)
  {
    hide DistinctAddresses, OnePrimaryPerNetwork;
    assert PlaceRow(rows, row).value == rows + [row];
  }

  lemma IsDefault(rows: seq<Row>, i: nat)
    requires i < |rows| && rows[i].primary
    ensures HasDefault(rows, rows[i].chain, rows[i].network)
  {
  }

  /** With its default gone, a network has none, so the oldest row left may take it. */
  lemma NetworkFreed(rows: seq<Row>, k: nat)
    requires OnePrimaryPerNetwork(rows) && k < |rows| && rows[k].primary
    ensures forall r :: r in Without(rows, k) && r.primary ==> r.network != rows[k].network
  {
    var rest := Without(rows, k);
    forall i | 0 <= i < |rest| && rest[i].primary
      ensures rest[i].network != rows[k].network
    {
      var j := if i < k then i else i + 1;
      assert rest[i] == rows[j];
    }
  }

  lemma WithoutIndexed(rows: seq<Row>, k: nat)
    requires Indexed(rows) && k < |rows|
    ensures Indexed(Without(rows, k))
  {
    var rest := Without(rows, k);
    forall i, j | 0 <= i < j < |rest|
      ensures InGroup(rest[j], rest[i].chain, rest[i].network) ==> rest[i].address != rest[j].address
      ensures rest[i].primary && rest[j].primary ==> rest[i].network != rest[j].network
    {
      var i', j' := if i < k then i else i + 1, if j < k then j else j + 1;
      assert rest[i] == rows[i'] && rest[j] == rows[j'];
    }
  }

  lemma PromoteIndexed(rows: seq<Row>, chain: Chain, network: string)
    requires Indexed(rows) && forall r :: r in rows && r.primary ==> r.network != network
    ensures Indexed(Promote(rows, chain, network))
  {
    var out := Promote(rows, chain, network);
    var k := FirstIndex(rows, (r: Row) => InGroup(r, chain, network));
    forall i, j | 0 <= i < j < |out|
      ensures InGroup(out[j], out[i].chain, out[i].network) ==> out[i].address != out[j].address
      ensures out[i].primary && out[j].primary ==> out[i].network != out[j].network
    {
      assert SameAccount(rows[i], out[i]) && SameAccount(rows[j], out[j]);
      assert rows[i] in rows && rows[j] in rows;
    }
  }

  /** With its row current, the removal commits: the row's own default slot is free to hand on. */
  lemma RemoveCommits(rows: seq<Row>, row: Row)
    requires Indexed(rows) && Current(rows, row)
    ensures RemoveRow(rows, row).Some?
  {
    hide DistinctAddresses, OnePrimaryPerNetwork, Promote;
    var k := IndexOfRow(rows, row.id);
    WithoutIndexed(rows, k);
    if row.primary {
      NetworkFreed(rows, k);
      PromoteIndexed(Without(rows, k), row.chain, row.network);
    }
  }

  lemma PromoteKeepsDefault(rows: seq<Row>, chain: Chain, network: string, chain': Chain, network': string)
    requires HasDefault(rows, chain', network')
    ensures HasDefault(Promote(rows, chain, network), chain', network')
  {
    var i :| 0 <= i < |rows| && rows[i].primary && InGroup(rows[i], chain', network');
    var out := Promote(rows, chain, network);
    assert out[i].primary && InGroup(out[i], chain', network');
  }

  lemma PromoteGivesDefault(rows: seq<Row>, r: Row)
    requires r in rows
    ensures HasDefault(Promote(rows, r.chain, r.network), r.chain, r.network)
  {
    var p := (q: Row) => InGroup(q, r.chain, r.network);
    var i :| 0 <= i < |rows| && rows[i] == r;
    var j := FirstIndex(rows, p);
    assert p(rows[i]);
    var out := Promote(rows, r.chain, r.network);
    assert out[j] == rows[j].(primary := true) && p(rows[j]);
  }

  /** Removing a row leaves every other group its default, and its own group too unless the row was it. */
  lemma RestKeepsDefault(rows: seq<Row>, k: nat, r: Row)
    requires Tidy(rows) && k < |rows| && r in Without(rows, k)
    requires !(rows[k].primary && InGroup(r, rows[k].chain, rows[k].network))
    ensures HasDefault(Without(rows, k), r.chain, r.network)
  {
    hide Indexed;
    var rest := Without(rows, k);
    assert r in rows;
    var j :| 0 <= j < |rows| && rows[j].primary && InGroup(rows[j], r.chain, r.network);
    var j' := if j < k then j else j - 1;
    assert rest[j'] == rows[j];
  }

  /** Removing row `k` hands a default on to a group that lost its own, if `row`, as it was read, was that default. */
  predicate HandsOn(rows: seq<Row>, k: nat, row: Row)
    requires k < |rows|
  {
    rows[k].primary && !(row.primary && InGroup(row, rows[k].chain, rows[k].network)) ==>
      forall r :: r in Without(rows, k) ==> !InGroup(r, rows[k].chain, rows[k].network)
  }

  /**
   * A removal leaves an address, and a default in every group that has one, exactly
   * when another row is left and the row did not become its group's default since it
   * was read, unless it is the last of the group.
   */
  lemma RemoveKeepsTidy(rows: seq<Row>, row: Row)
    requires Tidy(rows) && RemoveRow(rows, row).Some?
    ensures Tidy(RemoveRow(rows, row).value) <==> |rows| >= 2 && HandsOn(rows, IndexOfRow(rows, row.id), row)
  {
    hide DistinctAddresses, OnePrimaryPerNetwork, HasDefault;
    CommitsIndexed(rows, row);
    var k, rows' := IndexOfRow(rows, row.id), RemoveRow(rows, row).value;
    var rest := Without(rows, k);
    if !HandsOn(rows, k, row) {
      var i := NotHandedOn(rows, k, row, rows');
    } else {
      forall i | 0 <= i < |rows'|
        ensures HasDefault(rows', rows'[i].chain, rows'[i].network)
      {
        HandedOn(rows, k, row, i);
      }
    }
  }

  lemma HandedOn(rows: seq<Row>, k: nat, row: Row, i: nat)
    requires Tidy(rows) && k < |rows| && i < |rows| - 1 && HandsOn(rows, k, row)
    ensures var rest := Without(rows, k);
            var rows' := if row.primary then Promote(rest, row.chain, row.network) else rest;
            HasDefault(rows', rows'[i].chain, rows'[i].network)
  {
    hide HasDefault, Indexed;
    var rest := Without(rows, k);
    var r := rest[i];
    if rows[k].primary && InGroup(r, rows[k].chain, rows[k].network) {
      assert r in rest;
      PromoteGivesDefault(rest, r);
    } else {
      RestKeepsDefault(rows, k, r);
      if row.primary {
        PromoteKeepsDefault(rest, row.chain, row.network, r.chain, r.network);
      }
    }
  }

  lemma PromotesInGroup(rows: seq<Row>, chain: Chain, network: string, j: nat)
    requires j < |rows|
    ensures var out := Promote(rows, chain, network);
            SameAccount(rows[j], out[j]) && (out[j].primary ==> rows[j].primary || InGroup(rows[j], chain, network))
  {
    var p := (r: Row) => InGroup(r, chain, network);
    assert forall i :: 0 <= i < |rows| ==> p(rows[i]) == InGroup(rows[i], chain, network);
  }

  lemma NotHandedOn(rows: seq<Row>, k: nat, row: Row, rows': seq<Row>) returns (i: nat)
    requires Tidy(rows) && k < |rows| && !HandsOn(rows, k, row)
    requires var rest := Without(rows, k); rows' == if row.primary then Promote(rest, row.chain, row.network) else rest
    ensures i < |rows'| && !HasDefault(rows', rows'[i].chain, rows'[i].network)
  {
    hide DistinctAddresses, OnePrimaryPerNetwork, Promote, Without;
    var rest := Without(rows, k);
    NetworkFreed(rows, k);
    var r :| r in rest && InGroup(r, rows[k].chain, rows[k].network);
    i :| 0 <= i < |rest| && rest[i] == r;
    forall j | 0 <= j < |rows'|
      ensures SameAccount(rest[j], rows'[j])
      ensures InGroup(rows'[j], rows[k].chain, rows[k].network) ==> !rows'[j].primary
    {
      assert rest[j] in rest;
      PromotesInGroup(rest, row.chain, row.network, j);
    }
  }

  lemma SingleTidy(row: Row)
    requires row.primary
    ensures Tidy([row])
  {
    IsDefault([row], 0);
  }

  ghost predicate TidyAt(db: Db, id: Id) {
    id in db.aliases ==> Tidy(db.aliases[id].rows)
  }

  /** What the request read still supports what it is about to commit to alias `id`'s rows. */
  ghost predicate WriteFits(db: Db, rnd: string, pc: Pc, id: Id) {
    match pc
    case Placing(body, a, primary) =>
      a == id && id in db.aliases && PlaceRow(db.aliases[id].rows, InsertedRow(body, rnd, primary)).Some? ==>
        (CountGroup(db.aliases[id].rows, body.chain, body.network) == 0 ==> primary)
    case RemoveAllowed(a, row) =>
      a == id && id in db.aliases && RemoveRow(db.aliases[id].rows, row).Some? ==>
        |db.aliases[id].rows| >= 2 && HandsOn(db.aliases[id].rows, IndexOfRow(db.aliases[id].rows, row.id), row)
    case _ => true
  }

  lemma WritesRows(oracle: Oracle, db: Db, now: int, rnd: string, pc: Pc, id: Id)
    requires (pc.Placing? || pc.RemoveAllowed?) && pc.alias == id && id in db.aliases
    ensures var rows := db.aliases[id].rows;
            var written := if pc.Placing? then PlaceRow(rows, InsertedRow(pc.body, rnd, pc.primary)) else RemoveRow(rows, pc.row);
            var db' := Step(oracle, db, now, rnd, pc).db;
            id in db'.aliases && db'.aliases[id].rows == if written.Some? then written.value else rows
  {
    hide PlaceRow, RemoveRow;
  }

  lemma StepKeepsTidy(oracle: Oracle, db: Db, now: int, rnd: string, pc: Pc, id: Id)
    requires TidyAt(db, id)
    ensures TidyAt(Step(oracle, db, now, rnd, pc).db, id) <==> WriteFits(db, rnd, pc, id)
  {
    hide Step, PlaceRow, RemoveRow, Tidy, HandsOn, CountGroup;
    var db' := Step(oracle, db, now, rnd, pc).db;
    if (pc.Placing? || pc.RemoveAllowed?) && pc.alias == id && id in db.aliases {
      var rows := db.aliases[id].rows;
      WritesRows(oracle, db, now, rnd, pc, id);
      if pc.Placing? && PlaceRow(rows, InsertedRow(pc.body, rnd, pc.primary)).Some? {
        PlaceKeepsTidy(rows, InsertedRow(pc.body, rnd, pc.primary));
      } else if pc.RemoveAllowed? && RemoveRow(rows, pc.row).Some? {
        RemoveKeepsTidy(rows, pc.row);
      }
    } else if id in db'.aliases {
      StepRows(oracle, db, now, rnd, pc, id);
      if !(id in db.aliases && db'.aliases[id].rows == db.aliases[id].rows) {
        SingleTidy(InsertedRow(pc.body, rnd, true));
      }
    }
  }

  /** In every state of the run alias `id` has an address, and a default in every group that has one. */
  ghost predicate TidyThroughout(oracle: Oracle, s: System, es: seq<Event>, id: Id)
    requires Valid(oracle, s, es)
    decreases |es|
  {
    TidyAt(s.db, id) && (es == [] || TidyThroughout(oracle, Apply(oracle, s, es[0]), es[1..], id))
  }

  /** Each write of the run to alias `id`'s rows commits while what its request read still supports it. */
  ghost predicate WritesFit(oracle: Oracle, s: System, es: seq<Event>, id: Id)
    requires Valid(oracle, s, es)
    decreases |es|
  {
    es == []
    || ((es[0].Run? ==> WriteFits(s.db, es[0].rnd, s.requests[es[0].tid], id))
        && WritesFit(oracle, Apply(oracle, s, es[0]), es[1..], id))
  }

  lemma {:induction false} TidyFrom(oracle: Oracle, s: System, es: seq<Event>, id: Id)
    requires Valid(oracle, s, es) && TidyAt(s.db, id)
    ensures TidyThroughout(oracle, s, es, id) <==> WritesFit(oracle, s, es, id)
    decreases |es|
  {
    hide Step, WriteFits, Tidy;
    if es != [] {
      var s' := Apply(oracle, s, es[0]);
      if es[0].Run? {
        StepKeepsTidy(oracle, s.db, s.clock, es[0].rnd, s.requests[es[0].tid], id);
      } else {
        OtherThins(oracle, s, es[0]);
      }
      if TidyAt(s'.db, id) {
        TidyFrom(oracle, s', es[1..], id);
      }
    }
  }

  /**
   * Any run, whatever overlaps: an alias has an address and every group of it a
   * default in every state exactly when each insert into a group that is empty by then
   * brings its default, and each removal leaves another row and hands its default on.
   */
  lemma TidyExactlyWhen(oracle: Oracle, es: seq<Event>, id: Id)
    requires Valid(oracle, START, es)
    ensures TidyThroughout(oracle, START, es, id) <==> WritesFit(oracle, START, es, id)
  {
    hide Valid, TidyThroughout, WritesFit;
    TidyFrom(oracle, START, es, id);
  }

  // ---------- Requests that do not overlap ----------

  /** The alias whose rows the request has read and is about to write. */
  function Window(pc: Pc): Option<Id> {
    match pc
    case RowFound(id, _) => Some(id)
    case RemoveAllowed(id, _) => Some(id)
    case Placing(_, id, _) => Some(id)
    case Consumed(_, ForRecovery(_, id, _)) => Some(id)
    case _ => None
  }

  predicate AloneOn(s: System, id: Id) {
    forall t, t' | t in s.requests && t' in s.requests ::
      Window(s.requests[t]) == Some(id) && Window(s.requests[t']) == Some(id) ==> t == t'
  }

  /**
   * In every state of the run at most one request is between its read and its write
   * of alias `id`'s rows. Whatever else runs, on this alias or on others, may overlap.
   */
  ghost predicate OneAtATime(oracle: Oracle, s: System, es: seq<Event>, id: Id)
    requires Valid(oracle, s, es)
    decreases |es|
  {
    AloneOn(s, id) && (es == [] || OneAtATime(oracle, Apply(oracle, s, es[0]), es[1..], id))
  }

  /** What the one request in flight has read still holds. */
  ghost predicate UpToDate(db: Db, pc: Pc) {
    match pc
    case RowFound(id, row) => Current(RowsOf(db, id), row)
    case RemoveAllowed(id, row) => Current(RowsOf(db, id), row) && |RowsOf(db, id)| >= 2
    case Placing(body, id, primary) => CountGroup(RowsOf(db, id), body.chain, body.network) == 0 ==> primary
    case _ => true
  }

  /** What `pc` read of alias `id`, if it is about to write it, still holds. */
  ghost predicate WindowHolds(db: Db, pc: Pc, id: Id) {
    Window(pc) == Some(id) && id in db.aliases ==> UpToDate(db, pc)
  }

  /** What was read and still holds supports the write. */
  lemma UpToDateFits(db: Db, rnd: string, pc: Pc, id: Id)
    requires WindowHolds(db, pc, id)
    ensures WriteFits(db, rnd, pc, id)
  {
    hide PlaceRow, RemoveRow, CountGroup;
  }

  lemma StepEntersWindow(oracle: Oracle, db: Db, now: int, rnd: string, pc: Pc, id: Id)
    requires WindowHolds(db, pc, id)
    ensures var out := Step(oracle, db, now, rnd, pc);
            && WindowHolds(out.db, out.pc, id)
            && (Window(out.pc) == Some(id) ==>
                  Window(pc) == Some(id) || id in db.aliases || pc.Consumed? || pc.Verified?)
  {
    hide InsertChallenge, InsertAlias, DeleteAlias, PlaceRow, RemoveRow, BurnRecoveries, InsertRecovery, CountAttempt,
      ConsumeChallenge, TakeOver, CountHeld, CountGroup, RecentlyMailed, Spendable, Live, Countable, Unconsumed;
  }

  /** Only a request in its window writes the rows of an alias that is there. */
  lemma StepLeavesRows(oracle: Oracle, db: Db, now: int, rnd: string, pc: Pc, id: Id)
    requires rnd != id && Window(pc) != Some(id)
    requires id in db.aliases && id in Step(oracle, db, now, rnd, pc).db.aliases
    ensures Step(oracle, db, now, rnd, pc).db.aliases[id].rows == db.aliases[id].rows
  {
    hide PlaceRow, RemoveRow, CountHeld, CountGroup, IndexOfRow, RecentlyMailed, InsertedRow, Spendable, Live, Unspent;
  }

  lemma SameRowsHold(db: Db, db': Db, pc: Pc, id: Id)
    requires WindowHolds(db, pc, id) && (id in db'.aliases ==> id in db.aliases && db'.aliases[id].rows == db.aliases[id].rows)
    ensures WindowHolds(db', pc, id)
  {
    hide CountGroup, IndexOfRow;
  }

  ghost predicate SerialInv(s: System, id: Id) {
    && TidyAt(s.db, id)
    && forall tid :: tid in s.requests ==>
      WindowHolds(s.db, s.requests[tid], id) && (Window(s.requests[tid]) == Some(id) ==> id in s.used)
  }

  /** A request that enters its window of an alias found it, now or before. */
  lemma WindowIsUsed(oracle: Oracle, s: System, tid: Tid, rnd: string, id: Id)
    requires Inv(oracle, s) && Enabled(s, Run(tid, rnd)) && SerialInv(s, id)
    requires Window(Step(oracle, s.db, s.clock, rnd, s.requests[tid]).pc) == Some(id)
    ensures id in s.used
  {
    hide Step, Sound, ChallengesLinked, ChallengesBound, RecoveriesLinked, RowsLinked, WindowHolds, IssuedFor, HasSpent,
      HasAlive, HasChecked, Verifies;
    var pc := s.requests[tid];
    assert Backed(oracle, s, tid);
    StepEntersWindow(oracle, s.db, s.clock, rnd, pc, id);
    if pc.Consumed? || pc.Verified? {
      TargetOfWindow(oracle, s.db, s.clock, rnd, pc, id);
      FitsUsed(s, pc.body, pc.target);
    }
  }

  lemma TargetOfWindow(oracle: Oracle, db: Db, now: int, rnd: string, pc: Pc, id: Id)
    requires (pc.Consumed? || pc.Verified?) && Window(Step(oracle, db, now, rnd, pc).pc) == Some(id)
    ensures TargetAlias(pc.target) == Some(id)
  {
    hide InsertAlias, TakeOver, CountGroup, Unconsumed;
  }

  lemma RunKeepsSerialInv(oracle: Oracle, s: System, tid: Tid, rnd: string, id: Id)
    requires Inv(oracle, s) && Enabled(s, Run(tid, rnd)) && AloneOn(s, id) && SerialInv(s, id)
    ensures SerialInv(Apply(oracle, s, Run(tid, rnd)), id)
  {
    hide Step, Inv, TidyAt, WindowHolds, WriteFits;
    var pc := s.requests[tid];
    var out := Step(oracle, s.db, s.clock, rnd, pc);
    UpToDateFits(s.db, rnd, pc, id);
    StepKeepsTidy(oracle, s.db, s.clock, rnd, pc, id);
    StepEntersWindow(oracle, s.db, s.clock, rnd, pc, id);
    RunExtends(oracle, s, tid, rnd);
    if Window(out.pc) == Some(id) {
      WindowIsUsed(oracle, s, tid, rnd, id);
    }
    forall t | t in s.requests && t != tid
      ensures WindowHolds(out.db, s.requests[t], id)
    {
      if Window(s.requests[t]) == Some(id) {
        if id in out.db.aliases {
          StepLeavesRows(oracle, s.db, s.clock, rnd, pc, id);
        }
        SameRowsHold(s.db, out.db, s.requests[t], id);
      } else {
        NoWindow(out.db, s.requests[t], id);
      }
    }
  }

  lemma NoWindow(db: Db, pc: Pc, id: Id)
    requires Window(pc) != Some(id)
    ensures WindowHolds(db, pc, id)
  {
  }

  lemma OtherKeepsSerialInv(oracle: Oracle, s: System, e: Event, id: Id)
    requires Enabled(s, e) && !e.Run? && SerialInv(s, id)
    ensures SerialInv(Apply(oracle, s, e), id)
  {
    hide Tidy, WindowHolds, Thins;
    var s' := Apply(oracle, s, e);
    OtherThins(oracle, s, e);
    ThinRows(s, s', id);
    forall t | t in s'.requests
      ensures WindowHolds(s'.db, s'.requests[t], id)
    {
      if t in s.requests {
        SameRowsHold(s.db, s'.db, s.requests[t], id);
      } else {
        NoWindow(s'.db, s'.requests[t], id);
      }
    }
  }

  lemma ThinRows(s: System, s': System, id: Id)
    requires Thins(s, s')
    ensures id in s'.db.aliases ==> id in s.db.aliases && s'.db.aliases[id].rows == s.db.aliases[id].rows
    ensures s'.used == s.used
    ensures forall t :: t in s'.requests ==>
      if t in s.requests then s'.requests[t] == s.requests[t] else s'.requests[t].Begin?
  {
  }

  /** Requests that do not overlap on an alias's rows write what they read still supports. */
  lemma {:induction false} OneAtATimeFits(oracle: Oracle, s: System, es: seq<Event>, id: Id)
    requires Valid(oracle, s, es) && OneAtATime(oracle, s, es, id) && Inv(oracle, s) && SerialInv(s, id)
    ensures WritesFit(oracle, s, es, id)
    decreases |es|
  {
    hide Inv, AloneOn, Apply, WindowHolds, WriteFits, TidyAt;
    if es != [] {
      if es[0].Run? {
        UpToDateFits(s.db, es[0].rnd, s.requests[es[0].tid], id);
        RunKeepsSerialInv(oracle, s, es[0].tid, es[0].rnd, id);
      } else {
        OtherKeepsSerialInv(oracle, s, es[0], id);
      }
      StepKeepsInv(oracle, s, es[0]);
      OneAtATimeFits(oracle, Apply(oracle, s, es[0]), es[1..], id);
    }
  }

  /** So without overlap on its rows an alias is never without an address or a default. */
  lemma TidyWithoutOverlap(oracle: Oracle, es: seq<Event>, id: Id)
    requires Valid(oracle, START, es) && OneAtATime(oracle, START, es, id)
    ensures WritesFit(oracle, START, es, id) && TidyThroughout(oracle, START, es, id)
  {
    hide Valid, OneAtATime, WritesFit, TidyThroughout;
    OneAtATimeFits(oracle, START, es, id);
    TidyExactlyWhen(oracle, es, id);
  }

  lemma {:induction false} TidyAtEnd(oracle: Oracle, s: System, es: seq<Event>, id: Id)
    requires Valid(oracle, s, es) && TidyThroughout(oracle, s, es, id)
    ensures TidyAt(Exec(oracle, s, es).db, id)
    decreases |es|
  {
    hide Apply, Enabled, TidyAt;
    if es != [] {
      TidyAtEnd(oracle, Apply(oracle, s, es[0]), es[1..], id);
    }
  }

  predicate OnlyDefault(rows: seq<Row>, i: nat, chain: Chain, network: string)
    requires i < |rows|
  {
    && rows[i].primary && InGroup(rows[i], chain, network)
    && forall j :: 0 <= j < |rows| && rows[j].primary && InGroup(rows[j], chain, network) ==> j == i
  }

  /** In every state of every run whose writes fit: an address, and exactly one default in each group. */
  lemma EveryGroupHasItsDefault(oracle: Oracle, es: seq<Event>, id: Id)
    requires Valid(oracle, START, es) && WritesFit(oracle, START, es, id)
    requires id in Exec(oracle, START, es).db.aliases
    ensures var rows := Exec(oracle, START, es).db.aliases[id].rows;
            && rows != []
            && forall r :: r in rows ==>
              exists i :: 0 <= i < |rows| && OnlyDefault(rows, i, r.chain, r.network)
  {
    hide Valid, Exec, WritesFit, TidyThroughout;
    TidyExactlyWhen(oracle, es, id);
    TidyAtEnd(oracle, START, es, id);
    var rows := Exec(oracle, START, es).db.aliases[id].rows;
    forall r | r in rows
      ensures exists i :: 0 <= i < |rows| && OnlyDefault(rows, i, r.chain, r.network)
    {
      assert HasDefault(rows, r.chain, r.network);
      var i :| 0 <= i < |rows| && rows[i].primary && InGroup(rows[i], r.chain, r.network);
      assert OnlyDefault(rows, i, r.chain, r.network);
    }
  }

  // ---------- What resolve answers ----------

  predicate Shows(row: Row, chain: Chain, network: Option<string>) {
    row.chain == chain && (network.None? || row.network == network.value)
  }

  /** If any row is shown, its group's default is shown first. */
  lemma DefaultComesFirst(rows: seq<Row>, chain: Chain, network: Option<string>, r: Row)
    requires Tidy(rows) && r in rows && Shows(r, chain, network)
    ensures var shown := ResolvedRows(rows, chain, network); shown != [] && shown[0].primary
  {
    var all := Filter(rows, (r: Row) => r.chain == chain && (network.None? || r.network == network.value));
    var first := Filter(all, (r: Row) => r.primary);
    assert HasDefault(rows, r.chain, r.network);
    var d :| d in rows && d.primary && InGroup(d, r.chain, r.network);
    assert d in all;
    assert d in first;
    assert first[0] in first;
    assert ResolvedRows(rows, chain, network)[0] == first[0];
  }

  lemma ShownRows(rows: seq<Row>, chain: Chain, network: Option<string>, r: Row)
    ensures r in ResolvedRows(rows, chain, network) <==> r in rows && Shows(r, chain, network)
  {
  }

  /** On tidy rows, `primaryAddress` is null only for an empty list, and otherwise its first entry's. */
  lemma ResolveAnswersItsHead(rows: seq<Row>, chain: Chain, network: Option<string>)
    requires Tidy(rows)
    ensures var shown := ResolvedRows(rows, chain, network);
            && (forall r :: r in shown <==> r in rows && Shows(r, chain, network))
            && PrimaryAddress(shown) == if shown == [] then None else Some(shown[0].address)
  {
    var shown := ResolvedRows(rows, chain, network);
    forall r
      ensures r in shown <==> r in rows && Shows(r, chain, network)
    {
      ShownRows(rows, chain, network, r);
    }
    if shown != [] {
      assert shown[0] in shown;
      DefaultComesFirst(rows, chain, network, shown[0]);
    }
  }

  /**
   * In every state of every run whose writes to the rows of the alias of that name
   * fit: it resolves exactly while it is active, and to a default first.
   */
  lemma ResolveNeverLosesItsDefault(oracle: Oracle, es: seq<Event>, name: string, network: Option<string>, chain: Chain)
    requires Valid(oracle, START, es)
    requires var db := Exec(oracle, START, es).db; name in db.names ==> WritesFit(oracle, START, es, db.names[name])
    ensures var db := Exec(oracle, START, es).db;
            var answer := Resolve(db, name, network, chain);
            if name in db.names && db.names[name] in db.aliases && db.aliases[db.names[name]].status == ACTIVE
            then answer.Some?
                 && answer.value.1 == if answer.value.0 == [] then None else Some(answer.value.0[0].address)
            else answer == None
  {
    hide Valid, Exec, WritesFit, TidyThroughout, ResolvedRows, PrimaryAddress, Tidy, Inv;
    var db := Exec(oracle, START, es).db;
    if FindActive(db, name).Some? {
      var id := db.names[name];
      TidyExactlyWhen(oracle, es, id);
      TidyAtEnd(oracle, START, es, id);
      ResolveAnswersItsHead(RowsOf(db, id), chain, network);
    }
  }

  // ---------- Which adds the indexes refuse ----------

  ghost predicate Listed(rows: seq<Row>, row: Row) {
    exists r :: r in rows && InGroup(r, row.chain, row.network) && r.address == row.address
  }

  /** Another chain's default holds the network. */
  ghost predicate TakenByOtherChain(rows: seq<Row>, row: Row) {
    exists r :: r in rows && r.primary && r.network == row.network && r.chain != row.chain
  }

  /** The insert commits exactly when the address is new and its default flag meets no other chain's. */
  lemma PlaceCommitsExactlyWhen(rows: seq<Row>, row: Row)
    requires Indexed(rows)
    ensures PlaceRow(rows, row).Some? <==> !Listed(rows, row) && !(row.primary && TakenByOtherChain(rows, row))
  {
    var base := if row.primary then Demote(rows, row.chain, row.network) else rows;
    var all := base + [row];
    forall i | 0 <= i < |rows|
      ensures SameAccount(rows[i], base[i]) && all[i] == base[i] && rows[i] in rows && (base[i].primary ==> rows[i].primary)
    {}
    if Listed(rows, row) {
      var i :| 0 <= i < |rows| && InGroup(rows[i], row.chain, row.network) && rows[i].address == row.address;
      assert InGroup(all[i], row.chain, row.network) && all[|rows|] == row;
    } else if row.primary && TakenByOtherChain(rows, row) {
      var i :| 0 <= i < |rows| && rows[i].primary && rows[i].network == row.network && rows[i].chain != row.chain;
      assert all[i].primary && all[|rows|].primary;
    } else if row.primary {
      assert forall i :: 0 <= i < |rows| && base[i].primary ==> base[i].network != row.network;
    }
  }

  lemma PlacingAnswers(oracle: Oracle, db: Db, now: int, rnd: string, body: Body, id: Id, primary: bool)
    requires id in db.aliases
    ensures var out := Step(oracle, db, now, rnd, Placing(body, id, primary));
            if PlaceRow(db.aliases[id].rows, InsertedRow(body, rnd, primary)).Some?
            then out.pc == Done(Added(InsertedRow(body, rnd, primary)))
            else out == Fail(db, AddressConflict)
  {
  }

  /**
   * The index is not per chain, so the service's promise that a chain's first
   * address becomes that chain's default fails: the add is answered as a duplicate
   * exactly when the network already has a row, which is then another chain's.
   */
  lemma FirstOnChainRefusedExactlyWhen(oracle: Oracle, db: Db, now: int, rnd: string, body: Body, add: Add, id: Id)
    requires id in db.aliases && Tidy(db.aliases[id].rows)
    requires forall r :: r in db.aliases[id].rows ==> !InGroup(r, body.chain, body.network)
    ensures var placing := Step(oracle, db, now, rnd, Consumed(body, ForAdd(add, id)));
            var out := Step(oracle, placing.db, now, rnd, placing.pc);
            if exists r :: r in db.aliases[id].rows && r.network == body.network
            then out == Fail(db, AddressConflict)
            else out.pc == Done(Added(InsertedRow(body, rnd, true)))
  {
    var rows := db.aliases[id].rows;
    CountGroupZero(rows, body.chain, body.network);
    assert Step(oracle, db, now, rnd, Consumed(body, ForAdd(add, id))) == Out(db, Placing(body, id, true), Quiet);
    PlacingAnswers(oracle, db, now, rnd, body, id, true);
    PlaceCommitsExactlyWhen(rows, InsertedRow(body, rnd, true));
    if r :| r in rows && r.network == body.network {
      assert HasDefault(rows, r.chain, r.network);
    }
  }
}
