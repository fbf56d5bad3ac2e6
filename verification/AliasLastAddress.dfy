/**
 * The last address. The service counts an alias's addresses before it removes one,
 * so what it takes to keep one is only that no two removals of an alias are between
 * their count and their delete at once. Adds, recoveries, releases and the counts
 * themselves may overlap them.
 */
module AliasLastAddress {
  import opened Common
  import opened AliasTables
  import opened AliasProtocol
  import opened AliasSteps
  import opened AliasHistory
  import opened AliasSafety
  import opened AliasCap

  predicate Removing(pc: Pc, id: Id) {
    pc.RemoveAllowed? && pc.alias == id
  }

  predicate OneRemoving(s: System, id: Id) {
    forall t, t' | t in s.requests && t' in s.requests ::
      Removing(s.requests[t], id) && Removing(s.requests[t'], id) ==> t == t'
  }

  /** In every state of the run at most one removal of `id` is between its count and its delete. */
  ghost predicate RemovalsApart(oracle: Oracle, s: System, es: seq<Event>, id: Id)
    requires Valid(oracle, s, es)
    decreases |es|
  {
    OneRemoving(s, id) && (es == [] || RemovalsApart(oracle, Apply(oracle, s, es[0]), es[1..], id))
  }

  predicate Present(rows: seq<Row>, row: Row) {
    IndexOfRow(rows, row.id) < |rows|
  }

  /** A removal past its count leaves an address, unless its row has gone already: then it fails. */
  predicate LeavesOne(db: Db, pc: Pc, id: Id) {
    Removing(pc, id) && id in db.aliases && Present(db.aliases[id].rows, pc.row) ==> |db.aliases[id].rows| >= 2
  }

  /** A row that was read is one that was registered. */
  predicate ReadIsOld(s: System, pc: Pc) {
    match pc
    case RowFound(_, row) => row.id in s.used
    case RemoveAllowed(_, row) => row.id in s.used
    case _ => true
  }

  predicate HasAddress(db: Db, id: Id) {
    id in db.aliases ==> db.aliases[id].rows != []
  }

  ghost predicate LastInv(s: System, id: Id) {
    && HasAddress(s.db, id)
    && forall tid :: tid in s.requests ==> LeavesOne(s.db, s.requests[tid], id) && ReadIsOld(s, s.requests[tid])
  }

  // ---------- One statement ----------

  /** A removal that was allowed takes one row of several; every other write leaves a row. */
  lemma StepLeavesAddress(oracle: Oracle, db: Db, now: int, rnd: string, pc: Pc, id: Id)
    requires HasAddress(db, id) && LeavesOne(db, pc, id)
    ensures HasAddress(Step(oracle, db, now, rnd, pc).db, id)
  {
    hide Step, PlaceRow, RemoveRow;
    var db' := Step(oracle, db, now, rnd, pc).db;
    if id in db'.aliases {
      StepRows(oracle, db, now, rnd, pc, id);
      if pc.RemoveAllowed? && RemoveRow(RowsOf(db, id), pc.row).Some? {
        RemovedCount(RowsOf(db, id), pc.row);
      } else if pc.Placing? && PlaceRow(RowsOf(db, id), InsertedRow(pc.body, rnd, pc.primary)).Some? {
        PlacedCount(RowsOf(db, id), InsertedRow(pc.body, rnd, pc.primary));
      }
    }
  }

  lemma RemovedCount(rows: seq<Row>, row: Row)
    requires RemoveRow(rows, row).Some?
    ensures Present(rows, row) && |RemoveRow(rows, row).value| == |rows| - 1
  {
    hide DistinctAddresses, OnePrimaryPerNetwork;
  }

  /** What `pc` writes leaves the other removal allowed: only a second removal would not. */
  lemma StepKeepsAllowed(oracle: Oracle, db: Db, now: int, rnd: string, pc: Pc, other: Pc, id: Id)
    requires HasAddress(db, id) && LeavesOne(db, other, id)
    requires other.RemoveAllowed? ==> other.row.id != rnd
    requires Removing(other, id) ==> !Removing(pc, id)
    ensures LeavesOne(Step(oracle, db, now, rnd, pc).db, other, id)
  {
    hide Step, PlaceRow, RemoveRow;
    var db' := Step(oracle, db, now, rnd, pc).db;
    if id in db'.aliases {
      StepRows(oracle, db, now, rnd, pc, id);
      if pc.Placing? && PlaceRow(RowsOf(db, id), InsertedRow(pc.body, rnd, pc.primary)).Some? {
        PlacedCount(RowsOf(db, id), InsertedRow(pc.body, rnd, pc.primary));
      }
    }
  }

  /** A removal enters its window having counted two rows. */
  lemma StepEntersRemoving(oracle: Oracle, db: Db, now: int, rnd: string, pc: Pc, id: Id)
    ensures var out := Step(oracle, db, now, rnd, pc);
            && LeavesOne(out.db, out.pc, id)
            && (out.pc.RemoveAllowed? ==> pc.RowFound? && out.pc.row == pc.row)
            && (out.pc.RowFound? ==> out.pc.row in RowsOf(db, out.pc.alias))
  {
    hide InsertChallenge, InsertAlias, DeleteAlias, PlaceRow, RemoveRow, BurnRecoveries, InsertRecovery, CountAttempt,
      ConsumeChallenge, TakeOver, CountHeld, CountGroup, RecentlyMailed, Spendable, Live, Countable, Unconsumed;
  }

  // ---------- Runs ----------

  lemma RowIsUsed(s: System, id: Id, row: Row)
    requires RowsLinked(s) && row in RowsOf(s.db, id)
    ensures row.id in s.used
  {
    assert Traced(s, id, row);
  }

  lemma RunKeepsLast(oracle: Oracle, s: System, tid: Tid, rnd: string, id: Id)
    requires Inv(oracle, s) && Enabled(s, Run(tid, rnd)) && OneRemoving(s, id) && LastInv(s, id)
    ensures LastInv(Apply(oracle, s, Run(tid, rnd)), id)
  {
    hide Step, HasAddress, LeavesOne, Removing, Sound, RequestsLinked, NamesLinked, ChallengesLinked, RecoveriesLinked,
      RowsLinked;
    var pc := s.requests[tid];
    var out := Step(oracle, s.db, s.clock, rnd, pc);
    StepLeavesAddress(oracle, s.db, s.clock, rnd, pc, id);
    StepEntersRemoving(oracle, s.db, s.clock, rnd, pc, id);
    if out.pc.RowFound? {
      RowIsUsed(s, out.pc.alias, out.pc.row);
    }
    forall t | t in s.requests && t != tid
      ensures LeavesOne(out.db, s.requests[t], id)
    {
      assert ReadIsOld(s, s.requests[t]);
      StepKeepsAllowed(oracle, s.db, s.clock, rnd, pc, s.requests[t], id);
    }
  }

  lemma OtherKeepsLast(oracle: Oracle, s: System, e: Event, id: Id)
    requires Enabled(s, e) && !e.Run? && LastInv(s, id)
    ensures LastInv(Apply(oracle, s, e), id)
  {
    OtherThins(oracle, s, e);
  }

  lemma {:induction false} LastInvAlways(oracle: Oracle, s: System, es: seq<Event>, id: Id)
    requires Valid(oracle, s, es) && RemovalsApart(oracle, s, es, id) && Inv(oracle, s) && LastInv(s, id)
    ensures LastInv(Exec(oracle, s, es), id)
    decreases |es|
  {
    hide Inv, LastInv, OneRemoving, Apply;
    if es != [] {
      if es[0].Run? {
        RunKeepsLast(oracle, s, es[0].tid, es[0].rnd, id);
      } else {
        OtherKeepsLast(oracle, s, es[0], id);
      }
      StepKeepsInv(oracle, s, es[0]);
      LastInvAlways(oracle, Apply(oracle, s, es[0]), es[1..], id);
    }
  }

  /** In every state of every run whose removals of the alias do not overlap past their counts, it has an address. */
  lemma AnAddressIsLeft(oracle: Oracle, es: seq<Event>, id: Id)
    requires Valid(oracle, START, es) && RemovalsApart(oracle, START, es, id)
    requires id in Exec(oracle, START, es).db.aliases
    ensures Exec(oracle, START, es).db.aliases[id].rows != []
  {
    hide Valid, Exec, RemovalsApart;
    LastInvAlways(oracle, START, es, id);
  }
}
