/** The cap on an alias's addresses under overlapping adds. */
module AliasCap {
  import opened Common
  import opened AliasTables
  import opened AliasProtocol
  import opened AliasSteps
  import opened AliasHistory
  import opened AliasSafety

  /** Is this an add of `id` between its count check and its insert? */
  predicate Adding(pc: Pc, id: Id) {
    match pc
    case Spending(_, _, ForAdd(_, a)) => a == id
    case Verified(_, _, ForAdd(_, a), _) => a == id
    case Consumed(_, ForAdd(_, a)) => a == id
    case Placing(_, a, _) => a == id
    case _ => false
  }

  function Adders(s: System, id: Id): set<Tid> {
    set tid | tid in s.requests && Adding(s.requests[tid], id)
  }

  /** At most `k` adds of any one alias are in that window, in every state of the run. */
  ghost predicate AtMostAdding(oracle: Oracle, s: System, es: seq<Event>, k: nat)
    requires Valid(oracle, s, es)
    decreases |es|
  {
    && (forall id :: |Adders(s, id)| <= k)
    && (es == [] || AtMostAdding(oracle, Apply(oracle, s, es[0]), es[1..], k))
  }

  /** Rows present and rows still to come. */
  ghost predicate WithinCap(s: System, k: nat) {
    forall id :: id in s.db.aliases ==> |s.db.aliases[id].rows| + |Adders(s, id)| <= MAX_ADDRESSES - 1 + k
  }

  /** Only an add leaves the window by inserting, and enters it only below the cap. */
  lemma StepAdding(oracle: Oracle, db: Db, now: int, rnd: string, pc: Pc, id: Id)
    ensures var out := Step(oracle, db, now, rnd, pc);
            && (pc.Placing? && pc.alias == id ==> Adding(pc, id) && !Adding(out.pc, id))
            && (Adding(out.pc, id) && !Adding(pc, id) ==> out.db == db && |RowsOf(db, id)| < MAX_ADDRESSES)
  {
    hide InsertChallenge, InsertAlias, DeleteAlias, PlaceRow, RemoveRow, BurnRecoveries, InsertRecovery, CountAttempt,
      ConsumeChallenge, TakeOver, CountHeld, CountGroup, IndexOfRow, RecentlyMailed, Spendable, Live, Countable, RowsOf;
  }

  lemma StepRowCount(oracle: Oracle, db: Db, now: int, rnd: string, pc: Pc, id: Id)
    requires id in Step(oracle, db, now, rnd, pc).db.aliases
    ensures var out := Step(oracle, db, now, rnd, pc);
            var n, n' := |RowsOf(db, id)|, |out.db.aliases[id].rows|;
            n' <= n || n' == 1 || (n' == n + 1 && Adding(pc, id) && !Adding(out.pc, id))
  {
    hide Step, PlaceRow, RemoveRow, Adding;
    StepRows(oracle, db, now, rnd, pc, id);
    StepAdding(oracle, db, now, rnd, pc, id);
    var rows := Step(oracle, db, now, rnd, pc).db.aliases[id].rows;
    if pc.RemoveAllowed? && RemoveRow(RowsOf(db, id), pc.row) == Some(rows) {
      RemoveRowKeeps(RowsOf(db, id), pc.row);
    } else if pc.Placing? && PlaceRow(RowsOf(db, id), InsertedRow(pc.body, rnd, pc.primary)) == Some(rows) {
      PlacedCount(RowsOf(db, id), InsertedRow(pc.body, rnd, pc.primary));
    }
  }

  lemma PlacedCount(rows: seq<Row>, row: Row)
    requires PlaceRow(rows, row).Some?
    ensures |PlaceRow(rows, row).value| == |rows| + 1
  {
    hide DistinctAddresses, OnePrimaryPerNetwork;
  }

  lemma AddersAfter(s: System, tid: Tid, rnd: string, out: Out, id: Id)
    requires tid in s.requests
    ensures var s' := After(s, tid, rnd, out);
            |Adders(s', id)| == |Adders(s, id)| + (if Adding(out.pc, id) then 1 else 0) - (if Adding(s.requests[tid], id) then 1 else 0)
  {
    var s' := After(s, tid, rnd, out);
    var rest := Adders(s, id) - {tid};
    assert Adders(s, id) == if Adding(s.requests[tid], id) then rest + {tid} else rest;
    assert Adders(s', id) == if Adding(out.pc, id) then rest + {tid} else rest;
  }

  lemma RunKeepsCap(oracle: Oracle, s: System, tid: Tid, rnd: string, k: nat)
    requires Enabled(s, Run(tid, rnd)) && WithinCap(s, k) && k >= 1
    requires forall id :: |Adders(Apply(oracle, s, Run(tid, rnd)), id)| <= k
    ensures WithinCap(Apply(oracle, s, Run(tid, rnd)), k)
  {
    hide Step, Adders, Adding, Inv;
    var pc := s.requests[tid];
    var out := Step(oracle, s.db, s.clock, rnd, pc);
    var s' := Apply(oracle, s, Run(tid, rnd));
    assert s' == After(s, tid, rnd, out);
    forall id | id in s'.db.aliases
      ensures |s'.db.aliases[id].rows| + |Adders(s', id)| <= MAX_ADDRESSES - 1 + k
    {
      StepRowCount(oracle, s.db, s.clock, rnd, pc, id);
      StepAdding(oracle, s.db, s.clock, rnd, pc, id);
      AddersAfter(s, tid, rnd, out, id);
    }
  }

  lemma OtherKeepsCap(oracle: Oracle, s: System, e: Event, k: nat)
    requires Enabled(s, e) && !e.Run? && WithinCap(s, k)
    ensures WithinCap(Apply(oracle, s, e), k)
  {
    var s' := Apply(oracle, s, e);
    forall id | id in s'.db.aliases
      ensures |s'.db.aliases[id].rows| + |Adders(s', id)| <= MAX_ADDRESSES - 1 + k
    {
      assert Adders(s', id) == Adders(s, id);
    }
  }

  lemma {:induction false} CapAlways(oracle: Oracle, s: System, es: seq<Event>, k: nat)
    requires WithinCap(s, k) && k >= 1
    requires Valid(oracle, s, es) && AtMostAdding(oracle, s, es, k)
    ensures WithinCap(Exec(oracle, s, es), k)
    decreases |es|
  {
    if es != [] {
      if es[0].Run? {
        RunKeepsCap(oracle, s, es[0].tid, es[0].rnd, k);
      } else {
        OtherKeepsCap(oracle, s, es[0], k);
      }
      CapAlways(oracle, Apply(oracle, s, es[0]), es[1..], k);
    }
  }

  /**
   * With at most `k` overlapping adds of one alias, whatever else runs, it never
   * holds more than 20 + k - 1 addresses: exactly the cap when adds do not overlap.
   */
  lemma AddressCap(oracle: Oracle, es: seq<Event>, k: nat, id: Id)
    requires k >= 1 && Valid(oracle, START, es) && AtMostAdding(oracle, START, es, k)
    requires id in Exec(oracle, START, es).db.aliases
    ensures |Exec(oracle, START, es).db.aliases[id].rows| <= 20 + k - 1
  {
    CapAlways(oracle, START, es, k);
  }
}
