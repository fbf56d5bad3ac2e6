/**
 * What each operation answers and leaves behind, read off the tables alone: nothing
 * here names the function that decides it. A request is run alone; what an alias that
 * goes in between makes of it stands at the end.
 */
module AliasAnswers {
  import opened Common
  import opened AliasTables
  import opened AliasProtocol
  import opened AliasSteps
  import opened AliasSafety
  import opened AliasDefaults
  import opened AliasOperations
  import opened AliasService

  // ---------- Who may do what ----------

  /** The alias of that name is this consumer's. */
  predicate Owns(db: Db, consumer: Id, name: string) {
    name in db.names && db.names[name] in db.aliases && db.aliases[db.names[name]].consumer == consumer
  }

  /** The alias of that name is not under an operator's hold. */
  predicate IsActive(db: Db, name: string) {
    name in db.names && db.names[name] in db.aliases && db.aliases[db.names[name]].status == ACTIVE
  }

  /** Adding, removing and releasing go on for the owner alone; anyone else is told there is no such alias. */
  lemma OnlyTheOwnerGoesOn(oracle: Oracle, db: Db, now: int, rnd: string, request: Request, consumer: Id, name: string)
    requires match request
      case ToAdd(a) => consumer == a.consumer && name == a.name
      case ToRemove(r) => consumer == r.consumer && name == r.name
      case ToRelease(r) => consumer == r.consumer && name == r.name
      case _ => false
    ensures var out := Step(oracle, db, now, rnd, Begin(request));
            && out.db == db && out.note == Quiet
            && if Owns(db, consumer, name)
               then out.pc == match request
                 case ToAdd(a) => AddOwned(a, db.names[name])
                 case ToRemove(r) => RemoveOwned(r, db.names[name])
                 case _ => ReleaseOwned(db.names[name])
               else out.pc == Done(Failed(NotFound))
  {
  }

  /** A recovery starts for the mailbox on record of an active alias, and is answered alike in any other case. */
  lemma OnlyTheMailboxGoesOn(oracle: Oracle, db: Db, now: int, rnd: string, s: Start)
    ensures var out := Step(oracle, db, now, rnd, Begin(ToStart(s)));
            && out.db == db && out.note == Quiet
            && if IsActive(db, s.name) && db.aliases[db.names[s.name]].email == s.email
               then out.pc == StartFound(s, db.names[s.name])
               else out.pc == Done(Started(None))
  {
  }

  /** A recovery is completed only on an active alias. */
  lemma OnlyActiveIsRecovered(oracle: Oracle, db: Db, now: int, rnd: string, c: Complete)
    ensures var out := Step(oracle, db, now, rnd, Begin(ToComplete(c)));
            && out.db == db && out.note == Quiet
            && if IsActive(db, c.name)
               then out.pc == RecoverFound(c, db.names[c.name])
               else out.pc == Done(Failed(NotFound))
  {
  }

  /** While an alias is suspended it neither resolves nor recovers, and asking writes nothing. */
  lemma SuspendedIsHeld(oracle: Oracle, db: Db, now: int, rnd: string, s: Start, c: Complete, network: Option<string>, chain: Chain)
    requires s.name == c.name && s.name in db.names && db.names[s.name] in db.aliases
    requires db.aliases[db.names[s.name]].status == SUSPENDED
    ensures Resolve(db, s.name, network, chain) == None
    ensures Finish(oracle, db, now, rnd, Begin(ToStart(s))) == (db, Started(None))
    ensures Finish(oracle, db, now, rnd, Begin(ToComplete(c))) == (db, Failed(NotFound))
  {
    hide Finish, ResolvedRows;
    Unroll(oracle, db, now, rnd, Begin(ToStart(s)));
    Unroll(oracle, db, now, rnd, Begin(ToComplete(c)));
  }

  // ---------- resolve ----------

  /** Row `a` is listed before row `b`: a default first, then the older. */
  predicate ListedBefore(rows: seq<Row>, i: nat, j: nat)
    requires i < |rows| && j < |rows|
  {
    (rows[i].primary && !rows[j].primary) || (rows[i].primary == rows[j].primary && i < j)
  }

  /** `at` places every shown row among the alias's, once each and in the order they are listed. */
  ghost predicate Lists(rows: seq<Row>, chain: Chain, network: Option<string>, shown: seq<Row>, at: seq<nat>) {
    && |at| == |shown|
    && (forall i :: 0 <= i < |at| ==> at[i] < |rows| && shown[i] == rows[at[i]])
    && (forall i, j :: 0 <= i < j < |at| ==> at[i] < |rows| && at[j] < |rows| && ListedBefore(rows, at[i], at[j]))
    && (forall k: nat :: k in at <==> k < |rows| && Shows(rows[k], chain, network))
  }

  /** The places of the rows `p` accepts, in order. */
  function Places(rows: seq<Row>, p: Row -> bool): seq<nat> {
    if rows == [] then []
    else
      var n := |rows| - 1;
      Places(rows[..n], p) + if p(rows[n]) then [n] else []
  }

  lemma {:induction false} PlacesAre(rows: seq<Row>, p: Row -> bool)
    ensures var at := Places(rows, p);
            && (forall k: nat :: k in at <==> k < |rows| && p(rows[k]))
            && (forall i, j :: 0 <= i < j < |at| ==> at[i] < at[j])
  {
    if rows != [] {
      var n := |rows| - 1;
      var front, last, at := Places(rows[..n], p), if p(rows[n]) then [n] else [], Places(rows, p);
      PlacesAre(rows[..n], p);
      assert at == front + last;
      forall k: nat
        ensures k in at <==> k < |rows| && p(rows[k])
      {
        assert k in at <==> k in front || k in last;
        assert k < n ==> rows[..n][k] == rows[k];
      }
      forall i, j | 0 <= i < j < |at|
        ensures at[i] < at[j]
      {
        assert front[i] in front;
      }
    }
  }

  lemma FilterFirst(rows: seq<Row>, p: Row -> bool)
    requires rows != []
    ensures Filter(rows, p) == (if p(rows[0]) then [rows[0]] else []) + Filter(rows[1..], p)
  {
  }

  lemma {:induction false} FilterLast(rows: seq<Row>, p: Row -> bool)
    requires rows != []
    ensures var n := |rows| - 1; Filter(rows, p) == Filter(rows[..n], p) + if p(rows[n]) then [rows[n]] else []
  {
    var n, tail := |rows| - 1, rows[1..];
    var first := if p(rows[0]) then [rows[0]] else [];
    assert Filter(rows, p) == first + Filter(tail, p);
    if n > 0 {
      hide Filter;
      FilterLast(tail, p);
      FilterFirst(rows[..n], p);
      assert tail[..n - 1] == rows[..n][1..];
    }
  }

  lemma {:induction false} FilterAt(rows: seq<Row>, p: Row -> bool)
    ensures var at, out := Places(rows, p), Filter(rows, p);
            |at| == |out| && forall i :: 0 <= i < |at| ==> at[i] < |rows| && out[i] == rows[at[i]]
  {
    if rows != [] {
      FilterLast(rows, p);
      FilterAt(rows[..|rows| - 1], p);
    }
  }

  /** Where a part of a part stands. */
  lemma FilterOf(rows: seq<Row>, p: Row -> bool, q: Row -> bool) returns (at: seq<nat>)
    ensures var out := Filter(Filter(rows, p), q);
            |at| == |out| && forall i :: 0 <= i < |at| ==> at[i] < |rows| && out[i] == rows[at[i]]
    ensures forall i, j :: 0 <= i < j < |at| ==> at[i] < at[j]
    ensures forall k: nat :: k in at <==> k < |rows| && p(rows[k]) && q(rows[k])
  {
    hide Places, Filter;
    var inner := Filter(rows, p);
    var a, b := Places(rows, p), Places(inner, q);
    PlacesAre(rows, p);
    PlacesAre(inner, q);
    FilterAt(rows, p);
    FilterAt(inner, q);
    forall i | 0 <= i < |b|
      ensures b[i] < |a|
    {
      assert b[i] in b;
    }
    at := seq(|b|, i requires 0 <= i < |b| => a[b[i]]);
    forall i | 0 <= i < |b|
      ensures p(rows[at[i]]) && q(rows[at[i]])
    {
      assert b[i] in b && at[i] in a;
    }
    forall k: nat | k < |rows| && p(rows[k]) && q(rows[k])
      ensures k in at
    {
      assert k in a;
      var m: nat :| m < |a| && a[m] == k;
      assert inner[m] == rows[k] && m in b;
      var i :| 0 <= i < |b| && b[i] == m;
      assert at[i] == k;
    }
  }

  /**
   * An active alias resolves, and no other: to the rows on the chain, and the network
   * when one is named, each once, defaults first and then by age. The primary address
   * is the first one listed, when that is a default.
   */
  lemma ResolveIs(db: Db, name: string, network: Option<string>, chain: Chain) returns (at: seq<nat>)
    ensures Resolve(db, name, network, chain).Some? <==> IsActive(db, name)
    ensures IsActive(db, name) ==>
      var (shown, primary) := Resolve(db, name, network, chain).value;
      && Lists(db.aliases[db.names[name]].rows, chain, network, shown, at)
      && primary == if shown != [] && shown[0].primary then Some(shown[0].address) else None
  {
    at := [];
    hide ResolvedRows, PrimaryAddress, Lists;
    if IsActive(db, name) {
      var rows := db.aliases[db.names[name]].rows;
      at := ResolvedAre(rows, chain, network);
      PrimaryIsFirst(rows, chain, network, at);
    }
  }

  /** The shown rows that are defaults, or those that are not, by age. */
  ghost predicate Picks(rows: seq<Row>, chain: Chain, network: Option<string>, primary: bool, shown: seq<Row>, at: seq<nat>) {
    && |at| == |shown|
    && (forall i :: 0 <= i < |at| ==> at[i] < |rows| && shown[i] == rows[at[i]])
    && (forall i, j :: 0 <= i < j < |at| ==> at[i] < at[j])
    && (forall k: nat :: k in at <==> k < |rows| && Shows(rows[k], chain, network) && rows[k].primary == primary)
  }

  lemma ResolvedAre(rows: seq<Row>, chain: Chain, network: Option<string>) returns (at: seq<nat>)
    ensures Lists(rows, chain, network, ResolvedRows(rows, chain, network), at)
  {
    hide Filter, Lists;
    var p := (r: Row) => r.chain == chain && (network.None? || r.network == network.value);
    var first, rest := (r: Row) => r.primary, (r: Row) => !r.primary;
    var a := FilterOf(rows, p, first);
    var b := FilterOf(rows, p, rest);
    var shown := Filter(rows, p);
    assert Picks(rows, chain, network, true, Filter(shown, first), a);
    assert Picks(rows, chain, network, false, Filter(shown, rest), b);
    PicksJoin(rows, chain, network, Filter(shown, first), a, Filter(shown, rest), b);
    at := a + b;
  }

  lemma PicksJoin(
      rows: seq<Row>, chain: Chain, network: Option<string>, shown: seq<Row>, a: seq<nat>, shown': seq<Row>, b: seq<nat>)
    requires Picks(rows, chain, network, true, shown, a) && Picks(rows, chain, network, false, shown', b)
    ensures Lists(rows, chain, network, shown + shown', a + b)
  {
    var at := a + b;
    forall i | 0 <= i < |at|
      ensures at[i] < |rows| && (shown + shown')[i] == rows[at[i]] && rows[at[i]].primary == (i < |a|)
    {
      assert if i < |a| then at[i] in a else at[i] in b;
    }
    forall k: nat
      ensures k in at <==> k < |rows| && Shows(rows[k], chain, network)
    {
      assert k in at <==> k in a || k in b;
    }
  }

  lemma PrimaryIsFirst(rows: seq<Row>, chain: Chain, network: Option<string>, at: seq<nat>)
    requires Lists(rows, chain, network, ResolvedRows(rows, chain, network), at)
    ensures var shown := ResolvedRows(rows, chain, network);
            PrimaryAddress(shown) == if shown != [] && shown[0].primary then Some(shown[0].address) else None
  {
    hide ResolvedRows;
    var shown := ResolvedRows(rows, chain, network);
    var k := FirstIndex(shown, (r: Row) => r.primary);
    assert 0 < k < |shown| ==> ListedBefore(rows, at[0], at[k]);
  }
}
