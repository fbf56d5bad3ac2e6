/**
 * Runs from the empty tables that show what the service does not keep: the cap of
 * twenty addresses passed by overlapping adds, for each number of them exactly as
 * far as `AddressCap` allows, and a chain's first address refused.
 */
module AliasWitness {
  import opened Common
  import opened AliasSigning
  import opened AliasTables
  import opened AliasProtocol
  import opened AliasSteps
  import opened AliasHistory
  import opened AliasSafety
  import opened AliasCap
  import opened AliasDefaults
  import opened AliasService

  /** Every signature verifies. */
  function Accepts(chain: Chain, address: string, message: string, signature: string): bool {
    true
  }

  // ---------- Fresh names ----------

  /** Names of different numbers differ: they have different lengths. */
  function Name(n: nat): (s: string)
    ensures |s| == n + 1
  {
    seq(n + 1, i => 'x')
  }

  /** Every string drawn so far is at most `c` long, and every request's number below `t`. */
  ghost predicate Below(s: System, c: nat, t: nat) {
    (forall x :: x in s.used ==> |x| <= c) && (forall tid :: tid in s.requests ==> tid < t)
  }

  // ---------- Runs in parts ----------

  lemma {:induction false} AdderParts(s: System, es: seq<Event>, es': seq<Event>, k: nat)
    requires Valid(Accepts, s, es) && AtMostAdding(Accepts, s, es, k)
    requires Valid(Accepts, Exec(Accepts, s, es), es') && AtMostAdding(Accepts, Exec(Accepts, s, es), es', k)
    ensures Valid(Accepts, s, es + es') && AtMostAdding(Accepts, s, es + es', k)
    ensures Exec(Accepts, s, es + es') == Exec(Accepts, Exec(Accepts, s, es), es')
    decreases |es|
  {
    hide Apply, Enabled, Adders;
    if es == [] {
      assert es + es' == es';
    } else {
      AdderParts(Apply(Accepts, s, es[0]), es[1..], es', k);
      assert (es + es')[0] == es[0] && (es + es')[1..] == es[1..] + es';
    }
  }

  /** Steps of one request alone add at most that request to the adders. */
  lemma {:induction false} OwnStepsAdd(s: System, es: seq<Event>, tid: Tid, k: nat)
    requires Valid(Accepts, s, es) && AllOf(es, tid)
    requires forall id :: |Adders(s, id) + {tid}| <= k
    ensures AtMostAdding(Accepts, s, es, k)
    decreases |es|
  {
    hide Step, Adding;
    forall id
      ensures |Adders(s, id)| <= k
    {
      SubsetSize(Adders(s, id), Adders(s, id) + {tid});
    }
    if es != [] {
      var s' := Apply(Accepts, s, es[0]);
      assert es[0] in es;
      forall id
        ensures |Adders(s', id) + {tid}| <= k
      {
        assert Adders(s', id) + {tid} == Adders(s, id) + {tid};
      }
      OwnStepsAdd(s', es[1..], tid, k);
    }
  }

  lemma {:induction false} FewMembers<T>(xs: seq<T>, a: set<T>)
    requires forall x :: x in a ==> x in xs
    ensures |a| <= |xs|
  {
    if xs != [] {
      FewMembers(xs[1..], a - {xs[0]});
      SubsetSize(a, (a - {xs[0]}) + {xs[0]});
    }
  }

  // ---------- Requests served alone ----------

  /** Only the requests of `tids` are in flight. */
  predicate OnlyOpen(s: System, tids: seq<Tid>) {
    forall t :: t in s.requests ==> t in tids || s.requests[t].Done?
  }

  lemma FewAdders(s: System, tids: seq<Tid>, tid: Tid, k: nat, id: Id)
    requires OnlyOpen(s, tids) && (|tids| < k || (tid in tids && |tids| <= k))
    ensures |Adders(s, id) + {tid}| <= k
  {
    if tid in tids {
      FewMembers(tids, Adders(s, id) + {tid});
    } else {
      FewMembers(tids + [tid], Adders(s, id) + {tid});
    }
  }

  /** The request at `tid` run to its answer. */
  lemma Answered(s: System, c: nat, t: nat, tid: Tid, tids: seq<Tid>, k: nat) returns (es: seq<Event>)
    requires Below(s, c, t) && tid in s.requests && OnlyOpen(s, tids)
    requires |tids| < k || (tid in tids && |tids| <= k)
    ensures Valid(Accepts, s, es) && AtMostAdding(Accepts, s, es, k)
    ensures var s', f := Exec(Accepts, s, es), Finish(Accepts, s.db, s.clock, Name(c), s.requests[tid]);
            && s'.db == f.0 && s'.requests == s.requests[tid := Done(f.1)] && s'.clock == s.clock
            && Below(s', c + 11, t)
  {
    hide Step, Finish, Adders, Valid, Exec, AtMostAdding, Name;
    var spare := (n: nat) => Name(c + 1 + n);
    RankAtMostNine(s.requests[tid]);
    forall n: nat
      ensures |spare(n)| == c + n + 2
    {
      assert spare(n) == Name(c + 1 + n);
    }
    assert |Name(c)| == c + 1;
    forall j: nat, n: nat | j < n
      ensures spare(j) != spare(n)
    {
      assert |spare(j)| < |spare(n)|;
    }
    es := FinishIsARun(Accepts, s, tid, Name(c), spare);
    forall id
      ensures |Adders(s, id) + {tid}| <= k
    {
      FewAdders(s, tids, tid, k, id);
    }
    OwnStepsAdd(s, es, tid, k);
  }

  lemma RankAtMostNine(pc: Pc)
    ensures Rank(pc) <= 9
  {
  }

  lemma ArrivalAdds(s: System, tid: Tid, request: Request, tids: seq<Tid>, k: nat)
    requires tid !in s.requests && OnlyOpen(s, tids) && |tids| < k
    ensures Valid(Accepts, s, [Arrive(tid, request)]) && AtMostAdding(Accepts, s, [Arrive(tid, request)], k)
    ensures Exec(Accepts, s, [Arrive(tid, request)]) == s.(requests := s.requests[tid := Begin(request)])
  {
    var e := Arrive(tid, request);
    var s' := Apply(Accepts, s, e);
    assert [e][0] == e && [e][1..] == [];
    forall id
      ensures |Adders(s, id)| <= k && |Adders(s', id)| <= k
    {
      FewAdders(s, tids, tid, k, id);
      assert Adders(s', id) == Adders(s, id);
      SubsetSize(Adders(s, id), Adders(s, id) + {tid});
    }
    assert AtMostAdding(Accepts, s', [], k);
  }

  /** A new request served alone beside the open ones. */
  lemma Served(s: System, c: nat, t: nat, request: Request, tids: seq<Tid>, k: nat) returns (es: seq<Event>)
    requires Below(s, c, t) && OnlyOpen(s, tids) && |tids| < k
    ensures Valid(Accepts, s, es) && AtMostAdding(Accepts, s, es, k)
    ensures var s', f := Exec(Accepts, s, es), Finish(Accepts, s.db, s.clock, Name(c), Begin(request));
            && s'.db == f.0 && s'.requests == s.requests[t := Done(f.1)] && s'.clock == s.clock
            && Below(s', c + 11, t + 1) && OnlyOpen(s', tids)
  {
    hide Finish, AtMostAdding, Valid, Exec;
    ArrivalAdds(s, t, request, tids, k);
    var s1 := s.(requests := s.requests[t := Begin(request)]);
    var rest := Answered(s1, c, t + 1, t, tids + [t], k);
    AdderParts(s, [Arrive(t, request)], rest, k);
    es := [Arrive(t, request)] + rest;
  }

  // ---------- Requests served in part ----------

  /** The tables and the request after `n` more steps of it alone, none of which draws. */
  function Ahead(db: Db, now: int, pc: Pc, n: nat): Option<(Db, Pc)>
    decreases n
  {
    if n == 0 then Some((db, pc))
    else if Draws(pc) then None
    else
      var out := Step(Accepts, db, now, "", pc);
      Ahead(out.db, now, out.pc, n - 1)
  }

  /** The next `n` steps of the request at `tid`. */
  lemma {:induction false} Advanced(s: System, c: nat, t: nat, tid: Tid, n: nat) returns (es: seq<Event>)
    requires Below(s, c, t) && tid in s.requests && Ahead(s.db, s.clock, s.requests[tid], n).Some?
    ensures Valid(Accepts, s, es) && AllOf(es, tid)
    ensures var s', a := Exec(Accepts, s, es), Ahead(s.db, s.clock, s.requests[tid], n).value;
            s'.db == a.0 && s'.requests == s.requests[tid := a.1] && s'.clock == s.clock && Below(s', c + n, t)
    decreases n
  {
    hide Step, Draws, Name;
    if n == 0 {
      es := [];
      assert s.requests[tid := s.requests[tid]] == s.requests;
    } else {
      var e := Run(tid, Name(c));
      OnlyDrawsUseRandomness(Accepts, s.db, s.clock, Name(c), "", s.requests[tid]);
      var rest := Advanced(Apply(Accepts, s, e), c + 1, t, tid, n - 1);
      es := [e] + rest;
      assert es[1..] == rest;
    }
  }

  /** A new request run `n` steps beside the open ones. */
  lemma PartServed(s: System, c: nat, t: nat, request: Request, n: nat, tids: seq<Tid>, k: nat) returns (es: seq<Event>)
    requires Below(s, c, t) && OnlyOpen(s, tids) && |tids| < k
    requires Ahead(s.db, s.clock, Begin(request), n).Some?
    ensures Valid(Accepts, s, es) && AtMostAdding(Accepts, s, es, k)
    ensures var s', a := Exec(Accepts, s, es), Ahead(s.db, s.clock, Begin(request), n).value;
            && s'.db == a.0 && s'.requests == s.requests[t := a.1] && s'.clock == s.clock
            && Below(s', c + n, t + 1) && OnlyOpen(s', tids + [t])
  {
    hide Ahead, AtMostAdding, Valid, Exec, Adders;
    ArrivalAdds(s, t, request, tids, k);
    var s1 := s.(requests := s.requests[t := Begin(request)]);
    var steps := Advanced(s1, c, t + 1, t, n);
    forall id
      ensures |Adders(s1, id) + {t}| <= k
    {
      FewAdders(s1, tids + [t], t, k, id);
    }
    OwnStepsAdd(s1, steps, t, k);
    AdderParts(s, [Arrive(t, request)], steps, k);
    es := [Arrive(t, request)] + steps;
  }

  // ---------- An alias with n addresses ----------

  predicate IsNth(row: Row, i: nat) {
    row.chain == Stellar && row.network == "public" && row.address == Name(i) && row.primary == (i == 0)
  }

  /** "ana" is alias `id` of consumer "c", with `n` Stellar addresses on "public", the first its default. */
  predicate Holds(db: Db, id: Id, n: nat) {
    && id in db.aliases && db.aliases[id].consumer == "c" && db.aliases[id].status == ACTIVE
    && FindByName(db, "ana") == Some(id)
    && |db.aliases[id].rows| == n
    && forall i :: 0 <= i < n ==> IsNth(db.aliases[id].rows[i], i)
  }

  function AddBody(n: nat, nonce: string): Body {
    Body(ADD_ADDRESS, "ana", Stellar, Name(n), "public", nonce)
  }

  function AddOf(n: nat, nonce: string): Add {
    Add("c", "ana", Stellar, Name(n), "public", nonce, "", false)
  }

  function AskFor(purpose: Purpose, chain: Chain, address: string, network: string): Request {
    ToChallenge(NewChallenge(purpose, "ana", chain, address, network))
  }

  /** A challenge asked for an alias that is there is issued, and nothing else changes. */
  lemma ChallengeIssued(
      db: Db, now: int, nonce: string, purpose: Purpose, chain: Chain, address: string,
      network: string, id: Id)
    requires purpose == CLAIM || (id in db.aliases && FindByName(db, "ana") == Some(id))
    ensures var f := Finish(Accepts, db, now, nonce, Begin(AskFor(purpose, chain, address, network)));
            var body := Body(purpose, "ana", chain, address, network, nonce);
            && f.1 == Issued(body) && Spendable(f.0, body, now)
            && f.0.aliases == db.aliases && f.0.names == db.names
            && (forall n :: n in db.challenges && n != nonce ==> n in f.0.challenges && f.0.challenges[n] == db.challenges[n])
  {
    hide Finish;
    var c := NewChallenge(purpose, "ana", chain, address, network);
    Unroll(Accepts, db, now, nonce, Begin(ToChallenge(c)));
    if purpose != CLAIM {
      Unroll(Accepts, db, now, nonce, ChallengeFor(c, id));
    }
  }

  lemma GroupCount(rows: seq<Row>)
    requires rows != [] && IsNth(rows[0], 0)
    ensures CountGroup(rows, Stellar, "public") != 0
  {
    CountGroupZero(rows, Stellar, "public");
    assert rows[0] in rows;
  }

  lemma NextRowFits(rows: seq<Row>, row: Row)
    requires forall i :: 0 <= i < |rows| ==> IsNth(rows[i], i)
    requires rows != [] && IsNth(row, |rows|)
    ensures PlaceRow(rows, row) == Some(rows + [row])
  {
    var all := rows + [row];
    forall i | 0 <= i < |all|
      ensures IsNth(all[i], i)
    {}
    NthFit(all);
  }

  lemma NthFit(rows: seq<Row>)
    requires forall i :: 0 <= i < |rows| ==> IsNth(rows[i], i)
    ensures Commit(rows) == Some(rows)
  {
    forall i, j | 0 <= i < j < |rows|
      ensures rows[i].address != rows[j].address && !rows[j].primary
    {
      assert IsNth(rows[i], i) && IsNth(rows[j], j);
    }
  }

  /** An add past its count inserts its row, however many there are. */
  lemma CountedAddInserts(db: Db, now: int, rnd: string, id: Id, n: nat, m: nat, nonce: string)
    requires Holds(db, id, n) && n > 0 && n == m && Spendable(db, AddBody(m, nonce), now)
    ensures var f := Finish(Accepts, db, now, rnd, Spending(AddBody(m, nonce), "", ForAdd(AddOf(m, nonce), id)));
            && Holds(f.0, id, n + 1)
            && (forall x :: x in db.challenges && x != nonce ==> x in f.0.challenges && f.0.challenges[x] == db.challenges[x])
  {
    hide Finish, Spendable, Name;
    var body, add := AddBody(n, nonce), AddOf(n, nonce);
    SpendingFinishes(Accepts, db, now, rnd, body, "", ForAdd(add, id));
    SpentAddInserts(ConsumeChallenge(db, nonce), now, rnd, id, n, nonce);
  }

  lemma SpentAddInserts(db: Db, now: int, rnd: string, id: Id, n: nat, nonce: string)
    requires Holds(db, id, n) && n > 0
    ensures var f := Finish(Accepts, db, now, rnd, Consumed(AddBody(n, nonce), ForAdd(AddOf(n, nonce), id)));
            Holds(f.0, id, n + 1) && f.0.challenges == db.challenges
  {
    hide Finish, PlaceRow, CountGroup, Name;
    var body, add := AddBody(n, nonce), AddOf(n, nonce);
    var rows, row := db.aliases[id].rows, InsertedRow(body, rnd, false);
    GroupCount(rows);
    Unroll(Accepts, db, now, rnd, Consumed(body, ForAdd(add, id)));
    Unroll(Accepts, db, now, rnd, Placing(body, id, false));
    NextRowFits(rows, row);
  }

  lemma AddServed(db: Db, now: int, rnd: string, id: Id, n: nat, nonce: string)
    requires Holds(db, id, n) && 0 < n < MAX_ADDRESSES && Spendable(db, AddBody(n, nonce), now)
    ensures Holds(Finish(Accepts, db, now, rnd, Begin(ToAdd(AddOf(n, nonce)))).0, id, n + 1)
  {
    hide Finish, Spendable;
    var add := AddOf(n, nonce);
    Unroll(Accepts, db, now, rnd, Begin(ToAdd(add)));
    Unroll(Accepts, db, now, rnd, AddOwned(add, id));
    CountedAddInserts(db, now, rnd, id, n, n, nonce);
  }

  lemma ClaimServed(db: Db, now: int, rnd: string, nonce: string)
    requires db.aliases == map[] && db.names == map[]
    requires Spendable(db, Body(CLAIM, "ana", Stellar, Name(0), "public", nonce), now)
    ensures Holds(Finish(Accepts, db, now, rnd, Begin(ToClaim(Claim("c", "ana", "", nonce, "")))).0, rnd, 1)
  {
    hide Finish;
    var c := Claim("c", "ana", "", nonce, "");
    var body := Body(CLAIM, "ana", Stellar, Name(0), "public", nonce);
    NobodyHolds(db);
    Unroll(Accepts, db, now, rnd, Begin(ToClaim(c)));
    Unroll(Accepts, db, now, rnd, ClaimAllowed(c));
    SpendingFinishes(Accepts, db, now, rnd, body, "", ForClaim(c));
    Unroll(Accepts, ConsumeChallenge(db, nonce), now, rnd, Consumed(body, ForClaim(c)));
  }

  lemma NobodyHolds(db: Db)
    requires db.aliases == map[]
    ensures CountHeld(db, "c") == 0
  {
    assert (set id | id in db.aliases && db.aliases[id].consumer == "c") == {};
  }

  // ---------- Runs to an alias with n addresses ----------

  lemma Claimed(k: nat) returns (es: seq<Event>, id: Id, c: nat, t: nat)
    requires k >= 1
    ensures Valid(Accepts, START, es) && AtMostAdding(Accepts, START, es, k)
    ensures var s := Exec(Accepts, START, es); Holds(s.db, id, 1) && Below(s, c, t) && OnlyOpen(s, [])
  {
    hide Finish, AtMostAdding, Valid, Exec, Holds, Spendable;
    var ask := Served(START, 0, 0, AskFor(CLAIM, Stellar, Name(0), "public"), [], k);
    var s := Exec(Accepts, START, ask);
    ChallengeIssued(EMPTY, 0, Name(0), CLAIM, Stellar, Name(0), "public", "");
    var claim := Served(s, 11, 1, ToClaim(Claim("c", "ana", "", Name(0), "")), [], k);
    ClaimServed(s.db, s.clock, Name(11), Name(0));
    AdderParts(START, ask, claim, k);
    es, id, c, t := ask + claim, Name(11), 22, 2;
  }

  /** A challenge for the next address, asked and answered. */
  lemma Asked(s: System, c: nat, t: nat, id: Id, n: nat, tids: seq<Tid>, k: nat) returns (es: seq<Event>)
    requires Holds(s.db, id, n) && Below(s, c, t) && OnlyOpen(s, tids) && |tids| < k
    ensures Valid(Accepts, s, es) && AtMostAdding(Accepts, s, es, k)
    ensures var s' := Exec(Accepts, s, es);
            && Holds(s'.db, id, n) && Below(s', c + 11, t + 1) && OnlyOpen(s', tids) && s'.clock == s.clock
            && (forall x :: x in tids && x in s.requests ==> x in s'.requests && s'.requests[x] == s.requests[x])
    ensures forall m {:trigger AddBody(m, Name(c))} ::
      m == n + |tids| ==> Spendable(Exec(Accepts, s, es).db, AddBody(m, Name(c)), s.clock)
    ensures var s' := Exec(Accepts, s, es);
      forall x :: x in s.db.challenges && x != Name(c) ==> x in s'.db.challenges && s'.db.challenges[x] == s.db.challenges[x]
  {
    hide Finish, AtMostAdding, Valid, Exec, Spendable, Name;
    var m := n + |tids|;
    es := Served(s, c, t, AskFor(ADD_ADDRESS, Stellar, Name(m), "public"), tids, k);
    ChallengeIssued(s.db, s.clock, Name(c), ADD_ADDRESS, Stellar, Name(m), "public", id);
    assert t !in s.requests;
  }

  lemma {:induction false} Filled(k: nat, n: nat) returns (es: seq<Event>, id: Id, c: nat, t: nat)
    requires k >= 1 && 1 <= n <= MAX_ADDRESSES
    ensures Valid(Accepts, START, es) && AtMostAdding(Accepts, START, es, k)
    ensures var s := Exec(Accepts, START, es); Holds(s.db, id, n) && Below(s, c, t) && OnlyOpen(s, [])
    decreases n
  {
    hide Finish, AtMostAdding, Valid, Exec, Holds, Spendable, Name;
    if n == 1 {
      es, id, c, t := Claimed(k);
    } else {
      es, id, c, t := Filled(k, n - 1);
      var s := Exec(Accepts, START, es);
      var ask := Asked(s, c, t, id, n - 1, [], k);
      AdderParts(START, es, ask, k);
      var s1 := Exec(Accepts, s, ask);
      var nonce := Name(c);
      assert Spendable(s1.db, AddBody(n - 1, nonce), s.clock);
      var add := Served(s1, c + 11, t + 1, ToAdd(AddOf(n - 1, nonce)), [], k);
      AddServed(s1.db, s1.clock, Name(c + 11), id, n - 1, nonce);
      AdderParts(START, es + ask, add, k);
      es, c, t := es + ask + add, c + 22, t + 2;
    }
  }

  // ---------- Adds that overlap ----------

  /** Counted, and about to spend its own challenge for the address after the others'. */
  predicate Waits(s: System, id: Id, tid: Tid, nonce: string, m: nat) {
    && tid in s.requests && s.requests[tid] == Spending(AddBody(m, nonce), "", ForAdd(AddOf(m, nonce), id))
    && Spendable(s.db, AddBody(m, nonce), s.clock)
  }

  /** `n` addresses, and one waiting add for each of `tids`, for the addresses after them in turn. */
  ghost predicate Waiting(s: System, id: Id, n: nat, tids: seq<Tid>, nonces: seq<string>) {
    && Holds(s.db, id, n) && |nonces| == |tids| && OnlyOpen(s, tids)
    && (forall i :: 0 <= i < |tids| ==> Waits(s, id, tids[i], nonces[i], n + i))
    && (forall i, j :: 0 <= i < j < |tids| ==> tids[i] != tids[j] && nonces[i] != nonces[j])
  }

  /** An add that has found its alias and counted fewer than twenty addresses. */
  lemma Counts(s: System, c: nat, t: nat, id: Id, m: nat, nonce: string, tids: seq<Tid>, k: nat) returns (es: seq<Event>)
    requires Below(s, c, t) && OnlyOpen(s, tids) && |tids| < k
    requires Holds(s.db, id, MAX_ADDRESSES - 1)
    ensures Valid(Accepts, s, es) && AtMostAdding(Accepts, s, es, k)
    ensures var s' := Exec(Accepts, s, es);
            && s'.db == s.db && s'.clock == s.clock && Below(s', c + 2, t + 1)
            && s'.requests == s.requests[t := Spending(AddBody(m, nonce), "", ForAdd(AddOf(m, nonce), id))]
  {
    hide Name, AddBody, AtMostAdding, Valid, Exec, Step, Holds, Draws;
    var request := ToAdd(AddOf(m, nonce));
    FindsAndCounts(s.db, s.clock, id, m, nonce);
    es := PartServed(s, c, t, request, 2, tids, k);
  }

  lemma FindsAndCounts(db: Db, now: int, id: Id, m: nat, nonce: string)
    requires Holds(db, id, MAX_ADDRESSES - 1)
    ensures var add := AddOf(m, nonce);
            Ahead(db, now, Begin(ToAdd(add)), 2) == Some((db, Spending(AddBody(m, nonce), "", ForAdd(add, id))))
  {
    hide Name;
    var add := AddOf(m, nonce);
    assert Step(Accepts, db, now, "", Begin(ToAdd(add))) == Out(db, AddOwned(add, id), Quiet);
    assert Step(Accepts, db, now, "", AddOwned(add, id)) == Out(db, Spending(AddBody(m, nonce), "", ForAdd(add, id)), Quiet);
    assert Ahead(db, now, AddOwned(add, id), 1) == Some((db, Spending(AddBody(m, nonce), "", ForAdd(add, id))));
  }

  /** From nineteen addresses, `k` adds that have all counted before any has inserted. */
  lemma {:induction false} AllCounted(k: nat, j: nat)
    returns (es: seq<Event>, id: Id, c: nat, t: nat, tids: seq<Tid>, nonces: seq<string>)
    requires j <= k && k >= 1
    ensures Valid(Accepts, START, es) && AtMostAdding(Accepts, START, es, k)
    ensures var s := Exec(Accepts, START, es);
            && Waiting(s, id, MAX_ADDRESSES - 1, tids, nonces) && Below(s, c, t) && |tids| == j
            && (forall i :: 0 <= i < j ==> tids[i] < t && |nonces[i]| <= c)
    decreases j
  {
    hide AtMostAdding, Valid, Exec, Holds, Spendable, Name;
    if j == 0 {
      es, id, c, t := Filled(k, MAX_ADDRESSES - 1);
      tids, nonces := [], [];
    } else {
      es, id, c, t, tids, nonces := AllCounted(k, j - 1);
      var s := Exec(Accepts, START, es);
      var n := MAX_ADDRESSES - 1;
      var m, nonce := n + |tids|, Name(c);
      var ask := Asked(s, c, t, id, n, tids, k);
      AdderParts(START, es, ask, k);
      var s1 := Exec(Accepts, s, ask);
      assert Spendable(s1.db, AddBody(m, nonce), s.clock);
      StillWaiting(s, s1, id, n, tids, nonces, nonce);
      var counts := Counts(s1, c + 11, t + 1, id, m, nonce, tids, k);
      AdderParts(START, es + ask, counts, k);
      var s2 := Exec(Accepts, s1, counts);
      OneMoreWaiting(s1, s2, id, n, tids, nonces, t + 1, nonce);
      es, c, t, tids, nonces := es + ask + counts, c + 13, t + 2, tids + [t + 1], nonces + [nonce];
    }
  }

  lemma StillWaiting(s: System, s': System, id: Id, n: nat, tids: seq<Tid>, nonces: seq<string>, nonce: string)
    requires Waiting(s, id, n, tids, nonces) && Holds(s'.db, id, n) && OnlyOpen(s', tids) && s'.clock == s.clock
    requires nonce !in nonces
    requires forall x :: x in tids && x in s.requests ==> x in s'.requests && s'.requests[x] == s.requests[x]
    requires forall x :: x in s.db.challenges && x != nonce ==> x in s'.db.challenges && s'.db.challenges[x] == s.db.challenges[x]
    ensures Waiting(s', id, n, tids, nonces)
  {
    hide Holds, Name;
    forall i | 0 <= i < |tids|
      ensures Waits(s', id, tids[i], nonces[i], n + i)
    {
      assert Waits(s, id, tids[i], nonces[i], n + i);
    }
  }

  lemma OneMoreWaiting(
      s: System, s': System, id: Id, n: nat, tids: seq<Tid>, nonces: seq<string>, tid: Tid, nonce: string)
    requires Waiting(s, id, n, tids, nonces) && tid !in tids && nonce !in nonces
    requires s'.db == s.db && s'.clock == s.clock
    requires var m := n + |tids|;
             Spendable(s.db, AddBody(m, nonce), s.clock)
             && s'.requests == s.requests[tid := Spending(AddBody(m, nonce), "", ForAdd(AddOf(m, nonce), id))]
    ensures Waiting(s', id, n, tids + [tid], nonces + [nonce])
  {
    hide Holds, Name, Spendable;
    forall i | 0 <= i < |tids| + 1
      ensures Waits(s', id, (tids + [tid])[i], (nonces + [nonce])[i], n + i)
    {
      if i < |tids| {
        assert Waits(s, id, tids[i], nonces[i], n + i);
      }
    }
  }

  /** The first of the waiting adds, finished, inserts, and the others wait on. */
  lemma FirstInserts(
      s: System, c: nat, t: nat, id: Id, n: nat, tids: seq<Tid>, nonces: seq<string>, k: nat) returns (es: seq<Event>)
    requires Waiting(s, id, n, tids, nonces) && Below(s, c, t) && 0 < |tids| <= k && n > 0
    ensures Valid(Accepts, s, es) && AtMostAdding(Accepts, s, es, k)
    ensures var s' := Exec(Accepts, s, es); Waiting(s', id, n + 1, tids[1..], nonces[1..]) && Below(s', c + 11, t)
  {
    hide Holds, Spendable, Name, Finish, Adders, Waits, Below, Valid, Exec, AtMostAdding;
    FirstWaits(s, id, n, tids, nonces);
    es := Answered(s, c, t, tids[0], tids, k);
    CountedAddInserts(s.db, s.clock, Name(c), id, n, n, nonces[0]);
    FewerWaiting(s, Exec(Accepts, s, es), id, n, tids, nonces);
  }

  /** The waiting adds, finished one after the other, each insert. */
  lemma {:induction false} AllInsert(
      s: System, c: nat, t: nat, id: Id, n: nat, tids: seq<Tid>, nonces: seq<string>, k: nat) returns (es: seq<Event>)
    requires Waiting(s, id, n, tids, nonces) && Below(s, c, t) && |tids| <= k && n > 0
    ensures Valid(Accepts, s, es) && AtMostAdding(Accepts, s, es, k)
    ensures Holds(Exec(Accepts, s, es).db, id, n + |tids|)
    decreases |tids|
  {
    if tids == [] {
      hide Holds, Spendable, Name, Adders, Waits, Below;
      es := [];
      forall i
        ensures |Adders(s, i)| <= k
      {
        NoAdders(s, i);
      }
    } else {
      hide Holds, Waiting, Below, Valid, Exec, AtMostAdding;
      var first := FirstInserts(s, c, t, id, n, tids, nonces, k);
      var rest := AllInsert(Exec(Accepts, s, first), c + 11, t, id, n + 1, tids[1..], nonces[1..], k);
      AdderParts(s, first, rest, k);
      es := first + rest;
    }
  }

  lemma FirstWaits(s: System, id: Id, n: nat, tids: seq<Tid>, nonces: seq<string>)
    requires Waiting(s, id, n, tids, nonces) && tids != []
    ensures tids[0] in s.requests
    ensures s.requests[tids[0]] == Spending(AddBody(n, nonces[0]), "", ForAdd(AddOf(n, nonces[0]), id))
    ensures Spendable(s.db, AddBody(n, nonces[0]), s.clock)
  {
    assert Waits(s, id, tids[0], nonces[0], n + 0);
  }

  lemma NoAdders(s: System, id: Id)
    requires OnlyOpen(s, [])
    ensures |Adders(s, id)| == 0
  {
    assert Adders(s, id) == {};
  }

  lemma FewerWaiting(s: System, s': System, id: Id, n: nat, tids: seq<Tid>, nonces: seq<string>)
    requires Waiting(s, id, n, tids, nonces) && tids != [] && Holds(s'.db, id, n + 1) && s'.clock == s.clock
    requires s'.requests.Keys == s.requests.Keys && s'.requests[tids[0]].Done?
    requires forall x :: x in s.requests && x != tids[0] ==> s'.requests[x] == s.requests[x]
    requires forall x :: x in s.db.challenges && x != nonces[0] ==> x in s'.db.challenges && s'.db.challenges[x] == s.db.challenges[x]
    ensures Waiting(s', id, n + 1, tids[1..], nonces[1..])
  {
    hide Holds, Name;
    forall i | 0 <= i < |tids| - 1
      ensures Waits(s', id, tids[1..][i], nonces[1..][i], n + 1 + i)
    {
      assert Waits(s, id, tids[i + 1], nonces[i + 1], n + (i + 1));
    }
  }

  /**
   * The bound of `AddressCap` is reached for every k: a run from the empty tables,
   * with never more than k overlapping adds, to an alias of exactly 20 + k - 1
   * addresses. So from two overlapping adds on, the cap of twenty is broken.
   */
  lemma BoundIsReached(k: nat) returns (es: seq<Event>, id: Id)
    requires k >= 1
    ensures Valid(Accepts, START, es) && AtMostAdding(Accepts, START, es, k)
    ensures id in Exec(Accepts, START, es).db.aliases
    ensures |Exec(Accepts, START, es).db.aliases[id].rows| == 20 + k - 1
  {
    hide AtMostAdding, Valid, Exec, Waiting, Below;
    var counted, alias, c, t, tids, nonces := AllCounted(k, k);
    var s := Exec(Accepts, START, counted);
    var inserted := AllInsert(s, c, t, alias, MAX_ADDRESSES - 1, tids, nonces, k);
    AdderParts(START, counted, inserted, k);
    es, id := counted + inserted, alias;
  }

  // ---------- A first address refused ----------

  /** The first Solana address of an alias with one Stellar address on "public". */
  lemma SolanaAddRefused(db: Db, now: int, rnd: string, id: Id, nonce: string, solana: string)
    requires Holds(db, id, 1) && Spendable(db, Body(ADD_ADDRESS, "ana", Solana, solana, "public", nonce), now)
    ensures var add := Add("c", "ana", Solana, solana, "public", nonce, "", false);
            var f := Finish(Accepts, db, now, rnd, Begin(ToAdd(add)));
            f.1 == Failed(AddressConflict) && f.0.aliases == db.aliases
  {
    hide Finish, Spendable, Name, RegisterStep, PlaceStep;
    var add := Add("c", "ana", Solana, solana, "public", nonce, "", false);
    var body := Body(ADD_ADDRESS, "ana", Solana, solana, "public", nonce);
    Unroll(Accepts, db, now, rnd, Begin(ToAdd(add)));
    Unroll(Accepts, db, now, rnd, AddOwned(add, id));
    SpendingFinishes(Accepts, db, now, rnd, body, "", ForAdd(add, id));
    SolanaPlaceRefused(ConsumeChallenge(db, nonce), now, rnd, id, body, add);
  }

  lemma SolanaPlaceRefused(db: Db, now: int, rnd: string, id: Id, body: Body, add: Add)
    requires Holds(db, id, 1) && body.chain == Solana && body.network == "public"
    ensures Finish(Accepts, db, now, rnd, Consumed(body, ForAdd(add, id))) == (db, Failed(AddressConflict))
  {
    hide Finish, Name, Tidy, PlaceStep, CountGroup;
    var row := db.aliases[id].rows[0];
    assert db.aliases[id].rows == [row] && IsNth(row, 0);
    SingleTidy(row);
    assert row in db.aliases[id].rows;
    FirstOnChainRefusedExactlyWhen(Accepts, db, now, rnd, body, add, id);
    Unroll(Accepts, db, now, rnd, Consumed(body, ForAdd(add, id)));
    var placing := Step(Accepts, db, now, rnd, Consumed(body, ForAdd(add, id)));
    Unroll(Accepts, db, now, rnd, placing.pc);
  }

  /**
   * A run from the empty tables, with no overlapping adds, in which an alias claimed
   * with a Stellar address asks for its first Solana address on the same network,
   * signs for it, and is told it is there already.
   */
  lemma FirstSolanaAddressIsRefused(solana: string) returns (es: seq<Event>, tid: Tid, id: Id)
    ensures Valid(Accepts, START, es) && AtMostAdding(Accepts, START, es, 1)
    ensures var s := Exec(Accepts, START, es);
            && id in s.db.aliases && |s.db.aliases[id].rows| == 1 && s.db.aliases[id].rows[0].chain == Stellar
            && tid in s.requests && s.requests[tid] == Done(Failed(AddressConflict))
    ensures exists e :: e in es && e.Arrive? && e.tid == tid && e.request.ToAdd? && e.request.add.chain == Solana
                        && e.request.add.address == solana && e.request.add.network == "public"
  {
    hide Finish, AtMostAdding, Valid, Exec, Spendable, Name;
    var claimed, alias, c, t := Claimed(1);
    var s := Exec(Accepts, START, claimed);
    var ask := Served(s, c, t, AskFor(ADD_ADDRESS, Solana, solana, "public"), [], 1);
    ChallengeIssued(s.db, s.clock, Name(c), ADD_ADDRESS, Solana, solana, "public", alias);
    AdderParts(START, claimed, ask, 1);
    var s1 := Exec(Accepts, s, ask);
    var request := ToAdd(Add("c", "ana", Solana, solana, "public", Name(c), "", false));
    var add := ServedAs(s1, c + 11, t + 1, request, 1);
    SolanaAddRefused(s1.db, s1.clock, Name(c + 11), alias, Name(c), solana);
    AdderParts(START, claimed + ask, add, 1);
    es, tid, id := claimed + ask + add, t + 1, alias;
    assert add[0] in es;
  }

  lemma ServedAs(s: System, c: nat, t: nat, request: Request, k: nat) returns (es: seq<Event>)
    requires Below(s, c, t) && OnlyOpen(s, []) && 0 < k
    ensures Valid(Accepts, s, es) && AtMostAdding(Accepts, s, es, k) && es != [] && es[0] == Arrive(t, request)
    ensures var s', f := Exec(Accepts, s, es), Finish(Accepts, s.db, s.clock, Name(c), Begin(request));
            s'.db == f.0 && s'.requests == s.requests[t := Done(f.1)]
  {
    hide Finish, AtMostAdding, Valid, Exec;
    ArrivalAdds(s, t, request, [], k);
    var rest := Answered(s.(requests := s.requests[t := Begin(request)]), c, t + 1, t, [t], k);
    AdderParts(s, [Arrive(t, request)], rest, k);
    es := [Arrive(t, request)] + rest;
  }
}
