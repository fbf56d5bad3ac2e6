/**
 * Each operation run alone, whole: when it succeeds, what it answers otherwise, and
 * every table after it. The conditions are read off the tables and the request, with
 * the service's limits written out.
 */
module AliasEffects {
  import opened Common
  import opened AliasSigning
  import opened AliasTables
  import opened AliasProtocol
  import opened AliasSafety
  import opened AliasDefaults
  import opened AliasAnswers
  import opened AliasService

  // ---------- Spending a challenge ----------

  /** The challenge of that nonce was issued for exactly `body`, and is neither spent nor expired. */
  predicate Offered(db: Db, body: Body, now: int) {
    body.nonce in db.challenges && db.challenges[body.nonce].body == body
    && !db.challenges[body.nonce].consumed && now < db.challenges[body.nonce].expiresAt
  }

  /** Why a signature is refused, if it is: the challenge first, then the signature over its message. */
  function Refusal(oracle: Oracle, db: Db, body: Body, signature: string, now: int): Option<Error> {
    if !Offered(db, body, now) then Some(ChallengeInvalid)
    else if !oracle(body.chain, body.address, Message(body), signature) then Some(SignatureInvalid)
    else None
  }

  function Used(db: Db, nonce: string): map<string, Challenge>
    requires nonce in db.challenges
  {
    db.challenges[nonce := db.challenges[nonce].(consumed := true)]
  }

  lemma SpendingIs(oracle: Oracle, db: Db, now: int, rnd: string, body: Body, signature: string, target: Target)
    ensures var f := Finish(oracle, db, now, rnd, Spending(body, signature, target));
            var refused := Refusal(oracle, db, body, signature, now);
            if refused.Some? then f == (db, Failed(refused.value))
            else f == Finish(oracle, db.(challenges := Used(db, body.nonce)), now, rnd, Consumed(body, target))
  {
    hide Finish, Message;
    SpendingFinishes(oracle, db, now, rnd, body, signature, target);
  }

  // ---------- createChallenge ----------

  lemma ChallengeExactly(oracle: Oracle, db: Db, now: int, rnd: string, c: NewChallenge)
    requires forall n :: n in db.names ==> db.names[n] in db.aliases
    ensures var f := Finish(oracle, db, now, rnd, Begin(ToChallenge(c)));
            var body := Body(c.purpose, c.name, c.chain, c.address, c.network, rnd);
            if c.purpose != CLAIM && c.name !in db.names then f == (db, Failed(NotFound))
            else
              var alias := if c.purpose == CLAIM then None else Some(db.names[c.name]);
              f == (db.(challenges := db.challenges[rnd := Challenge(alias, body, now + 300_000, false)]), Issued(body))
  {
    hide Finish;
    Unroll(oracle, db, now, rnd, Begin(ToChallenge(c)));
    if c.purpose != CLAIM && c.name in db.names {
      Unroll(oracle, db, now, rnd, ChallengeFor(c, db.names[c.name]));
    }
  }

  // ---------- claim ----------

  /** A claim is refused past 25 aliases, without its challenge, for a bad signature, and last for a taken name. */
  lemma ClaimExactly(oracle: Oracle, db: Db, now: int, rnd: string, c: Claim)
    ensures var f := Finish(oracle, db, now, rnd, Begin(ToClaim(c)));
            if |set id | id in db.aliases && db.aliases[id].consumer == c.consumer| >= 25 then
              f == (db, Failed(AddressConflict))
            else if c.nonce !in db.challenges then f == (db, Failed(ChallengeInvalid))
            else
              var b := db.challenges[c.nonce].body;
              var body := Body(CLAIM, c.name, b.chain, b.address, b.network, c.nonce);
              var refused := Refusal(oracle, db, body, c.signature, now);
              if refused.Some? then f == (db, Failed(refused.value))
              else if c.name in db.names then f == (db.(challenges := Used(db, c.nonce)), Failed(AliasTaken))
              else
                var alias := Alias(c.consumer, c.name, c.email, ACTIVE, [Row(rnd, b.chain, b.address, b.network, true)]);
                f == (Db(db.aliases[rnd := alias], db.names[c.name := rnd], Used(db, c.nonce), db.recoveries), Claimed(rnd))
  {
    hide Finish, Refusal;
    Unroll(oracle, db, now, rnd, Begin(ToClaim(c)));
    Unroll(oracle, db, now, rnd, ClaimAllowed(c));
    if c.nonce in db.challenges {
      var b := db.challenges[c.nonce].body;
      var body := Body(CLAIM, c.name, b.chain, b.address, b.network, c.nonce);
      SpendingIs(oracle, db, now, rnd, body, c.signature, ForClaim(c));
      Unroll(oracle, db.(challenges := Used(db, c.nonce)), now, rnd, Consumed(body, ForClaim(c)));
    }
  }

  // ---------- addAddress ----------

  predicate SameGroup(r: Row, r': Row) {
    r.chain == r'.chain && r.network == r'.network
  }

  /** The address is there already, or another chain's default holds the network. */
  ghost predicate Clashes(rows: seq<Row>, row: Row) {
    || (exists r :: r in rows && SameGroup(r, row) && r.address == row.address)
    || (row.primary && exists r :: r in rows && r.primary && r.network == row.network && r.chain != row.chain)
  }

  /** `row` comes last and, when it is a default, takes the flag from its own group; nothing else changes. */
  predicate Placed(rows: seq<Row>, row: Row, rows': seq<Row>) {
    && |rows'| == |rows| + 1 && rows'[|rows|] == row
    && forall i :: 0 <= i < |rows| ==>
      rows'[i] == rows[i].(primary := rows[i].primary && !(row.primary && SameGroup(rows[i], row)))
  }

  /** The row an add inserts: a default when it says so, or when its group is empty. */
  ghost function NewRow(rows: seq<Row>, a: Add, rnd: string): Row {
    var first := forall r :: r in rows ==> !(r.chain == a.chain && r.network == a.network);
    Row(rnd, a.chain, a.address, a.network, first || a.primary)
  }

  lemma PlacingIs(rows: seq<Row>, row: Row)
    requires Indexed(rows)
    ensures var done := PlaceRow(rows, row);
            if Clashes(rows, row) then done == None
            else done.Some? && Placed(rows, row, done.value)
  {
    hide Indexed, DistinctAddresses, OnePrimaryPerNetwork;
    PlaceCommitsExactlyWhen(rows, row);
  }

  lemma NewRowIs(rows: seq<Row>, a: Add, rnd: string, body: Body)
    requires body.chain == a.chain && body.address == a.address && body.network == a.network
    ensures InsertedRow(body, rnd, CountGroup(rows, body.chain, body.network) == 0 || a.primary) == NewRow(rows, a, rnd)
  {
    CountGroupZero(rows, body.chain, body.network);
  }

  lemma AddExactly(oracle: Oracle, db: Db, now: int, rnd: string, a: Add)
    requires AllIndexed(db)
    ensures var f := Finish(oracle, db, now, rnd, Begin(ToAdd(a)));
            if !Owns(db, a.consumer, a.name) then f == (db, Failed(NotFound))
            else
              var id := db.names[a.name];
              var rows := db.aliases[id].rows;
              var body := Body(ADD_ADDRESS, a.name, a.chain, a.address, a.network, a.nonce);
              var refused := Refusal(oracle, db, body, a.signature, now);
              var row := NewRow(rows, a, rnd);
              if |rows| >= 20 then f == (db, Failed(AddressConflict))
              else if refused.Some? then f == (db, Failed(refused.value))
              else if Clashes(rows, row) then
                f == (db.(challenges := Used(db, a.nonce)), Failed(AddressConflict))
              else
                && id in f.0.aliases && Placed(rows, row, f.0.aliases[id].rows) && f.1 == Added(row)
                && f.0 == db.(challenges := Used(db, a.nonce),
                              aliases := db.aliases[id := db.aliases[id].(rows := f.0.aliases[id].rows)])
  {
    hide Finish, Refusal, PlaceRow, CountGroup, InsertedRow, NewRow, Placed, Clashes, Indexed;
    OnlyTheOwnerGoesOn(oracle, db, now, rnd, ToAdd(a), a.consumer, a.name);
    Unroll(oracle, db, now, rnd, Begin(ToAdd(a)));
    if Owns(db, a.consumer, a.name) {
      var id := db.names[a.name];
      var body := Body(ADD_ADDRESS, a.name, a.chain, a.address, a.network, a.nonce);
      Unroll(oracle, db, now, rnd, AddOwned(a, id));
      SpendingIs(oracle, db, now, rnd, body, a.signature, ForAdd(a, id));
      if Refusal(oracle, db, body, a.signature, now).None? {
        RefusalFindsIt(oracle, db, body, a.signature, now);
        SpentAddIs(oracle, db.(challenges := Used(db, a.nonce)), now, rnd, a, id, body);
      }
    }
  }

  lemma RefusalFindsIt(oracle: Oracle, db: Db, body: Body, signature: string, now: int)
    requires Refusal(oracle, db, body, signature, now).None?
    ensures body.nonce in db.challenges
  {
  }

  lemma SpentAddIs(oracle: Oracle, db: Db, now: int, rnd: string, a: Add, id: Id, body: Body)
    requires id in db.aliases && Indexed(db.aliases[id].rows)
    requires body.chain == a.chain && body.address == a.address && body.network == a.network
    ensures var f := Finish(oracle, db, now, rnd, Consumed(body, ForAdd(a, id)));
            var rows := db.aliases[id].rows;
            var row := NewRow(rows, a, rnd);
            if Clashes(rows, row) then f == (db, Failed(AddressConflict))
            else
              && id in f.0.aliases && Placed(rows, row, f.0.aliases[id].rows) && f.1 == Added(row)
              && f.0 == db.(aliases := db.aliases[id := db.aliases[id].(rows := f.0.aliases[id].rows)])
  {
    hide Finish, PlaceRow, CountGroup, InsertedRow, NewRow, Placed, Clashes, Indexed;
    var rows := db.aliases[id].rows;
    var primary := CountGroup(rows, body.chain, body.network) == 0 || a.primary;
    Unroll(oracle, db, now, rnd, Consumed(body, ForAdd(a, id)));
    Unroll(oracle, db, now, rnd, Placing(body, id, primary));
    NewRowIs(rows, a, rnd, body);
    PlacingIs(rows, NewRow(rows, a, rnd));
    assert NewRow(rows, a, rnd).primary == primary by { InsertedIs(body, rnd, primary); }
  }

  lemma InsertedIs(body: Body, rnd: string, primary: bool)
    ensures InsertedRow(body, rnd, primary).primary == primary
  {
  }

  // ---------- removeAddress ----------

  /** Row `k` is out, and its default flag is with the oldest row left in its group; nothing else changes. */
  predicate TakenOut(rows: seq<Row>, k: nat, rows': seq<Row>) {
    k < |rows| && |rows'| == |rows| - 1
    && forall i :: 0 <= i < |rows'| ==>
      var j := if i < k then i else i + 1;
      var oldest := SameGroup(rows[j], rows[k]) && forall m :: 0 <= m < j && m != k ==> !SameGroup(rows[m], rows[k]);
      rows'[i] == rows[j].(primary := rows[j].primary || (rows[k].primary && oldest))
  }

  lemma PromoteIs(rows: seq<Row>, chain: Chain, network: string, i: nat)
    requires i < |rows|
    ensures var oldest := InGroup(rows[i], chain, network) && forall j :: 0 <= j < i ==> !InGroup(rows[j], chain, network);
            Promote(rows, chain, network)[i] == rows[i].(primary := rows[i].primary || oldest)
  {
    var p := (r: Row) => InGroup(r, chain, network);
    assert forall j :: 0 <= j < |rows| ==> p(rows[j]) == InGroup(rows[j], chain, network);
  }

  lemma RemovingIs(rows: seq<Row>, k: nat)
    requires Indexed(rows) && k < |rows| && k == IndexOfRow(rows, rows[k].id)
    ensures RemoveRow(rows, rows[k]).Some? && TakenOut(rows, k, RemoveRow(rows, rows[k]).value)
  {
    hide Indexed, DistinctAddresses, OnePrimaryPerNetwork, Promote, IndexOfRow, Without;
    RemoveCommits(rows, rows[k]);
    var rest, row := Without(rows, k), rows[k];
    forall i | 0 <= i < |rest|
      ensures var j := if i < k then i else i + 1;
              var oldest := SameGroup(rows[j], row) && forall m :: 0 <= m < j && m != k ==> !SameGroup(rows[m], row);
              RemoveRow(rows, row).value[i] == rows[j].(primary := rows[j].primary || (row.primary && oldest))
    {
      PromoteIs(rest, row.chain, row.network, i);
      OldestLeft(rows, k, i);
    }
  }

  /** No older row left in the group, counted with row `k` or without it. */
  lemma OldestLeft(rows: seq<Row>, k: nat, i: nat)
    requires k < |rows| && i < |rows| - 1
    ensures var j := if i < k then i else i + 1;
            (forall m :: 0 <= m < i ==> !InGroup(Without(rows, k)[m], rows[k].chain, rows[k].network))
            <==> (forall m :: 0 <= m < j && m != k ==> !SameGroup(rows[m], rows[k]))
  {
    hide Without;
    var rest, j := Without(rows, k), if i < k then i else i + 1;
    if forall m :: 0 <= m < i ==> !InGroup(rest[m], rows[k].chain, rows[k].network) {
      forall m | 0 <= m < j && m != k
        ensures !SameGroup(rows[m], rows[k])
      {
        assert rest[if m < k then m else m - 1] == rows[m];
      }
    } else {
      var m :| 0 <= m < i && InGroup(rest[m], rows[k].chain, rows[k].network);
      assert rest[m] == rows[if m < k then m else m + 1];
    }
  }

  /** `k` is the row asked for. */
  lemma RemoveExactly(oracle: Oracle, db: Db, now: int, rnd: string, r: Remove) returns (k: nat)
    requires AllIndexed(db)
    ensures var f := Finish(oracle, db, now, rnd, Begin(ToRemove(r)));
            if !Owns(db, r.consumer, r.name) then f == (db, Failed(NotFound))
            else
              var id := db.names[r.name];
              var rows := db.aliases[id].rows;
              if forall row :: row in rows ==> row.id != r.rowId then f == (db, Failed(NotFound))
              else if |rows| <= 1 then f == (db, Failed(AddressConflict))
              else
                && k < |rows| && rows[k].id == r.rowId && f.1 == Removed(r.rowId)
                && id in f.0.aliases && TakenOut(rows, k, f.0.aliases[id].rows)
                && f.0 == db.(aliases := db.aliases[id := db.aliases[id].(rows := f.0.aliases[id].rows)])
  {
    hide Finish, RemoveRow, TakenOut, Indexed, IndexOfRow;
    k := 0;
    OnlyTheOwnerGoesOn(oracle, db, now, rnd, ToRemove(r), r.consumer, r.name);
    Unroll(oracle, db, now, rnd, Begin(ToRemove(r)));
    if Owns(db, r.consumer, r.name) {
      var id := db.names[r.name];
      var rows := db.aliases[id].rows;
      k := IndexOfRow(rows, r.rowId);
      Unroll(oracle, db, now, rnd, RemoveOwned(r, id));
      if k < |rows| {
        assert rows[k] in rows;
        Unroll(oracle, db, now, rnd, RowFound(id, rows[k]));
        Unroll(oracle, db, now, rnd, RemoveAllowed(id, rows[k]));
        RemovingIs(rows, k);
      }
    }
  }

  // ---------- release ----------

  /** The owner's release takes the alias, its name and everything under it, and nothing of any other. */
  lemma ReleaseExactly(oracle: Oracle, db: Db, now: int, rnd: string, r: Release)
    requires NamesOf(db)
    ensures var f := Finish(oracle, db, now, rnd, Begin(ToRelease(r)));
            if !Owns(db, r.consumer, r.name) then f == (db, Failed(NotFound))
            else
              var id := db.names[r.name];
              && f.1 == Released(id) && f.0.aliases == db.aliases - {id} && f.0.names == db.names - {r.name}
              && (forall n :: n in f.0.challenges <==> n in db.challenges && db.challenges[n].alias != Some(id))
              && (forall n :: n in f.0.challenges ==> f.0.challenges[n] == db.challenges[n])
              && (forall h :: h in f.0.recoveries <==> h in db.recoveries && db.recoveries[h].alias != id)
              && (forall h :: h in f.0.recoveries ==> f.0.recoveries[h] == db.recoveries[h])
  {
    hide Finish;
    OnlyTheOwnerGoesOn(oracle, db, now, rnd, ToRelease(r), r.consumer, r.name);
    Unroll(oracle, db, now, rnd, Begin(ToRelease(r)));
    if Owns(db, r.consumer, r.name) {
      Unroll(oracle, db, now, rnd, ReleaseOwned(db.names[r.name]));
    }
  }

  // ---------- Recovery ----------

  /** A recovery of that alias was mailed in the last minute. */
  ghost predicate MailedLately(db: Db, id: Id, now: int) {
    exists h :: h in db.recoveries && db.recoveries[h].alias == id && db.recoveries[h].createdAt > now - 60_000
  }

  /**
   * A token is issued to the mailbox on record of an active alias, once a minute, for
   * thirty minutes; every older token of the alias is spent, and no other.
   */
  lemma StartExactly(oracle: Oracle, db: Db, now: int, rnd: string, s: Start)
    ensures var f := Finish(oracle, db, now, rnd, Begin(ToStart(s)));
            if !IsActive(db, s.name) || db.aliases[db.names[s.name]].email != s.email
               || MailedLately(db, db.names[s.name], now) then f == (db, Started(None))
            else
              var id := db.names[s.name];
              && f.1 == Started(Some(rnd)) && f.0 == db.(recoveries := f.0.recoveries)
              && f.0.recoveries.Keys == db.recoveries.Keys + {Hash(rnd)}
              && f.0.recoveries[Hash(rnd)] == Recovery(id, s.email, now, now + 1_800_000, false, 0)
              && forall h :: h in db.recoveries && h != Hash(rnd) ==>
                f.0.recoveries[h] == if db.recoveries[h].alias == id then db.recoveries[h].(consumed := true) else db.recoveries[h]
  {
    hide Finish;
    OnlyTheMailboxGoesOn(oracle, db, now, rnd, s);
    Unroll(oracle, db, now, rnd, Begin(ToStart(s)));
    if IsActive(db, s.name) && db.aliases[db.names[s.name]].email == s.email {
      var id := db.names[s.name];
      Unroll(oracle, db, now, rnd, StartFound(s, id));
      Unroll(oracle, db, now, rnd, StartQuiet(s, id));
      Unroll(oracle, BurnRecoveries(db, id), now, rnd, StartBurned(s, id));
    }
  }

  /** The token names a recovery of that alias that is neither spent, expired nor presented five times. */
  predicate TokenIsLive(db: Db, id: Id, token: string, now: int) {
    Hash(token) in db.recoveries && db.recoveries[Hash(token)].alias == id && !db.recoveries[Hash(token)].consumed
    && now < db.recoveries[Hash(token)].expiresAt && db.recoveries[Hash(token)].attempts < 5
  }

  /**
   * A completed recovery hands the alias to the caller, with the one signed address; a
   * live token is counted whether or not the signature is accepted; a token that is not
   * live changes nothing.
   */
  lemma CompleteExactly(oracle: Oracle, db: Db, now: int, rnd: string, c: Complete)
    ensures var f := Finish(oracle, db, now, rnd, Begin(ToComplete(c)));
            if !IsActive(db, c.name) then f == (db, Failed(NotFound))
            else
              var id, hash := db.names[c.name], Hash(c.token);
              if !TokenIsLive(db, id, c.token, now) then f == (db, Failed(RecoveryInvalid))
              else
                var counted := db.recoveries[hash].(attempts := db.recoveries[hash].attempts + 1);
                var body := Body(RECOVER, c.name, c.chain, c.address, c.network, c.nonce);
                var refused := Refusal(oracle, db, body, c.signature, now);
                if refused.Some? then f == (db.(recoveries := db.recoveries[hash := counted]), Failed(refused.value))
                else
                  var row := Row(rnd, c.chain, c.address, c.network, true);
                  && f.1 == Recovered(id)
                  && f.0 == Db(db.aliases[id := db.aliases[id].(rows := [row], consumer := c.consumer)], db.names,
                               Used(db, c.nonce), db.recoveries[hash := counted.(consumed := true)])
  {
    hide Finish, Refusal;
    OnlyActiveIsRecovered(oracle, db, now, rnd, c);
    Unroll(oracle, db, now, rnd, Begin(ToComplete(c)));
    if IsActive(db, c.name) {
      var id, hash := db.names[c.name], Hash(c.token);
      Unroll(oracle, db, now, rnd, RecoverFound(c, id));
      if TokenIsLive(db, id, c.token, now) {
        var counted := db.recoveries[hash].(attempts := db.recoveries[hash].attempts + 1);
        var db1 := db.(recoveries := db.recoveries[hash := counted]);
        var body := Body(RECOVER, c.name, c.chain, c.address, c.network, c.nonce);
        Unroll(oracle, db, now, rnd, TokenLive(c, id));
        SpendingIs(oracle, db1, now, rnd, body, c.signature, ForRecovery(c, id, now));
        RefusalAlike(oracle, db, db1, body, c.signature, now);
        if Refusal(oracle, db, body, c.signature, now).None? {
          RefusalFindsIt(oracle, db, body, c.signature, now);
          var db2 := db1.(challenges := Used(db1, c.nonce));
          Unroll(oracle, db2, now, rnd, Consumed(body, ForRecovery(c, id, now)));
        }
      }
    }
  }

  lemma RefusalAlike(oracle: Oracle, db: Db, db': Db, body: Body, signature: string, now: int)
    requires db'.challenges == db.challenges
    ensures Refusal(oracle, db', body, signature, now) == Refusal(oracle, db, body, signature, now)
  {
    hide Message;
  }

  // ---------- An alias, or a row, that goes in between ----------

  /** A statement on an alias that is gone writes nothing, and is answered by what it needed of it. */
  lemma GoneInBetween(oracle: Oracle, db: Db, now: int, rnd: string, pc: Pc, id: Id)
    requires id !in db.aliases
    ensures var out := Step(oracle, db, now, rnd, pc);
            match pc
            case ChallengeFor(_, a) => a == id ==> out == Out(db, Done(Failed(Unhandled)), Quiet)
            case RemoveOwned(_, a) => a == id ==> out == Out(db, Done(Failed(NotFound)), Quiet)
            case RowFound(a, _) => a == id ==> out == Out(db, Done(Failed(AddressConflict)), Quiet)
            case RemoveAllowed(a, _) => a == id ==> out == Out(db, Done(Failed(Unhandled)), Quiet)
            case ReleaseOwned(a) => a == id ==> out == Out(db, Done(Failed(Unhandled)), Quiet)
            case StartBurned(_, a) => a == id ==> out == Out(db, Done(Failed(Unhandled)), Quiet)
            case Consumed(_, ForRecovery(_, a, _)) => a == id ==> out == Out(db, Done(Failed(RecoveryInvalid)), Quiet)
            case Placing(_, a, _) => a == id ==> out == Out(db, Done(Failed(Unhandled)), Quiet)
            case _ => true
  {
    hide BurnRecoveries, CountHeld, RecentlyMailed, Spendable, Live, Countable, Unconsumed, DistinctAddresses,
      OnePrimaryPerNetwork, PlaceRow, Promote;
  }

  /** A removal whose row is gone writes nothing. */
  lemma RowGoneInBetween(oracle: Oracle, db: Db, now: int, rnd: string, id: Id, row: Row)
    requires forall r :: r in RowsOf(db, id) ==> r.id != row.id
    ensures Step(oracle, db, now, rnd, RemoveAllowed(id, row)) == Out(db, Done(Failed(Unhandled)), Quiet)
  {
    hide Promote, DistinctAddresses, OnePrimaryPerNetwork, RowsOf;
    var rows := RowsOf(db, id);
    forall i | 0 <= i < |rows|
      ensures rows[i].id != row.id
    {
      assert rows[i] in rows;
    }
  }

  /** A token or a challenge spent in between is refused, and writes nothing. */
  lemma SpentInBetween(oracle: Oracle, db: Db, now: int, rnd: string, pc: Pc)
    requires match pc
      case TokenLive(c, _) =>
        !(Hash(c.token) in db.recoveries && !db.recoveries[Hash(c.token)].consumed
          && now < db.recoveries[Hash(c.token)].expiresAt && db.recoveries[Hash(c.token)].attempts < 5)
      case Verified(body, _, _, _) => !(body.nonce in db.challenges && !db.challenges[body.nonce].consumed)
      case Consumed(_, ForRecovery(c, _, _)) => !(Hash(c.token) in db.recoveries && !db.recoveries[Hash(c.token)].consumed)
      case _ => false
    ensures Step(oracle, db, now, rnd, pc)
         == Out(db, Done(Failed(if pc.Verified? then ChallengeInvalid else RecoveryInvalid)), Quiet)
  {
  }

  // ---------- The operator and the sweeper ----------

  /** A hold sets the status of its alias, and changes nothing else. */
  lemma HoldExactly(oracle: Oracle, s: System, id: Id, status: Status)
    ensures var s' := Apply(oracle, s, Hold(id, status));
            s' == s.(db := s.db.(aliases := s'.db.aliases)) && s'.db.aliases.Keys == s.db.aliases.Keys
            && forall i :: i in s.db.aliases ==>
              s'.db.aliases[i] == if i == id then s.db.aliases[i].(status := status) else s.db.aliases[i]
  {
  }

  /** A sweep takes challenges and recoveries that expired more than a day ago, and changes nothing else. */
  lemma SweepExactly(oracle: Oracle, s: System, nonces: set<string>, hashes: set<Hash>)
    ensures var dead := s.clock - 86_400_000;
            Enabled(s, Sweep(nonces, hashes)) <==>
              && (forall n :: n in nonces && n in s.db.challenges ==> s.db.challenges[n].expiresAt < dead)
              && (forall h :: h in hashes && h in s.db.recoveries ==> s.db.recoveries[h].expiresAt < dead)
    ensures Enabled(s, Sweep(nonces, hashes)) ==>
      Apply(oracle, s, Sweep(nonces, hashes))
      == s.(db := Db(s.db.aliases, s.db.names, s.db.challenges - nonces, s.db.recoveries - hashes))
  {
  }
}
