/**
 * The service as it is written: one object over the tables, whose methods run
 * their statements in order. Each method is proved to do exactly what its request
 * does in the interleaved model when nothing runs between its steps.
 */
module AliasService {
  import opened Common
  import opened AliasSigning
  import opened AliasTables
  import opened AliasProtocol

  /** The request at `pc` run to its answer with nothing in between. `rnd` is what it draws. */
  function Finish(oracle: Oracle, db: Db, now: int, rnd: string, pc: Pc): (Db, Outcome)
    decreases Rank(pc)
  {
    if pc.Done? then (db, pc.outcome)
    else
      var out := Step(oracle, db, now, rnd, pc);
      Finish(oracle, out.db, now, rnd, out.pc)
  }

  /** One step: either the answer, or what is left. */
  lemma Unroll(oracle: Oracle, db: Db, now: int, rnd: string, pc: Pc)
    ensures var out := Step(oracle, db, now, rnd, pc);
            Finish(oracle, db, now, rnd, pc)
            == if out.pc.Done? then (out.db, out.pc.outcome) else Finish(oracle, out.db, now, rnd, out.pc)
  {
  }

  /** `Spending` to its end, with what follows the spent challenge left to `Consumed`. */
  lemma SpendingFinishes(
      oracle: Oracle, db: Db, now: int, rnd: string, body: Body, signature: string, target: Target)
    ensures Finish(oracle, db, now, rnd, Spending(body, signature, target)) ==
            if !Spendable(db, body, now) then (db, Failed(ChallengeInvalid))
            else if !Verifies(oracle, body, signature) then (db, Failed(SignatureInvalid))
            else Finish(oracle, ConsumeChallenge(db, body.nonce), now, rnd, Consumed(body, target))
  {
    if Spendable(db, body, now) && Verifies(oracle, body, signature) {
      assert Finish(oracle, db, now, rnd, Spending(body, signature, target))
          == Finish(oracle, db, now, rnd, Verified(body, signature, target, now));
    }
  }

  // ---------- A request alone is a run of the system ----------

  /** The step that draws an identifier, a nonce or a token. A request has at most one. */
  predicate Draws(pc: Pc) {
    match pc
    case Begin(ToChallenge(_)) => true
    case ChallengeFor(_, _) | StartBurned(_, _) | Placing(_, _, _) => true
    case Consumed(_, target) => !target.ForAdd?
    case _ => false
  }

  lemma OnlyDrawsUseRandomness(oracle: Oracle, db: Db, now: int, rnd: string, rnd': string, pc: Pc)
    requires !Draws(pc)
    ensures Step(oracle, db, now, rnd, pc) == Step(oracle, db, now, rnd', pc)
  {
  }

  lemma DrawsAtMostOnce(oracle: Oracle, db: Db, now: int, rnd: string, pc: Pc)
    requires Draws(pc)
    ensures var out := Step(oracle, db, now, rnd, pc); out.pc.Done? || out.pc.ChallengeFor?
    ensures var out := Step(oracle, db, now, rnd, pc); out.pc.ChallengeFor? ==> out.db == db
  {
  }

  predicate AllOf(es: seq<Event>, tid: Tid) {
    forall e :: e in es ==> e.Run? && e.tid == tid
  }

  /** `spare` supplies the draws of the steps that use none. */
  lemma {:induction false} FinishIsARun(oracle: Oracle, s: System, tid: Tid, rnd: string, spare: nat -> string)
    returns (es: seq<Event>)
    requires tid in s.requests && rnd !in s.used
    requires forall k: nat :: k <= Rank(s.requests[tid]) ==> spare(k) !in s.used && spare(k) != rnd
    requires forall j: nat, k: nat :: j < k ==> spare(j) != spare(k)
    ensures AllOf(es, tid) && Valid(oracle, s, es)
    ensures tid in Exec(oracle, s, es).requests
    ensures var s' := Exec(oracle, s, es);
            && (s'.db, s'.requests[tid]) == (var f := Finish(oracle, s.db, s.clock, rnd, s.requests[tid]); (f.0, Done(f.1)))
            && s'.requests == s.requests[tid := s'.requests[tid]] && s'.clock == s.clock
    ensures forall x :: x in Exec(oracle, s, es).used ==>
      x in s.used || x == rnd || exists k: nat :: k <= Rank(s.requests[tid]) && x == spare(k)
    decreases Rank(s.requests[tid])
  {
    var pc := s.requests[tid];
    if pc.Done? {
      es := [];
    } else {
      var last := Draws(pc) && Step(oracle, s.db, s.clock, rnd, pc).pc.Done?;
      var r := if last then rnd else spare(Rank(pc));
      if !Draws(pc) {
        OnlyDrawsUseRandomness(oracle, s.db, s.clock, rnd, r, pc);
      } else {
        DrawsAtMostOnce(oracle, s.db, s.clock, rnd, pc);
      }
      var s' := Apply(oracle, s, Run(tid, r));
      if last {
        es := [Run(tid, r)];
        assert es[1..] == [];
      } else {
        var rest := FinishIsARun(oracle, s', tid, rnd, spare);
        es := [Run(tid, r)] + rest;
        assert es[1..] == rest;
      }
    }
  }

  // ---------- The object ----------

  class AliasesService {
    const oracle: Oracle
    var aliases: map<Id, Alias>
    var names: map<string, Id>
    var challenges: map<string, Challenge>
    var recoveries: map<Hash, Recovery>

    constructor (oracle: Oracle)
      ensures this.oracle == oracle && Tables() == EMPTY
    {
      this.oracle := oracle;
      aliases, names, challenges, recoveries := map[], map[], map[], map[];
    }

    function Tables(): Db
      reads this
    {
      Db(aliases, names, challenges, recoveries)
    }

    method CreateChallenge(c: NewChallenge, now: int, rnd: string) returns (out: Outcome)
      modifies this`challenges
      ensures (Tables(), out) == Finish(oracle, old(Tables()), now, rnd, Begin(ToChallenge(c)))
    {
      hide Finish, RegisterStep, ClaimStep, AddStep, FindRowStep, CountRowsStep, RemoveStep, ReleaseStep, MailStep,
        TokenStep, LookUpStep, CountStep, CheckStep, SpendStep, PlaceStep, CountHeld;
      Unroll(oracle, Tables(), now, rnd, Begin(ToChallenge(c)));
      var alias: Option<Id> := None;
      if c.purpose != CLAIM {
        alias := FindByName(Tables(), c.name);
        if alias.None? {
          return Failed(NotFound);
        }
        Unroll(oracle, Tables(), now, rnd, ChallengeFor(c, alias.value));
        if alias.value !in aliases {
          return Failed(Unhandled);
        }
      }
      var body := Body(c.purpose, c.name, c.chain, c.address, c.network, rnd);
      challenges := challenges[rnd := Challenge(alias, body, now + CHALLENGE_TTL_MS, false)];
      out := Issued(body);
    }

    /** Consumes the challenge of `body`, or says why not and changes nothing. */
    method SpendChallenge(body: Body, signature: string, now: int) returns (error: Option<Error>)
      modifies this`challenges
      ensures error == if !Spendable(old(Tables()), body, now) then Some(ChallengeInvalid)
                       else if !Verifies(oracle, body, signature) then Some(SignatureInvalid) else None
      ensures Tables() == if error == None then ConsumeChallenge(old(Tables()), body.nonce) else old(Tables())
    {
      if body.nonce !in challenges {
        return Some(ChallengeInvalid);
      }
      var challenge := challenges[body.nonce];
      if challenge.body != body || challenge.consumed || challenge.expiresAt <= now {
        return Some(ChallengeInvalid);
      }
      if !Verifies(oracle, body, signature) {
        return Some(SignatureInvalid);
      }
      challenges := challenges[body.nonce := challenge.(consumed := true)];
      error := None;
    }

    method Claim(c: Claim, now: int, rnd: string) returns (out: Outcome)
      modifies this
      ensures (Tables(), out) == Finish(oracle, old(Tables()), now, rnd, Begin(ToClaim(c)))
    {
      hide Finish, Open, AddStep, FindRowStep, CountRowsStep, RemoveStep, ReleaseStep, MailStep, TokenStep,
        LookUpStep, CountStep, CheckStep, SpendStep, PlaceStep, Spendable, Verifies, Unconsumed, CountHeld,
        ConsumeChallenge;
      Unroll(oracle, Tables(), now, rnd, Begin(ToClaim(c)));
      if CountHeld(Tables(), c.consumer) >= MAX_PER_CONSUMER {
        return Failed(AddressConflict);
      }
      Unroll(oracle, Tables(), now, rnd, ClaimAllowed(c));
      if c.nonce !in challenges {
        return Failed(ChallengeInvalid);
      }
      var coordinates := challenges[c.nonce].body;
      var body := Body(CLAIM, c.name, coordinates.chain, coordinates.address, coordinates.network, c.nonce);
      SpendingFinishes(oracle, Tables(), now, rnd, body, c.signature, ForClaim(c));
      var error := SpendChallenge(body, c.signature, now);
      if error.Some? {
        return Failed(error.value);
      }
      Unroll(oracle, Tables(), now, rnd, Consumed(body, ForClaim(c)));
      if c.name in names {
        return Failed(AliasTaken);
      }
      aliases := aliases[rnd := Alias(c.consumer, c.name, c.email, ACTIVE, [InsertedRow(body, rnd, true)])];
      names := names[c.name := rnd];
      out := Claimed(rnd);
    }

    method AddAddress(a: Add, now: int, rnd: string) returns (out: Outcome)
      modifies this
      ensures (Tables(), out) == Finish(oracle, old(Tables()), now, rnd, Begin(ToAdd(a)))
    {
      hide Finish, RegisterStep, Open, ClaimStep, FindRowStep, CountRowsStep, RemoveStep, ReleaseStep, MailStep,
        TokenStep, LookUpStep, CountStep, CheckStep, SpendStep, PlaceStep, Spendable, Verifies, Unconsumed, CountHeld,
        CountGroup, PlaceRow, ConsumeChallenge, InsertedRow;
      Unroll(oracle, Tables(), now, rnd, Begin(ToAdd(a)));
      var alias := FindOwned(Tables(), a.consumer, a.name);
      if alias.None? {
        return Failed(NotFound);
      }
      var id := alias.value;
      Unroll(oracle, Tables(), now, rnd, AddOwned(a, id));
      if |aliases[id].rows| >= MAX_ADDRESSES {
        return Failed(AddressConflict);
      }
      var body := Body(ADD_ADDRESS, a.name, a.chain, a.address, a.network, a.nonce);
      SpendingFinishes(oracle, Tables(), now, rnd, body, a.signature, ForAdd(a, id));
      var error := SpendChallenge(body, a.signature, now);
      if error.Some? {
        return Failed(error.value);
      }
      out := Register(a, id, body, now, rnd);
    }

    /** What `addAddress` does once its challenge is spent. */
    method Register(a: Add, id: Id, body: Body, now: int, rnd: string) returns (out: Outcome)
      requires id in aliases
      modifies this`aliases
      ensures (Tables(), out) == Finish(oracle, old(Tables()), now, rnd, Consumed(body, ForAdd(a, id)))
    {
      hide Finish, PlaceRow, CountGroup, InsertedRow;
      var primary := CountGroup(aliases[id].rows, body.chain, body.network) == 0 || a.primary;
      Unroll(oracle, Tables(), now, rnd, Consumed(body, ForAdd(a, id)));
      Unroll(oracle, Tables(), now, rnd, Placing(body, id, primary));
      var row := InsertedRow(body, rnd, primary);
      var placed := Place(id, row);
      out := if placed then Added(row) else Failed(AddressConflict);
    }

    /** The transaction that demotes the group's default, if the new row takes it over, and inserts. */
    method Place(id: Id, row: Row) returns (placed: bool)
      requires id in aliases
      modifies this`aliases
      ensures var done := PlaceRow(RowsOf(old(Tables()), id), row);
              placed == done.Some? && Tables() == if placed then SetRows(old(Tables()), id, done.value) else old(Tables())
    {
      hide DistinctAddresses, OnePrimaryPerNetwork;
      var rows := aliases[id].rows;
      if row.primary {
        rows := Demote(rows, row.chain, row.network);
      }
      rows := rows + [row];
      if !DistinctAddresses(rows) || !OnePrimaryPerNetwork(rows) {
        return false;  // rolled back
      }
      aliases := aliases[id := aliases[id].(rows := rows)];
      placed := true;
    }

    method RemoveAddress(r: Remove, now: int, rnd: string) returns (out: Outcome)
      modifies this`aliases
      ensures (Tables(), out) == Finish(oracle, old(Tables()), now, rnd, Begin(ToRemove(r)))
    {
      hide Finish, Open, RegisterStep, ClaimStep, AddStep, ReleaseStep, MailStep, TokenStep, LookUpStep, CountStep,
        CheckStep, SpendStep, PlaceStep, CountHeld, DistinctAddresses, OnePrimaryPerNetwork, Promote;
      Unroll(oracle, Tables(), now, rnd, Begin(ToRemove(r)));
      var alias := FindOwned(Tables(), r.consumer, r.name);
      if alias.None? {
        return Failed(NotFound);
      }
      var id := alias.value;
      var rows := aliases[id].rows;
      Unroll(oracle, Tables(), now, rnd, RemoveOwned(r, id));
      var k := IndexOfRow(rows, r.rowId);
      if k == |rows| {
        return Failed(NotFound);
      }
      var row := rows[k];
      Unroll(oracle, Tables(), now, rnd, RowFound(id, row));
      if |rows| <= 1 {
        return Failed(AddressConflict);
      }
      Unroll(oracle, Tables(), now, rnd, RemoveAllowed(id, row));
      rows := Without(rows, k);
      if row.primary {
        rows := Promote(rows, row.chain, row.network);
      }
      if !DistinctAddresses(rows) || !OnePrimaryPerNetwork(rows) {
        return Failed(Unhandled);  // rolled back
      }
      aliases := aliases[id := aliases[id].(rows := rows)];
      out := Removed(row.id);
    }

    method Release(r: Release, now: int, rnd: string) returns (out: Outcome)
      modifies this
      ensures (Tables(), out) == Finish(oracle, old(Tables()), now, rnd, Begin(ToRelease(r)))
    {
      hide Finish, Open, RegisterStep, ClaimStep, AddStep, FindRowStep, CountRowsStep, RemoveStep, MailStep,
        TokenStep, LookUpStep, CountStep, CheckStep, SpendStep, PlaceStep, CountHeld, DeleteAlias;
      Unroll(oracle, Tables(), now, rnd, Begin(ToRelease(r)));
      var alias := FindOwned(Tables(), r.consumer, r.name);
      if alias.None? {
        return Failed(NotFound);
      }
      var id := alias.value;
      Unroll(oracle, Tables(), now, rnd, ReleaseOwned(id));
      DeleteCascade(id);
      out := Released(id);
    }

    /** `alias.delete` and its cascade. */
    method DeleteCascade(id: Id)
      requires id in aliases
      modifies this
      ensures Some(Tables()) == DeleteAlias(old(Tables()), id)
    {
      var name := aliases[id].name;
      aliases := map i | i in aliases && i != id :: aliases[i];
      names := map n | n in names && n != name :: names[n];
      challenges := map n | n in challenges && challenges[n].alias != Some(id) :: challenges[n];
      recoveries := map h | h in recoveries && recoveries[h].alias != id :: recoveries[h];
    }

    method IssueRecovery(s: Start, now: int, rnd: string) returns (out: Outcome)
      modifies this`recoveries
      ensures (Tables(), out) == Finish(oracle, old(Tables()), now, rnd, Begin(ToStart(s)))
    {
      hide Finish, Open, RegisterStep, ClaimStep, AddStep, FindRowStep, CountRowsStep, RemoveStep, ReleaseStep,
        LookUpStep, CountStep, CheckStep, SpendStep, PlaceStep, CountHeld, RecentlyMailed;
      Unroll(oracle, Tables(), now, rnd, Begin(ToStart(s)));
      var alias := FindActive(Tables(), s.name);
      if alias.None? || aliases[alias.value].email != s.email {
        return Started(None);
      }
      var id := alias.value;
      Unroll(oracle, Tables(), now, rnd, StartFound(s, id));
      if RecentlyMailed(Tables(), id, now) {
        return Started(None);
      }
      Unroll(oracle, Tables(), now, rnd, StartQuiet(s, id));
      recoveries := map h | h in recoveries ::
        if recoveries[h].alias == id then recoveries[h].(consumed := true) else recoveries[h];
      Unroll(oracle, Tables(), now, rnd, StartBurned(s, id));
      recoveries := recoveries[Hash(rnd) := Recovery(id, s.email, now, now + RECOVERY_TTL_MS, false, 0)];
      out := Started(Some(rnd));
    }

    /** `updateMany` over a countable recovery. */
    method CountPresentation(hash: Hash, now: int) returns (counted: bool)
      modifies this`recoveries
      ensures counted == Countable(old(Tables()), hash, now)
      ensures Tables() == if counted then CountAttempt(old(Tables()), hash) else old(Tables())
    {
      counted := Countable(Tables(), hash, now);
      if counted {
        recoveries := recoveries[hash := recoveries[hash].(attempts := recoveries[hash].attempts + 1)];
      }
    }

    /** What `completeRecovery` does once its challenge is spent. */
    method Recover(c: Complete, id: Id, body: Body, now: int, rnd: string) returns (out: Outcome)
      modifies this`recoveries, this`aliases
      ensures (Tables(), out) == Finish(oracle, old(Tables()), now, rnd, Consumed(body, ForRecovery(c, id, now)))
    {
      hide Finish, TakeOver, InsertedRow;
      Unroll(oracle, Tables(), now, rnd, Consumed(body, ForRecovery(c, id, now)));
      var taken := HandOver(Hash(c.token), id, c.consumer, InsertedRow(body, rnd, true));
      out := if taken then Recovered(id) else Failed(RecoveryInvalid);
    }

    /** The transaction that ends a recovery, rolled back when the token was spent meanwhile. */
    method HandOver(hash: Hash, id: Id, consumer: Id, row: Row) returns (taken: bool)
      modifies this`recoveries, this`aliases
      ensures var done := TakeOver(old(Tables()), hash, id, consumer, row);
              taken == done.Some? && Tables() == if taken then done.value else old(Tables())
    {
      if hash !in recoveries || recoveries[hash].consumed || id !in aliases {
        return false;
      }
      recoveries := recoveries[hash := recoveries[hash].(consumed := true)];
      aliases := aliases[id := aliases[id].(rows := [row], consumer := consumer)];
      taken := true;
    }

    method CompleteRecovery(c: Complete, now: int, rnd: string) returns (out: Outcome)
      modifies this
      ensures (Tables(), out) == Finish(oracle, old(Tables()), now, rnd, Begin(ToComplete(c)))
    {
      hide Finish, RegisterStep, Open, ClaimStep, AddStep, FindRowStep, CountRowsStep, RemoveStep, ReleaseStep,
        MailStep, TokenStep, CheckStep, SpendStep, PlaceStep, Spendable, Verifies, Unconsumed, CountHeld, TakeOver,
        Countable, CountAttempt, Live, ConsumeChallenge, InsertedRow, FindByName;
      Unroll(oracle, Tables(), now, rnd, Begin(ToComplete(c)));
      var alias := FindActive(Tables(), c.name);
      if alias.None? {
        return Failed(NotFound);
      }
      var id, hash := alias.value, Hash(c.token);
      Unroll(oracle, Tables(), now, rnd, RecoverFound(c, id));
      if !Live(Tables(), id, hash, now) {
        return Failed(RecoveryInvalid);
      }
      Unroll(oracle, Tables(), now, rnd, TokenLive(c, id));
      var counted := CountPresentation(hash, now);
      if !counted {
        return Failed(RecoveryInvalid);
      }
      var body := Body(RECOVER, c.name, c.chain, c.address, c.network, c.nonce);
      SpendingFinishes(oracle, Tables(), now, rnd, body, c.signature, ForRecovery(c, id, now));
      var error := SpendChallenge(body, c.signature, now);
      if error.Some? {
        return Failed(error.value);
      }
      out := Recover(c, id, body, now, rnd);
    }
  }
}
