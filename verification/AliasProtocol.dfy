/**
 * Every request of src/aliases/aliases.service.ts as a program counter whose step
 * is one database statement or one transaction, and the system of any number of
 * requests, a clock, the operator and the sweeper.
 */
module AliasProtocol {
  import opened Common
  import opened AliasSigning
  import opened AliasTables

  /** Who signs what: (chain, address, message, signature). The cryptography is not part of this model. */
  type Oracle = (Chain, string, string, string) -> bool

  /** `verifyAliasSignature`. */
  predicate Verifies(oracle: Oracle, body: Body, signature: string) {
    oracle(body.chain, body.address, Message(body), signature)
  }

  // ---------- Requests ----------

  datatype NewChallenge = NewChallenge(purpose: Purpose, name: string, chain: Chain, address: string, network: string)
  datatype Claim = Claim(consumer: Id, name: string, email: string, nonce: string, signature: string)
  datatype Add = Add(
    consumer: Id, name: string, chain: Chain, address: string, network: string,
    nonce: string, signature: string, primary: bool)
  datatype Remove = Remove(consumer: Id, name: string, rowId: Id)
  datatype Release = Release(consumer: Id, name: string)
  datatype Start = Start(name: string, email: string)
  datatype Complete = Complete(
    consumer: Id, name: string, token: string, chain: Chain, address: string, network: string,
    nonce: string, signature: string)

  datatype Request =
    | ToChallenge(challenge: NewChallenge)
    | ToClaim(claim: Claim)
    | ToAdd(add: Add)
    | ToRemove(remove: Remove)
    | ToRelease(release: Release)
    | ToStart(start: Start)
    | ToComplete(complete: Complete)

  datatype Error =
    | NotFound | AliasTaken | AddressConflict | ChallengeInvalid | SignatureInvalid | RecoveryInvalid
    | Unhandled  // a database exception the service lets through

  datatype Outcome =
    | Issued(body: Body)
    | Claimed(alias: Id)
    | Added(row: Row)
    | Removed(rowId: Id)
    | Released(alias: Id)
    | Started(token: Option<string>)
    | Recovered(alias: Id)
    | Failed(error: Error)

  /** What a spent challenge is for. `checkedAt` is when the token was last seen unexpired. */
  datatype Target =
    | ForClaim(claim: Claim)
    | ForAdd(add: Add, alias: Id)
    | ForRecovery(complete: Complete, alias: Id, checkedAt: int)

  /** Where a request stands: named for the last statement it ran. */
  datatype Pc =
    | Begin(request: Request)
    | ChallengeFor(challenge: NewChallenge, alias: Id)
    | ClaimAllowed(claim: Claim)
    | AddOwned(add: Add, alias: Id)
    | RemoveOwned(remove: Remove, alias: Id)
    | RowFound(alias: Id, row: Row)
    | RemoveAllowed(alias: Id, row: Row)
    | ReleaseOwned(alias: Id)
    | StartFound(start: Start, alias: Id)
    | StartQuiet(start: Start, alias: Id)
    | StartBurned(start: Start, alias: Id)
    | RecoverFound(complete: Complete, alias: Id)
    | TokenLive(complete: Complete, alias: Id)
    | Spending(body: Body, signature: string, target: Target)
    | Verified(body: Body, signature: string, target: Target, checkedAt: int)
    | Consumed(body: Body, target: Target)
    | Placing(body: Body, alias: Id, primary: bool)
    | Done(outcome: Outcome)

  // ---------- History ----------

  /**
   * What a step did that the theorems count. `under` names the recovery the check ran
   * under, and `checkedAt` is when the request that spends the challenge checked it.
   */
  datatype Note =
    | Quiet
    | Created(body: Body, boundTo: Option<Id>, expiresAt: int)     // a challenge row, and the alias it is bound to
    | Counted(hash: Hash)                                          // an attempt
    | Checked(body: Body, under: Option<Hash>, at: int)            // a signature check ran
    | Spent(body: Body, signature: string, checkedAt: int)         // a challenge was consumed
    | Registered(rowId: Id, alias: Id, body: Body)                 // an address row, by claim or add
    | Transferred(hash: Hash, rowId: Id, alias: Id, consumer: Id, body: Body)  // an address row, by recovery

  datatype Out = Out(db: Db, pc: Pc, note: Note)

  function Fail(db: Db, error: Error): Out {
    Out(db, Done(Failed(error)), Quiet)
  }

  function HashOf(target: Target): Option<Hash> {
    if target.ForRecovery? then Some(Hash(target.complete.token)) else None
  }

  // ---------- Steps ----------

  /** Statements a request has left at most: every step but the last uses one up. */
  function Rank(pc: Pc): nat {
    match pc
    case Begin(_) => 9
    case RecoverFound(_, _) => 8
    case TokenLive(_, _) => 7
    case ClaimAllowed(_) | AddOwned(_, _) => 6
    case Spending(_, _, _) => 5
    case Verified(_, _, _, _) => 4
    case Consumed(_, _) => 3
    case Placing(_, _, _) => 2
    case RemoveOwned(_, _) | StartFound(_, _) => 4
    case RowFound(_, _) | StartQuiet(_, _) => 3
    case RemoveAllowed(_, _) | StartBurned(_, _) => 2
    case ReleaseOwned(_) | ChallengeFor(_, _) => 1
    case Done(_) => 0
  }

  function Open(c: NewChallenge, alias: Option<Id>, db: Db, now: int, rnd: string): (out: Out)
    ensures out.pc.Done?
  {
    var body := Body(c.purpose, c.name, c.chain, c.address, c.network, rnd);
    match InsertChallenge(db, Challenge(alias, body, now + CHALLENGE_TTL_MS, false))
    case None => Fail(db, Unhandled)
    case Some(db') => Out(db', Done(Issued(body)), Created(body, alias, now + CHALLENGE_TTL_MS))
  }

  function BeginStep(request: Request, db: Db, now: int, rnd: string): (out: Out)
    ensures Rank(out.pc) < 9
  {
    match request
    case ToChallenge(c) =>
      if c.purpose == CLAIM then Open(c, None, db, now, rnd)
      else (
        match FindByName(db, c.name)
        case None => Fail(db, NotFound)
        case Some(id) => Out(db, ChallengeFor(c, id), Quiet))
    case ToClaim(c) =>
      if CountHeld(db, c.consumer) >= MAX_PER_CONSUMER then Fail(db, AddressConflict)
      else Out(db, ClaimAllowed(c), Quiet)
    case ToAdd(a) => (
      match FindOwned(db, a.consumer, a.name)
      case None => Fail(db, NotFound)
      case Some(id) => Out(db, AddOwned(a, id), Quiet))
    case ToRemove(r) => (
      match FindOwned(db, r.consumer, r.name)
      case None => Fail(db, NotFound)
      case Some(id) => Out(db, RemoveOwned(r, id), Quiet))
    case ToRelease(r) => (
      match FindOwned(db, r.consumer, r.name)
      case None => Fail(db, NotFound)
      case Some(id) => Out(db, ReleaseOwned(id), Quiet))
    case ToStart(s) => (
      match FindActive(db, s.name)
      case None => Out(db, Done(Started(None)), Quiet)
      case Some(id) =>
        if db.aliases[id].email == s.email then Out(db, StartFound(s, id), Quiet)
        else Out(db, Done(Started(None)), Quiet))
    case ToComplete(c) => (
      match FindActive(db, c.name)
      case None => Fail(db, NotFound)
      case Some(id) => Out(db, RecoverFound(c, id), Quiet))
  }

  function InsertedRow(body: Body, rnd: string, primary: bool): Row {
    Row(rnd, body.chain, body.address, body.network, primary)
  }

  /** After the challenge is spent: register the address it was signed by. */
  function RegisterStep(body: Body, target: Target, db: Db, rnd: string): (out: Out)
    ensures Rank(out.pc) < 3
  {
    match target
    case ForClaim(c) => (
      match InsertAlias(db, rnd, Alias(c.consumer, c.name, c.email, ACTIVE, [InsertedRow(body, rnd, true)]))
      case None => Fail(db, AliasTaken)
      case Some(db') => Out(db', Done(Claimed(rnd)), Registered(rnd, rnd, body)))
    case ForAdd(a, id) =>
      Out(db, Placing(body, id, CountGroup(RowsOf(db, id), body.chain, body.network) == 0 || a.primary), Quiet)
    case ForRecovery(c, id, _) => (
      match TakeOver(db, Hash(c.token), id, c.consumer, InsertedRow(body, rnd, true))
      case None => Fail(db, RecoveryInvalid)
      case Some(db') => Out(db', Done(Recovered(id)), Transferred(Hash(c.token), rnd, id, c.consumer, body)))
  }

  function ClaimStep(c: Claim, db: Db): (out: Out)
    ensures Rank(out.pc) < 6
  {
    if c.nonce !in db.challenges then Fail(db, ChallengeInvalid)
    else
      var b := db.challenges[c.nonce].body;
      Out(db, Spending(Body(CLAIM, c.name, b.chain, b.address, b.network, c.nonce), c.signature, ForClaim(c)), Quiet)
  }

  function AddStep(a: Add, id: Id, db: Db): (out: Out)
    ensures Rank(out.pc) < 6
  {
    if |RowsOf(db, id)| >= MAX_ADDRESSES then Fail(db, AddressConflict)
    else Out(db, Spending(Body(ADD_ADDRESS, a.name, a.chain, a.address, a.network, a.nonce), a.signature, ForAdd(a, id)), Quiet)
  }

  function FindRowStep(r: Remove, id: Id, db: Db): (out: Out)
    ensures Rank(out.pc) < 4
  {
    var k := IndexOfRow(RowsOf(db, id), r.rowId);
    if k == |RowsOf(db, id)| then Fail(db, NotFound) else Out(db, RowFound(id, RowsOf(db, id)[k]), Quiet)
  }

  function CountRowsStep(id: Id, row: Row, db: Db): (out: Out)
    ensures Rank(out.pc) < 3
  {
    if |RowsOf(db, id)| <= 1 then Fail(db, AddressConflict) else Out(db, RemoveAllowed(id, row), Quiet)
  }

  function RemoveStep(id: Id, row: Row, db: Db): (out: Out)
    ensures out.pc.Done?
  {
    match RemoveRow(RowsOf(db, id), row)
    case None => Fail(db, Unhandled)
    case Some(rows) => if id in db.aliases then Out(SetRows(db, id, rows), Done(Removed(row.id)), Quiet) else Fail(db, Unhandled)
  }

  function ReleaseStep(id: Id, db: Db): (out: Out)
    ensures out.pc.Done?
  {
    match DeleteAlias(db, id)
    case None => Fail(db, Unhandled)
    case Some(db') => Out(db', Done(Released(id)), Quiet)
  }

  function MailStep(s: Start, id: Id, db: Db, now: int): (out: Out)
    ensures Rank(out.pc) < 4
  {
    if RecentlyMailed(db, id, now) then Out(db, Done(Started(None)), Quiet) else Out(db, StartQuiet(s, id), Quiet)
  }

  function TokenStep(s: Start, id: Id, db: Db, now: int, rnd: string): (out: Out)
    ensures out.pc.Done?
  {
    match InsertRecovery(db, Hash(rnd), Recovery(id, s.email, now, now + RECOVERY_TTL_MS, false, 0))
    case None => Fail(db, Unhandled)
    case Some(db') => Out(db', Done(Started(Some(rnd))), Quiet)
  }

  function LookUpStep(c: Complete, id: Id, db: Db, now: int): (out: Out)
    ensures Rank(out.pc) < 8
  {
    if Live(db, id, Hash(c.token), now) then Out(db, TokenLive(c, id), Quiet) else Fail(db, RecoveryInvalid)
  }

  function CountStep(c: Complete, id: Id, db: Db, now: int): (out: Out)
    ensures Rank(out.pc) < 7
  {
    if !Countable(db, Hash(c.token), now) then Fail(db, RecoveryInvalid)
    else Out(CountAttempt(db, Hash(c.token)),
      Spending(Body(RECOVER, c.name, c.chain, c.address, c.network, c.nonce), c.signature, ForRecovery(c, id, now)),
      Counted(Hash(c.token)))
  }

  function CheckStep(oracle: Oracle, body: Body, signature: string, target: Target, db: Db, now: int): (out: Out)
    ensures Rank(out.pc) < 5
  {
    if !Spendable(db, body, now) then Fail(db, ChallengeInvalid)
    else Out(db,
      if Verifies(oracle, body, signature) then Verified(body, signature, target, now) else Done(Failed(SignatureInvalid)),
      Checked(body, HashOf(target), now))
  }

  function SpendStep(body: Body, signature: string, target: Target, checkedAt: int, db: Db): (out: Out)
    ensures Rank(out.pc) < 4
  {
    if Unconsumed(db, body.nonce)
    then Out(ConsumeChallenge(db, body.nonce), Consumed(body, target), Spent(body, signature, checkedAt))
    else Fail(db, ChallengeInvalid)
  }

  function PlaceStep(body: Body, id: Id, primary: bool, db: Db, rnd: string): (out: Out)
    ensures out.pc.Done?
  {
    if id !in db.aliases then Fail(db, Unhandled)
    else
      var row := InsertedRow(body, rnd, primary);
      match PlaceRow(RowsOf(db, id), row)
      case None => Fail(db, AddressConflict)
      case Some(rows) => Out(SetRows(db, id, rows), Done(Added(row)), Registered(rnd, id, body))
  }

  /** The next statement of the request at `pc`. Every statement but the last leaves fewer to run. */
  function Step(oracle: Oracle, db: Db, now: int, rnd: string, pc: Pc): (out: Out)
    ensures if pc.Done? then out == Out(db, pc, Quiet) else Rank(out.pc) < Rank(pc)
  {
    hide BeginStep, Open, ClaimStep, AddStep, FindRowStep, CountRowsStep, RemoveStep, ReleaseStep, MailStep, TokenStep,
      LookUpStep, CountStep, CheckStep, SpendStep, RegisterStep, PlaceStep, BurnRecoveries;
    match pc
    case Begin(request) => BeginStep(request, db, now, rnd)
    case ChallengeFor(c, id) => Open(c, Some(id), db, now, rnd)
    case ClaimAllowed(c) => ClaimStep(c, db)
    case AddOwned(a, id) => AddStep(a, id, db)
    case RemoveOwned(r, id) => FindRowStep(r, id, db)
    case RowFound(id, row) => CountRowsStep(id, row, db)
    case RemoveAllowed(id, row) => RemoveStep(id, row, db)
    case ReleaseOwned(id) => ReleaseStep(id, db)
    case StartFound(s, id) => MailStep(s, id, db, now)
    case StartQuiet(s, id) => Out(BurnRecoveries(db, id), StartBurned(s, id), Quiet)
    case StartBurned(s, id) => TokenStep(s, id, db, now, rnd)
    case RecoverFound(c, id) => LookUpStep(c, id, db, now)
    case TokenLive(c, id) => CountStep(c, id, db, now)
    case Spending(body, signature, target) => CheckStep(oracle, body, signature, target, db, now)
    case Verified(body, signature, target, checkedAt) => SpendStep(body, signature, target, checkedAt, db)
    case Consumed(body, target) => RegisterStep(body, target, db, rnd)
    case Placing(body, id, primary) => PlaceStep(body, id, primary, db, rnd)
    case Done(_) => Out(db, pc, Quiet)
  }

  // ---------- The system ----------

  type Tid = nat

  datatype Entry = Entry(tid: Tid, note: Note)

  datatype System = System(
    db: Db, clock: int, requests: map<Tid, Pc>,
    used: set<string>,  // every identifier, nonce and token drawn so far
    log: seq<Entry>)

  datatype Event =
    | Arrive(tid: Tid, request: Request)
    | Run(tid: Tid, rnd: string)
    | Tick(to: int)
    | Hold(alias: Id, status: Status)
    | Sweep(nonces: set<string>, hashes: set<Hash>)

  const START := System(EMPTY, 0, map[], {}, [])

  predicate ChallengeIsDead(c: Challenge, now: int) {
    c.expiresAt < now - SWEEP_GRACE_MS
  }

  predicate RecoveryIsDead(r: Recovery, now: int) {
    r.expiresAt < now - SWEEP_GRACE_MS
  }

  /** Draws never repeat, the clock never goes back, and the sweeper deletes only what its cutoff selects. */
  predicate Enabled(s: System, e: Event) {
    match e
    case Arrive(tid, _) => tid !in s.requests
    case Run(tid, rnd) => tid in s.requests && rnd !in s.used
    case Tick(to) => s.clock <= to
    case Hold(_, _) => true
    case Sweep(nonces, hashes) =>
      && (forall n :: n in nonces && n in s.db.challenges ==> ChallengeIsDead(s.db.challenges[n], s.clock))
      && (forall h :: h in hashes && h in s.db.recoveries ==> RecoveryIsDead(s.db.recoveries[h], s.clock))
  }

  function SweepDb(db: Db, nonces: set<string>, hashes: set<Hash>): Db {
    db.(challenges := db.challenges - nonces, recoveries := db.recoveries - hashes)
  }

  function Apply(oracle: Oracle, s: System, e: Event): System
    requires Enabled(s, e)
  {
    match e
    case Arrive(tid, request) => s.(requests := s.requests[tid := Begin(request)])
    case Run(tid, rnd) =>
      var out := Step(oracle, s.db, s.clock, rnd, s.requests[tid]);
      System(out.db, s.clock, s.requests[tid := out.pc], s.used + {rnd}, s.log + [Entry(tid, out.note)])
    case Tick(to) => s.(clock := to)
    case Hold(alias, status) => s.(db := SetStatus(s.db, alias, status))
    case Sweep(nonces, hashes) => s.(db := SweepDb(s.db, nonces, hashes))
  }

  /** Is `es` a run from `s`? */
  predicate Valid(oracle: Oracle, s: System, es: seq<Event>)
    decreases |es|
  {
    es == [] || (Enabled(s, es[0]) && Valid(oracle, Apply(oracle, s, es[0]), es[1..]))
  }

  function Exec(oracle: Oracle, s: System, es: seq<Event>): System
    requires Valid(oracle, s, es)
    decreases |es|
  {
    if es == [] then s else Exec(oracle, Apply(oracle, s, es[0]), es[1..])
  }
}
