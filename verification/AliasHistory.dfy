/**
 * The history of a run: what a log of notes must look like for the service to have
 * kept its promises, and how the tables and the waiting requests stand to it.
 */
module AliasHistory {
  import opened Common
  import opened AliasSigning
  import opened AliasTables
  import opened AliasProtocol
  import opened AliasSteps

  // ---------- What a log must look like ----------

  /** The order in which one request can leave notes. */
  function Stage(note: Note): nat {
    match note
    case Quiet => 0
    case Counted(_) => 1
    case Checked(_, _, _) => 2
    case Spent(_, _, _) => 3
    case Created(_, _, _) | Registered(_, _, _) | Transferred(_, _, _, _, _) => 4
  }

  function Count(log: seq<Entry>, p: Note -> bool): nat {
    if log == [] then 0
    else Count(log[..|log| - 1], p) + if p(log[|log| - 1].note) then 1 else 0
  }

  /** Presentations counted against a token. */
  function Attempts(log: seq<Entry>, hash: Hash): nat {
    Count(log, (n: Note) => n == Counted(hash))
  }

  /** Signature checks run under a token. */
  function Checks(log: seq<Entry>, hash: Hash): nat {
    Count(log, (n: Note) => n.Checked? && n.under == Some(hash))
  }

  ghost predicate StagesFollow(log: seq<Entry>, e: Entry) {
    forall e' :: e' in log && e'.tid == e.tid && Stage(e.note) > 0 ==> Stage(e'.note) < Stage(e.note)
  }

  /** The alias the challenge for `body` is bound to: `alias`, unless that is yet to be claimed. */
  function BoundFor(body: Body, alias: Id): Option<Id> {
    if body.purpose == CLAIM then None else Some(alias)
  }

  predicate CreatedFor(note: Note, body: Body, alias: Id) {
    note.Created? && note.body == body && note.boundTo == BoundFor(body, alias)
  }

  predicate CheckedAt(e: Entry, tid: Tid, body: Body, at: int) {
    e.tid == tid && e.note.Checked? && e.note.body == body && e.note.at == at
  }

  /** The challenge for `body`, still alive at `at`. */
  predicate AliveAt(note: Note, body: Body, at: int) {
    note.Created? && note.body == body && at < note.expiresAt
  }

  /** May `e` come after `log`? Each clause is one promise of the service. */
  ghost predicate Follows(oracle: Oracle, log: seq<Entry>, e: Entry) {
    && StagesFollow(log, e)
    && (e.note.Created? ==> forall e' :: e' in log && e'.note.Created? ==> e'.note.body.nonce != e.note.body.nonce)
    && (e.note.Counted? ==> Attempts(log, e.note.hash) < RECOVERY_MAX_ATTEMPTS)
    && (e.note.Checked? && e.note.under.Some? ==> Entry(e.tid, Counted(e.note.under.value)) in log)
    && (e.note.Checked? ==> exists e' :: e' in log && AliveAt(e'.note, e.note.body, e.note.at))
    && (e.note.Spent? ==>
      && Verifies(oracle, e.note.body, e.note.signature)
      && (exists e' :: e' in log && CheckedAt(e', e.tid, e.note.body, e.note.checkedAt))
      && (forall e' :: e' in log && e'.note.Spent? ==> e'.note.body.nonce != e.note.body.nonce))
    && (Makes(e.note).Some? ==>
      && (exists e' :: e' in log && e'.tid == e.tid && e'.note.Spent? && e'.note.body == Makes(e.note).value.2)
      && (exists e' :: e' in log && CreatedFor(e'.note, Makes(e.note).value.2, Makes(e.note).value.1))
      && (forall e' :: e' in log && Makes(e'.note).Some? ==> Makes(e'.note).value.0 != Makes(e.note).value.0)
      && (e.note.Transferred? <==> e.note.body.purpose == RECOVER))
    && (e.note.Transferred? ==>
      && Entry(e.tid, Counted(e.note.hash)) in log
      && (forall e' :: e' in log && e'.note.Transferred? ==> e'.note.hash != e.note.hash))
  }

  ghost predicate Sound(oracle: Oracle, log: seq<Entry>) {
    log == [] || (Sound(oracle, log[..|log| - 1]) && Follows(oracle, log[..|log| - 1], log[|log| - 1]))
  }

  lemma SoundAppend(oracle: Oracle, log: seq<Entry>, e: Entry)
    requires Sound(oracle, log) && Follows(oracle, log, e)
    ensures Sound(oracle, log + [e])
  {
    assert (log + [e])[..|log|] == log;
  }

  lemma {:induction false} SoundAt(oracle: Oracle, log: seq<Entry>, i: nat)
    requires Sound(oracle, log) && i < |log|
    ensures Follows(oracle, log[..i], log[i])
  {
    if i < |log| - 1 {
      var front := log[..|log| - 1];
      SoundAt(oracle, front, i);
      assert front[..i] == log[..i];
    }
  }

  // ---------- Counting ----------

  ghost function Tids(log: seq<Entry>, p: Note -> bool): set<Tid> {
    set e | e in log && p(e.note) :: e.tid
  }

  lemma {:induction false} TidsAtMostCount(log: seq<Entry>, p: Note -> bool)
    ensures |Tids(log, p)| <= Count(log, p)
  {
    if log != [] {
      var front, e := log[..|log| - 1], log[|log| - 1];
      TidsAtMostCount(front, p);
      assert log == front + [e];
      assert Tids(log, p) == Tids(front, p) + if p(e.note) then {e.tid} else {};
    }
  }

  lemma SoundLast(oracle: Oracle, log: seq<Entry>)
    requires Sound(oracle, log) && log != []
    ensures Sound(oracle, log[..|log| - 1]) && StagesFollow(log[..|log| - 1], log[|log| - 1])
  {
    hide StagesFollow;
  }

  /** A note of one stage comes at most once from each request. */
  lemma {:induction false} TidsAreCount(oracle: Oracle, log: seq<Entry>, p: Note -> bool, stage: nat)
    requires Sound(oracle, log) && stage > 0
    requires forall e :: e in log && p(e.note) ==> Stage(e.note) == stage
    ensures |Tids(log, p)| == Count(log, p)
  {
    hide Sound;
    if log != [] {
      var front, e := log[..|log| - 1], log[|log| - 1];
      assert log == front + [e];
      SoundLast(oracle, log);
      TidsAreCount(oracle, front, p, stage);
      assert Tids(log, p) == Tids(front, p) + if p(e.note) then {e.tid} else {};
      if p(e.note) {
        assert e.tid !in Tids(front, p);
      }
    }
  }

  lemma SubsetSize<T>(a: set<T>, b: set<T>)
    requires a <= b
    ensures |a| <= |b|
  {
    assert b == a + (b - a);
  }

  lemma {:induction false} AttemptsAtMostFive(oracle: Oracle, log: seq<Entry>, hash: Hash)
    requires Sound(oracle, log)
    ensures Attempts(log, hash) <= RECOVERY_MAX_ATTEMPTS
  {
    if log != [] {
      AttemptsAtMostFive(oracle, log[..|log| - 1], hash);
    }
  }

  /** At most one signature check for each counted presentation of the token. */
  lemma ChecksAtMostAttempts(oracle: Oracle, log: seq<Entry>, hash: Hash)
    requires Sound(oracle, log)
    ensures Checks(log, hash) <= Attempts(log, hash) <= RECOVERY_MAX_ATTEMPTS
  {
    var checked := (n: Note) => n.Checked? && n.under == Some(hash);
    var counted := (n: Note) => n == Counted(hash);
    TidsAreCount(oracle, log, checked, 2);
    TidsAtMostCount(log, counted);
    forall tid | tid in Tids(log, checked)
      ensures tid in Tids(log, counted)
    {
      var i :| 0 <= i < |log| && log[i].tid == tid && checked(log[i].note);
      SoundAt(oracle, log, i);
      assert Entry(tid, Counted(hash)) in log[..i];
      assert Entry(tid, Counted(hash)) in log;
    }
    SubsetSize(Tids(log, checked), Tids(log, counted));
    AttemptsAtMostFive(oracle, log, hash);
  }

  // ---------- How the tables and the requests stand to the log ----------

  /** The alias a request found is still the one of that name, or gone for good. */
  predicate Knows(s: System, id: Id, name: string) {
    id in s.used && (id in s.db.aliases ==> s.db.aliases[id].name == name)
  }

  predicate Fits(s: System, body: Body, target: Target) {
    match target
    case ForClaim(c) => body.purpose == CLAIM && body.name == c.name
    case ForAdd(_, id) => body.purpose == ADD_ADDRESS && Knows(s, id, body.name)
    case ForRecovery(_, id, _) => body.purpose == RECOVER && Knows(s, id, body.name)
  }

  predicate UnderCount(s: System, tid: Tid, target: Target) {
    target.ForRecovery? ==> Entry(tid, Counted(Hash(target.complete.token))) in s.log
  }

  ghost predicate HasSpent(s: System, tid: Tid, body: Body) {
    exists e :: e in s.log && e.tid == tid && e.note.Spent? && e.note.body == body
  }

  ghost predicate HasCreated(s: System, body: Body, alias: Option<Id>) {
    exists e :: e in s.log && e.note.Created? && e.note.body == body && e.note.boundTo == alias
  }

  ghost predicate HasAlive(s: System, body: Body, at: int) {
    exists e :: e in s.log && AliveAt(e.note, body, at)
  }

  ghost predicate HasChecked(s: System, tid: Tid, body: Body, at: int) {
    exists e :: e in s.log && CheckedAt(e, tid, body, at)
  }

  /** The challenge is as its note left it, but for being consumed. */
  ghost predicate Noted(s: System, c: Challenge) {
    exists e :: e in s.log && e.note == CreatedAs(c)
  }

  function TargetAlias(target: Target): Option<Id> {
    match target
    case ForClaim(_) => None
    case ForAdd(_, id) => Some(id)
    case ForRecovery(_, id, _) => Some(id)
  }

  /** While `alias` is there, the challenge for `body` was issued for it. */
  ghost predicate IssuedFor(s: System, body: Body, alias: Option<Id>) {
    alias.None? || alias.value in s.db.aliases ==> HasCreated(s, body, alias)
  }

  ghost predicate Backed(oracle: Oracle, s: System, tid: Tid)
    requires tid in s.requests
  {
    match s.requests[tid]
    case ChallengeFor(c, id) => c.purpose != CLAIM && Knows(s, id, c.name)
    case AddOwned(a, id) => Knows(s, id, a.name)
    case RecoverFound(c, id) => Knows(s, id, c.name)
    case TokenLive(c, id) => Knows(s, id, c.name)
    case Spending(body, _, target) => Fits(s, body, target) && UnderCount(s, tid, target)
    case Verified(body, signature, target, checkedAt) =>
      && Fits(s, body, target) && UnderCount(s, tid, target) && IssuedFor(s, body, TargetAlias(target))
      && Verifies(oracle, body, signature) && HasAlive(s, body, checkedAt) && HasChecked(s, tid, body, checkedAt)
    case Consumed(body, target) =>
      && Fits(s, body, target) && UnderCount(s, tid, target) && IssuedFor(s, body, TargetAlias(target))
      && HasSpent(s, tid, body)
    case Placing(body, id, _) =>
      && body.purpose == ADD_ADDRESS && Knows(s, id, body.name) && IssuedFor(s, body, Some(id))
      && HasSpent(s, tid, body)
    case _ => true
  }

  /** The latest stage a request's notes can have. */
  function Reached(pc: Pc): nat {
    match pc
    case Spending(_, _, _) => 1
    case Verified(_, _, _, _) => 2
    case Consumed(_, _) | Placing(_, _, _) => 3
    case Done(_) => 4
    case _ => 0
  }

  ghost predicate RequestsLinked(oracle: Oracle, s: System) {
    && (forall tid :: tid in s.requests ==> Backed(oracle, s, tid))
    && (forall e :: e in s.log ==> e.tid in s.requests && Stage(e.note) <= Reached(s.requests[e.tid]))
  }

  ghost predicate NamesLinked(s: System) {
    && (forall n :: n in s.db.names ==> s.db.names[n] in s.db.aliases && s.db.aliases[s.db.names[n]].name == n)
    && (forall id :: id in s.db.aliases ==> id in s.used && FindByName(s.db, s.db.aliases[id].name) == Some(id))
  }

  /** A challenge for a claim is bound to no alias, any other to the alias of its name: it ends with it. */
  predicate ChallengeBound(db: Db, c: Challenge) {
    match c.alias
    case None => c.body.purpose == CLAIM
    case Some(id) => c.body.purpose != CLAIM && id in db.aliases && db.aliases[id].name == c.body.name
  }

  predicate ChallengesBound(db: Db) {
    forall n :: n in db.challenges ==> ChallengeBound(db, db.challenges[n])
  }

  ghost predicate ChallengesLinked(s: System) {
    && (forall n :: n in s.db.challenges ==>
      n in s.used && s.db.challenges[n].body.nonce == n && Noted(s, s.db.challenges[n]))
    && (forall e :: e in s.log && e.note.Created? ==> e.note.body.nonce in s.used)
    && (forall e :: e in s.log && e.note.Spent? ==> e.note.body.nonce in s.used && !Unconsumed(s.db, e.note.body.nonce))
  }

  ghost predicate RecoveriesLinked(s: System) {
    && (forall h :: h in s.db.recoveries ==> h.token in s.used && s.db.recoveries[h].attempts == Attempts(s.log, h))
    && (forall e :: e in s.log && e.note.Counted? ==> e.note.hash.token in s.used)
    && (forall e :: e in s.log && e.note.Transferred? ==> e.note.hash.token in s.used && !Unspent(s.db, e.note.hash))
  }

  /** `row` was registered under this alias by a noted request, at the address its signature was over. */
  ghost predicate Traced(s: System, id: Id, row: Row)
    requires id in s.db.aliases
  {
    exists e ::
      e in s.log && Makes(e.note).Some?
      && Makes(e.note).value.0 == row.id && Makes(e.note).value.1 == id
      && IsRowOf(row, Makes(e.note).value.2) && Makes(e.note).value.2.name == s.db.aliases[id].name
  }

  ghost predicate RowsLinked(s: System) {
    && (forall id, row :: id in s.db.aliases && row in s.db.aliases[id].rows ==> Traced(s, id, row))
    && (forall e :: e in s.log && Makes(e.note).Some? ==> Makes(e.note).value.0 in s.used)
  }

  ghost predicate Inv(oracle: Oracle, s: System) {
    && Sound(oracle, s.log)
    && RequestsLinked(oracle, s)
    && NamesLinked(s)
    && ChallengesLinked(s)
    && ChallengesBound(s.db)
    && RecoveriesLinked(s)
    && RowsLinked(s)
  }
}
