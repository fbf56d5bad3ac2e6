/**
 * The sweeper is invisible. A run with sweeps and the same run without them give
 * every request the same answer, as long as no request waits longer than the
 * sweeper's grace between an expiry check and the write that relies on it.
 */
module AliasSweep {
  import opened Common
  import opened AliasSigning
  import opened AliasTables
  import opened AliasProtocol
  import opened AliasSteps
  import opened AliasHistory
  import opened AliasSafety

  // ---------- How far apart the two systems may be ----------

  /** The swept tables lack only rows that expired longer than the grace ago. */
  ghost predicate SweptFrom(full: Db, swept: Db, now: int) {
    && swept.aliases == full.aliases && swept.names == full.names
    && (forall n :: n in swept.challenges ==> n in full.challenges && swept.challenges[n] == full.challenges[n])
    && (forall n :: n in full.challenges && n !in swept.challenges ==> ChallengeIsDead(full.challenges[n], now))
    && (forall h :: h in swept.recoveries ==> h in full.recoveries && swept.recoveries[h] == full.recoveries[h])
    && (forall h :: h in full.recoveries && h !in swept.recoveries ==> RecoveryIsDead(full.recoveries[h], now))
  }

  /** About to be told its challenge is invalid. */
  predicate Doomed(full: System, pc: Pc) {
    pc.Spending? && pc.body.nonce in full.used
    && (pc.body.nonce in full.db.challenges ==> ChallengeIsDead(full.db.challenges[pc.body.nonce], full.clock))
  }

  /** The same program point, or the swept system gave one statement earlier the answer the other is about to give. */
  predicate SamePoint(full: System, fullPc: Pc, sweptPc: Pc) {
    fullPc == sweptPc || (Doomed(full, fullPc) && sweptPc == Done(Failed(ChallengeInvalid)))
  }

  ghost predicate Similar(full: System, swept: System) {
    && swept.clock == full.clock && swept.used == full.used && swept.log == full.log
    && SweptFrom(full.db, swept.db, full.clock)
    && swept.requests.Keys == full.requests.Keys
    && (forall tid :: tid in full.requests ==> SamePoint(full, full.requests[tid], swept.requests[tid]))
  }

  // ---------- Timeliness ----------

  predicate TargetTimely(target: Target, now: int) {
    target.ForRecovery? ==> now - target.checkedAt <= SWEEP_GRACE_MS
  }

  /** No request has waited longer than the grace since the expiry checks its next writes rely on. */
  predicate PcTimely(pc: Pc, now: int) {
    match pc
    case Verified(_, _, target, checkedAt) => now - checkedAt <= SWEEP_GRACE_MS && TargetTimely(target, now)
    case Consumed(_, target) => TargetTimely(target, now)
    case _ => true
  }

  ghost predicate Timely(oracle: Oracle, s: System, es: seq<Event>)
    requires Valid(oracle, s, es)
    decreases |es|
  {
    && (forall tid :: tid in s.requests ==> PcTimely(s.requests[tid], s.clock))
    && (es == [] || Timely(oracle, Apply(oracle, s, es[0]), es[1..]))
  }

  ghost predicate TargetStamped(db: Db, target: Target) {
    target.ForRecovery? && Hash(target.complete.token) in db.recoveries ==>
      target.checkedAt < db.recoveries[Hash(target.complete.token)].expiresAt
  }

  ghost predicate Stamped(db: Db, pc: Pc) {
    match pc
    case Spending(_, _, target) => TargetStamped(db, target)
    case Verified(body, _, target, checkedAt) =>
      (body.nonce in db.challenges ==> checkedAt < db.challenges[body.nonce].expiresAt) && TargetStamped(db, target)
    case Consumed(_, target) => TargetStamped(db, target)
    case _ => true
  }

  /** The stamps say what the checks saw, and every recovery lives for its thirty minutes. */
  ghost predicate StampInv(s: System) {
    && (forall tid :: tid in s.requests ==> Stamped(s.db, s.requests[tid]))
    && FullLives(s.db)
  }

  /** A nonce or token the request refers to, and what the tables say of it, outlast other requests' steps. */
  lemma StampKept(db: Db, out: Out, rnd: string, pc: Pc)
    requires ChallengesFollow(db, out, rnd) && RecoveriesFollow(db, out, rnd) && Unused(db, rnd)
    requires Stamped(db, pc)
    requires pc.Verified? ==> pc.body.nonce != rnd
    requires (pc.Spending? || pc.Verified? || pc.Consumed?) && pc.target.ForRecovery? ==> pc.target.complete.token != rnd
    ensures Stamped(out.db, pc)
  {
    hide Unconsumed;
  }

  lemma RefersToUsed(oracle: Oracle, s: System, tid: Tid)
    requires tid in s.requests && Backed(oracle, s, tid) && ChallengesLinked(s) && RecoveriesLinked(s)
    ensures var pc := s.requests[tid];
            && (pc.Verified? ==> pc.body.nonce in s.used)
            && ((pc.Spending? || pc.Verified? || pc.Consumed?) && pc.target.ForRecovery? ==> pc.target.complete.token in s.used)
  {
    hide Fits, HasSpent, Verifies, Unconsumed, Unspent, Attempts;
  }

  lemma StampSet(oracle: Oracle, s: System, tid: Tid, rnd: string)
    requires Enabled(s, Run(tid, rnd)) && Stamped(s.db, s.requests[tid])
    ensures var out := Step(oracle, s.db, s.clock, rnd, s.requests[tid]); Stamped(out.db, out.pc)
  {
    hide InsertChallenge, InsertAlias, DeleteAlias, PlaceRow, RemoveRow, BurnRecoveries, InsertRecovery, TakeOver,
      CountHeld, CountGroup, IndexOfRow, RecentlyMailed, Unconsumed;
  }

  /** A recovery lives for its thirty minutes. */
  ghost predicate FullLives(db: Db) {
    forall h :: h in db.recoveries ==> db.recoveries[h].expiresAt == db.recoveries[h].createdAt + RECOVERY_TTL_MS
  }

  lemma LivesKept(db: Db, out: Out, rnd: string)
    requires RecoveriesFollow(db, out, rnd) && Unused(db, rnd) && FullLives(db)
    ensures FullLives(out.db)
  {
  }

  lemma RunKeepsStamps(oracle: Oracle, s: System, tid: Tid, rnd: string)
    requires Inv(oracle, s) && Enabled(s, Run(tid, rnd)) && StampInv(s)
    ensures StampInv(Apply(oracle, s, Run(tid, rnd)))
  {
    hide Step, Stamped, ChallengesFollow, RecoveriesFollow, AliasesFollow, FullLives, Backed;
    var out := Step(oracle, s.db, s.clock, rnd, s.requests[tid]);
    RunFollowsTables(oracle, s, tid, rnd);
    StampSet(oracle, s, tid, rnd);
    LivesKept(s.db, out, rnd);
    forall t | t in s.requests && t != tid
      ensures Stamped(out.db, s.requests[t])
    {
      RefersToUsed(oracle, s, t);
      StampKept(s.db, out, rnd, s.requests[t]);
    }
  }

  // ---------- One step of both ----------

  lemma MailedAlike(full: Db, swept: Db, now: int, alias: Id)
    requires SweptFrom(full, swept, now)
    requires FullLives(full)
    ensures RecentlyMailed(full, alias, now) == RecentlyMailed(swept, alias, now)
  {
    if RecentlyMailed(full, alias, now) {
      var h :| h in full.recoveries && full.recoveries[h].alias == alias && now - RECOVERY_RESEND_MS < full.recoveries[h].createdAt;
      assert h in swept.recoveries;
    }
  }

  /** Both steps leave the databases as close, with the same note and program point. */
  ghost predicate Alike(now: int, out: Out, out': Out) {
    out.note == out'.note && out.pc == out'.pc && SweptFrom(out.db, out'.db, now)
  }

  lemma OpenAlike(full: Db, swept: Db, now: int, rnd: string, c: NewChallenge, alias: Option<Id>)
    requires SweptFrom(full, swept, now)
    ensures Alike(now, Open(c, alias, full, now, rnd), Open(c, alias, swept, now, rnd))
  {
  }

  lemma SweptAliases(full: Db, swept: Db, now: int)
    requires SweptFrom(full, swept, now)
    ensures swept.aliases == full.aliases && swept.names == full.names
  {
  }

  lemma BeginAlike(full: Db, swept: Db, now: int, rnd: string, request: Request)
    requires SweptFrom(full, swept, now)
    ensures Alike(now, BeginStep(request, full, now, rnd), BeginStep(request, swept, now, rnd))
  {
    hide Open, SweptFrom;
    SweptAliases(full, swept, now);
    match request {
      case ToChallenge(c) => OpenAlike(full, swept, now, rnd, c, None);
      case ToClaim(c) =>
        assert CountHeld(full, c.consumer) == CountHeld(swept, c.consumer);
      case _ =>
    }
  }

  lemma RegisterAlike(full: Db, swept: Db, now: int, rnd: string, body: Body, target: Target)
    requires SweptFrom(full, swept, now)
    requires TargetStamped(full, target) && TargetTimely(target, now)
    ensures Alike(now, RegisterStep(body, target, full, rnd), RegisterStep(body, target, swept, rnd))
  {
    hide CountGroup, InsertedRow, SweptFrom, TakeOver, InsertAlias;
    SweptAliases(full, swept, now);
    match target {
      case ForClaim(c) =>
        ClaimedAlike(full, swept, now, rnd, Alias(c.consumer, c.name, c.email, ACTIVE, [InsertedRow(body, rnd, true)]));
      case ForAdd(_, _) =>
      case ForRecovery(c, id, _) =>
        RecoveryStays(full, swept, now, target);
        TransferAlike(full, swept, now, Hash(c.token), id, c.consumer, InsertedRow(body, rnd, true));
    }
  }

  lemma RecoveryStays(full: Db, swept: Db, now: int, target: Target)
    requires SweptFrom(full, swept, now) && target.ForRecovery?
    requires TargetStamped(full, target) && TargetTimely(target, now)
    ensures Hash(target.complete.token) in full.recoveries ==> Hash(target.complete.token) in swept.recoveries
  {
  }

  lemma ClaimedAlike(full: Db, swept: Db, now: int, id: Id, alias: Alias)
    requires SweptFrom(full, swept, now)
    ensures InsertAlias(full, id, alias).Some? == InsertAlias(swept, id, alias).Some?
    ensures InsertAlias(full, id, alias).Some? ==>
      SweptFrom(InsertAlias(full, id, alias).value, InsertAlias(swept, id, alias).value, now)
  {
  }

  lemma TransferAlike(full: Db, swept: Db, now: int, hash: Hash, id: Id, consumer: Id, row: Row)
    requires SweptFrom(full, swept, now) && (hash in full.recoveries ==> hash in swept.recoveries)
    ensures TakeOver(full, hash, id, consumer, row).Some? == TakeOver(swept, hash, id, consumer, row).Some?
    ensures TakeOver(full, hash, id, consumer, row).Some? ==>
      SweptFrom(TakeOver(full, hash, id, consumer, row).value, TakeOver(swept, hash, id, consumer, row).value, now)
  {
  }

  lemma DeleteAlike(full: Db, swept: Db, now: int, id: Id)
    requires SweptFrom(full, swept, now)
    ensures DeleteAlias(full, id).Some? == DeleteAlias(swept, id).Some?
    ensures DeleteAlias(full, id).Some? ==> SweptFrom(DeleteAlias(full, id).value, DeleteAlias(swept, id).value, now)
  {
  }

  lemma BurnAlike(full: Db, swept: Db, now: int, id: Id)
    requires SweptFrom(full, swept, now)
    ensures SweptFrom(BurnRecoveries(full, id), BurnRecoveries(swept, id), now)
  {
  }

  lemma SpendAlike(full: Db, swept: Db, now: int, body: Body, checkedAt: int)
    requires SweptFrom(full, swept, now) && now - checkedAt <= SWEEP_GRACE_MS
    requires body.nonce in full.challenges ==> checkedAt < full.challenges[body.nonce].expiresAt
    ensures Unconsumed(full, body.nonce) == Unconsumed(swept, body.nonce)
    ensures SweptFrom(ConsumeChallenge(full, body.nonce), ConsumeChallenge(swept, body.nonce), now)
  {
    if body.nonce in full.challenges {
      assert body.nonce in swept.challenges;
    }
  }

  lemma ReadAlike(oracle: Oracle, full: Db, swept: Db, now: int, rnd: string, pc: Pc)
    requires SweptFrom(full, swept, now)
    requires match pc
      case ClaimAllowed(c) => c.nonce in full.challenges ==> c.nonce in swept.challenges
      case AddOwned(_, _) | RemoveOwned(_, _) | RowFound(_, _) | RecoverFound(_, _) | Spending(_, _, _) | Done(_) => true
      case _ => false
    ensures Alike(now, Step(oracle, full, now, rnd, pc), Step(oracle, swept, now, rnd, pc))
  {
    hide IndexOfRow, Verifies;
  }

  lemma CountAlike(oracle: Oracle, full: Db, swept: Db, now: int, rnd: string, pc: Pc)
    requires SweptFrom(full, swept, now) && (pc.TokenLive? || pc.StartBurned?)
    ensures Alike(now, Step(oracle, full, now, rnd, pc), Step(oracle, swept, now, rnd, pc))
  {
    hide CountStep, TokenStep, SweptFrom;
    if pc.TokenLive? {
      AttemptAlike(full, swept, now, pc.complete, pc.alias);
    } else {
      TokenAlike(full, swept, now, rnd, pc.start, pc.alias);
    }
  }

  lemma AttemptAlike(full: Db, swept: Db, now: int, c: Complete, id: Id)
    requires SweptFrom(full, swept, now)
    ensures Alike(now, CountStep(c, id, full, now), CountStep(c, id, swept, now))
  {
  }

  lemma TokenAlike(full: Db, swept: Db, now: int, rnd: string, s: Start, id: Id)
    requires SweptFrom(full, swept, now)
    ensures Alike(now, TokenStep(s, id, full, now, rnd), TokenStep(s, id, swept, now, rnd))
  {
  }

  lemma RowsAlike(oracle: Oracle, full: Db, swept: Db, now: int, rnd: string, pc: Pc)
    requires SweptFrom(full, swept, now) && (pc.Placing? || pc.RemoveAllowed?)
    ensures Alike(now, Step(oracle, full, now, rnd, pc), Step(oracle, swept, now, rnd, pc))
  {
    hide PlaceRow, RemoveRow;
  }

  /** Every step but a claim's first look at a swept challenge goes alike. */
  lemma StepsAlike(oracle: Oracle, full: Db, swept: Db, now: int, rnd: string, pc: Pc)
    requires SweptFrom(full, swept, now) && Stamped(full, pc) && PcTimely(pc, now)
    requires FullLives(full)
    requires pc.ClaimAllowed? && pc.claim.nonce in full.challenges ==> pc.claim.nonce in swept.challenges
    ensures Alike(now, Step(oracle, full, now, rnd, pc), Step(oracle, swept, now, rnd, pc))
  {
    hide SweptFrom, Open, BeginStep, ClaimStep, AddStep, FindRowStep, CountRowsStep, RemoveStep, PlaceStep, TokenStep,
      LookUpStep, CountStep, CheckStep, RegisterStep, BurnRecoveries, DeleteAlias, RecentlyMailed, Unconsumed,
      ConsumeChallenge, TargetStamped, TargetTimely, FullLives;
    SweptAliases(full, swept, now);
    match pc {
      case Begin(request) => BeginAlike(full, swept, now, rnd, request);
      case ChallengeFor(c, id) => OpenAlike(full, swept, now, rnd, c, Some(id));
      case Placing(_, _, _) => RowsAlike(oracle, full, swept, now, rnd, pc);
      case RemoveAllowed(_, _) => RowsAlike(oracle, full, swept, now, rnd, pc);
      case TokenLive(_, _) => CountAlike(oracle, full, swept, now, rnd, pc);
      case StartBurned(_, _) => CountAlike(oracle, full, swept, now, rnd, pc);
      case StartFound(_, id) => MailedAlike(full, swept, now, id);
      case StartQuiet(_, id) => BurnAlike(full, swept, now, id);
      case ReleaseOwned(id) => DeleteAlike(full, swept, now, id);
      case Consumed(body, target) => RegisterAlike(full, swept, now, rnd, body, target);
      case Verified(body, _, _, checkedAt) => SpendAlike(full, swept, now, body, checkedAt);
      case _ => ReadAlike(oracle, full, swept, now, rnd, pc);
    }
  }

  /** A claim whose nonce was swept hears at once what the other will hear from its next statement. */
  lemma ClaimDoomed(oracle: Oracle, full: System, swept: System, tid: Tid, rnd: string)
    requires ChallengesLinked(full) && Similar(full, swept) && Enabled(full, Run(tid, rnd))
    requires full.requests[tid].ClaimAllowed?
    requires full.requests[tid].claim.nonce in full.db.challenges && full.requests[tid].claim.nonce !in swept.db.challenges
    ensures var out := Step(oracle, full.db, full.clock, rnd, full.requests[tid]);
            && out.db == full.db && out.note == Quiet && Doomed(After(full, tid, rnd, out), out.pc)
            && Step(oracle, swept.db, full.clock, rnd, full.requests[tid]) == Fail(swept.db, ChallengeInvalid)
  {
  }

  // ---------- Whole runs ----------

  function Unswept(es: seq<Event>): seq<Event> {
    if es == [] then [] else (if es[0].Sweep? then [] else [es[0]]) + Unswept(es[1..])
  }

  lemma DoomStays(oracle: Oracle, full: System, tid: Tid, rnd: string, pc: Pc)
    requires Inv(oracle, full) && Enabled(full, Run(tid, rnd)) && Doomed(full, pc)
    ensures Doomed(Apply(oracle, full, Run(tid, rnd)), pc)
  {
    hide Step, Unconsumed, RecoveriesFollow, AliasesFollow, RequestsLinked, NamesLinked, RecoveriesLinked, RowsLinked, Sound;
    RunFollowsTables(oracle, full, tid, rnd);
  }

  /** One step of the request both systems are about to run. */
  ghost predicate StepsSimilar(full: System, tid: Tid, rnd: string, now: int, out: Out, out': Out) {
    SweptFrom(out.db, out'.db, now) && out.note == out'.note && SamePoint(After(full, tid, rnd, out), out.pc, out'.pc)
  }

  lemma DoomedHears(oracle: Oracle, full: System, rnd: string, pc: Pc)
    requires Doomed(full, pc)
    ensures Step(oracle, full.db, full.clock, rnd, pc) == Fail(full.db, ChallengeInvalid)
  {
  }

  lemma RunStepsSimilar(oracle: Oracle, full: System, swept: System, tid: Tid, rnd: string)
    requires ChallengesLinked(full) && StampInv(full) && Similar(full, swept) && Enabled(full, Run(tid, rnd))
    requires tid in swept.requests && PcTimely(swept.requests[tid], full.clock)
    ensures StepsSimilar(full, tid, rnd, full.clock,
              Step(oracle, full.db, full.clock, rnd, full.requests[tid]),
              Step(oracle, swept.db, full.clock, rnd, swept.requests[tid]))
  {
    hide Step, SweptFrom, Doomed, Stamped, PcTimely, FullLives;
    var pc := full.requests[tid];
    assert SamePoint(full, pc, swept.requests[tid]);
    if pc != swept.requests[tid] {
      DoomedHears(oracle, full, rnd, pc);
      DoneStays(oracle, swept.db, full.clock, rnd, swept.requests[tid]);
    } else if pc.ClaimAllowed? && pc.claim.nonce in full.db.challenges && pc.claim.nonce !in swept.db.challenges {
      ClaimDoomed(oracle, full, swept, tid, rnd);
    } else {
      StepsAlike(oracle, full.db, swept.db, full.clock, rnd, pc);
    }
  }

  lemma DoneStays(oracle: Oracle, db: Db, now: int, rnd: string, pc: Pc)
    requires pc.Done?
    ensures Step(oracle, db, now, rnd, pc) == Out(db, pc, Quiet)
  {
  }

  lemma RunKeepsSimilar(oracle: Oracle, full: System, swept: System, tid: Tid, rnd: string)
    requires Inv(oracle, full) && StampInv(full) && Similar(full, swept) && Enabled(swept, Run(tid, rnd))
    requires PcTimely(swept.requests[tid], swept.clock)
    ensures Enabled(full, Run(tid, rnd))
    ensures Similar(Apply(oracle, full, Run(tid, rnd)), Apply(oracle, swept, Run(tid, rnd)))
  {
    hide Step, SweptFrom, Doomed, Stamped, PcTimely, StampInv, RequestsLinked, NamesLinked, ChallengesLinked,
      RecoveriesLinked, RowsLinked, Sound;
    var full', swept' := Apply(oracle, full, Run(tid, rnd)), Apply(oracle, swept, Run(tid, rnd));
    RunStepsSimilar(oracle, full, swept, tid, rnd);
    assert full' == After(full, tid, rnd, Step(oracle, full.db, full.clock, rnd, full.requests[tid]));
    forall t | t in full.requests && t != tid
      ensures SamePoint(full', full.requests[t], swept.requests[t])
    {
      if full.requests[t] != swept.requests[t] {
        DoomStays(oracle, full, tid, rnd, full.requests[t]);
      }
    }
  }

  lemma SweptLater(full: Db, swept: Db, now: int, now': int)
    requires SweptFrom(full, swept, now) && now <= now'
    ensures SweptFrom(full, swept, now')
  {
  }

  lemma OtherKeepsSimilar(oracle: Oracle, full: System, swept: System, e: Event)
    requires Similar(full, swept) && Enabled(swept, e) && !e.Run? && !e.Sweep?
    ensures Enabled(full, e) && Similar(Apply(oracle, full, e), Apply(oracle, swept, e))
  {
    if e.Tick? {
      hide SweptFrom;
      SweptLater(full.db, swept.db, full.clock, e.to);
    }
  }

  lemma OtherKeepsStamps(oracle: Oracle, s: System, e: Event)
    requires StampInv(s) && Enabled(s, e) && !e.Run? && !e.Sweep?
    ensures StampInv(Apply(oracle, s, e))
  {
  }

  lemma SweepKeepsSimilar(oracle: Oracle, full: System, swept: System, e: Event)
    requires Similar(full, swept) && Enabled(swept, e) && e.Sweep?
    ensures Similar(full, Apply(oracle, swept, e))
  {
  }

  lemma {:induction false} SweepsKeepSimilar(oracle: Oracle, full: System, swept: System, es: seq<Event>)
    requires Inv(oracle, full) && StampInv(full) && Similar(full, swept)
    requires Valid(oracle, swept, es) && Timely(oracle, swept, es)
    ensures Valid(oracle, full, Unswept(es))
    ensures Similar(Exec(oracle, full, Unswept(es)), Exec(oracle, swept, es))
    decreases |es|
  {
    hide Inv, StampInv, SweptFrom, Apply, SamePoint, PcTimely;
    if es != [] {
      var e := es[0];
      var swept' := Apply(oracle, swept, e);
      if e.Sweep? {
        SweepKeepsSimilar(oracle, full, swept, e);
        SweepsKeepSimilar(oracle, full, swept', es[1..]);
        assert Unswept(es) == Unswept(es[1..]);
      } else {
        if e.Run? {
          RunKeepsSimilar(oracle, full, swept, e.tid, e.rnd);
          RunKeepsStamps(oracle, full, e.tid, e.rnd);
        } else {
          OtherKeepsSimilar(oracle, full, swept, e);
          OtherKeepsStamps(oracle, full, e);
        }
        StepKeepsInv(oracle, full, e);
        SweepsKeepSimilar(oracle, Apply(oracle, full, e), swept', es[1..]);
        assert Unswept(es)[0] == e && Unswept(es)[1..] == Unswept(es[1..]);
      }
    }
  }

  /**
   * Sweeps, anywhere in any timely run, change no answer: a request answered
   * without them is answered the same with them, and one answered only with them
   * is told by its next statement without them exactly what it was told.
   */
  lemma SweepsAreInvisible(oracle: Oracle, es: seq<Event>, tid: Tid, rnd: string)
    requires Valid(oracle, START, es) && Timely(oracle, START, es)
    ensures Valid(oracle, START, Unswept(es))
    ensures var full, swept := Exec(oracle, START, Unswept(es)), Exec(oracle, START, es);
            && swept.db.aliases == full.db.aliases && swept.log == full.log
            && swept.requests.Keys == full.requests.Keys
            && (tid in full.requests && full.requests[tid].Done? ==> swept.requests[tid] == full.requests[tid])
            && (tid in swept.requests && swept.requests[tid].Done? ==>
                  Step(oracle, full.db, full.clock, rnd, full.requests[tid]) == Out(full.db, swept.requests[tid], Quiet))
  {
    SweepsKeepSimilar(oracle, START, START, es);
    var full, swept := Exec(oracle, START, Unswept(es)), Exec(oracle, START, es);
    if tid in full.requests {
      SameAnswer(oracle, full, swept, tid, rnd);
    }
  }

  lemma SameAnswer(oracle: Oracle, full: System, swept: System, tid: Tid, rnd: string)
    requires Similar(full, swept) && tid in full.requests
    ensures full.requests[tid].Done? ==> swept.requests[tid] == full.requests[tid]
    ensures swept.requests[tid].Done? ==>
      Step(oracle, full.db, full.clock, rnd, full.requests[tid]) == Out(full.db, swept.requests[tid], Quiet)
  {
    assert SamePoint(full, full.requests[tid], swept.requests[tid]);
  }

  // ---------- When runs are timely ----------

  /** The clock moves only between requests. */
  ghost predicate Atomic(oracle: Oracle, s: System, es: seq<Event>)
    requires Valid(oracle, s, es)
    decreases |es|
  {
    es == []
    || ((es[0].Tick? ==> forall tid :: tid in s.requests ==> s.requests[tid].Done?)
        && Atomic(oracle, Apply(oracle, s, es[0]), es[1..]))
  }

  predicate Fresh(pc: Pc, now: int) {
    match pc
    case Spending(_, _, target) => target.ForRecovery? ==> target.checkedAt == now
    case Verified(_, _, target, checkedAt) => checkedAt == now && (target.ForRecovery? ==> target.checkedAt == now)
    case Consumed(_, target) => target.ForRecovery? ==> target.checkedAt == now
    case _ => true
  }

  lemma FreshAfter(oracle: Oracle, db: Db, now: int, rnd: string, pc: Pc)
    requires Fresh(pc, now)
    ensures Fresh(Step(oracle, db, now, rnd, pc).pc, now)
  {
    hide InsertChallenge, InsertAlias, DeleteAlias, PlaceRow, RemoveRow, BurnRecoveries, InsertRecovery, CountAttempt,
      ConsumeChallenge, TakeOver, CountHeld, CountGroup, IndexOfRow, RecentlyMailed, Spendable, Live, Countable, Unconsumed;
  }

  lemma FreshIsTimely(pc: Pc, now: int)
    requires Fresh(pc, now)
    ensures PcTimely(pc, now)
  {
  }

  lemma {:induction false} AtomicRunsAreTimely(oracle: Oracle, s: System, es: seq<Event>)
    requires Valid(oracle, s, es) && Atomic(oracle, s, es)
    requires forall tid :: tid in s.requests ==> Fresh(s.requests[tid], s.clock)
    ensures Timely(oracle, s, es)
    decreases |es|
  {
    hide Step, PcTimely;
    forall tid | tid in s.requests
      ensures PcTimely(s.requests[tid], s.clock)
    {
      FreshIsTimely(s.requests[tid], s.clock);
    }
    if es != [] {
      if es[0].Run? {
        FreshAfter(oracle, s.db, s.clock, es[0].rnd, s.requests[es[0].tid]);
      }
      AtomicRunsAreTimely(oracle, Apply(oracle, s, es[0]), es[1..]);
    }
  }

  /**
   * The grace is what makes it true: a request that outwaits it between its check
   * and its write can have its challenge swept from under it, and is then refused.
   */
  lemma UntimelyRequestSeesTheSweep(oracle: Oracle, s: System, tid: Tid, rnd: string)
    requires Enabled(s, Run(tid, rnd)) && s.requests[tid].Verified?
    requires Unconsumed(s.db, s.requests[tid].body.nonce)
    ensures var nonce := s.requests[tid].body.nonce;
            var sweep := Sweep({nonce}, {});
            && Apply(oracle, s, Run(tid, rnd)).requests[tid].Consumed?
            && (Enabled(s, sweep) <==> ChallengeIsDead(s.db.challenges[nonce], s.clock))
            && (Enabled(s, sweep) ==>
                  Apply(oracle, Apply(oracle, s, sweep), Run(tid, rnd)).requests[tid] == Done(Failed(ChallengeInvalid)))
  {
  }

  /** The same for the other half: a recovery that outwaits the grace between its count and its transfer. */
  lemma UntimelyRecoverySeesTheSweep(oracle: Oracle, s: System, tid: Tid, rnd: string)
    requires Enabled(s, Run(tid, rnd)) && s.requests[tid].Consumed? && s.requests[tid].target.ForRecovery?
    requires Apply(oracle, s, Run(tid, rnd)).requests[tid] != Done(Failed(RecoveryInvalid))
    ensures var hash := Hash(s.requests[tid].target.complete.token);
            var sweep := Sweep({}, {hash});
            && hash in s.db.recoveries
            && (Enabled(s, sweep) <==> RecoveryIsDead(s.db.recoveries[hash], s.clock))
            && (Enabled(s, sweep) ==>
                  Apply(oracle, Apply(oracle, s, sweep), Run(tid, rnd)).requests[tid] == Done(Failed(RecoveryInvalid)))
  {
  }
}
