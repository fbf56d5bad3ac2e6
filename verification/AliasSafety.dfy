/** The invariant holds in every run, and what it says about each promise of the service. */
module AliasSafety {
  import opened Common
  import opened AliasSigning
  import opened AliasTables
  import opened AliasProtocol
  import opened AliasSteps
  import opened AliasHistory

  // ---------- Each event keeps the invariant ----------

  lemma StepStage(oracle: Oracle, db: Db, now: int, rnd: string, pc: Pc)
    ensures var out := Step(oracle, db, now, rnd, pc);
            Reached(pc) <= Reached(out.pc)
            && (Stage(out.note) > 0 ==> Reached(pc) < Stage(out.note) <= Reached(out.pc))
  {
    hide InsertChallenge, InsertAlias, DeleteAlias, PlaceRow, RemoveRow, BurnRecoveries, InsertRecovery, CountAttempt,
      ConsumeChallenge, TakeOver, CountHeld, CountGroup, IndexOfRow, RecentlyMailed;
  }

  /** What each kind of note says about the step that left it. */
  predicate NoteSays(db: Db, pc: Pc, note: Note, rnd: string) {
    match note
    case Checked(body, under, _) => pc.Spending? && body == pc.body && under == HashOf(pc.target)
    case Spent(body, signature, checkedAt) =>
      pc.Verified? && body == pc.body && signature == pc.signature && checkedAt == pc.checkedAt
    case Registered(rowId, alias, body) =>
      rowId == rnd
      && ((pc.Consumed? && pc.target.ForClaim? && alias == rnd && body == pc.body)
          || (pc.Placing? && alias == pc.alias && alias in db.aliases && body == pc.body))
    case Transferred(hash, rowId, alias, consumer, body) =>
      rowId == rnd && pc.Consumed? && pc.target.ForRecovery? && Some(hash) == HashOf(pc.target)
      && alias == pc.target.alias && alias in db.aliases && body == pc.body
    case _ => true
  }

  lemma StepNoteSays(oracle: Oracle, db: Db, now: int, rnd: string, pc: Pc)
    ensures NoteSays(db, pc, Step(oracle, db, now, rnd, pc).note, rnd)
  {
    hide InsertChallenge, InsertAlias, DeleteAlias, PlaceRow, RemoveRow, BurnRecoveries, InsertRecovery, CountAttempt,
      ConsumeChallenge, Unspent, CountHeld, CountGroup, IndexOfRow, RecentlyMailed, Spendable, Live, Countable;
  }

  lemma StepNote(oracle: Oracle, s: System, tid: Tid, rnd: string)
    requires RequestsLinked(oracle, s) && Enabled(s, Run(tid, rnd))
    ensures var note := Step(oracle, s.db, s.clock, rnd, s.requests[tid]).note;
            && (note.Checked? && note.under.Some? ==> Entry(tid, Counted(note.under.value)) in s.log)
            && (note.Spent? ==>
                  && Verifies(oracle, note.body, note.signature)
                  && HasAlive(s, note.body, note.checkedAt) && HasChecked(s, tid, note.body, note.checkedAt))
            && (Makes(note).Some? ==>
                  HasSpent(s, tid, Makes(note).value.2) && Makes(note).value.0 == rnd
                  && HasCreated(s, Makes(note).value.2, BoundFor(Makes(note).value.2, Makes(note).value.1)))
            && (note.Registered? ==> note.body.purpose != RECOVER)
            && (note.Transferred? ==> note.body.purpose == RECOVER && Entry(tid, Counted(note.hash)) in s.log)
  {
    hide Step, HasSpent, HasCreated, HasAlive, HasChecked, Verifies;
    StepNoteSays(oracle, s.db, s.clock, rnd, s.requests[tid]);
    assert Backed(oracle, s, tid);
  }

  /** A signature is checked only against a challenge that was issued and is alive. */
  lemma CheckIsAlive(oracle: Oracle, s: System, tid: Tid, rnd: string)
    requires ChallengesLinked(s) && Enabled(s, Run(tid, rnd))
    ensures var note := Step(oracle, s.db, s.clock, rnd, s.requests[tid]).note;
            note.Checked? ==> HasAlive(s, note.body, note.at)
  {
    hide Step, HasAlive, HasCreated, Noted, Verifies;
    var pc := s.requests[tid];
    StepNoteSays(oracle, s.db, s.clock, rnd, pc);
    if Step(oracle, s.db, s.clock, rnd, pc).note.Checked? {
      CheckReads(oracle, s.db, s.clock, rnd, pc);
      var c := s.db.challenges[pc.body.nonce];
      assert Noted(s, c);
      NotedIsCreated(s, c, s.clock);
    }
  }

  lemma CheckReads(oracle: Oracle, db: Db, now: int, rnd: string, pc: Pc)
    requires pc.Spending? && Step(oracle, db, now, rnd, pc).note.Checked?
    ensures Spendable(db, pc.body, now) && Step(oracle, db, now, rnd, pc).note == Checked(pc.body, HashOf(pc.target), now)
  {
    hide Spendable, Verifies;
  }

  lemma RunFollowsTables(oracle: Oracle, s: System, tid: Tid, rnd: string)
    requires Inv(oracle, s) && Enabled(s, Run(tid, rnd))
    ensures StepFollows(s.db, Step(oracle, s.db, s.clock, rnd, s.requests[tid]), rnd)
  {
    hide Step, StepFollows;
    assert Backed(oracle, s, tid);
    AnyStepFollows(oracle, s.db, s.clock, rnd, s.requests[tid]);
  }

  lemma RunFollows(oracle: Oracle, s: System, tid: Tid, rnd: string)
    requires Inv(oracle, s) && Enabled(s, Run(tid, rnd))
    ensures Follows(oracle, s.log, Entry(tid, Step(oracle, s.db, s.clock, rnd, s.requests[tid]).note))
  {
    hide Step, AliasesFollow;
    CheckIsAlive(oracle, s, tid, rnd);
    StepStage(oracle, s.db, s.clock, rnd, s.requests[tid]);
    StepNote(oracle, s, tid, rnd);
    RunFollowsTables(oracle, s, tid, rnd);
  }

  /** What a run or any other event leaves in place for the requests it does not move. */
  ghost predicate Extends(s: System, s': System) {
    && s.used <= s'.used
    && (forall e :: e in s.log ==> e in s'.log)
    && (forall id :: id in s'.db.aliases && id in s.used ==>
      id in s.db.aliases && s'.db.aliases[id].name == s.db.aliases[id].name)
  }

  lemma BackedKept(oracle: Oracle, s: System, s': System, tid: Tid)
    requires Extends(s, s') && tid in s.requests && tid in s'.requests && s'.requests[tid] == s.requests[tid]
    requires Backed(oracle, s, tid)
    ensures Backed(oracle, s', tid)
  {
    hide Verifies;
  }

  lemma RunExtends(oracle: Oracle, s: System, tid: Tid, rnd: string)
    requires Inv(oracle, s) && Enabled(s, Run(tid, rnd))
    ensures Extends(s, Apply(oracle, s, Run(tid, rnd)))
  {
    hide Step, ChallengesFollow, RecoveriesFollow;
    RunFollowsTables(oracle, s, tid, rnd);
  }

  /** The system after request `tid` took the step `out`. */
  function After(s: System, tid: Tid, rnd: string, out: Out): System {
    System(out.db, s.clock, s.requests[tid := out.pc], s.used + {rnd}, s.log + [Entry(tid, out.note)])
  }

  lemma FitsKept(s: System, s': System, tid: Tid, body: Body, target: Target)
    requires Extends(s, s') && Fits(s, body, target) && UnderCount(s, tid, target)
    ensures Fits(s', body, target) && UnderCount(s', tid, target)
  {
  }

  lemma BeginBacks(oracle: Oracle, s: System, tid: Tid, rnd: string, request: Request)
    requires NamesLinked(s)
    requires var out := BeginStep(request, s.db, s.clock, rnd); Extends(s, After(s, tid, rnd, out))
    ensures var out := BeginStep(request, s.db, s.clock, rnd); Backed(oracle, After(s, tid, rnd, out), tid)
  {
    hide Open, CountHeld;
  }

  lemma FitsUsed(s: System, body: Body, target: Target)
    requires Fits(s, body, target)
    ensures TargetAlias(target).Some? ==> TargetAlias(target).value in s.used
  {
  }

  lemma IssuedKept(s: System, s': System, body: Body, alias: Option<Id>)
    requires Extends(s, s') && IssuedFor(s, body, alias) && (alias.Some? ==> alias.value in s.used)
    ensures IssuedFor(s', body, alias)
  {
  }

  /** The challenge a request is about to spend was issued for the alias the request is about, while that is there. */
  lemma ChallengeIsTargets(s: System, body: Body, target: Target, at: int)
    requires NamesLinked(s) && ChallengesLinked(s) && ChallengesBound(s.db) && Fits(s, body, target)
    requires body.nonce in s.db.challenges && s.db.challenges[body.nonce].body == body
    requires at < s.db.challenges[body.nonce].expiresAt
    ensures IssuedFor(s, body, TargetAlias(target)) && HasAlive(s, body, at)
  {
    hide HasCreated, HasAlive, Noted;
    var c := s.db.challenges[body.nonce];
    assert ChallengeBound(s.db, c);
    assert Noted(s, c);
    NotedIsCreated(s, c, at);
  }

  lemma NotedIsCreated(s: System, c: Challenge, at: int)
    requires Noted(s, c) && at < c.expiresAt
    ensures HasCreated(s, c.body, c.alias) && HasAlive(s, c.body, at)
  {
  }

  lemma CheckBacks(oracle: Oracle, s: System, tid: Tid, rnd: string, body: Body, signature: string, target: Target)
    requires NamesLinked(s) && ChallengesLinked(s) && ChallengesBound(s.db)
    requires Fits(s, body, target) && UnderCount(s, tid, target)
    requires var out := CheckStep(oracle, body, signature, target, s.db, s.clock); Extends(s, After(s, tid, rnd, out))
    ensures var out := CheckStep(oracle, body, signature, target, s.db, s.clock); Backed(oracle, After(s, tid, rnd, out), tid)
  {
    hide Fits, UnderCount, Verifies, Noted, HasCreated, IssuedFor, NamesLinked, ChallengesBound;
    var s' := After(s, tid, rnd, CheckStep(oracle, body, signature, target, s.db, s.clock));
    FitsKept(s, s', tid, body, target);
    if Spendable(s.db, body, s.clock) {
      ChallengeIsTargets(s, body, target, s.clock);
      var e := s'.log[|s.log|];
      assert e in s'.log && CheckedAt(e, tid, body, s.clock);
      FitsUsed(s, body, target);
      IssuedKept(s, s', body, TargetAlias(target));
    }
  }

  lemma SpendBacks(
      oracle: Oracle, s: System, tid: Tid, rnd: string, body: Body, signature: string, target: Target, checkedAt: int)
    requires Fits(s, body, target) && UnderCount(s, tid, target) && IssuedFor(s, body, TargetAlias(target))
    requires var out := SpendStep(body, signature, target, checkedAt, s.db); Extends(s, After(s, tid, rnd, out))
    ensures var out := SpendStep(body, signature, target, checkedAt, s.db); Backed(oracle, After(s, tid, rnd, out), tid)
  {
    hide Fits, UnderCount, Unconsumed, ConsumeChallenge, IssuedFor;
    var out := SpendStep(body, signature, target, checkedAt, s.db);
    var s' := After(s, tid, rnd, out);
    FitsKept(s, s', tid, body, target);
    FitsUsed(s, body, target);
    IssuedKept(s, s', body, TargetAlias(target));
    assert Entry(tid, out.note) in s'.log;
  }

  lemma RegisterBacks(oracle: Oracle, s: System, tid: Tid, rnd: string, body: Body, target: Target)
    requires Fits(s, body, target) && HasSpent(s, tid, body) && IssuedFor(s, body, TargetAlias(target))
    requires var out := RegisterStep(body, target, s.db, rnd); Extends(s, After(s, tid, rnd, out))
    ensures var out := RegisterStep(body, target, s.db, rnd); Backed(oracle, After(s, tid, rnd, out), tid)
  {
    hide InsertAlias, TakeOver, CountGroup, IssuedFor;
    FitsUsed(s, body, target);
    IssuedKept(s, After(s, tid, rnd, RegisterStep(body, target, s.db, rnd)), body, TargetAlias(target));
  }

  lemma EarlyBacks(oracle: Oracle, s: System, tid: Tid, rnd: string)
    requires tid in s.requests && Backed(oracle, s, tid)
    requires var pc := s.requests[tid]; pc.ClaimAllowed? || pc.AddOwned? || pc.RecoverFound? || pc.TokenLive?
    requires var out := Step(oracle, s.db, s.clock, rnd, s.requests[tid]); Extends(s, After(s, tid, rnd, out))
    ensures var out := Step(oracle, s.db, s.clock, rnd, s.requests[tid]); Backed(oracle, After(s, tid, rnd, out), tid)
  {
    hide Countable, Live, CountAttempt;
    var out := Step(oracle, s.db, s.clock, rnd, s.requests[tid]);
    assert Entry(tid, out.note) in After(s, tid, rnd, out).log;
  }

  lemma OthersNeedNoBacking(oracle: Oracle, s: System, tid: Tid, rnd: string)
    requires tid in s.requests
    requires var pc := s.requests[tid];
             !(pc.Begin? || pc.ClaimAllowed? || pc.AddOwned? || pc.RecoverFound? || pc.TokenLive? || pc.Spending?
               || pc.Verified? || pc.Consumed?)
    ensures var out := Step(oracle, s.db, s.clock, rnd, s.requests[tid]); Backed(oracle, After(s, tid, rnd, out), tid)
  {
    hide InsertChallenge, DeleteAlias, PlaceRow, RemoveRow, BurnRecoveries, InsertRecovery, IndexOfRow, RecentlyMailed;
  }

  lemma RunBacks(oracle: Oracle, s: System, tid: Tid, rnd: string)
    requires Inv(oracle, s) && Enabled(s, Run(tid, rnd))
    ensures var out := Step(oracle, s.db, s.clock, rnd, s.requests[tid]);
            Backed(oracle, After(s, tid, rnd, out), tid)
  {
    hide BeginStep, CheckStep, SpendStep, RegisterStep, ClaimStep, AddStep, LookUpStep, CountStep, Open, RemoveStep,
      ReleaseStep, BurnRecoveries, TokenStep, PlaceStep, FindRowStep, CountRowsStep, MailStep, Extends, Sound,
      NamesLinked, ChallengesLinked, ChallengesBound, RecoveriesLinked, RowsLinked, Fits, UnderCount, HasSpent, Knows,
      Verifies, IssuedFor, HasAlive, HasChecked;
    var pc := s.requests[tid];
    assert Backed(oracle, s, tid);
    RunExtends(oracle, s, tid, rnd);
    match pc {
      case Begin(request) => BeginBacks(oracle, s, tid, rnd, request);
      case Spending(body, signature, target) => CheckBacks(oracle, s, tid, rnd, body, signature, target);
      case Verified(body, signature, target, checkedAt) => SpendBacks(oracle, s, tid, rnd, body, signature, target, checkedAt);
      case Consumed(body, target) => RegisterBacks(oracle, s, tid, rnd, body, target);
      case ClaimAllowed(_) => EarlyBacks(oracle, s, tid, rnd);
      case AddOwned(_, _) => EarlyBacks(oracle, s, tid, rnd);
      case RecoverFound(_, _) => EarlyBacks(oracle, s, tid, rnd);
      case TokenLive(_, _) => EarlyBacks(oracle, s, tid, rnd);
      case _ => OthersNeedNoBacking(oracle, s, tid, rnd);
    }
  }

  lemma RunKeepsRequests(oracle: Oracle, s: System, tid: Tid, rnd: string)
    requires Inv(oracle, s) && Enabled(s, Run(tid, rnd))
    ensures RequestsLinked(oracle, Apply(oracle, s, Run(tid, rnd)))
  {
    hide Step, Backed;
    var s' := Apply(oracle, s, Run(tid, rnd));
    RunExtends(oracle, s, tid, rnd);
    StepStage(oracle, s.db, s.clock, rnd, s.requests[tid]);
    forall t | t in s'.requests
      ensures Backed(oracle, s', t)
    {
      if t == tid {
        RunBacks(oracle, s, tid, rnd);
      } else {
        BackedKept(oracle, s, s', t);
      }
    }
  }

  predicate NamesOf(db: Db) {
    && (forall n :: n in db.names ==> db.names[n] in db.aliases && db.aliases[db.names[n]].name == n)
    && (forall id :: id in db.aliases ==> FindByName(db, db.aliases[id].name) == Some(id))
  }

  lemma RegisterNames(body: Body, target: Target, db: Db, rnd: string)
    requires NamesOf(db) && rnd !in db.aliases
    ensures NamesOf(RegisterStep(body, target, db, rnd).db)
  {
  }

  lemma DeleteNames(db: Db, id: Id)
    requires NamesOf(db) && id in db.aliases
    ensures NamesOf(DeleteAlias(db, id).value)
  {
  }

  lemma SameNames(db: Db, db': Db)
    requires NamesOf(db) && db'.names == db.names && db'.aliases.Keys == db.aliases.Keys
    requires forall id :: id in db.aliases ==> db'.aliases[id].name == db.aliases[id].name
    ensures NamesOf(db')
  {
  }

  lemma StepLeavesNames(oracle: Oracle, db: Db, now: int, rnd: string, pc: Pc)
    requires !pc.ReleaseOwned? && !pc.Consumed?
    ensures var db' := Step(oracle, db, now, rnd, pc).db;
            && db'.names == db.names && db'.aliases.Keys == db.aliases.Keys
            && forall id :: id in db.aliases ==> db'.aliases[id].name == db.aliases[id].name
  {
    hide PlaceRow, RemoveRow, CountHeld, CountGroup, IndexOfRow, RecentlyMailed;
  }

  lemma StepNames(oracle: Oracle, db: Db, now: int, rnd: string, pc: Pc)
    requires NamesOf(db) && rnd !in db.aliases
    ensures NamesOf(Step(oracle, db, now, rnd, pc).db)
  {
    if pc.Consumed? {
      RegisterNames(pc.body, pc.target, db, rnd);
    } else if pc.ReleaseOwned? {
      if pc.alias in db.aliases {
        DeleteNames(db, pc.alias);
      }
    } else {
      StepLeavesNames(oracle, db, now, rnd, pc);
      SameNames(db, Step(oracle, db, now, rnd, pc).db);
    }
  }

  lemma RunKeepsNames(oracle: Oracle, s: System, tid: Tid, rnd: string)
    requires Inv(oracle, s) && Enabled(s, Run(tid, rnd))
    ensures NamesLinked(Apply(oracle, s, Run(tid, rnd)))
  {
    var out := Step(oracle, s.db, s.clock, rnd, s.requests[tid]);
    hide Step, ChallengesFollow, RecoveriesFollow, AliasesFollow, NamesOf;
    StepNames(oracle, s.db, s.clock, rnd, s.requests[tid]);
    RunFollowsTables(oracle, s, tid, rnd);
    NamesKept(s, tid, rnd, out);
  }

  lemma NamesKept(s: System, tid: Tid, rnd: string, out: Out)
    requires NamesLinked(s) && NamesOf(out.db) && AliasesFollow(s.db, out, rnd)
    ensures NamesLinked(After(s, tid, rnd, out))
  {
  }

  lemma ChallengesKept(s: System, tid: Tid, rnd: string, out: Out)
    requires ChallengesLinked(s) && rnd !in s.used && ChallengesFollow(s.db, out, rnd)
    requires out.note.Spent? ==> HasAlive(s, out.note.body, out.note.checkedAt)
    ensures ChallengesLinked(After(s, tid, rnd, out))
  {
    hide Noted, HasAlive;
    var s' := After(s, tid, rnd, out);
    assert Entry(tid, out.note) in s'.log;
    if out.note.Spent? {
      AliveIsUsed(s, out.note.body, out.note.checkedAt);
    }
    forall n | n in s'.db.challenges
      ensures Noted(s', s'.db.challenges[n])
    {
      NotedKept(s, tid, rnd, out, n);
    }
  }

  lemma AliveIsUsed(s: System, body: Body, at: int)
    requires ChallengesLinked(s) && HasAlive(s, body, at)
    ensures body.nonce in s.used
  {
  }

  lemma NotedKept(s: System, tid: Tid, rnd: string, out: Out, n: string)
    requires ChallengesLinked(s) && rnd !in s.used && ChallengesFollow(s.db, out, rnd) && n in out.db.challenges
    ensures Noted(After(s, tid, rnd, out), out.db.challenges[n])
  {
    hide Unconsumed;
    assert Entry(tid, out.note) in After(s, tid, rnd, out).log;
    if n in s.db.challenges {
      assert Noted(s, s.db.challenges[n]);
    }
  }

  // ---------- Challenges stay bound ----------

  lemma OpenBound(c: NewChallenge, alias: Option<Id>, db: Db, now: int, rnd: string)
    requires ChallengesBound(db)
    requires match alias
      case None => c.purpose == CLAIM
      case Some(id) => c.purpose != CLAIM && (id in db.aliases ==> db.aliases[id].name == c.name)
    ensures ChallengesBound(Open(c, alias, db, now, rnd).db)
  {
  }

  lemma BeginBound(request: Request, db: Db, now: int, rnd: string)
    requires ChallengesBound(db)
    ensures ChallengesBound(BeginStep(request, db, now, rnd).db)
  {
    hide ChallengesBound, Open, CountHeld;
    if request.ToChallenge? && request.challenge.purpose == CLAIM {
      OpenBound(request.challenge, None, db, now, rnd);
    }
  }

  lemma DeleteBound(db: Db, id: Id)
    requires ChallengesBound(db) && id in db.aliases
    ensures ChallengesBound(DeleteAlias(db, id).value)
  {
  }

  lemma RegisterBound(body: Body, target: Target, db: Db, rnd: string)
    requires ChallengesBound(db) && rnd !in db.aliases
    ensures ChallengesBound(RegisterStep(body, target, db, rnd).db)
  {
    hide CountGroup;
  }

  lemma ConsumeBound(db: Db, nonce: string)
    requires ChallengesBound(db)
    ensures ChallengesBound(ConsumeChallenge(db, nonce))
  {
  }

  lemma StepLeavesChallenges(oracle: Oracle, db: Db, now: int, rnd: string, pc: Pc)
    requires !pc.Begin? && !pc.ChallengeFor? && !pc.ReleaseOwned? && !pc.Verified?
    ensures Step(oracle, db, now, rnd, pc).db.challenges == db.challenges
  {
    hide PlaceRow, RemoveRow, CountHeld, CountGroup, IndexOfRow, RecentlyMailed;
  }

  lemma SameBound(db: Db, db': Db)
    requires ChallengesBound(db) && db'.challenges == db.challenges && db'.aliases.Keys == db.aliases.Keys
    requires forall id :: id in db.aliases ==> db'.aliases[id].name == db.aliases[id].name
    ensures ChallengesBound(db')
  {
  }

  lemma StepKeepsBound(oracle: Oracle, db: Db, now: int, rnd: string, pc: Pc)
    requires ChallengesBound(db) && rnd !in db.aliases
    requires pc.ChallengeFor? ==>
      pc.challenge.purpose != CLAIM && (pc.alias in db.aliases ==> db.aliases[pc.alias].name == pc.challenge.name)
    ensures ChallengesBound(Step(oracle, db, now, rnd, pc).db)
  {
    hide ChallengesBound, Open, BeginStep, RegisterStep, DeleteAlias, ConsumeChallenge, Unconsumed, PlaceRow, RemoveRow,
      RecentlyMailed, CountHeld;
    if pc.Begin? {
      BeginBound(pc.request, db, now, rnd);
    } else if pc.ChallengeFor? {
      OpenBound(pc.challenge, Some(pc.alias), db, now, rnd);
    } else if pc.ReleaseOwned? {
      ReleaseBound(db, pc.alias);
    } else if pc.Verified? {
      ConsumeBound(db, pc.body.nonce);
    } else if pc.Consumed? {
      RegisterBound(pc.body, pc.target, db, rnd);
    } else {
      StepLeavesChallenges(oracle, db, now, rnd, pc);
      StepLeavesNames(oracle, db, now, rnd, pc);
      SameBound(db, Step(oracle, db, now, rnd, pc).db);
    }
  }

  lemma ReleaseBound(db: Db, id: Id)
    requires ChallengesBound(db)
    ensures ChallengesBound(ReleaseStep(id, db).db)
  {
    hide ChallengesBound;
    if id in db.aliases {
      DeleteBound(db, id);
    }
  }

  lemma RunKeepsBound(oracle: Oracle, s: System, tid: Tid, rnd: string)
    requires Inv(oracle, s) && Enabled(s, Run(tid, rnd))
    ensures ChallengesBound(Apply(oracle, s, Run(tid, rnd)).db)
  {
    hide Step, ChallengesBound, ChallengesLinked, RecoveriesLinked, RowsLinked, Sound, Verifies;
    assert Backed(oracle, s, tid);
    assert rnd !in s.db.aliases;
    StepKeepsBound(oracle, s.db, s.clock, rnd, s.requests[tid]);
  }

  lemma RunKeepsChallenges(oracle: Oracle, s: System, tid: Tid, rnd: string)
    requires Inv(oracle, s) && Enabled(s, Run(tid, rnd))
    ensures ChallengesLinked(Apply(oracle, s, Run(tid, rnd)))
  {
    hide Step, ChallengesFollow, RecoveriesFollow, AliasesFollow, ChallengesLinked;
    RunFollowsTables(oracle, s, tid, rnd);
    StepNote(oracle, s, tid, rnd);
    ChallengesKept(s, tid, rnd, Step(oracle, s.db, s.clock, rnd, s.requests[tid]));
  }

  lemma CountAppend(log: seq<Entry>, e: Entry, p: Note -> bool)
    ensures Count(log + [e], p) == Count(log, p) + if p(e.note) then 1 else 0
  {
    assert (log + [e])[..|log|] == log;
  }

  lemma CountNone(log: seq<Entry>, p: Note -> bool)
    requires forall e :: e in log ==> !p(e.note)
    ensures Count(log, p) == 0
  {
    if log != [] {
      assert log[|log| - 1] in log;
      CountNone(log[..|log| - 1], p);
    }
  }

  lemma RecoveriesKept(s: System, tid: Tid, rnd: string, out: Out)
    requires RecoveriesLinked(s) && rnd !in s.used && RecoveriesFollow(s.db, out, rnd)
    ensures RecoveriesLinked(After(s, tid, rnd, out))
  {
    var s' := After(s, tid, rnd, out);
    forall h | h in s'.db.recoveries
      ensures h.token in s'.used && s'.db.recoveries[h].attempts == Attempts(s'.log, h)
    {
      CountAppend(s.log, Entry(tid, out.note), (n: Note) => n == Counted(h));
      if h !in s.db.recoveries {
        CountNone(s.log, (n: Note) => n == Counted(h));
      }
    }
  }

  lemma RunKeepsRecoveries(oracle: Oracle, s: System, tid: Tid, rnd: string)
    requires Inv(oracle, s) && Enabled(s, Run(tid, rnd))
    ensures RecoveriesLinked(Apply(oracle, s, Run(tid, rnd)))
  {
    hide Step, ChallengesFollow, RecoveriesFollow, AliasesFollow, RecoveriesLinked;
    RunFollowsTables(oracle, s, tid, rnd);
    RecoveriesKept(s, tid, rnd, Step(oracle, s.db, s.clock, rnd, s.requests[tid]));
  }

  lemma TracedKept(s: System, s': System, id: Id, row: Row, row': Row)
    requires Extends(s, s') && id in s.db.aliases && id in s'.db.aliases && id in s.used
    requires Traced(s, id, row) && SameAccount(row, row')
    ensures Traced(s', id, row')
  {
  }

  lemma RowTraced(s: System, tid: Tid, rnd: string, out: Out, id: Id, row: Row)
    requires RowsLinked(s) && NamesLinked(s) && rnd !in s.used
    requires id in out.db.aliases && row in out.db.aliases[id].rows
    requires AliasesFollow(s.db, out, rnd) && Extends(s, After(s, tid, rnd, out))
    requires MadeBy(row, id, out.note, rnd) && id in s.db.aliases ==>
      Makes(out.note).value.2.name == s.db.aliases[id].name
    ensures Traced(After(s, tid, rnd, out), id, row)
  {
    var s' := After(s, tid, rnd, out);
    assert RowsFollow(s.db, out, rnd, id);
    if r :| r in RowsOf(s.db, id) && SameAccount(r, row) {
      TracedKept(s, s', id, r, row);
    } else {
      assert Entry(tid, out.note) in s'.log;
    }
  }

  lemma MadeUnderItsName(oracle: Oracle, s: System, tid: Tid, rnd: string)
    requires RequestsLinked(oracle, s) && NamesLinked(s) && Enabled(s, Run(tid, rnd))
    ensures var note := Step(oracle, s.db, s.clock, rnd, s.requests[tid]).note;
            Makes(note).Some? && Makes(note).value.1 in s.db.aliases ==>
              Makes(note).value.2.name == s.db.aliases[Makes(note).value.1].name
  {
    hide Step, HasSpent, HasCreated, HasAlive, HasChecked, Verifies;
    StepNoteSays(oracle, s.db, s.clock, rnd, s.requests[tid]);
    assert Backed(oracle, s, tid);
  }

  lemma RunKeepsRows(oracle: Oracle, s: System, tid: Tid, rnd: string)
    requires Inv(oracle, s) && Enabled(s, Run(tid, rnd))
    ensures RowsLinked(Apply(oracle, s, Run(tid, rnd)))
  {
    hide Step, ChallengesFollow, RecoveriesFollow, AliasesFollow, RowsLinked;
    var out := Step(oracle, s.db, s.clock, rnd, s.requests[tid]);
    RunExtends(oracle, s, tid, rnd);
    MadeUnderItsName(oracle, s, tid, rnd);
    StepNote(oracle, s, tid, rnd);
    RunFollowsTables(oracle, s, tid, rnd);
    RowsKept(s, tid, rnd, out);
  }

  lemma RowsKept(s: System, tid: Tid, rnd: string, out: Out)
    requires RowsLinked(s) && NamesLinked(s) && rnd !in s.used
    requires AliasesFollow(s.db, out, rnd) && Extends(s, After(s, tid, rnd, out))
    requires Makes(out.note).Some? ==>
      Makes(out.note).value.0 == rnd
      && (Makes(out.note).value.1 in s.db.aliases ==> Makes(out.note).value.2.name == s.db.aliases[Makes(out.note).value.1].name)
    ensures RowsLinked(After(s, tid, rnd, out))
  {
    forall id, row | id in out.db.aliases && row in out.db.aliases[id].rows
      ensures Traced(After(s, tid, rnd, out), id, row)
    {
      RowTraced(s, tid, rnd, out, id, row);
    }
  }

  lemma RunKeepsInv(oracle: Oracle, s: System, tid: Tid, rnd: string)
    requires Inv(oracle, s) && Enabled(s, Run(tid, rnd))
    ensures Inv(oracle, Apply(oracle, s, Run(tid, rnd)))
  {
    hide Step, Sound, RequestsLinked, NamesLinked, ChallengesLinked, ChallengesBound, RecoveriesLinked, RowsLinked, Follows;
    RunFollows(oracle, s, tid, rnd);
    SoundAppend(oracle, s.log, Entry(tid, Step(oracle, s.db, s.clock, rnd, s.requests[tid]).note));
    RunKeepsRequests(oracle, s, tid, rnd);
    RunKeepsNames(oracle, s, tid, rnd);
    RunKeepsChallenges(oracle, s, tid, rnd);
    RunKeepsBound(oracle, s, tid, rnd);
    RunKeepsRecoveries(oracle, s, tid, rnd);
    RunKeepsRows(oracle, s, tid, rnd);
  }

  /** Names, owners and rows aside, an event other than a step only takes challenges and recoveries away. */
  ghost predicate Thins(s: System, s': System) {
    && s'.used == s.used && s'.log == s.log && s'.db.names == s.db.names && s'.db.aliases.Keys == s.db.aliases.Keys
    && (forall id :: id in s.db.aliases ==>
      s'.db.aliases[id].name == s.db.aliases[id].name && s'.db.aliases[id].rows == s.db.aliases[id].rows)
    && (forall n :: n in s'.db.challenges ==> n in s.db.challenges && s'.db.challenges[n] == s.db.challenges[n])
    && (forall h :: h in s'.db.recoveries ==> h in s.db.recoveries && s'.db.recoveries[h] == s.db.recoveries[h])
    && (forall tid :: tid in s.requests ==> tid in s'.requests && s'.requests[tid] == s.requests[tid])
    && (forall tid :: tid in s'.requests && tid !in s.requests ==> s'.requests[tid].Begin?)
  }

  lemma OtherThins(oracle: Oracle, s: System, e: Event)
    requires Enabled(s, e) && !e.Run?
    ensures Thins(s, Apply(oracle, s, e))
  {
  }

  lemma ThinsExtends(s: System, s': System)
    requires Thins(s, s')
    ensures Extends(s, s')
  {
  }

  lemma ThinKeepsRequests(oracle: Oracle, s: System, s': System)
    requires RequestsLinked(oracle, s) && Thins(s, s')
    ensures RequestsLinked(oracle, s')
  {
    ThinsExtends(s, s');
    forall tid | tid in s'.requests
      ensures Backed(oracle, s', tid)
    {
      if tid in s.requests {
        BackedKept(oracle, s, s', tid);
      }
    }
  }

  lemma ThinKeepsTables(s: System, s': System)
    requires NamesLinked(s) && RecoveriesLinked(s) && Thins(s, s')
    ensures NamesLinked(s') && RecoveriesLinked(s')
  {
    hide Attempts;
  }

  lemma ThinKeepsChallenges(s: System, s': System)
    requires ChallengesLinked(s) && ChallengesBound(s.db) && Thins(s, s')
    ensures ChallengesLinked(s') && ChallengesBound(s'.db)
  {
    hide Noted;
    forall n | n in s'.db.challenges
      ensures Noted(s', s'.db.challenges[n])
    {
      NotedInLog(s, s', s.db.challenges[n]);
    }
  }

  lemma NotedInLog(s: System, s': System, c: Challenge)
    requires Noted(s, c) && s'.log == s.log
    ensures Noted(s', c)
  {
  }

  lemma ThinKeepsRows(s: System, s': System)
    requires NamesLinked(s) && RowsLinked(s) && Thins(s, s')
    ensures RowsLinked(s')
  {
    ThinsExtends(s, s');
    forall id, row | id in s'.db.aliases && row in s'.db.aliases[id].rows
      ensures Traced(s', id, row)
    {
      assert Traced(s, id, row);
      TracedKept(s, s', id, row, row);
    }
  }

  lemma OtherKeepsInv(oracle: Oracle, s: System, e: Event)
    requires Inv(oracle, s) && Enabled(s, e) && !e.Run?
    ensures Inv(oracle, Apply(oracle, s, e))
  {
    hide Thins, RequestsLinked, NamesLinked, ChallengesLinked, ChallengesBound, RecoveriesLinked, RowsLinked, Sound;
    var s' := Apply(oracle, s, e);
    OtherThins(oracle, s, e);
    SameLog(s, s');
    ThinKeepsRequests(oracle, s, s');
    ThinKeepsTables(s, s');
    ThinKeepsChallenges(s, s');
    ThinKeepsRows(s, s');
  }

  lemma SameLog(s: System, s': System)
    requires Thins(s, s')
    ensures s'.log == s.log
  {
  }

  lemma StepKeepsInv(oracle: Oracle, s: System, e: Event)
    requires Inv(oracle, s) && Enabled(s, e)
    ensures Inv(oracle, Apply(oracle, s, e))
  {
    hide Inv, Enabled, Apply;
    if e.Run? {
      RunKeepsInv(oracle, s, e.tid, e.rnd);
    } else {
      OtherKeepsInv(oracle, s, e);
    }
  }

  lemma {:induction false} InvAlways(oracle: Oracle, s: System, es: seq<Event>)
    requires Inv(oracle, s) && Valid(oracle, s, es)
    ensures Inv(oracle, Exec(oracle, s, es))
    decreases |es|
  {
    hide Inv, Enabled, Apply;
    if es != [] {
      StepKeepsInv(oracle, s, es[0]);
      InvAlways(oracle, Apply(oracle, s, es[0]), es[1..]);
    }
  }

  /** Every run from the empty tables. */
  lemma RunHolds(oracle: Oracle, es: seq<Event>)
    requires Valid(oracle, START, es)
    ensures Inv(oracle, Exec(oracle, START, es))
  {
    hide Valid, Exec;
    InvAlways(oracle, START, es);
  }
}
