/**
 * Whose request it was: in every run what a request does, notes and answers is what it
 * came asking for, and an alias's rows change, and an alias goes, for its owner alone.
 */
module AliasRequests {
  import opened Common
  import opened AliasSigning
  import opened AliasTables
  import opened AliasProtocol
  import opened AliasSteps
  import opened AliasHistory
  import opened AliasSafety
  import opened AliasAnswers

  /** The request `tid` arrived with. */
  function Arrived(es: seq<Event>, tid: Tid): Option<Request> {
    if es == [] then None
    else
      var e := es[|es| - 1];
      if e.Arrive? && e.tid == tid then Some(e.request) else Arrived(es[..|es| - 1], tid)
  }

  /** A run's last event, after the run before it. */
  lemma {:induction false} LastEvent(oracle: Oracle, s: System, es: seq<Event>)
    requires Valid(oracle, s, es) && es != []
    ensures var front, e := es[..|es| - 1], es[|es| - 1];
            && Valid(oracle, s, front) && Enabled(Exec(oracle, s, front), e)
            && Exec(oracle, s, es) == Apply(oracle, Exec(oracle, s, front), e)
    decreases |es|
  {
    hide Apply, Enabled;
    var front := es[..|es| - 1];
    if |es| > 1 {
      var s' := Apply(oracle, s, es[0]);
      LastEvent(oracle, s', es[1..]);
      assert es[1..][..|es| - 2] == front[1..] && front[0] == es[0];
    } else {
      assert es[1..] == [];
    }
  }

  // ---------- What a request does is what it asked ----------

  /** The challenge the request presents. A claim takes its address and network from the challenge itself. */
  predicate Presents(request: Request, body: Body) {
    match request
    case ToClaim(c) => body.purpose == CLAIM && body.name == c.name && body.nonce == c.nonce
    case ToAdd(a) => body == Body(ADD_ADDRESS, a.name, a.chain, a.address, a.network, a.nonce)
    case ToComplete(c) => body == Body(RECOVER, c.name, c.chain, c.address, c.network, c.nonce)
    case _ => false
  }

  predicate Signs(request: Request, signature: string) {
    match request
    case ToClaim(c) => signature == c.signature
    case ToAdd(a) => signature == a.signature
    case ToComplete(c) => signature == c.signature
    case _ => false
  }

  predicate Aims(request: Request, target: Target) {
    match target
    case ForClaim(c) => request == ToClaim(c)
    case ForAdd(a, _) => request == ToAdd(a)
    case ForRecovery(c, _, _) => request == ToComplete(c)
  }

  predicate Serves(pc: Pc, request: Request) {
    match pc
    case Begin(r) => r == request
    case ChallengeFor(c, _) => request == ToChallenge(c)
    case ClaimAllowed(c) => request == ToClaim(c)
    case AddOwned(a, _) => request == ToAdd(a)
    case RemoveOwned(r, _) => request == ToRemove(r)
    case RowFound(_, row) => request.ToRemove? && row.id == request.remove.rowId
    case RemoveAllowed(_, row) => request.ToRemove? && row.id == request.remove.rowId
    case ReleaseOwned(_) => request.ToRelease?
    case StartFound(s, _) => request == ToStart(s)
    case StartQuiet(s, _) => request == ToStart(s)
    case StartBurned(s, _) => request == ToStart(s)
    case RecoverFound(c, _) => request == ToComplete(c)
    case TokenLive(c, _) => request == ToComplete(c)
    case Spending(body, signature, target) => Presents(request, body) && Signs(request, signature) && Aims(request, target)
    case Verified(body, signature, target, _) => Presents(request, body) && Signs(request, signature) && Aims(request, target)
    case Consumed(body, target) => Presents(request, body) && Aims(request, target)
    case Placing(body, _, primary) => request.ToAdd? && Presents(request, body) && (request.add.primary ==> primary)
    case Done(_) => true
  }

  /** What the request notes is about itself: its own challenge, signature, token and consumer. */
  predicate Tells(note: Note, request: Request) {
    match note
    case Quiet => true
    case Created(body, _, _) =>
      request.ToChallenge?
      && var c := request.challenge; body == Body(c.purpose, c.name, c.chain, c.address, c.network, body.nonce)
    case Counted(hash) => request.ToComplete? && hash == Hash(request.complete.token)
    case Checked(body, under, _) =>
      Presents(request, body) && under == if request.ToComplete? then Some(Hash(request.complete.token)) else None
    case Spent(body, signature, _) => Presents(request, body) && Signs(request, signature)
    case Registered(_, _, body) => !request.ToComplete? && Presents(request, body)
    case Transferred(hash, _, _, consumer, body) =>
      && request.ToComplete? && Presents(request, body)
      && hash == Hash(request.complete.token) && consumer == request.complete.consumer
  }

  lemma StepServes(oracle: Oracle, db: Db, now: int, rnd: string, pc: Pc, request: Request)
    requires Serves(pc, request)
    ensures var out := Step(oracle, db, now, rnd, pc); Serves(out.pc, request) && Tells(out.note, request)
  {
    hide InsertAlias, DeleteAlias, PlaceRow, RemoveRow, BurnRecoveries, InsertRecovery, CountAttempt, ConsumeChallenge,
      TakeOver, CountHeld, CountGroup, RecentlyMailed, Spendable, Live, Countable, Unconsumed, FindByName, Verifies;
  }

  /** In every state of every run a request stands where its arrival put it. */
  lemma {:induction false} EveryRequestServes(oracle: Oracle, es: seq<Event>, tid: Tid)
    requires Valid(oracle, START, es) && tid in Exec(oracle, START, es).requests
    ensures Arrived(es, tid).Some? && Serves(Exec(oracle, START, es).requests[tid], Arrived(es, tid).value)
    decreases |es|
  {
    hide Step, Serves, Valid;
    if es == [] {
    } else {
      var front, e := es[..|es| - 1], es[|es| - 1];
      LastEvent(oracle, START, es);
      var s := Exec(oracle, START, front);
      if e.Arrive? && e.tid == tid {
        BeginServes(e.request);
      } else {
        hide Exec;
        EveryRequestServes(oracle, front, tid);
        if e.Run? && e.tid == tid {
          StepServes(oracle, s.db, s.clock, e.rnd, s.requests[tid], Arrived(front, tid).value);
        }
      }
    }
  }

  lemma BeginServes(request: Request)
    ensures Serves(Begin(request), request)
  {
  }

  /** In every run each note is about its own request. */
  lemma {:induction false} NotesTell(oracle: Oracle, es: seq<Event>, i: nat)
    requires Valid(oracle, START, es) && i < |Exec(oracle, START, es).log|
    ensures var e := Exec(oracle, START, es).log[i];
            Arrived(es, e.tid).Some? && Tells(e.note, Arrived(es, e.tid).value)
    decreases |es|
  {
    hide Step, Serves, Tells, Valid;
    if es != [] {
      var front, e := es[..|es| - 1], es[|es| - 1];
      LastEvent(oracle, START, es);
      var s := Exec(oracle, START, front);
      if i < |s.log| {
        hide Exec;
        NotesTell(oracle, front, i);
        EntriesArrived(oracle, front, i);
      } else {
        hide Exec;
        EveryRequestServes(oracle, front, e.tid);
        StepServes(oracle, s.db, s.clock, e.rnd, s.requests[e.tid], Arrived(front, e.tid).value);
      }
    }
  }

  /** A request that has noted anything has arrived, so no other arrives in its place. */
  lemma EntriesArrived(oracle: Oracle, es: seq<Event>, i: nat)
    requires Valid(oracle, START, es) && i < |Exec(oracle, START, es).log|
    ensures Exec(oracle, START, es).log[i].tid in Exec(oracle, START, es).requests
  {
    hide Valid, Exec, Sound, NamesLinked, ChallengesLinked, ChallengesBound, RecoveriesLinked, RowsLinked;
    RunHolds(oracle, es);
    assert Exec(oracle, START, es).log[i] in Exec(oracle, START, es).log;
  }

  /** In every run a transfer is to the consumer who asked for it, for the token and the address he presented. */
  lemma TransferIsToTheCaller(oracle: Oracle, es: seq<Event>, i: nat) returns (c: Complete)
    requires Valid(oracle, START, es)
    requires i < |Exec(oracle, START, es).log| && Exec(oracle, START, es).log[i].note.Transferred?
    ensures var e := Exec(oracle, START, es).log[i];
            && Arrived(es, e.tid) == Some(ToComplete(c)) && e.note.consumer == c.consumer && e.note.hash == Hash(c.token)
            && e.note.body == Body(RECOVER, c.name, c.chain, c.address, c.network, c.nonce)
  {
    hide Valid, Exec, Arrived;
    NotesTell(oracle, es, i);
    c := Arrived(es, Exec(oracle, START, es).log[i].tid).value.complete;
  }

  // ---------- Answers are true ----------

  /** What an answer promises of the tables it leaves. */
  ghost predicate IsTrue(db: Db, db': Db, now: int, rnd: string, request: Request, outcome: Outcome) {
    match outcome
    case Issued(body) =>
      request.ToChallenge?
      && var c := request.challenge;
      && body == Body(c.purpose, c.name, c.chain, c.address, c.network, rnd) && rnd in db'.challenges
      && db'.challenges[rnd].body == body && !db'.challenges[rnd].consumed && db'.challenges[rnd].expiresAt == now + 300_000
    case Claimed(id) =>
      request.ToClaim? && id == rnd && id in db'.aliases
      && var c, alias := request.claim, db'.aliases[id];
      && c.name in db'.names && db'.names[c.name] == id && c.name !in db.names
      && alias.consumer == c.consumer && alias.name == c.name && alias.email == c.email && alias.status == ACTIVE
      && |alias.rows| == 1 && alias.rows[0].primary
    case Added(row) =>
      request.ToAdd?
      && var a := request.add;
      && row.id == rnd && row.chain == a.chain && row.address == a.address && row.network == a.network
      && (a.primary ==> row.primary)
      && exists id :: id in db'.aliases && row in db'.aliases[id].rows
    case Removed(rowId) => request.ToRemove? && rowId == request.remove.rowId
    case Released(id) => request.ToRelease? && id in db.aliases && id !in db'.aliases
    case Started(None) => request.ToStart? && db' == db
    case Started(Some(token)) =>
      request.ToStart? && token == rnd && Hash(token) in db'.recoveries
      && var r := db'.recoveries[Hash(token)];
      && r.alias in db'.aliases && r.email == request.start.email && !r.consumed && r.expiresAt == now + 1_800_000
    case Recovered(id) =>
      request.ToComplete? && id in db'.aliases
      && var c, alias := request.complete, db'.aliases[id];
      && alias.consumer == c.consumer && alias.rows == [Row(rnd, c.chain, c.address, c.network, true)]
      && Hash(c.token) in db'.recoveries && db'.recoveries[Hash(c.token)].consumed
    case Failed(_) => db' == db
  }

  lemma StepIsTrue(oracle: Oracle, db: Db, now: int, rnd: string, pc: Pc, request: Request)
    requires Serves(pc, request) && !pc.Done?
    ensures var out := Step(oracle, db, now, rnd, pc); out.pc.Done? ==> IsTrue(db, out.db, now, rnd, request, out.pc.outcome)
  {
    hide BurnRecoveries, CountAttempt, ConsumeChallenge, CountHeld, CountGroup, RecentlyMailed, Spendable, Live, Countable,
      Unconsumed, FindByName, Verifies, PlaceRow, RemoveRow;
    if pc.Placing? && pc.alias in db.aliases {
      var row, db' := InsertedRow(pc.body, rnd, pc.primary), Step(oracle, db, now, rnd, pc).db;
      PlacedIsListed(db.aliases[pc.alias].rows, row);
      assert PlaceRow(db.aliases[pc.alias].rows, row).Some? ==> row in db'.aliases[pc.alias].rows;
    }
  }

  lemma PlacedIsListed(rows: seq<Row>, row: Row)
    ensures PlaceRow(rows, row).Some? ==> row in PlaceRow(rows, row).value
  {
    hide DistinctAddresses, OnePrimaryPerNetwork;
    if PlaceRow(rows, row).Some? {
      assert PlaceRow(rows, row).value[|rows|] == row;
    }
  }

  /** In every run an answer is true of the tables at the moment it is given, and of the request it is given to. */
  lemma AnswersAreTrue(oracle: Oracle, es: seq<Event>, tid: Tid)
    requires Valid(oracle, START, es) && es != [] && es[|es| - 1].Run? && es[|es| - 1].tid == tid
    requires Valid(oracle, START, es[..|es| - 1])
    requires tid in Exec(oracle, START, es[..|es| - 1]).requests && !Exec(oracle, START, es[..|es| - 1]).requests[tid].Done?
    requires tid in Exec(oracle, START, es).requests && Exec(oracle, START, es).requests[tid].Done?
    ensures var s, s' := Exec(oracle, START, es[..|es| - 1]), Exec(oracle, START, es);
            Arrived(es, tid).Some?
            && IsTrue(s.db, s'.db, s.clock, es[|es| - 1].rnd, Arrived(es, tid).value, s'.requests[tid].outcome)
  {
    hide Step, Serves, Valid, Exec, IsTrue;
    var front := es[..|es| - 1];
    LastEvent(oracle, START, es);
    EveryRequestServes(oracle, front, tid);
    var s := Exec(oracle, START, front);
    StepIsTrue(oracle, s.db, s.clock, es[|es| - 1].rnd, s.requests[tid], Arrived(front, tid).value);
  }

  // ---------- Only for the owner ----------

  /** The alias an owner's request has found and acts on. */
  function ActsOn(pc: Pc): Option<Id> {
    match pc
    case AddOwned(_, id) => Some(id)
    case RemoveOwned(_, id) => Some(id)
    case RowFound(id, _) => Some(id)
    case RemoveAllowed(id, _) => Some(id)
    case ReleaseOwned(id) => Some(id)
    case Spending(_, _, ForAdd(_, id)) => Some(id)
    case Verified(_, _, ForAdd(_, id), _) => Some(id)
    case Consumed(_, ForAdd(_, id)) => Some(id)
    case Placing(_, id, _) => Some(id)
    case _ => None
  }

  /** The consumer and the name of an add, a removal or a release. */
  function Caller(request: Request): Option<(Id, string)> {
    match request
    case ToAdd(a) => Some((a.consumer, a.name))
    case ToRemove(r) => Some((r.consumer, r.name))
    case ToRelease(r) => Some((r.consumer, r.name))
    case _ => None
  }

  /** After the first `k` events `id` was the alias of that name, and the caller's own. */
  ghost predicate OwnedThen(oracle: Oracle, es: seq<Event>, k: nat, request: Request, id: Id) {
    k <= |es| && Valid(oracle, START, es[..k]) && Caller(request).Some?
    && var db, (consumer, name) := Exec(oracle, START, es[..k]).db, Caller(request).value;
    Owns(db, consumer, name) && db.names[name] == id
  }

  lemma StepActsOn(oracle: Oracle, db: Db, now: int, rnd: string, pc: Pc, request: Request, id: Id)
    requires Serves(pc, request) && ActsOn(Step(oracle, db, now, rnd, pc).pc) == Some(id)
    ensures ActsOn(pc) == Some(id)
            || (Caller(request).Some?
                && var (consumer, name) := Caller(request).value; Owns(db, consumer, name) && db.names[name] == id)
  {
    hide InsertChallenge, InsertAlias, DeleteAlias, PlaceRow, RemoveRow, BurnRecoveries, InsertRecovery, CountAttempt,
      ConsumeChallenge, TakeOver, CountHeld, CountGroup, IndexOfRow, RecentlyMailed, Spendable, Live, Countable, Unconsumed;
  }

  /** In every run a request that acts on an alias belongs to the consumer who owned it when it was found. */
  lemma {:induction false} ActorsOwned(oracle: Oracle, es: seq<Event>, tid: Tid, id: Id) returns (k: nat)
    requires Valid(oracle, START, es) && tid in Exec(oracle, START, es).requests
    requires ActsOn(Exec(oracle, START, es).requests[tid]) == Some(id)
    ensures Arrived(es, tid).Some? && OwnedThen(oracle, es, k, Arrived(es, tid).value, id)
    decreases |es|
  {
    hide Step, Serves, Valid, Owns;
    var front, e := es[..|es| - 1], es[|es| - 1];
    LastEvent(oracle, START, es);
    hide Exec;
    var s := Exec(oracle, START, front);
    if e.Run? && e.tid == tid && ActsOn(s.requests[tid]) != Some(id) {
      EveryRequestServes(oracle, front, tid);
      StepActsOn(oracle, s.db, s.clock, e.rnd, s.requests[tid], Arrived(front, tid).value, id);
      k := |front|;
      assert es[..k] == front;
    } else {
      k := ActorsOwned(oracle, front, tid, id);
      assert es[..k] == front[..k];
    }
  }

  /** The alias goes, or its rows change. */
  predicate RowsChange(db: Db, db': Db, id: Id) {
    id in db.aliases && (id in db'.aliases ==> db'.aliases[id].rows != db.aliases[id].rows)
  }

  /** Only an owner's request, or a recovery, takes an alias away or changes its rows. */
  lemma StepWritesFor(oracle: Oracle, db: Db, now: int, rnd: string, pc: Pc, id: Id)
    requires rnd !in db.aliases && RowsChange(db, Step(oracle, db, now, rnd, pc).db, id)
    ensures (ActsOn(pc) == Some(id) && (id !in Step(oracle, db, now, rnd, pc).db.aliases <==> pc.ReleaseOwned?))
            || (pc.Consumed? && pc.target.ForRecovery? && pc.target.alias == id
                && id in Step(oracle, db, now, rnd, pc).db.aliases)
  {
    hide PlaceRow, RemoveRow, CountHeld, CountGroup, IndexOfRow, RecentlyMailed, InsertedRow, Spendable, Live, Unspent;
  }

  lemma ActorsAsk(pc: Pc, request: Request)
    requires Serves(pc, request)
    ensures ActsOn(pc).Some? ==> request.ToAdd? || request.ToRemove? || request.ToRelease?
    ensures ActsOn(pc).Some? ==> (request.ToRelease? <==> pc.ReleaseOwned?)
    ensures pc.Consumed? && pc.target.ForRecovery? ==> request.ToComplete?
  {
  }

  lemma FreshDraw(oracle: Oracle, s: System, tid: Tid, rnd: string)
    requires Inv(oracle, s) && Enabled(s, Run(tid, rnd))
    ensures rnd !in s.db.aliases
  {
    hide Sound, RequestsLinked, ChallengesLinked, ChallengesBound, RecoveriesLinked, RowsLinked;
  }

  lemma OthersLeaveAliases(oracle: Oracle, s: System, e: Event, id: Id)
    requires Enabled(s, e) && !e.Run? && id in s.db.aliases
    ensures var db' := Apply(oracle, s, e).db; id in db'.aliases && db'.aliases[id].rows == s.db.aliases[id].rows
  {
  }

  /** An add or a removal changes an owner's rows, a release takes an owner's alias, and a recovery changes any rows. */
  ghost predicate MayWrite(oracle: Oracle, es: seq<Event>, k: nat, request: Request, id: Id, gone: bool) {
    match request
    case ToAdd(_) => !gone && OwnedThen(oracle, es, k, request, id)
    case ToRemove(_) => !gone && OwnedThen(oracle, es, k, request, id)
    case ToRelease(_) => gone && OwnedThen(oracle, es, k, request, id)
    case ToComplete(_) => !gone
    case _ => false
  }

  /**
   * In every run the rows of an alias change, or it goes, by a recovery or for a request
   * of a consumer who owned it when the request found it: an add or a removal for its
   * rows, a release for the alias.
   */
  lemma OnlyForTheOwner(oracle: Oracle, es: seq<Event>, id: Id) returns (k: nat)
    requires Valid(oracle, START, es) && es != [] && Valid(oracle, START, es[..|es| - 1])
    requires RowsChange(Exec(oracle, START, es[..|es| - 1]).db, Exec(oracle, START, es).db, id)
    ensures var e := es[|es| - 1];
            e.Run? && Arrived(es, e.tid).Some?
            && MayWrite(oracle, es, k, Arrived(es, e.tid).value, id, id !in Exec(oracle, START, es).db.aliases)
  {
    hide Step, Valid, Exec, Inv, Owns, Arrived, Serves, ActsOn;
    k := 0;
    var front, e := es[..|es| - 1], es[|es| - 1];
    LastEvent(oracle, START, es);
    var s := Exec(oracle, START, front);
    if !e.Run? {
      OthersLeaveAliases(oracle, s, e, id);
    } else {
      RunHolds(oracle, front);
      SameArrival(es, e);
      FreshDraw(oracle, s, e.tid, e.rnd);
      StepWritesFor(oracle, s.db, s.clock, e.rnd, s.requests[e.tid], id);
      EveryRequestServes(oracle, front, e.tid);
      ActorsAsk(s.requests[e.tid], Arrived(es, e.tid).value);
      if ActsOn(s.requests[e.tid]) == Some(id) {
        k := ActorsOwned(oracle, front, e.tid, id);
        assert es[..k] == front[..k];
      }
    }
  }

  lemma SameArrival(es: seq<Event>, e: Event)
    requires es != [] && es[|es| - 1] == e && e.Run?
    ensures Arrived(es, e.tid) == Arrived(es[..|es| - 1], e.tid)
  {
  }
}
