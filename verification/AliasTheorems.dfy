/** What every run of the alias service keeps, read off the invariant. */
module AliasTheorems {
  import opened Common
  import opened AliasSigning
  import opened AliasTables
  import opened AliasProtocol
  import opened AliasSteps
  import opened AliasHistory
  import opened AliasSafety

  // ---------- Provenance ----------

  /**
   * Entry `i` registers an address: entry `j` before it is the same request
   * consuming the one challenge for exactly that body, under a signature over
   * exactly that message, entry `c` before that is the same request checking it,
   * and entry `k` before that is the challenge being issued, for a claim or for the
   * very alias the address is registered under, and to outlive that check.
   */
  predicate Proven(oracle: Oracle, log: seq<Entry>, i: nat, j: nat, c: nat, k: nat) {
    && k < c < j < i < |log| && Makes(log[i].note).Some?
    && var body := Makes(log[i].note).value.2;
    && log[j].tid == log[i].tid && log[j].note.Spent? && log[j].note.body == body
    && oracle(body.chain, body.address, Message(body), log[j].note.signature)
    && CheckedAt(log[c], log[i].tid, body, log[j].note.checkedAt)
    && CreatedFor(log[k].note, body, Makes(log[i].note).value.1) && log[j].note.checkedAt < log[k].note.expiresAt
  }

  lemma RegistrationIsProven(oracle: Oracle, log: seq<Entry>, i: nat) returns (j: nat, c: nat, k: nat)
    requires Sound(oracle, log) && i < |log| && Makes(log[i].note).Some?
    ensures Proven(oracle, log, i, j, c, k)
  {
    SoundAt(oracle, log, i);
    var body, alias := Makes(log[i].note).value.2, Makes(log[i].note).value.1;
    var e :| e in log[..i] && e.tid == log[i].tid && e.note.Spent? && e.note.body == body;
    j :| 0 <= j < i && log[j] == e;
    c, k := SpendIsChecked(oracle, log, j);
    var e' :| e' in log[..i] && CreatedFor(e'.note, body, alias);
    var k' :| 0 <= k' < i && log[k'] == e';
    NonceCreatedOnce(oracle, log, k, k');
  }

  /** A consumed challenge was checked by its own request before, and issued before that, and was alive then. */
  lemma SpendIsChecked(oracle: Oracle, log: seq<Entry>, j: nat) returns (c: nat, k: nat)
    requires Sound(oracle, log) && j < |log| && log[j].note.Spent?
    ensures k < c < j && CheckedAt(log[c], log[j].tid, log[j].note.body, log[j].note.checkedAt)
    ensures AliveAt(log[k].note, log[j].note.body, log[j].note.checkedAt)
    ensures Verifies(oracle, log[j].note.body, log[j].note.signature)
  {
    var spent := log[j];
    SoundAt(oracle, log, j);
    var e :| e in log[..j] && CheckedAt(e, spent.tid, spent.note.body, spent.note.checkedAt);
    c :| 0 <= c < j && log[c] == e;
    SoundAt(oracle, log, c);
    var e' :| e' in log[..c] && AliveAt(e'.note, spent.note.body, spent.note.checkedAt);
    k :| 0 <= k < c && log[k] == e';
  }

  lemma NonceCreatedOnce(oracle: Oracle, log: seq<Entry>, i: nat, j: nat)
    requires Sound(oracle, log) && i < |log| && j < |log|
    requires log[i].note.Created? && log[j].note.Created? && log[i].note.body.nonce == log[j].note.body.nonce
    ensures i == j
  {
    if i < j {
      Earlier(oracle, log, i, j);
    } else if j < i {
      Earlier(oracle, log, j, i);
    }
  }

  /** In every state of every run, each address row is there because its own challenge was spent on it. */
  lemma EveryRowIsProven(oracle: Oracle, es: seq<Event>, id: Id, row: Row)
    returns (i: nat, j: nat, c: nat, k: nat)
    requires Valid(oracle, START, es)
    requires var db := Exec(oracle, START, es).db; id in db.aliases && row in db.aliases[id].rows
    ensures var s := Exec(oracle, START, es);
            && Proven(oracle, s.log, i, j, c, k)
            && Makes(s.log[i].note).value.0 == row.id && Makes(s.log[i].note).value.1 == id
            && IsRowOf(row, s.log[j].note.body) && s.log[j].note.body.name == s.db.aliases[id].name
            && s.log[k].note.boundTo == (if s.log[j].note.body.purpose == CLAIM then None else Some(id))
  {
    hide RequestsLinked, NamesLinked, ChallengesLinked, RecoveriesLinked, Exec, Valid;
    RunHolds(oracle, es);
    var s := Exec(oracle, START, es);
    assert Traced(s, id, row);
    var e :| e in s.log && Makes(e.note).Some?
      && Makes(e.note).value.0 == row.id && Makes(e.note).value.1 == id
      && IsRowOf(row, Makes(e.note).value.2) && Makes(e.note).value.2.name == s.db.aliases[id].name;
    i :| 0 <= i < |s.log| && s.log[i] == e;
    j, c, k := RegistrationIsProven(oracle, s.log, i);
  }

  lemma Earlier(oracle: Oracle, log: seq<Entry>, i: nat, j: nat)
    requires Sound(oracle, log) && i < j < |log|
    ensures Follows(oracle, log[..j], log[j]) && log[i] in log[..j]
  {
    SoundAt(oracle, log, j);
    assert log[i] == log[..j][i];
  }

  lemma SpendsDiffer(oracle: Oracle, log: seq<Entry>, i: nat, j: nat)
    requires Sound(oracle, log) && i < |log| && j < |log|
    requires log[i].note.Spent? && log[j].note.Spent? && log[i].note.body.nonce == log[j].note.body.nonce
    ensures i == j
  {
    if i < j {
      Earlier(oracle, log, i, j);
    } else if j < i {
      Earlier(oracle, log, j, i);
    }
  }

  lemma RegistrationsDiffer(oracle: Oracle, log: seq<Entry>, i: nat, j: nat)
    requires Sound(oracle, log) && i < |log| && j < |log|
    requires Makes(log[i].note).Some? && Makes(log[j].note).Some? && log[i].tid == log[j].tid
    ensures i == j
  {
    if i < j {
      Earlier(oracle, log, i, j);
    } else if j < i {
      Earlier(oracle, log, j, i);
    }
  }

  /** In any run a nonce is consumed at most once. */
  lemma NonceSpentOnce(oracle: Oracle, es: seq<Event>, i: nat, j: nat)
    requires Valid(oracle, START, es)
    requires var log := Exec(oracle, START, es).log;
             i < |log| && j < |log| && log[i].note.Spent? && log[j].note.Spent?
             && log[i].note.body.nonce == log[j].note.body.nonce
    ensures i == j
  {
    hide RequestsLinked, NamesLinked, ChallengesLinked, RecoveriesLinked, RowsLinked, Exec, Valid;
    RunHolds(oracle, es);
    SpendsDiffer(oracle, Exec(oracle, START, es).log, i, j);
  }

  /**
   * In any run a consumed challenge had not expired when the very request that
   * consumed it checked it: entry `c` is that check, of the challenge entry `k` issued.
   */
  lemma SpentWhileAlive(oracle: Oracle, es: seq<Event>, j: nat) returns (c: nat, k: nat)
    requires Valid(oracle, START, es)
    requires j < |Exec(oracle, START, es).log| && Exec(oracle, START, es).log[j].note.Spent?
    ensures var log := Exec(oracle, START, es).log;
            && k < c < j && log[c].tid == log[j].tid && log[c].note.Checked? && log[c].note.body == log[j].note.body
            && log[k].note.Created? && log[k].note.body == log[j].note.body && log[c].note.at < log[k].note.expiresAt
  {
    hide RequestsLinked, NamesLinked, ChallengesLinked, RecoveriesLinked, RowsLinked, Exec, Valid;
    RunHolds(oracle, es);
    c, k := SpendIsChecked(oracle, Exec(oracle, START, es).log, j);
  }

  /** In any run one request registers at most one address. */
  lemma OneRowPerRequest(oracle: Oracle, es: seq<Event>, i: nat, j: nat)
    requires Valid(oracle, START, es)
    requires var log := Exec(oracle, START, es).log;
             i < |log| && j < |log| && Makes(log[i].note).Some? && Makes(log[j].note).Some? && log[i].tid == log[j].tid
    ensures i == j
  {
    hide RequestsLinked, NamesLinked, ChallengesLinked, RecoveriesLinked, RowsLinked, Exec, Valid;
    RunHolds(oracle, es);
    RegistrationsDiffer(oracle, Exec(oracle, START, es).log, i, j);
  }

  /** No two rows ever registered, by claim, add or recovery, share a nonce. */
  lemma NonceMakesOneRow(oracle: Oracle, es: seq<Event>, i: nat, j: nat)
    requires Valid(oracle, START, es)
    requires var log := Exec(oracle, START, es).log;
             i < |log| && j < |log| && Makes(log[i].note).Some? && Makes(log[j].note).Some?
             && Makes(log[i].note).value.2.nonce == Makes(log[j].note).value.2.nonce
    ensures i == j
  {
    hide RequestsLinked, NamesLinked, ChallengesLinked, RecoveriesLinked, RowsLinked, Exec, Valid;
    RunHolds(oracle, es);
    var log := Exec(oracle, START, es).log;
    var i', _, _ := RegistrationIsProven(oracle, log, i);
    var j', _, _ := RegistrationIsProven(oracle, log, j);
    SpendsDiffer(oracle, log, i', j');
    RegistrationsDiffer(oracle, log, i, j);
  }

  /** A row's identifier names one registered address for good. */
  lemma RowIdsAreUnique(oracle: Oracle, es: seq<Event>, id: Id, r: Row, r': Row)
    requires Valid(oracle, START, es)
    requires var rows := RowsOf(Exec(oracle, START, es).db, id); r in rows && r' in rows && r.id == r'.id
    ensures SameAccount(r, r')
  {
    hide RequestsLinked, NamesLinked, ChallengesLinked, RecoveriesLinked, RowsLinked, Exec, Valid;
    RunHolds(oracle, es);
    var log := Exec(oracle, START, es).log;
    var i, _, _, _ := EveryRowIsProven(oracle, es, id, r);
    var i', _, _, _ := EveryRowIsProven(oracle, es, id, r');
    RowMadeOnce(oracle, log, i, i');
  }

  lemma RowMadeOnce(oracle: Oracle, log: seq<Entry>, i: nat, j: nat)
    requires Sound(oracle, log) && i < |log| && j < |log|
    requires Makes(log[i].note).Some? && Makes(log[j].note).Some? && Makes(log[i].note).value.0 == Makes(log[j].note).value.0
    ensures i == j
  {
    if i < j {
      Earlier(oracle, log, i, j);
    } else if j < i {
      Earlier(oracle, log, j, i);
    }
  }

  // ---------- Recovery ----------

  /** In every interleaving: attempts and signature checks under one token never pass five. */
  lemma TokenIsBounded(oracle: Oracle, es: seq<Event>, hash: Hash)
    requires Valid(oracle, START, es)
    ensures var s := Exec(oracle, START, es);
            && Checks(s.log, hash) <= Attempts(s.log, hash) <= RECOVERY_MAX_ATTEMPTS
            && (hash in s.db.recoveries ==> s.db.recoveries[hash].attempts == Attempts(s.log, hash))
  {
    RunHolds(oracle, es);
    ChecksAtMostAttempts(oracle, Exec(oracle, START, es).log, hash);
  }

  /** Each token hands over at most one alias, at most once. */
  lemma TokenTransfersOnce(oracle: Oracle, es: seq<Event>, i: nat, j: nat)
    requires Valid(oracle, START, es)
    requires var log := Exec(oracle, START, es).log;
             i < |log| && j < |log| && log[i].note.Transferred? && log[j].note.Transferred?
             && log[i].note.hash == log[j].note.hash
    ensures i == j
  {
    hide RequestsLinked, NamesLinked, ChallengesLinked, RecoveriesLinked, RowsLinked, Exec, Valid;
    RunHolds(oracle, es);
    var log := Exec(oracle, START, es).log;
    if i < j {
      Earlier(oracle, log, i, j);
    } else if j < i {
      Earlier(oracle, log, j, i);
    }
  }

  /** Each transfer was counted against its token and spent its own RECOVER challenge, signed by the new address. */
  lemma TransferIsProven(oracle: Oracle, es: seq<Event>, i: nat) returns (a: nat, j: nat, c: nat, k: nat)
    requires Valid(oracle, START, es)
    requires i < |Exec(oracle, START, es).log| && Exec(oracle, START, es).log[i].note.Transferred?
    ensures var log := Exec(oracle, START, es).log;
            && a < i && log[a] == Entry(log[i].tid, Counted(log[i].note.hash))
            && Proven(oracle, log, i, j, c, k) && log[j].note.body.purpose == RECOVER
  {
    hide RequestsLinked, NamesLinked, ChallengesLinked, RecoveriesLinked, RowsLinked, Exec, Valid;
    RunHolds(oracle, es);
    var log := Exec(oracle, START, es).log;
    SoundAt(oracle, log, i);
    a :| 0 <= a < i && log[a] == Entry(log[i].tid, Counted(log[i].note.hash));
    j, c, k := RegistrationIsProven(oracle, log, i);
  }

  /** An alias changes hands only in a noted transfer, and then its only row is the one the new address signed for. */
  lemma OwnerChangesByTransfer(oracle: Oracle, db: Db, now: int, rnd: string, pc: Pc, id: Id)
    requires rnd !in db.aliases && id in db.aliases && id in Step(oracle, db, now, rnd, pc).db.aliases
    ensures var out := Step(oracle, db, now, rnd, pc);
            var alias := out.db.aliases[id];
            if out.note.Transferred? && out.note.alias == id
            then pc.Consumed? && pc.target.ForRecovery? && alias.consumer == pc.target.complete.consumer == out.note.consumer
                 && alias.rows == [Row(rnd, pc.body.chain, pc.body.address, pc.body.network, true)]
                 && alias.name == db.aliases[id].name && alias.email == db.aliases[id].email
            else alias.consumer == db.aliases[id].consumer
  {
    if pc.Consumed? {
      hide CountGroup;
    } else {
      hide Step;
      StepLeavesOwner(oracle, db, now, rnd, pc, id);
    }
  }

  lemma StepLeavesOwner(oracle: Oracle, db: Db, now: int, rnd: string, pc: Pc, id: Id)
    requires !pc.Consumed? && id in db.aliases && id in Step(oracle, db, now, rnd, pc).db.aliases
    ensures var out := Step(oracle, db, now, rnd, pc);
            !out.note.Transferred? && out.db.aliases[id].consumer == db.aliases[id].consumer
  {
    hide PlaceRow, RemoveRow, CountHeld, CountGroup, IndexOfRow, RecentlyMailed, InsertedRow, Spendable, Verifies,
      Live, Countable, Unconsumed;
  }

  /** No step of `tid` in the run changes a table. */
  ghost predicate WritesNothing(oracle: Oracle, s: System, es: seq<Event>, tid: Tid)
    requires Valid(oracle, s, es)
    decreases |es|
  {
    es == []
    || ((es[0].Run? && es[0].tid == tid ==> Apply(oracle, s, es[0]).db == s.db)
        && WritesNothing(oracle, Apply(oracle, s, es[0]), es[1..], tid))
  }

  /** Whenever `tid` is about to look its token up, the token names no live recovery of the alias it found. */
  ghost predicate TokenNeverLive(oracle: Oracle, s: System, es: seq<Event>, tid: Tid, c: Complete)
    requires Valid(oracle, s, es)
    decreases |es|
  {
    && (tid in s.requests && s.requests[tid].RecoverFound? ==> !Live(s.db, s.requests[tid].alias, Hash(c.token), s.clock))
    && (es == [] || TokenNeverLive(oracle, Apply(oracle, s, es[0]), es[1..], tid, c))
  }

  predicate Unanswered(pc: Pc, c: Complete) {
    pc == Begin(ToComplete(c)) || (pc.RecoverFound? && pc.complete == c)
    || pc == Done(Failed(RecoveryInvalid)) || pc == Done(Failed(NotFound))
  }

  /** A token that names no live recovery of that alias is refused, and changes no table. */
  lemma {:induction false} JunkTokenWritesNothing(oracle: Oracle, s: System, es: seq<Event>, tid: Tid, c: Complete)
    requires Valid(oracle, s, es)
    requires tid in s.requests && Unanswered(s.requests[tid], c)
    requires TokenNeverLive(oracle, s, es, tid, c)
    ensures WritesNothing(oracle, s, es, tid)
    ensures var s' := Exec(oracle, s, es); tid in s'.requests && Unanswered(s'.requests[tid], c)
    decreases |es|
  {
    if es != [] {
      JunkTokenWritesNothing(oracle, Apply(oracle, s, es[0]), es[1..], tid, c);
    }
  }

  // ---------- Challenges ----------

  /** Consumed stays consumed for as long as the row is there, and a deleted nonce never comes back. */
  ghost predicate NoRevival(s: System, s': System) {
    forall n :: n in s.used && Unconsumed(s'.db, n) ==> Unconsumed(s.db, n)
  }

  lemma {:induction false} ConsumedForGood(oracle: Oracle, s: System, es: seq<Event>)
    requires Inv(oracle, s) && Valid(oracle, s, es)
    ensures NoRevival(s, Exec(oracle, s, es)) && s.used <= Exec(oracle, s, es).used
    decreases |es|
  {
    hide Inv, Apply, Enabled, Unconsumed;
    if es != [] {
      var s' := Apply(oracle, s, es[0]);
      NoRevivalAtOnce(oracle, s, es[0]);
      StepKeepsInv(oracle, s, es[0]);
      ConsumedForGood(oracle, s', es[1..]);
    }
  }

  lemma NoRevivalAtOnce(oracle: Oracle, s: System, e: Event)
    requires Inv(oracle, s) && Enabled(s, e)
    ensures NoRevival(s, Apply(oracle, s, e)) && s.used <= Apply(oracle, s, e).used
  {
    hide Step, RecoveriesFollow, AliasesFollow, RequestsLinked, NamesLinked, RecoveriesLinked, RowsLinked, Sound;
    if e.Run? {
      RunFollowsTables(oracle, s, e.tid, e.rnd);
    }
  }

  /** A signature that does not verify is answered without consuming the challenge or writing anything. */
  lemma BadSignatureConsumesNothing(oracle: Oracle, db: Db, now: int, rnd: string, body: Body, signature: string, target: Target)
    requires !Verifies(oracle, body, signature)
    ensures var out := Step(oracle, db, now, rnd, Spending(body, signature, target));
            out.db == db && out.pc == Done(Failed(if Spendable(db, body, now) then SignatureInvalid else ChallengeInvalid))
  {
  }

  /** The signature is about to be checked, or the request was refused there. */
  predicate Refused(pc: Pc, body: Body, signature: string) {
    (pc.Spending? && pc.body == body && pc.signature == signature)
    || pc == Done(Failed(SignatureInvalid)) || pc == Done(Failed(ChallengeInvalid))
  }

  /** In any interleaving a request whose signature does not verify ends refused, and from there on changes no table. */
  lemma {:induction false} BadSignatureWritesNothing(
      oracle: Oracle, s: System, es: seq<Event>, tid: Tid, body: Body, signature: string)
    requires Valid(oracle, s, es) && !Verifies(oracle, body, signature)
    requires tid in s.requests && Refused(s.requests[tid], body, signature)
    ensures WritesNothing(oracle, s, es, tid)
    ensures var s' := Exec(oracle, s, es); tid in s'.requests && Refused(s'.requests[tid], body, signature)
    decreases |es|
  {
    hide Verifies, Step;
    if es != [] {
      if es[0].Run? && es[0].tid == tid {
        RefusedStays(oracle, s.db, s.clock, es[0].rnd, s.requests[tid], body, signature);
      }
      BadSignatureWritesNothing(oracle, Apply(oracle, s, es[0]), es[1..], tid, body, signature);
    }
  }

  lemma RefusedStays(oracle: Oracle, db: Db, now: int, rnd: string, pc: Pc, body: Body, signature: string)
    requires Refused(pc, body, signature) && !Verifies(oracle, body, signature)
    ensures var out := Step(oracle, db, now, rnd, pc); out.db == db && Refused(out.pc, body, signature)
  {
    hide Verifies, Spendable;
    if pc.Spending? {
      BadSignatureConsumesNothing(oracle, db, now, rnd, body, signature, pc.target);
    }
  }
}
