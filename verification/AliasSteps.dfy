/** What one statement of any request can do to each table. */
module AliasSteps {
  import opened Common
  import opened AliasSigning
  import opened AliasTables
  import opened AliasProtocol

  // ---------- Challenges ----------

  /** The note that left this challenge. */
  function CreatedAs(c: Challenge): Note {
    Created(c.body, c.alias, c.expiresAt)
  }

  /** Only a fresh row appears, only `consumed` changes, only from false to true, and only by a noted spend. */
  ghost predicate ChallengesFollow(db: Db, out: Out, rnd: string) {
    && (forall n :: n in out.db.challenges && n !in db.challenges ==>
      n == rnd && out.note == CreatedAs(out.db.challenges[n]) && n == out.db.challenges[n].body.nonce
      && !out.db.challenges[n].consumed)
    && (forall n :: n in out.db.challenges && n in db.challenges && n != rnd ==>
      out.db.challenges[n] == db.challenges[n]
      || (out.note.Spent? && out.note.body.nonce == n && out.db.challenges[n] == db.challenges[n].(consumed := true)))
    && (out.note.Spent? ==> Unconsumed(db, out.note.body.nonce) && !Unconsumed(out.db, out.note.body.nonce))
    && (out.note.Created? ==> out.note.body.nonce == rnd)
  }

  // ---------- Recoveries ----------

  /** Only a fresh row appears, spent rows stay spent, and attempts move by one, noted, and only below the cap. */
  ghost predicate RecoveriesFollow(db: Db, out: Out, rnd: string) {
    && (forall h :: h in out.db.recoveries && h !in db.recoveries ==>
      h == Hash(rnd) && out.db.recoveries[h].attempts == 0 && !out.db.recoveries[h].consumed
      && out.note == Quiet && out.db.recoveries[h].expiresAt == out.db.recoveries[h].createdAt + RECOVERY_TTL_MS)
    && (forall h :: h in out.db.recoveries && h in db.recoveries && h != Hash(rnd) ==>
      var r, r' := db.recoveries[h], out.db.recoveries[h];
      && r'.alias == r.alias && r'.expiresAt == r.expiresAt && r'.createdAt == r.createdAt
      && (r.consumed ==> r'.consumed)
      && r'.attempts == r.attempts + if out.note == Counted(h) then 1 else 0)
    && (out.note.Counted? ==>
      var h := out.note.hash;
      h in db.recoveries && h in out.db.recoveries && db.recoveries[h].attempts < RECOVERY_MAX_ATTEMPTS)
    && (out.note.Transferred? ==> Unspent(db, out.note.hash) && !Unspent(out.db, out.note.hash))
  }

  // ---------- Aliases and their rows ----------

  predicate SameAccount(r: Row, r': Row) {
    r'.id == r.id && r'.chain == r.chain && r'.address == r.address && r'.network == r.network
  }

  /** Every row of `rows'` is a row of `rows`, its default flag aside, or the new one. */
  ghost predicate RowsFrom(rows: seq<Row>, rows': seq<Row>) {
    forall r' :: r' in rows' ==> exists r :: r in rows && SameAccount(r, r')
  }

  lemma RowsFromSelf(rows: seq<Row>)
    ensures RowsFrom(rows, rows)
  {
    forall r' | r' in rows
      ensures exists r :: r in rows && SameAccount(r, r')
    {
      assert SameAccount(r', r');
    }
  }

  lemma RemoveRowKeeps(rows: seq<Row>, row: Row)
    requires RemoveRow(rows, row).Some?
    ensures RowsFrom(rows, RemoveRow(rows, row).value)
    ensures |RemoveRow(rows, row).value| == |rows| - 1
  {
    var k := IndexOfRow(rows, row.id);
    var rest, rows' := Without(rows, k), RemoveRow(rows, row).value;
    forall i | 0 <= i < |rows'|
      ensures exists r :: r in rows && SameAccount(r, rows'[i])
    {
      assert SameAccount(rest[i], rows'[i]);
      assert rest[i] == rows[if i < k then i else i + 1];
      assert rest[i] in rows;
    }
  }

  /** The row a note registers: (row id, alias, the body its signature was over). */
  function Makes(note: Note): Option<(Id, Id, Body)> {
    match note
    case Registered(rowId, alias, body) => Some((rowId, alias, body))
    case Transferred(_, rowId, alias, _, body) => Some((rowId, alias, body))
    case _ => None
  }

  predicate IsRowOf(row: Row, body: Body) {
    row.chain == body.chain && row.address == body.address && row.network == body.network
  }

  predicate MadeBy(row: Row, alias: Id, note: Note, rnd: string) {
    row.id == rnd && Makes(note).Some? && Makes(note).value.0 == rnd && Makes(note).value.1 == alias
    && IsRowOf(row, Makes(note).value.2)
  }

  lemma PlaceRowKeeps(rows: seq<Row>, row: Row, alias: Id, note: Note)
    requires PlaceRow(rows, row).Some? && MadeBy(row, alias, note, row.id)
    ensures forall r' :: r' in PlaceRow(rows, row).value ==>
      (exists r :: r in rows && SameAccount(r, r')) || MadeBy(r', alias, note, row.id)
    ensures |PlaceRow(rows, row).value| == |rows| + 1
  {
    var rows' := PlaceRow(rows, row).value;
    forall i | 0 <= i < |rows'|
      ensures (exists r :: r in rows && SameAccount(r, rows'[i])) || MadeBy(rows'[i], alias, note, row.id)
    {
      if i < |rows| {
        assert rows[i] in rows && SameAccount(rows[i], rows'[i]);
      }
    }
  }

  ghost predicate RowsFollow(db: Db, out: Out, rnd: string, id: Id)
    requires id in out.db.aliases
  {
    forall r' :: r' in out.db.aliases[id].rows ==>
      (exists r :: r in RowsOf(db, id) && SameAccount(r, r')) || MadeBy(r', id, out.note, rnd)
  }

  /** Names never change, only a fresh alias appears, and a row is an old one or the one the note registers. */
  ghost predicate AliasesFollow(db: Db, out: Out, rnd: string) {
    && (forall id :: id in out.db.aliases && id !in db.aliases ==>
      id == rnd && out.note.Registered? && out.note.alias == id && out.note.body.name == out.db.aliases[id].name)
    && (forall id :: id in out.db.aliases && id in db.aliases && id != rnd ==>
      out.db.aliases[id].name == db.aliases[id].name && out.db.aliases[id].email == db.aliases[id].email)
    && (forall id :: id in out.db.aliases ==> RowsFollow(db, out, rnd, id))
  }

  lemma SameRows(db: Db, out: Out, rnd: string, id: Id)
    requires id in out.db.aliases && out.db.aliases[id].rows == RowsOf(db, id)
    ensures RowsFollow(db, out, rnd, id)
  {
    RowsFromSelf(RowsOf(db, id));
  }

  // ---------- One statement, every table ----------

  ghost predicate StepFollows(db: Db, out: Out, rnd: string) {
    ChallengesFollow(db, out, rnd) && RecoveriesFollow(db, out, rnd) && AliasesFollow(db, out, rnd)
  }

  lemma AliasesStay(db: Db, out: Out, rnd: string)
    requires out.db.aliases == db.aliases
    ensures AliasesFollow(db, out, rnd)
  {
    forall id | id in out.db.aliases
      ensures RowsFollow(db, out, rnd, id)
    {
      SameRows(db, out, rnd, id);
    }
  }

  lemma ReadFollows(db: Db, out: Out, rnd: string)
    requires out.db == db && (out.note == Quiet || out.note.Checked?)
    ensures StepFollows(db, out, rnd)
  {
    AliasesStay(db, out, rnd);
  }

  lemma OpenFollows(c: NewChallenge, alias: Option<Id>, db: Db, now: int, rnd: string)
    requires rnd !in db.challenges
    ensures StepFollows(db, Open(c, alias, db, now, rnd), rnd)
  {
    AliasesStay(db, Open(c, alias, db, now, rnd), rnd);
  }

  lemma BeginFollows(request: Request, db: Db, now: int, rnd: string)
    requires rnd !in db.challenges
    ensures StepFollows(db, BeginStep(request, db, now, rnd), rnd)
  {
    hide Open, StepFollows;
    if request.ToChallenge? && request.challenge.purpose == CLAIM {
      OpenFollows(request.challenge, None, db, now, rnd);
    } else {
      ReadFollows(db, BeginStep(request, db, now, rnd), rnd);
    }
  }

  lemma RemoveFollows(id: Id, row: Row, db: Db, rnd: string)
    ensures StepFollows(db, RemoveStep(id, row, db), rnd)
  {
    hide RemoveRow;
    var out := RemoveStep(id, row, db);
    forall a | a in out.db.aliases
      ensures RowsFollow(db, out, rnd, a)
    {
      if out.db.aliases[a].rows == RowsOf(db, a) {
        SameRows(db, out, rnd, a);
      } else {
        RemoveRowKeeps(RowsOf(db, a), row);
      }
    }
  }

  lemma ReleaseFollows(id: Id, db: Db, rnd: string)
    ensures StepFollows(db, ReleaseStep(id, db), rnd)
  {
    var out := ReleaseStep(id, db);
    forall a | a in out.db.aliases
      ensures RowsFollow(db, out, rnd, a)
    {
      SameRows(db, out, rnd, a);
    }
  }

  lemma BurnFollows(s: Start, id: Id, db: Db, rnd: string)
    ensures StepFollows(db, Out(BurnRecoveries(db, id), StartBurned(s, id), Quiet), rnd)
  {
    AliasesStay(db, Out(BurnRecoveries(db, id), StartBurned(s, id), Quiet), rnd);
  }

  lemma TokenFollows(s: Start, id: Id, db: Db, now: int, rnd: string)
    requires Hash(rnd) !in db.recoveries
    ensures StepFollows(db, TokenStep(s, id, db, now, rnd), rnd)
  {
    AliasesStay(db, TokenStep(s, id, db, now, rnd), rnd);
  }

  lemma CountFollows(c: Complete, id: Id, db: Db, now: int, rnd: string)
    ensures StepFollows(db, CountStep(c, id, db, now), rnd)
  {
    AliasesStay(db, CountStep(c, id, db, now), rnd);
  }

  lemma SpendFollows(body: Body, signature: string, target: Target, checkedAt: int, db: Db, rnd: string)
    ensures StepFollows(db, SpendStep(body, signature, target, checkedAt, db), rnd)
  {
    AliasesStay(db, SpendStep(body, signature, target, checkedAt, db), rnd);
  }

  lemma RegisterAliases(body: Body, target: Target, db: Db, rnd: string)
    requires rnd !in db.aliases
    requires target.ForClaim? ==> target.claim.name == body.name
    ensures AliasesFollow(db, RegisterStep(body, target, db, rnd), rnd)
  {
    var out := RegisterStep(body, target, db, rnd);
    forall id | id in out.db.aliases
      ensures RowsFollow(db, out, rnd, id)
    {
      if out.db.aliases[id].rows == RowsOf(db, id) {
        SameRows(db, out, rnd, id);
      } else {
        assert out.db.aliases[id].rows == [InsertedRow(body, rnd, true)];
      }
    }
  }

  lemma RegisterRecoveries(body: Body, target: Target, db: Db, rnd: string)
    ensures RecoveriesFollow(db, RegisterStep(body, target, db, rnd), rnd)
  {
    hide CountGroup, InsertedRow;
  }

  lemma RegisterFollows(body: Body, target: Target, db: Db, rnd: string)
    requires rnd !in db.aliases
    requires target.ForClaim? ==> target.claim.name == body.name
    ensures StepFollows(db, RegisterStep(body, target, db, rnd), rnd)
  {
    hide AliasesFollow, RecoveriesFollow, CountGroup, InsertedRow;
    RegisterAliases(body, target, db, rnd);
    RegisterRecoveries(body, target, db, rnd);
  }

  lemma PlaceAliases(body: Body, id: Id, primary: bool, db: Db, rnd: string)
    requires rnd !in db.aliases
    ensures AliasesFollow(db, PlaceStep(body, id, primary, db, rnd), rnd)
  {
    hide PlaceRow;
    var out := PlaceStep(body, id, primary, db, rnd);
    forall a | a in out.db.aliases
      ensures RowsFollow(db, out, rnd, a)
    {
      hide RowsFrom;
      if out.db.aliases[a].rows == RowsOf(db, a) {
        SameRows(db, out, rnd, a);
      } else {
        PlaceRowKeeps(RowsOf(db, a), InsertedRow(body, rnd, primary), a, out.note);
      }
    }
  }

  lemma PlaceFollows(body: Body, id: Id, primary: bool, db: Db, rnd: string)
    requires rnd !in db.aliases
    ensures StepFollows(db, PlaceStep(body, id, primary, db, rnd), rnd)
  {
    hide PlaceRow, AliasesFollow, InsertedRow, RowsOf;
    PlaceAliases(body, id, primary, db, rnd);
  }

  lemma ReadOnly(oracle: Oracle, db: Db, now: int, rnd: string, pc: Pc)
    requires pc.ClaimAllowed? || pc.AddOwned? || pc.RemoveOwned? || pc.RowFound? || pc.StartFound? || pc.RecoverFound?
             || pc.Spending? || pc.Done?
    ensures var out := Step(oracle, db, now, rnd, pc); out.db == db && (out.note == Quiet || out.note.Checked?)
  {
  }

  /** `rnd` is in none of the tables. */
  predicate Unused(db: Db, rnd: string) {
    rnd !in db.aliases && rnd !in db.challenges && Hash(rnd) !in db.recoveries
  }

  lemma AnyStepFollows(oracle: Oracle, db: Db, now: int, rnd: string, pc: Pc)
    requires Unused(db, rnd)
    requires pc.Consumed? && pc.target.ForClaim? ==> pc.target.claim.name == pc.body.name
    ensures StepFollows(db, Step(oracle, db, now, rnd, pc), rnd)
  {
    hide StepFollows, BeginStep, Open, RemoveStep, ReleaseStep, BurnRecoveries, TokenStep, CountStep, SpendStep,
      RegisterStep, PlaceStep, ClaimStep, AddStep, FindRowStep, CountRowsStep, MailStep, LookUpStep, CheckStep;
    match pc {
      case Begin(request) => BeginFollows(request, db, now, rnd);
      case ChallengeFor(c, id) => OpenFollows(c, Some(id), db, now, rnd);
      case RemoveAllowed(id, row) => RemoveFollows(id, row, db, rnd);
      case ReleaseOwned(id) => ReleaseFollows(id, db, rnd);
      case StartQuiet(s, id) => BurnFollows(s, id, db, rnd);
      case StartBurned(s, id) => TokenFollows(s, id, db, now, rnd);
      case TokenLive(c, id) => CountFollows(c, id, db, now, rnd);
      case Verified(body, signature, target, checkedAt) => SpendFollows(body, signature, target, checkedAt, db, rnd);
      case Consumed(body, target) => RegisterFollows(body, target, db, rnd);
      case Placing(body, id, primary) => PlaceFollows(body, id, primary, db, rnd);
      case _ =>
        ReadOnly(oracle, db, now, rnd, pc);
        ReadFollows(db, Step(oracle, db, now, rnd, pc), rnd);
    }
  }

  // ---------- How rows change ----------

  /** An alias's rows stay, or become the single default a claim or a recovery registers, or are added to or removed from. */
  predicate RowsChange(db: Db, pc: Pc, rnd: string, id: Id, rows: seq<Row>) {
    || (id in db.aliases && rows == db.aliases[id].rows)
    || (pc.Consumed? && !pc.target.ForAdd? && rows == [InsertedRow(pc.body, rnd, true)])
    || (pc.Placing? && pc.alias == id && id in db.aliases
        && PlaceRow(RowsOf(db, id), InsertedRow(pc.body, rnd, pc.primary)) == Some(rows))
    || (pc.RemoveAllowed? && pc.alias == id && id in db.aliases && RemoveRow(RowsOf(db, id), pc.row) == Some(rows))
  }

  lemma StepRows(oracle: Oracle, db: Db, now: int, rnd: string, pc: Pc, id: Id)
    requires id in Step(oracle, db, now, rnd, pc).db.aliases
    ensures RowsChange(db, pc, rnd, id, Step(oracle, db, now, rnd, pc).db.aliases[id].rows)
  {
    hide PlaceRow, RemoveRow, CountHeld, CountGroup, IndexOfRow, RecentlyMailed, InsertedRow, Spendable, Live;
  }
}
