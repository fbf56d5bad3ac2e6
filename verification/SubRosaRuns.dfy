/**
 * Sub Rosa commands run at once: any number of them, each read, decision and
 * compare-and-set interleaved with every other, against one at a time.
 */
module SubRosaRuns {
  import opened Common
  import opened SubRosa

  // ---------- The system ----------

  /** `since`: how much of the log there was when the command came. `at`: when it read its record. */
  datatype Pc =
    | Begin(command: Command, since: nat)
    | Asking(command: Command, since: nat, at: nat, current: Record)  // for the payment intent
    | Writing(command: Command, since: nat, at: nat, readings: Readings, expected: Option<Record>, next: Record)
    | Done(answer: Answer)

  /**
   * A command that has answered. `at` is where in the log it takes effect: before
   * `log[at]`, and before itself at the latest.
   */
  datatype Entry = Entry(tid: nat, command: Command, readings: Readings, since: nat, at: nat, answer: Answer, wrote: bool)

  /** A command as it came, and how much of the log there was. */
  datatype Call = Call(command: Command, since: nat)

  /** `asked` keeps every call as it came, answered or not. */
  datatype System = System(store: Store, clock: int, calls: map<nat, Pc>, asked: map<nat, Call>, log: seq<Entry>)

  const START := System(map[], 0, map[], map[], [])

  datatype Event =
    | Arrive(tid: nat, command: Command)
    | Run(tid: nat, intent: Option<Intent>)  // what the core answers, should the step ask it
    | Tick(to: int)

  predicate Enabled(s: System, e: Event) {
    match e
    case Arrive(tid, _) => tid !in s.calls
    case Run(tid, _) => tid in s.calls
    case Tick(to) => s.clock <= to
  }

  /** Answers without writing; it takes effect where it read. */
  function Answering(s: System, tid: nat, c: Command, r: Readings, since: nat, at: nat, answer: Answer): System {
    s.(calls := s.calls[tid := Done(answer)], log := s.log + [Entry(tid, c, r, since, at, answer, false)])
  }

  /** `compareAndSet`: insert when `expected` is None, else replace a record equal to it. */
  predicate Matches(store: Store, id: Id, expected: Option<Record>) {
    match expected
    case None => id !in store
    case Some(record) => id in store && store[id] == record
  }

  /** From the command's arrival to its first wait. */
  function BeginStep(hasher: Hasher, s: System, tid: nat, c: Command, since: nat): System {
    var r, at := Readings(s.clock, None), |s.log|;
    if c.Create? then (
      match NewRecord(hasher, c, s.clock)
      case Err(e) => Answering(s, tid, c, r, since, at, Failed(e))
      case Ok(record) => s.(calls := s.calls[tid := Writing(c, since, at, r, None, record)]))
    else if c.id.None? then Answering(s, tid, c, r, since, at, Failed(Malformed))
    else if c.id.value !in s.store then Answering(s, tid, c, r, since, at, Failed(NotFound))
    else
      var current := s.store[c.id.value];
      if c.LinkPayment? && BeforeIntent(c, current).None? then s.(calls := s.calls[tid := Asking(c, since, at, current)])
      else Decided(s, tid, c, r, since, at, current)
  }

  /** The decision is made: answer, or go on to the write. */
  function Decided(s: System, tid: nat, c: Command, r: Readings, since: nat, at: nat, current: Record): System
    requires !c.Create?
  {
    match Decide(c, current, r)
    case Err(e) => Answering(s, tid, c, r, since, at, Failed(e))
    case Ok(next) =>
      if next == current then Answering(s, tid, c, r, since, at, Answered(next))
      else s.(calls := s.calls[tid := Writing(c, since, at, r, Some(current), next)])
  }

  /** The compare-and-set. */
  function WriteStep(s: System, tid: nat, c: Command, since: nat, at: nat, r: Readings, expected: Option<Record>, next: Record): System
    requires c.id.Some?
  {
    var id := c.id.value;
    if Matches(s.store, id, expected) then
      System(s.store[id := next], s.clock, s.calls[tid := Done(Answered(next))], s.asked,
             s.log + [Entry(tid, c, r, since, |s.log|, Answered(next), true)])
    else if expected.None? then Answering(s, tid, c, r, since, |s.log|, Failed(AlreadyExists))
    else Answering(s, tid, c, r, since, at, Failed(Changed))
  }

  function Apply(hasher: Hasher, s: System, e: Event): System
    requires Enabled(s, e)
  {
    match e
    case Arrive(tid, c) => s.(calls := s.calls[tid := Begin(c, |s.log|)], asked := s.asked[tid := Call(c, |s.log|)])
    case Tick(to) => s.(clock := to)
    case Run(tid, intent) =>
      match s.calls[tid]
      case Begin(c, since) => BeginStep(hasher, s, tid, c, since)
      case Asking(c, since, at, current) =>
        if c.Create? then s else Decided(s, tid, c, Readings(s.clock, intent), since, at, current)
      case Writing(c, since, at, r, expected, next) =>
        if c.id.None? then s else WriteStep(s, tid, c, since, at, r, expected, next)
      case Done(_) => s
  }

  predicate Valid(hasher: Hasher, s: System, es: seq<Event>)
    decreases |es|
  {
    es == [] || (Enabled(s, es[0]) && Valid(hasher, Apply(hasher, s, es[0]), es[1..]))
  }

  function Exec(hasher: Hasher, s: System, es: seq<Event>): System
    requires Valid(hasher, s, es)
    decreases |es|
  {
    if es == [] then s else Exec(hasher, Apply(hasher, s, es[0]), es[1..])
  }

  // ---------- One at a time ----------

  /** The store after the logged writes alone, each run whole at its place in the log. */
  function Serial(hasher: Hasher, log: seq<Entry>): Store {
    if log == [] then map[]
    else
      var before, e := Serial(hasher, log[..|log| - 1]), log[|log| - 1];
      if e.wrote then Alone(hasher, before, e.command, e.readings).0 else before
  }

  /** The answer `e` gave is the one its command gives alone at its place, between its arrival and its answer. */
  predicate Explained(hasher: Hasher, log: seq<Entry>, e: Entry) {
    && e.since <= e.at <= |log|
    && var store := Serial(hasher, log[..e.at]);
    var (store', answer) := Alone(hasher, store, e.command, e.readings);
    if e.wrote then e.at == |log| && answer == e.answer && e.answer.Answered? && store' != store
    else if e.answer == Failed(Changed) then
      // It lost: alone it would have written, but its record changed in between.
      answer.Answered? && e.command.id.Some? && e.command.id.value in store
      && !Matches(Serial(hasher, log), e.command.id.value, Some(store[e.command.id.value]))
    else answer == e.answer && store' == store
  }

  predicate AllExplained(hasher: Hasher, log: seq<Entry>) {
    log == [] || (AllExplained(hasher, log[..|log| - 1]) && Explained(hasher, log[..|log| - 1], log[|log| - 1]))
  }

  /** What a waiting command holds is what the store held where it read. */
  predicate Held(hasher: Hasher, log: seq<Entry>, pc: Pc) {
    match pc
    case Begin(c, since) => since <= |log|
    case Asking(c, since, at, current) =>
      && since <= at <= |log| && c.LinkPayment? && c.id.Some?
      && Matches(Serial(hasher, log[..at]), c.id.value, Some(current)) && BeforeIntent(c, current).None?
    case Writing(c, since, at, r, expected, next) =>
      && since <= at <= |log| && c.id.Some?
      && (match expected
          case None => c.Create? && NewRecord(hasher, c, r.now) == Ok(next)
          case Some(current) =>
            && !c.Create? && Matches(Serial(hasher, log[..at]), c.id.value, expected)
            && Decide(c, current, r) == Ok(next) && next != current)
    case Done(_) => true
  }

  ghost predicate Inv(hasher: Hasher, s: System) {
    && s.store == Serial(hasher, s.log)
    && AllExplained(hasher, s.log)
    && forall tid :: tid in s.calls ==> Held(hasher, s.log, s.calls[tid])
  }

  lemma SerialAppend(hasher: Hasher, log: seq<Entry>, e: Entry)
    ensures Serial(hasher, log + [e]) ==
      if e.wrote then Alone(hasher, Serial(hasher, log), e.command, e.readings).0 else Serial(hasher, log)
  {
    assert (log + [e])[..|log|] == log;
  }

  lemma HeldLater(hasher: Hasher, log: seq<Entry>, e: Entry, pc: Pc)
    requires Held(hasher, log, pc)
    ensures Held(hasher, log + [e], pc)
  {
    hide Serial;
    if pc.Asking? || pc.Writing? {
      assert (log + [e])[..pc.at] == log[..pc.at];
    }
  }

  /** A step of call `tid` that logs `e`, or nothing. */
  ghost predicate Logs(s: System, s': System, tid: nat, e: Option<Entry>) {
    && s'.log == (if e.Some? then s.log + [e.value] else s.log)
    && tid in s'.calls && s'.calls == s.calls[tid := s'.calls[tid]]
  }

  lemma LogKeepsInv(hasher: Hasher, s: System, s': System, tid: nat, e: Option<Entry>)
    requires Inv(hasher, s) && tid in s.calls && Logs(s, s', tid, e)
    requires e.Some? ==> Explained(hasher, s.log, e.value)
    requires Held(hasher, s'.log, s'.calls[tid])
    requires s'.store == if e.Some? && e.value.wrote then Alone(hasher, s.store, e.value.command, e.value.readings).0 else s.store
    ensures Inv(hasher, s')
  {
    hide Held, Explained, Alone, Serial;
    if e.Some? {
      SerialAppend(hasher, s.log, e.value);
      assert (s.log + [e.value])[..|s.log|] == s.log;
    }
    forall t | t in s'.calls
      ensures Held(hasher, s'.log, s'.calls[t])
    {
      if t != tid && e.Some? {
        HeldLater(hasher, s.log, e.value, s.calls[t]);
      }
    }
  }

  lemma WholeLog(log: seq<Entry>)
    ensures log[..|log|] == log
  {
  }

  lemma AnsweredHere(hasher: Hasher, s: System, tid: nat, c: Command, r: Readings, since: nat, at: nat, answer: Answer)
    requires Inv(hasher, s) && tid in s.calls
    requires Explained(hasher, s.log, Entry(tid, c, r, since, at, answer, false))
    ensures Inv(hasher, Answering(s, tid, c, r, since, at, answer))
  {
    hide Inv, Explained;
    var e := Entry(tid, c, r, since, at, answer, false);
    LogKeepsInv(hasher, s, Answering(s, tid, c, r, since, at, answer), tid, Some(e));
  }

  lemma MovedOn(hasher: Hasher, s: System, tid: nat, pc: Pc)
    requires Inv(hasher, s) && tid in s.calls && Held(hasher, s.log, pc)
    ensures Inv(hasher, s.(calls := s.calls[tid := pc]))
  {
    hide Inv, Held;
    LogKeepsInv(hasher, s, s.(calls := s.calls[tid := pc]), tid, None);
  }

  lemma NewRecordSaysNoChanged(hasher: Hasher, c: Command, now: int)
    requires c.Create?
    ensures NewRecord(hasher, c, now) != Err(Changed)
  {
  }

  /** Only a lost write answers `Changed`. */
  lemma DecisionsNeverSayChanged(c: Command, current: Record, r: Readings)
    requires !c.Create?
    ensures Decide(c, current, r) != Err(Changed)
  {
  }

  lemma DecidedKeeps(hasher: Hasher, s: System, tid: nat, c: Command, r: Readings, since: nat, at: nat, current: Record)
    requires Inv(hasher, s) && tid in s.calls && !c.Create? && c.id.Some? && since <= at <= |s.log|
    requires Matches(Serial(hasher, s.log[..at]), c.id.value, Some(current))
    ensures Inv(hasher, Decided(s, tid, c, r, since, at, current))
  {
    hide Inv, Serial, Decide;
    DecisionsNeverSayChanged(c, current, r);
    match Decide(c, current, r) {
      case Err(e) => AnsweredHere(hasher, s, tid, c, r, since, at, Failed(e));
      case Ok(next) =>
        if next == current {
          var store := Serial(hasher, s.log[..at]);
          assert store[c.id.value := next] == store;
          AnsweredHere(hasher, s, tid, c, r, since, at, Answered(next));
        } else {
          MovedOn(hasher, s, tid, Writing(c, since, at, r, Some(current), next));
        }
    }
  }

  lemma BeginKeeps(hasher: Hasher, s: System, tid: nat, c: Command, since: nat)
    requires Inv(hasher, s) && tid in s.calls && since <= |s.log| && s.store == Serial(hasher, s.log)
    ensures Inv(hasher, BeginStep(hasher, s, tid, c, since))
  {
    hide Inv, Serial, Decide, Decided, NewRecord;
    WholeLog(s.log);
    var r, at := Readings(s.clock, None), |s.log|;
    if c.Create? {
      match NewRecord(hasher, c, s.clock) {
        case Err(e) =>
          NewRecordSaysNoChanged(hasher, c, s.clock);
          AnsweredHere(hasher, s, tid, c, r, since, at, Failed(e));
        case Ok(record) =>
          NewRecordHasId(hasher, c, s.clock);
          MovedOn(hasher, s, tid, Writing(c, since, at, r, None, record));
      }
    } else if c.id.None? {
      AnsweredHere(hasher, s, tid, c, r, since, at, Failed(Malformed));
    } else if c.id.value !in s.store {
      AnsweredHere(hasher, s, tid, c, r, since, at, Failed(NotFound));
    } else if c.LinkPayment? && BeforeIntent(c, s.store[c.id.value]).None? {
      MovedOn(hasher, s, tid, Asking(c, since, at, s.store[c.id.value]));
    } else {
      DecidedKeeps(hasher, s, tid, c, r, since, at, s.store[c.id.value]);
    }
  }

  lemma NewRecordHasId(hasher: Hasher, c: Command, now: int)
    requires c.Create? && NewRecord(hasher, c, now).Ok?
    ensures c.id.Some?
  {
  }

  lemma WriteKeeps(hasher: Hasher, s: System, tid: nat, c: Command, since: nat, at: nat, r: Readings, expected: Option<Record>, next: Record)
    requires Inv(hasher, s) && tid in s.calls && s.store == Serial(hasher, s.log)
    requires Held(hasher, s.log, Writing(c, since, at, r, expected, next))
    ensures Inv(hasher, WriteStep(s, tid, c, since, at, r, expected, next))
  {
    hide Inv, Serial, Decide, NewRecord;
    WholeLog(s.log);
    var id := c.id.value;
    if Matches(s.store, id, expected) {
      var e := Entry(tid, c, r, since, |s.log|, Answered(next), true);
      assert id in s.store[id := next] && s.store[id := next][id] == next;
      LogKeepsInv(hasher, s, WriteStep(s, tid, c, since, at, r, expected, next), tid, Some(e));
    } else if expected.None? {
      AnsweredHere(hasher, s, tid, c, r, since, |s.log|, Failed(AlreadyExists));
    } else {
      AnsweredHere(hasher, s, tid, c, r, since, at, Failed(Changed));
    }
  }

  lemma EventKeepsInv(hasher: Hasher, s: System, e: Event)
    requires Inv(hasher, s) && Enabled(s, e)
    ensures Inv(hasher, Apply(hasher, s, e))
  {
    hide BeginStep, Decided, WriteStep, Serial, AllExplained, Decide, NewRecord;
    if e.Run? {
      var pc := s.calls[e.tid];
      assert Held(hasher, s.log, pc);
      match pc {
        case Begin(c, since) => BeginKeeps(hasher, s, e.tid, c, since);
        case Asking(c, since, at, current) =>
          DecidedKeeps(hasher, s, e.tid, c, Readings(s.clock, e.intent), since, at, current);
        case Writing(c, since, at, r, expected, next) => WriteKeeps(hasher, s, e.tid, c, since, at, r, expected, next);
        case Done(_) =>
      }
    }
  }

  lemma {:induction false} InvAlways(hasher: Hasher, s: System, es: seq<Event>)
    requires Inv(hasher, s) && Valid(hasher, s, es)
    ensures Inv(hasher, Exec(hasher, s, es))
    decreases |es|
  {
    hide Inv, Apply, Enabled;
    if es != [] {
      EventKeepsInv(hasher, s, es[0]);
      InvAlways(hasher, Apply(hasher, s, es[0]), es[1..]);
    }
  }

  lemma {:induction false} ExplainedAt(hasher: Hasher, log: seq<Entry>, i: nat)
    requires AllExplained(hasher, log) && i < |log|
    ensures Explained(hasher, log[..i], log[i])
    ensures AllExplained(hasher, log[..i])
  {
    hide Explained;
    var front := log[..|log| - 1];
    if i < |front| {
      ExplainedAt(hasher, front, i);
      assert front[..i] == log[..i];
    } else {
      assert log[..i] == front;
    }
  }

  /**
   * Whatever the interleaving, the store is the one the writes leave when run one at
   * a time at their compare-and-sets, and every answer is the one its command gives
   * alone at a moment between its arrival and its answer, unless it lost the race
   * for its record: then it wrote nothing and said so.
   */
  lemma CommandsRunOneAtATime(hasher: Hasher, es: seq<Event>, i: nat)
    requires Valid(hasher, START, es)
    ensures var s := Exec(hasher, START, es);
            s.store == Serial(hasher, s.log) && (i < |s.log| ==> Explained(hasher, s.log[..i], s.log[i]))
  {
    hide Explained, Exec, Valid;
    InvAlways(hasher, START, es);
    var log := Exec(hasher, START, es).log;
    if i < |log| {
      ExplainedAt(hasher, log, i);
    }
  }

  // ---------- What no run can do to a record ----------

  predicate AllSound(hasher: Hasher, store: Store) {
    forall id :: id in store ==> Sound(hasher, store[id]) && store[id].terms.rfqId == id
  }

  /** One write: a new record, or the next part of one. */
  ghost predicate WritesNextPart(hasher: Hasher, store: Store, store': Store, id: Id, part: nat) {
    && id in store' && store' == store[id := store'[id]] && Sound(hasher, store'[id]) && Rank(store'[id]) == part
    && (if id in store then Extends(store[id], store'[id]) && Rank(store[id]) + 1 == part else part == 0)
  }

  lemma AloneWritesNextPart(hasher: Hasher, store: Store, c: Command, r: Readings)
    requires AllSound(hasher, store) && Alone(hasher, store, c, r).0 != store
    ensures c.id.Some? && WritesNextPart(hasher, store, Alone(hasher, store, c, r).0, c.id.value, PartOf(c))
    ensures AllSound(hasher, Alone(hasher, store, c, r).0)
  {
    hide Sound, Extends, Decide, NewRecord, Rank;
    if c.Create? {
      NewRecordHasId(hasher, c, r.now);
      CreateGives(hasher, c, r.now);
    } else {
      var current := store[c.id.value];
      DecideKeeps(hasher, c, current, r);
      assert store[c.id.value := current] == store;
      SameTerms(current, Decide(c, current, r).value);
    }
  }

  lemma SameTerms(x: Record, y: Record)
    ensures Extends(x, y) ==> y.terms == x.terms
  {
  }

  lemma {:induction false} SerialIsSound(hasher: Hasher, log: seq<Entry>)
    requires AllExplained(hasher, log)
    ensures AllSound(hasher, Serial(hasher, log))
  {
    hide Sound, Alone;
    if log != [] {
      var front, e := log[..|log| - 1], log[|log| - 1];
      SerialIsSound(hasher, front);
      var before := Serial(hasher, front);
      if e.wrote && Alone(hasher, before, e.command, e.readings).0 != before {
        AloneWritesNextPart(hasher, before, e.command, e.readings);
      }
    }
  }

  /**
   * In every state of every run each record is its RFQ's own: the reference its
   * terms hash to, parts in order, status to match, a reviewed round, a timely result.
   */
  lemma RecordsAreSound(hasher: Hasher, es: seq<Event>, id: Id)
    requires Valid(hasher, START, es) && id in Exec(hasher, START, es).store
    ensures Sound(hasher, Exec(hasher, START, es).store[id]) && Exec(hasher, START, es).store[id].terms.rfqId == id
  {
    hide Exec, Valid, Sound;
    InvAlways(hasher, START, es);
    SerialIsSound(hasher, Exec(hasher, START, es).log);
  }

  /** Writes to `id` in the log. */
  function Writes(log: seq<Entry>, id: Id): nat {
    if log == [] then 0
    else Writes(log[..|log| - 1], id) + if log[|log| - 1].wrote && log[|log| - 1].command.id == Some(id) then 1 else 0
  }

  /** The last entry, if it wrote, wrote the next part of its own record. */
  lemma LastWrite(hasher: Hasher, log: seq<Entry>)
    requires AllExplained(hasher, log) && log != [] && log[|log| - 1].wrote
    ensures var front, e := log[..|log| - 1], log[|log| - 1];
            e.command.id.Some?
            && WritesNextPart(hasher, Serial(hasher, front), Serial(hasher, log), e.command.id.value, PartOf(e.command))
  {
    hide Alone, WritesNextPart, AllSound;
    var front, e := log[..|log| - 1], log[|log| - 1];
    SerialIsSound(hasher, front);
    assert front[..|front|] == front;
    assert Explained(hasher, front, e);
    AloneWritesNextPart(hasher, Serial(hasher, front), e.command, e.readings);
  }

  /** Each write moves its record up one rank, so a record's rank counts its writes: at most four, ever. */
  lemma {:induction false} RankCountsWrites(hasher: Hasher, log: seq<Entry>, id: Id)
    requires AllExplained(hasher, log)
    ensures var store := Serial(hasher, log);
            Writes(log, id) == (if id in store then 1 + Rank(store[id]) else 0) <= 4
  {
    hide Sound, Extends, Rank, Alone, Explained;
    if log != [] {
      var front, e := log[..|log| - 1], log[|log| - 1];
      RankCountsWrites(hasher, front, id);
      if e.wrote {
        LastWrite(hasher, log);
      }
    }
    if id in Serial(hasher, log) {
      RankAtMostThree(Serial(hasher, log)[id]);
    }
  }

  lemma RankAtMostThree(record: Record)
    ensures Rank(record) <= 3
  {
  }

  lemma ExtendsTransitive(x: Record, y: Record, z: Record)
    requires Extends(x, y) && Extends(y, z)
    ensures Extends(x, z)
  {
  }

  lemma ExtendsSelf(x: Record)
    ensures Extends(x, x)
  {
  }

  lemma ExtendsRank(x: Record, y: Record)
    requires Extends(x, y)
    ensures Rank(x) <= Rank(y)
  {
  }

  /**
   * From any point of the log to any later one a record is still there with all it
   * had, and is the same record exactly when nothing wrote to it in between.
   */
  lemma {:induction false} RecordsOnlyGrow(hasher: Hasher, log: seq<Entry>, i: nat, id: Id)
    requires AllExplained(hasher, log) && i <= |log| && id in Serial(hasher, log[..i])
    ensures var before, now := Serial(hasher, log[..i]), Serial(hasher, log);
            && id in now && Extends(before[id], now[id])
            && (now[id] == before[id] <==> Writes(log, id) == Writes(log[..i], id))
  {
    hide Sound, Extends, Rank, Alone, Explained;
    if i == |log| {
      assert log[..i] == log;
      ExtendsSelf(Serial(hasher, log)[id]);
    } else {
      var front, e := log[..|log| - 1], log[|log| - 1];
      assert front[..i] == log[..i];
      RecordsOnlyGrow(hasher, front, i, id);
      RankCountsWrites(hasher, log, id);
      ExplainedAt(hasher, log, i);
      RankCountsWrites(hasher, log[..i], id);
      WritesGrow(log, i, id);
      if e.wrote {
        LastWrite(hasher, log);
        if e.command.id == Some(id) {
          WritesGrow(front, i, id);
          ExtendsTransitive(Serial(hasher, log[..i])[id], Serial(hasher, front)[id], Serial(hasher, log)[id]);
        }
      }
    }
  }

  lemma {:induction false} WritesGrow(log: seq<Entry>, i: nat, id: Id)
    requires i <= |log|
    ensures Writes(log[..i], id) <= Writes(log, id)
  {
    if i == |log| {
      assert log[..i] == log;
    } else {
      WritesGrow(log[..|log| - 1], i, id);
      assert log[..|log| - 1][..i] == log[..i];
    }
  }

  /** Equal at both ends means untouched in between. */
  lemma UntouchedBetween(hasher: Hasher, log: seq<Entry>, i: nat, j: nat, id: Id)
    requires AllExplained(hasher, log) && i <= j <= |log| && id in Serial(hasher, log[..i])
    requires id in Serial(hasher, log) && Serial(hasher, log)[id] == Serial(hasher, log[..i])[id]
    ensures id in Serial(hasher, log[..j]) && Serial(hasher, log[..j])[id] == Serial(hasher, log)[id]
  {
    hide AllExplained, Serial;
    RecordsOnlyGrow(hasher, log, i, id);
    assert log[..j][..i] == log[..i];
    if j < |log| {
      ExplainedAt(hasher, log, j);
    } else {
      assert log[..j] == log;
    }
    WritesGrow(log, j, id);
    WritesGrow(log[..j], i, id);
    RecordsOnlyGrow(hasher, log[..j], i, id);
  }

  /** Of two writes to one RFQ the later writes a later part. */
  lemma LaterPart(hasher: Hasher, log: seq<Entry>, i: nat, j: nat)
    requires AllExplained(hasher, log) && i < j < |log| && log[i].wrote && log[j].wrote
    requires log[i].command.id == log[j].command.id
    ensures PartOf(log[i].command) < PartOf(log[j].command)
  {
    hide AllExplained, Serial, Extends, Sound, Rank, Explained;
    var first, second := log[..i + 1], log[..j + 1];
    ExplainedPrefix(hasher, log, i + 1);
    ExplainedPrefix(hasher, log, j + 1);
    ExplainedPrefix(hasher, log, j);
    assert first[..i] == log[..i] && second[..j] == log[..j] && log[..j][..i + 1] == first;
    LastWrite(hasher, first);
    LastWrite(hasher, second);
    var id := log[i].command.id.value;
    RecordsOnlyGrow(hasher, log[..j], i + 1, id);
    ExtendsRank(Serial(hasher, first)[id], Serial(hasher, log[..j])[id]);
  }

  lemma ExplainedPrefix(hasher: Hasher, log: seq<Entry>, i: nat)
    requires AllExplained(hasher, log) && i <= |log|
    ensures AllExplained(hasher, log[..i])
  {
    if i < |log| {
      ExplainedAt(hasher, log, i);
    } else {
      assert log[..i] == log;
    }
  }

  lemma {:induction false} PaymentIsLogged(hasher: Hasher, log: seq<Entry>, id: Id) returns (i: nat)
    requires AllExplained(hasher, log)
    requires id in Serial(hasher, log) && Serial(hasher, log)[id].payment.Some?
    ensures i < |log| && log[i].wrote && log[i].command.LinkPayment? && log[i].command.id == Some(id)
    ensures log[i].command.paymentId == Serial(hasher, log)[id].payment
    ensures log[i].readings.intent.Some? && Pays(Serial(hasher, log)[id], log[i].readings.intent.value)
  {
    hide Sound, Extends, Rank, Explained, Pays;
    var front, e := log[..|log| - 1], log[|log| - 1];
    if e.wrote && e.command.id == Some(id) {
      i := |log| - 1;
      LastWrite(hasher, log);
      PaymentIsWrittenLast(hasher, Serial(hasher, front), e.command, e.readings, id);
    } else {
      if e.wrote {
        LastWrite(hasher, log);
      }
      i := PaymentIsLogged(hasher, front, id);
    }
  }

  lemma WriteHoldsSent(hasher: Hasher, store: Store, c: Command, r: Readings)
    requires AllSound(hasher, store) && Alone(hasher, store, c, r).0 != store
    ensures c.id.Some? && c.id.value in Alone(hasher, store, c, r).0
    ensures HoldsSent(c, Alone(hasher, store, c, r).0[c.id.value], r.now)
  {
    hide Sound, Decide, NewRecord, HoldsSent;
    if c.Create? {
      NewRecordHasId(hasher, c, r.now);
      StoresWhatWasSent(hasher, c, NewRecord(hasher, c, r.now).value, r);
    } else {
      var current := store[c.id.value];
      assert store[c.id.value := current] == store;
      StoresWhatWasSent(hasher, c, current, r);
    }
  }

  /** From its write on, whatever else is written, the record holds what the command sent. */
  lemma WriteStays(hasher: Hasher, log: seq<Entry>, i: nat)
    requires AllExplained(hasher, log) && i < |log| && log[i].wrote
    ensures var id, store := log[i].command.id, Serial(hasher, log);
            id.Some? && id.value in store && HoldsSent(log[i].command, store[id.value], log[i].readings.now)
  {
    hide AllExplained, Alone, HoldsSent, Extends, AllSound, Serial;
    var e, upTo := log[i], log[..i + 1];
    ExplainedPrefix(hasher, log, i + 1);
    ExplainedAt(hasher, log, i);
    SerialIsSound(hasher, log[..i]);
    assert upTo == log[..i] + [e];
    assert log[..i][..i] == log[..i];
    assert Explained(hasher, log[..i], e);
    SerialAppend(hasher, log[..i], e);
    WriteHoldsSent(hasher, Serial(hasher, log[..i]), e.command, e.readings);
    RecordsOnlyGrow(hasher, log, i + 1, e.command.id.value);
    SentKept(e.command, Serial(hasher, upTo)[e.command.id.value], Serial(hasher, log)[e.command.id.value], e.readings.now);
  }

  lemma PaymentIsWrittenLast(hasher: Hasher, store: Store, c: Command, r: Readings, id: Id)
    requires c.id == Some(id) && WritesNextPart(hasher, store, Alone(hasher, store, c, r).0, id, PartOf(c))
    requires Alone(hasher, store, c, r).0[id].payment.Some?
    ensures c.LinkPayment? && c.paymentId == Alone(hasher, store, c, r).0[id].payment
    ensures r.intent.Some? && Pays(Alone(hasher, store, c, r).0[id], r.intent.value)
  {
    hide RoundIsReviewed, SelectionIsDue, Bound;
    var next := Alone(hasher, store, c, r).0[id];
    assert Rank(next) == 3;
    LinkPays(c, store[id], r);
  }

  // ---------- Over runs ----------

  lemma {:induction false} LogGrows(hasher: Hasher, s: System, es: seq<Event>)
    requires Valid(hasher, s, es)
    ensures s.log <= Exec(hasher, s, es).log
    decreases |es|
  {
    hide Decide, NewRecord, BeforeIntent, Matches;
    if es != [] {
      LogGrows(hasher, Apply(hasher, s, es[0]), es[1..]);
    }
  }

  /**
   * From any state of any run on, an RFQ is never lost, its creation fields and the
   * parts it has never change, and it is the same exactly while nothing writes to it.
   */
  lemma RfqsOnlyGrow(hasher: Hasher, s: System, es: seq<Event>, id: Id)
    requires Inv(hasher, s) && Valid(hasher, s, es) && id in s.store
    ensures var s' := Exec(hasher, s, es);
            && id in s'.store && Extends(s.store[id], s'.store[id])
            && (s'.store[id] == s.store[id] <==> Writes(s'.log, id) == Writes(s.log, id))
  {
    hide Exec, Valid, Serial, AllExplained, Extends, Held;
    InvAlways(hasher, s, es);
    LogGrows(hasher, s, es);
    var log := Exec(hasher, s, es).log;
    assert log[..|s.log|] == s.log;
    RecordsOnlyGrow(hasher, log, |s.log|, id);
  }

  /** A value that a later state no longer has never comes back: the same at both ends, the same in between. */
  lemma NoValueRecurs(hasher: Hasher, s: System, es: seq<Event>, es': seq<Event>, id: Id)
    requires Inv(hasher, s) && Valid(hasher, s, es) && Valid(hasher, Exec(hasher, s, es), es') && id in s.store
    requires var s'' := Exec(hasher, Exec(hasher, s, es), es'); id in s''.store && s''.store[id] == s.store[id]
    ensures var s' := Exec(hasher, s, es); id in s'.store && s'.store[id] == s.store[id]
  {
    hide Exec, Valid, Serial, AllExplained, Held;
    var s' := Exec(hasher, s, es);
    var log := Exec(hasher, s', es').log;
    InvAlways(hasher, s, es);
    InvAlways(hasher, s', es');
    LogGrows(hasher, s, es);
    LogGrows(hasher, s', es');
    assert log[..|s.log|] == s.log && log[..|s'.log|] == s'.log;
    UntouchedBetween(hasher, log, |s.log|, |s'.log|, id);
  }

  /** In any run, of two writes to one RFQ the later writes a later part. */
  lemma PartsComeInOrder(hasher: Hasher, es: seq<Event>, i: nat, j: nat)
    requires Valid(hasher, START, es)
    requires var log := Exec(hasher, START, es).log;
             i < j < |log| && log[i].wrote && log[j].wrote && log[i].command.id == log[j].command.id
    ensures PartOf(Exec(hasher, START, es).log[i].command) < PartOf(Exec(hasher, START, es).log[j].command)
  {
    hide Exec, Valid;
    InvAlways(hasher, START, es);
    LaterPart(hasher, Exec(hasher, START, es).log, i, j);
  }

  /** No command of one kind writes twice to one RFQ: one creation, one round, one selection, one payment. */
  lemma EachPartIsWrittenOnce(hasher: Hasher, es: seq<Event>, i: nat, j: nat)
    requires Valid(hasher, START, es)
    requires var log := Exec(hasher, START, es).log;
             i < |log| && j < |log| && log[i].wrote && log[j].wrote && log[i].command.id == log[j].command.id
             && PartOf(log[i].command) == PartOf(log[j].command)
    ensures i == j
  {
    hide Exec, Valid;
    if i < j {
      PartsComeInOrder(hasher, es, i, j);
    } else if j < i {
      PartsComeInOrder(hasher, es, j, i);
    }
  }

  /**
   * In every state of every run a linked payment traces to the command that linked
   * it, and to an intent on the round's network that paid the chosen provider.
   */
  lemma PaymentsPaidTheProvider(hasher: Hasher, es: seq<Event>, id: Id) returns (i: nat)
    requires Valid(hasher, START, es)
    requires var store := Exec(hasher, START, es).store; id in store && store[id].payment.Some?
    ensures i < |Exec(hasher, START, es).log|
    ensures var s := Exec(hasher, START, es);
            && s.log[i].wrote && s.log[i].command.LinkPayment? && s.log[i].command.id == Some(id)
            && s.log[i].command.paymentId == s.store[id].payment
            && s.log[i].readings.intent.Some? && Pays(s.store[id], s.log[i].readings.intent.value)
  {
    hide Exec, Valid, Pays;
    InvAlways(hasher, START, es);
    i := PaymentIsLogged(hasher, Exec(hasher, START, es).log, id);
  }

  /**
   * In every state of every run the record of each command that wrote holds what it
   * sent, each value in its place, whatever was written since.
   */
  lemma WhatWasSentStays(hasher: Hasher, es: seq<Event>, i: nat)
    requires Valid(hasher, START, es)
    requires i < |Exec(hasher, START, es).log| && Exec(hasher, START, es).log[i].wrote
    ensures var s := Exec(hasher, START, es);
            var id := s.log[i].command.id;
            id.Some? && id.value in s.store && HoldsSent(s.log[i].command, s.store[id.value], s.log[i].readings.now)
  {
    hide Exec, Valid, HoldsSent;
    InvAlways(hasher, START, es);
    WriteStays(hasher, Exec(hasher, START, es).log, i);
  }

  /** At most four writes to one RFQ in any run, however many commands are sent. */
  lemma AtMostFourWrites(hasher: Hasher, es: seq<Event>, id: Id)
    requires Valid(hasher, START, es)
    ensures Writes(Exec(hasher, START, es).log, id) <= 4
  {
    hide Exec, Valid;
    InvAlways(hasher, START, es);
    RankCountsWrites(hasher, Exec(hasher, START, es).log, id);
  }

  // ---------- Every answer has its entry ----------

  function CallOf(pc: Pc): Option<Call> {
    match pc
    case Begin(c, since) => Some(Call(c, since))
    case Asking(c, since, _, _) => Some(Call(c, since))
    case Writing(c, since, _, _, _, _) => Some(Call(c, since))
    case Done(_) => None
  }

  /** Entry `i` is the answer of its call, to the command it came with. */
  predicate Answers(s: System, i: nat)
    requires i < |s.log|
  {
    var e := s.log[i];
    && e.tid in s.calls && s.calls[e.tid] == Done(e.answer)
    && e.tid in s.asked && s.asked[e.tid] == Call(e.command, e.since)
  }

  ghost predicate HasEntry(s: System, tid: nat) {
    exists i :: 0 <= i < |s.log| && s.log[i].tid == tid
  }

  ghost predicate Recorded(s: System) {
    && (forall i :: 0 <= i < |s.log| ==> Answers(s, i))
    && (forall i, j :: 0 <= i < j < |s.log| ==> s.log[i].tid != s.log[j].tid)
    && (forall tid :: tid in s.calls ==>
      && tid in s.asked
      && (CallOf(s.calls[tid]).Some? ==> CallOf(s.calls[tid]) == Some(s.asked[tid]))
      && (s.calls[tid].Done? ==> HasEntry(s, tid)))
  }

  /** A step of `tid`: it goes on with its command, or answers it with one entry more. */
  ghost predicate GoesOn(s: System, s': System, tid: nat) {
    && tid in s.calls && tid in s.asked && s'.asked == s.asked && tid in s'.calls
    && s'.calls == s.calls[tid := s'.calls[tid]]
    && (if s'.calls[tid].Done?
        then |s'.log| == |s.log| + 1 && s'.log[..|s.log|] == s.log
             && s'.log[|s.log|].tid == tid && s'.log[|s.log|].answer == s'.calls[tid].answer
             && Call(s'.log[|s.log|].command, s'.log[|s.log|].since) == s.asked[tid]
        else s'.log == s.log && CallOf(s'.calls[tid]) == Some(s.asked[tid]))
  }

  lemma DecidedGoesOn(s: System, tid: nat, c: Command, r: Readings, since: nat, at: nat, current: Record)
    requires tid in s.calls && tid in s.asked && s.asked[tid] == Call(c, since) && !c.Create?
    ensures GoesOn(s, Decided(s, tid, c, r, since, at, current), tid)
  {
    hide Decide;
  }

  lemma BeginGoesOn(hasher: Hasher, s: System, tid: nat, c: Command, since: nat)
    requires tid in s.calls && tid in s.asked && s.asked[tid] == Call(c, since)
    ensures GoesOn(s, BeginStep(hasher, s, tid, c, since), tid)
  {
    hide NewRecord, BeforeIntent, Decided;
    if !c.Create? && c.id.Some? && c.id.value in s.store {
      DecidedGoesOn(s, tid, c, Readings(s.clock, None), since, |s.log|, s.store[c.id.value]);
    }
  }

  lemma RunGoesOn(hasher: Hasher, s: System, tid: nat, intent: Option<Intent>)
    requires tid in s.calls && !s.calls[tid].Done? && tid in s.asked && CallOf(s.calls[tid]) == Some(s.asked[tid])
    ensures var s' := Apply(hasher, s, Run(tid, intent)); s' == s || GoesOn(s, s', tid)
  {
    hide BeginStep, Decided, Matches;
    match s.calls[tid] {
      case Begin(c, since) => BeginGoesOn(hasher, s, tid, c, since);
      case Asking(c, since, at, current) =>
        if !c.Create? {
          DecidedGoesOn(s, tid, c, Readings(s.clock, intent), since, at, current);
        }
      case _ =>
    }
  }

  lemma GoingOnRecords(s: System, s': System, tid: nat)
    requires Recorded(s) && tid in s.calls && !s.calls[tid].Done? && GoesOn(s, s', tid)
    ensures Recorded(s')
  {
    hide HasEntry;
    forall i | 0 <= i < |s'.log|
      ensures Answers(s', i) && (i < |s.log| ==> s'.log[i] == s.log[i] && s.log[i].tid != tid)
    {
      if i < |s.log| {
        assert s'.log[i] == s'.log[..|s.log|][i];
        assert Answers(s, i);
      }
    }
    forall t | t in s'.calls && s'.calls[t].Done?
      ensures HasEntry(s', t)
    {
      EntryStays(s, s', tid, t);
    }
  }

  lemma EntryStays(s: System, s': System, tid: nat, t: nat)
    requires GoesOn(s, s', tid) && t in s'.calls && s'.calls[t].Done? && (t != tid ==> HasEntry(s, t))
    ensures HasEntry(s', t)
  {
    if t == tid {
      assert s'.log[|s.log|].tid == t;
    } else {
      var i :| 0 <= i < |s.log| && s.log[i].tid == t;
      assert s'.log[i] == s'.log[..|s.log|][i];
    }
  }

  lemma ArrivalRecords(hasher: Hasher, s: System, tid: nat, c: Command)
    requires Recorded(s) && tid !in s.calls
    ensures Recorded(Apply(hasher, s, Arrive(tid, c)))
  {
    var s' := Apply(hasher, s, Arrive(tid, c));
    forall i | 0 <= i < |s'.log|
      ensures Answers(s', i)
    {
      assert Answers(s, i);
    }
    forall t | t in s'.calls && s'.calls[t].Done?
      ensures HasEntry(s', t)
    {
      assert HasEntry(s, t);
    }
  }

  lemma EventRecords(hasher: Hasher, s: System, e: Event)
    requires Recorded(s) && Enabled(s, e)
    ensures Recorded(Apply(hasher, s, e))
  {
    hide BeginStep, Decided, WriteStep, HasEntry, Answers;
    match e {
      case Arrive(tid, c) => ArrivalRecords(hasher, s, tid, c);
      case Tick(to) => TickRecords(s, s.(clock := to));
      case Run(tid, intent) =>
        if !s.calls[tid].Done? {
          RunGoesOn(hasher, s, tid, intent);
          var s' := Apply(hasher, s, e);
          if s' != s {
            GoingOnRecords(s, s', tid);
          }
        }
    }
  }

  lemma TickRecords(s: System, s': System)
    requires Recorded(s) && s'.calls == s.calls && s'.asked == s.asked && s'.log == s.log
    ensures Recorded(s')
  {
    forall i | 0 <= i < |s'.log|
      ensures Answers(s', i)
    {
      assert Answers(s, i);
    }
    forall t | t in s'.calls && s'.calls[t].Done?
      ensures HasEntry(s', t)
    {
      assert HasEntry(s, t);
    }
  }

  lemma {:induction false} RecordedAlways(hasher: Hasher, s: System, es: seq<Event>)
    requires Recorded(s) && Valid(hasher, s, es)
    ensures Recorded(Exec(hasher, s, es))
    decreases |es|
  {
    hide Recorded, Apply, Enabled;
    if es != [] {
      EventRecords(hasher, s, es[0]);
      RecordedAlways(hasher, Apply(hasher, s, es[0]), es[1..]);
    }
  }

  /**
   * Every call that has its answer, in any run, has exactly one place in the order
   * in which the commands run one at a time, with that answer and the command it sent.
   */
  lemma EveryAnswerIsExplained(hasher: Hasher, es: seq<Event>, tid: nat) returns (i: nat)
    requires Valid(hasher, START, es)
    requires tid in Exec(hasher, START, es).calls && Exec(hasher, START, es).calls[tid].Done?
    ensures var s := Exec(hasher, START, es);
            && i < |s.log| && s.log[i].tid == tid && s.log[i].answer == s.calls[tid].answer
            && tid in s.asked && Call(s.log[i].command, s.log[i].since) == s.asked[tid]
            && Explained(hasher, s.log[..i], s.log[i])
            && forall j :: 0 <= j < |s.log| && s.log[j].tid == tid ==> j == i
  {
    hide Explained, Exec, Valid;
    RecordedAlways(hasher, START, es);
    var s := Exec(hasher, START, es);
    assert HasEntry(s, tid);
    i :| 0 <= i < |s.log| && s.log[i].tid == tid;
    assert Answers(s, i);
    CommandsRunOneAtATime(hasher, es, i);
  }
}
