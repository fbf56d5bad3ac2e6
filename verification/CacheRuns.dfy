/**
 * The cache over whole runs: any sequence of gets and rejections, with a clock that
 * never goes back.
 */
module CacheRuns {
  import opened ReadThroughCache

  /** A load: what it was begun for, and when. */
  datatype Load = Load(key: string, begun: int)

  /** One `get`: when it was asked, the load it would begin itself, and the load whose promise it returned. */
  datatype Read = Read(key: string, now: int, next: LoadId, load: LoadId)

  /** `rejected` and `evicted` are the loads whose entries the callback and the eviction loop have taken away. */
  datatype System = System(
    entries: seq<Slot>, clock: int, loads: seq<Load>, answers: seq<Read>, rejected: set<LoadId>, evicted: set<LoadId>)

  const START := System([], 0, [], [], {}, {})

  datatype Event =
    | Get(key: string, now: int, later: int)  // the two readings of the clock
    | Reject(load: LoadId)

  datatype Config = Config(ttlMs: int, max: nat)

  predicate Enabled(s: System, e: Event) {
    match e
    case Get(_, now, later) => s.clock <= now <= later
    case Reject(load) => load < |s.loads| && load !in s.rejected
  }

  function LoadsOf(entries: seq<Slot>): set<LoadId> {
    set slot | slot in entries :: slot.load
  }

  function Apply(c: Config, s: System, e: Event): System
    requires Enabled(s, e)
  {
    match e
    case Get(key, now, later) =>
      var next := |s.loads|;
      var hit := Hits(s.entries, c.ttlMs, key, now);
      var entries := AfterGet(s.entries, c.ttlMs, c.max, key, now, later, next);
      var kept := if hit || c.ttlMs <= 0 then s.entries else Without(s.entries, key) + [Slot(key, later, next)];
      System(
        entries, later,
        if hit then s.loads else s.loads + [Load(key, later)],
        s.answers + [Read(key, now, next, Answer(s.entries, c.ttlMs, key, now, next))],
        s.rejected, s.evicted + (LoadsOf(kept) - LoadsOf(entries)))
    case Reject(load) =>
      s.(entries := AfterReject(s.entries, s.loads[load].key, load), rejected := s.rejected + {load})
  }

  predicate Valid(c: Config, s: System, es: seq<Event>)
    decreases |es|
  {
    es == [] || (Enabled(s, es[0]) && Valid(c, Apply(c, s, es[0]), es[1..]))
  }

  function Exec(c: Config, s: System, es: seq<Event>): System
    requires Valid(c, s, es)
    decreases |es|
  {
    if es == [] then s else Exec(c, Apply(c, s, es[0]), es[1..])
  }

  // ---------- The invariant ----------

  /** Every entry is its load's own, as old as its load, and no rejected load has one. */
  predicate EntriesAreLoads(s: System) {
    && DistinctKeys(s.entries)
    && forall slot :: slot in s.entries ==>
      && slot.load < |s.loads| && s.loads[slot.load] == Load(slot.key, slot.at)
      && slot.load !in s.rejected && slot.load !in s.evicted
  }

  predicate Held(s: System, load: LoadId) {
    exists slot :: slot in s.entries && slot.load == load
  }

  predicate Latest(s: System, load: LoadId) {
    load < |s.loads| && forall later :: load < later < |s.loads| ==> s.loads[later].key != s.loads[load].key
  }

  /** The latest load of a key leaves the map only by its rejection or by an eviction. */
  ghost predicate LatestAreHeld(s: System) {
    forall load {:trigger Latest(s, load)} :: Latest(s, load) ==> Held(s, load) || load in s.rejected || load in s.evicted
  }

  /** A read returned a load begun for its key: an earlier one, less than the ttl before it, or the one it began itself. */
  predicate ReadIsSound(c: Config, s: System, r: Read) {
    r.load < |s.loads| && s.loads[r.load].key == r.key
    && ((r.load < r.next && r.now - s.loads[r.load].begun < c.ttlMs) || (r.load == r.next && r.now <= s.loads[r.load].begun))
  }

  predicate Consecutive(s: System, a: LoadId, b: LoadId) {
    a < b < |s.loads| && s.loads[a].key == s.loads[b].key
    && forall m :: a < m < b ==> s.loads[m].key != s.loads[a].key
  }

  ghost predicate Disciplined(c: Config, s: System) {
    && (forall r :: r in s.answers ==> ReadIsSound(c, s, r))
    && (forall load :: 0 <= load < |s.loads| ==> s.loads[load].begun <= s.clock)
  }

  // ---------- Recency ----------

  /** The last read of `key`, as an index, or -1. */
  function LastRead(answers: seq<Read>, key: string): (i: int)
    ensures -1 <= i < |answers|
    ensures i >= 0 ==> answers[i].key == key
    ensures forall j :: i < j < |answers| ==> answers[j].key != key
  {
    if answers == [] then -1
    else if answers[|answers| - 1].key == key then |answers| - 1
    else LastRead(answers[..|answers| - 1], key)
  }

  /** The map's order is the order of each key's last read. */
  predicate InReadOrder(s: System) {
    && (forall slot :: slot in s.entries ==> LastRead(s.answers, slot.key) >= 0)
    && forall i, j :: 0 <= i < j < |s.entries| ==>
      LastRead(s.answers, s.entries[i].key) < LastRead(s.answers, s.entries[j].key)
  }

  predicate GoneWereLoads(s: System) {
    (forall l :: l in s.rejected ==> l < |s.loads|) && (forall l :: l in s.evicted ==> l < |s.loads|)
  }

  ghost predicate Inv(c: Config, s: System) {
    && EntriesAreLoads(s) && GoneWereLoads(s) && Disciplined(c, s) && InReadOrder(s) && |s.entries| <= c.max
    && (if c.ttlMs > 0 then LatestAreHeld(s) else s.entries == [])
  }

  lemma LastReadAppend(answers: seq<Read>, r: Read, key: string)
    ensures LastRead(answers + [r], key) == if r.key == key then |answers| else LastRead(answers, key)
  {
    assert (answers + [r])[..|answers|] == answers;
  }

  // ---------- Each event keeps it ----------

  lemma WithoutAt(entries: seq<Slot>, key: string, i: nat)
    requires i < |Without(entries, key)| && Find(entries, key) < |entries|
    ensures var from := if i < Find(entries, key) then i else i + 1;
            from < |entries| && Without(entries, key)[i] == entries[from]
  {
    hide Find;
  }

  /** `Without` keeps the order of the keys' last reads. */
  lemma WithoutOrder(s: System, key: string, i: nat, j: nat)
    requires InReadOrder(s) && i < j < |Without(s.entries, key)|
    ensures var rest := Without(s.entries, key); LastRead(s.answers, rest[i].key) < LastRead(s.answers, rest[j].key)
  {
    hide Find, LastRead;
    if Find(s.entries, key) < |s.entries| {
      WithoutAt(s.entries, key, i);
      WithoutAt(s.entries, key, j);
    }
  }

  /** The map a get leaves before the eviction: the key's slot last, the others in order. */
  lemma ReadMovesLast(s: System, s': System, key: string, r: Read, slot: Slot)
    requires DistinctKeys(s.entries) && InReadOrder(s) && r.key == key && slot.key == key
    requires s'.entries == Without(s.entries, key) + [slot] && s'.answers == s.answers + [r]
    ensures InReadOrder(s') && DistinctKeys(s'.entries)
  {
    var rest := Without(s.entries, key);
    WithoutIs(s.entries, key);
    forall i, j | 0 <= i < j < |s'.entries|
      ensures LastRead(s'.answers, s'.entries[i].key) < LastRead(s'.answers, s'.entries[j].key)
      ensures s'.entries[i].key != s'.entries[j].key
    {
      LastReadAppend(s.answers, r, s'.entries[i].key);
      LastReadAppend(s.answers, r, s'.entries[j].key);
      assert rest[i] in rest;
      if j < |rest| {
        assert rest[j] in rest;
        WithoutOrder(s, key, i, j);
      }
    }
    forall x | x in s'.entries
      ensures LastRead(s'.answers, x.key) >= 0
    {
      LastReadAppend(s.answers, r, x.key);
    }
  }

  lemma NewestKeepsOrder(s: System, s': System, max: nat)
    requires DistinctKeys(s.entries) && InReadOrder(s) && s'.answers == s.answers && s'.entries == Newest(s.entries, max)
    ensures InReadOrder(s') && DistinctKeys(s'.entries) && |s'.entries| <= max
    ensures forall slot :: slot in s'.entries ==> slot in s.entries
  {
  }

  lemma RejectKeepsOrder(s: System, s': System, key: string)
    requires DistinctKeys(s.entries) && InReadOrder(s) && s'.answers == s.answers && s'.entries == Without(s.entries, key)
    ensures InReadOrder(s') && DistinctKeys(s'.entries) && |s'.entries| <= |s.entries|
  {
    WithoutIs(s.entries, key);
    forall i, j | 0 <= i < j < |s'.entries|
      ensures LastRead(s'.answers, s'.entries[i].key) < LastRead(s'.answers, s'.entries[j].key)
    {
      WithoutOrder(s, key, i, j);
    }
  }

  lemma RejectKeepsInv(c: Config, s: System, load: LoadId)
    requires Inv(c, s) && Enabled(s, Reject(load))
    ensures Inv(c, Apply(c, s, Reject(load)))
  {
    hide Find, Without, LastRead;
    var s' := Apply(c, s, Reject(load));
    var key := s.loads[load].key;
    forall slot
      ensures slot in s'.entries <==> slot in s.entries && slot.load != load
    {
      RejectTakesOnlyItsOwn(s.entries, key, load, slot);
    }
    if s'.entries != s.entries {
      RejectKeepsOrder(s, s', key);
    }
    forall l: LoadId | c.ttlMs > 0 && Latest(s', l)
      ensures Held(s', l) || l in s'.rejected || l in s'.evicted
    {
      assert Latest(s, l);
      if Held(s, l) && l != load {
        var slot :| slot in s.entries && slot.load == l;
        assert slot in s'.entries;
      }
    }
    forall r | r in s'.answers
      ensures ReadIsSound(c, s', r)
    {
      assert ReadIsSound(c, s, r);
    }
  }

  lemma HitKeepsEntries(entries: seq<Slot>, key: string, slot: Slot)
    requires DistinctKeys(entries) && Find(entries, key) < |entries|
    ensures slot in Without(entries, key) + [entries[Find(entries, key)]] <==> slot in entries
  {
    hide Without;
    WithoutIs(entries, key);
    if slot in entries && slot.key == key {
      var i :| 0 <= i < |entries| && entries[i] == slot;
      FindIs(entries, i);
    }
  }

  lemma HitKeepsInv(c: Config, s: System, key: string, now: int, later: int)
    requires Inv(c, s) && Enabled(s, Get(key, now, later)) && Hits(s.entries, c.ttlMs, key, now)
    ensures Inv(c, Apply(c, s, Get(key, now, later)))
  {
    hide Without, LastRead, LatestAreHeld, Disciplined, InReadOrder, DistinctKeys, Newest;
    var s' := Apply(c, s, Get(key, now, later));
    var hit := s.entries[Find(s.entries, key)];
    forall slot
      ensures slot in s'.entries <==> slot in s.entries
    {
      HitKeepsEntries(s.entries, key, slot);
    }
    HitKeepsSize(s.entries, key);
    ReadMovesLast(s, s', key, s'.answers[|s.answers|], hit);
    SameEntries(c, s, s', s'.answers[|s.answers|]);
  }

  lemma HitKeepsSize(entries: seq<Slot>, key: string)
    requires Find(entries, key) < |entries|
    ensures |Without(entries, key)| == |entries| - 1
  {
  }

  lemma SameEntries(c: Config, s: System, s': System, r: Read)
    requires Inv(c, s) && c.ttlMs > 0 && s'.loads == s.loads && s'.rejected == s.rejected && s'.evicted == s.evicted
    requires (forall slot :: slot in s'.entries <==> slot in s.entries) && DistinctKeys(s'.entries)
    requires s'.answers == s.answers + [r] && ReadIsSound(c, s, r) && s.clock <= s'.clock
    ensures EntriesAreLoads(s') && LatestAreHeld(s') && Disciplined(c, s')
  {
    hide LastRead;
    forall l: LoadId | Latest(s', l)
      ensures Held(s', l) || l in s'.rejected || l in s'.evicted
    {
      assert Latest(s, l);
      if Held(s, l) {
        var slot :| slot in s.entries && slot.load == l;
        assert slot in s'.entries;
      }
    }
    forall x | x in s'.answers
      ensures ReadIsSound(c, s', x)
    {
      assert x == r || x in s.answers;
    }
  }

  /** The loads and answers after a miss, whatever becomes of the map. */
  lemma MissIsDisciplined(c: Config, s: System, s': System, key: string, now: int, later: int)
    requires Inv(c, s) && s.clock <= now <= later && !Hits(s.entries, c.ttlMs, key, now)
    requires s'.loads == s.loads + [Load(key, later)] && s'.clock == later
    requires s'.answers == s.answers + [Read(key, now, |s.loads|, |s.loads|)]
    requires s.rejected <= s'.rejected && s.evicted <= s'.evicted
    ensures Disciplined(c, s')
  {
    hide LastRead;
    var next := |s.loads|;
    forall r | r in s'.answers
      ensures ReadIsSound(c, s', r)
    {
      if r in s.answers {
        assert ReadIsSound(c, s, r);
      }
    }
  }

  lemma NewestDrops(entries: seq<Slot>, max: nat)
    ensures forall slot :: slot in Newest(entries, max) ==> slot in entries
    ensures forall slot :: slot in entries ==> slot in Newest(entries, max) || slot in entries[..|entries| - |Newest(entries, max)|]
  {
    var out := Newest(entries, max);
    var k := |entries| - |out|;
    assert entries == entries[..k] + out;
  }

  lemma MissKeepsInv(c: Config, s: System, key: string, now: int, later: int)
    requires Inv(c, s) && Enabled(s, Get(key, now, later)) && !Hits(s.entries, c.ttlMs, key, now) && c.ttlMs > 0
    ensures Inv(c, Apply(c, s, Get(key, now, later)))
  {
    hide Without, LastRead, Newest, Find;
    var s' := Apply(c, s, Get(key, now, later));
    var next := |s.loads|;
    var slot := Slot(key, later, next);
    var r := Read(key, now, next, next);
    var all := Without(s.entries, key) + [slot];
    var mid := s'.(entries := all);
    WithoutIs(s.entries, key);
    ReadMovesLast(s, mid, key, r, slot);
    NewestKeepsOrder(mid, s', c.max);
    NewestDrops(all, c.max);
    MissIsDisciplined(c, s, s', key, now, later);
    MissKeepsEntries(c, s, s', key, later, all);
    MissKeepsLatest(s, s', key, later, all);
  }

  lemma MissKeepsEntries(c: Config, s: System, s': System, key: string, later: int, all: seq<Slot>)
    requires EntriesAreLoads(s) && s'.loads == s.loads + [Load(key, later)] && s'.rejected == s.rejected
    requires forall x :: x in all <==> (x in s.entries && x.key != key) || x == Slot(key, later, |s.loads|)
    requires s'.evicted == s.evicted + (LoadsOf(all) - LoadsOf(s'.entries))
    requires (forall x :: x in s'.entries ==> x in all) && DistinctKeys(s'.entries)
    requires GoneWereLoads(s)
    ensures EntriesAreLoads(s') && GoneWereLoads(s')
  {
    forall x | x in s'.entries
      ensures x.load < |s'.loads| && s'.loads[x.load] == Load(x.key, x.at) && x.load !in s'.rejected && x.load !in s'.evicted
    {
      assert x.load in LoadsOf(s'.entries);
    }
  }

  lemma MissKeepsLatest(s: System, s': System, key: string, later: int, all: seq<Slot>)
    requires EntriesAreLoads(s) && LatestAreHeld(s) && s'.loads == s.loads + [Load(key, later)] && s'.rejected == s.rejected
    requires forall x :: x in all <==> (x in s.entries && x.key != key) || x == Slot(key, later, |s.loads|)
    requires s'.evicted == s.evicted + (LoadsOf(all) - LoadsOf(s'.entries))
    ensures LatestAreHeld(s')
  {
    forall l: LoadId | Latest(s', l)
      ensures Held(s', l) || l in s'.rejected || l in s'.evicted
    {
      if l == |s.loads| {
        assert Slot(key, later, l) in all;
        assert l in LoadsOf(all);
      } else {
        assert s'.loads[|s.loads|].key == key;
        assert forall m :: 0 <= m < |s.loads| ==> s'.loads[m] == s.loads[m];
        assert Latest(s, l);
        if Held(s, l) {
          var x :| x in s.entries && x.load == l;
          assert x.key == s.loads[l].key != key;
          assert x in all;
          assert l in LoadsOf(all);
        }
      }
    }
  }

  /** A ttl of 0 never caches. */
  lemma UncachedKeepsInv(c: Config, s: System, key: string, now: int, later: int)
    requires Inv(c, s) && Enabled(s, Get(key, now, later)) && c.ttlMs <= 0
    ensures Inv(c, Apply(c, s, Get(key, now, later)))
  {
    MissIsDisciplined(c, s, Apply(c, s, Get(key, now, later)), key, now, later);
  }

  lemma EventKeepsInv(c: Config, s: System, e: Event)
    requires Inv(c, s) && Enabled(s, e)
    ensures Inv(c, Apply(c, s, e))
  {
    hide Inv, Apply;
    match e {
      case Reject(load) => RejectKeepsInv(c, s, load);
      case Get(key, now, later) =>
        if c.ttlMs <= 0 {
          UncachedKeepsInv(c, s, key, now, later);
        } else if Hits(s.entries, c.ttlMs, key, now) {
          HitKeepsInv(c, s, key, now, later);
        } else {
          MissKeepsInv(c, s, key, now, later);
        }
    }
  }

  lemma {:induction false} InvAlways(c: Config, s: System, es: seq<Event>)
    requires Inv(c, s) && Valid(c, s, es)
    ensures Inv(c, Exec(c, s, es))
    decreases |es|
  {
    hide Inv, Apply, Enabled;
    if es != [] {
      EventKeepsInv(c, s, es[0]);
      InvAlways(c, Apply(c, s, es[0]), es[1..]);
    }
  }

  // ---------- What every run keeps ----------

  /**
   * Every read of every run returned a load begun for its own key, and either
   * begun by that read or begun less than the ttl before it, however often it was
   * read since: a hit never extends an entry's life.
   */
  lemma ReadsAreYoung(c: Config, es: seq<Event>, i: nat)
    requires Valid(c, START, es) && i < |Exec(c, START, es).answers|
    ensures ReadIsSound(c, Exec(c, START, es), Exec(c, START, es).answers[i])
  {
    hide Exec, Valid;
    InvAlways(c, START, es);
  }

  /** A run's last event, after the run before it. */
  lemma {:induction false} LastEvent(c: Config, s: System, es: seq<Event>)
    requires Valid(c, s, es) && es != []
    ensures var front, e := es[..|es| - 1], es[|es| - 1];
            && Valid(c, s, front) && Enabled(Exec(c, s, front), e)
            && Exec(c, s, es) == Apply(c, Exec(c, s, front), e)
    decreases |es|
  {
    hide Apply, Enabled;
    var front := es[..|es| - 1];
    if |es| > 1 {
      var s' := Apply(c, s, es[0]);
      LastEvent(c, s', es[1..]);
      assert es[1..][..|es| - 2] == front[1..] && front[0] == es[0];
    } else {
      assert es[1..] == [];
    }
  }

  /** The get that began load `b`, and the run before it. */
  lemma {:induction false} LoadBegins(c: Config, es: seq<Event>, b: LoadId) returns (i: nat)
    requires Valid(c, START, es) && b < |Exec(c, START, es).loads|
    ensures i < |es| && es[i].Get? && Valid(c, START, es[..i]) && Enabled(Exec(c, START, es[..i]), es[i])
    ensures var s, loads := Exec(c, START, es[..i]), Exec(c, START, es).loads;
            && |s.loads| == b && s.loads == loads[..b] && loads[b] == Load(es[i].key, es[i].later)
            && !Hits(s.entries, c.ttlMs, es[i].key, es[i].now)
    decreases |es|
  {
    hide Hits, AfterGet, Answer, Without, AfterReject;
    var front := es[..|es| - 1];
    LastEvent(c, START, es);
    var s := Exec(c, START, front);
    if b < |s.loads| {
      i := LoadBegins(c, front, b);
      assert front[..i] == es[..i];
      assert Exec(c, START, es).loads[..b] == s.loads[..b];
    } else {
      i := |es| - 1;
    }
  }

  /**
   * Load `b` of a key begins in a get that came the ttl or more after the load before
   * it, unless that one had been rejected or evicted by then: `es[..i]` is the run up
   * to that get.
   */
  lemma LoadsAreApart(c: Config, es: seq<Event>, a: LoadId, b: LoadId) returns (i: nat)
    requires Valid(c, START, es) && Consecutive(Exec(c, START, es), a, b)
    ensures i < |es| && es[i].Get? && Valid(c, START, es[..i])
    ensures var s, loads := Exec(c, START, es[..i]), Exec(c, START, es).loads;
            && |s.loads| == b && loads[b] == Load(es[i].key, es[i].later)
            && (es[i].now - loads[a].begun >= c.ttlMs || a in s.rejected || a in s.evicted)
  {
    hide Exec, Valid, LastRead;
    i := LoadBegins(c, es, b);
    InvAlways(c, START, es[..i]);
    var s, loads := Exec(c, START, es[..i]), Exec(c, START, es).loads;
    assert forall m :: 0 <= m < b ==> s.loads[m] == loads[m];
    if c.ttlMs > 0 {
      assert Latest(s, a);
      if Held(s, a) {
        var slot :| slot in s.entries && slot.load == a;
        var k :| 0 <= k < |s.entries| && s.entries[k] == slot;
        FindIs(s.entries, k);
      }
    }
  }

  /** While the latest load of a key is young, neither rejected nor evicted, every get of the key returns it. */
  lemma YoungLoadsAreShared(c: Config, es: seq<Event>, load: LoadId, now: int, next: LoadId)
    requires Valid(c, START, es)
    requires var s := Exec(c, START, es);
             Latest(s, load) && load !in s.rejected && load !in s.evicted
             && s.clock <= now && now - s.loads[load].begun < c.ttlMs
    ensures Answer(Exec(c, START, es).entries, c.ttlMs, Exec(c, START, es).loads[load].key, now, next) == load
  {
    hide Exec, Valid;
    InvAlways(c, START, es);
    var s := Exec(c, START, es);
    var slot :| slot in s.entries && slot.load == load;
    var i :| 0 <= i < |s.entries| && s.entries[i] == slot;
    FindIs(s.entries, i);
  }

  /** A load that was rejected is never returned again. */
  lemma RejectedIsNotKept(c: Config, es: seq<Event>, key: string, now: int)
    requires Valid(c, START, es)
    ensures var s := Exec(c, START, es); Answer(s.entries, c.ttlMs, key, now, |s.loads|) !in s.rejected
  {
    hide Exec, Valid;
    InvAlways(c, START, es);
  }

  /** At most `max` keys, each once, in the order of their last reads. */
  lemma MapIsInReadOrder(c: Config, es: seq<Event>)
    requires Valid(c, START, es)
    ensures var s := Exec(c, START, es); |s.entries| <= c.max && DistinctKeys(s.entries) && InReadOrder(s)
  {
    hide Exec, Valid;
    InvAlways(c, START, es);
  }

  lemma NewestComeLast(all: seq<Slot>, max: nat, gone: Slot, left: Slot) returns (i: nat, j: nat)
    requires gone in all && gone !in Newest(all, max) && left in Newest(all, max)
    ensures i < j < |all| && all[i] == gone && all[j] == left
  {
    var out := Newest(all, max);
    var k := |all| - |out|;
    i :| 0 <= i < |all| && all[i] == gone;
    var m :| 0 <= m < |out| && out[m] == left;
    j := k + m;
    if i >= k {
      StaysInNewest(all, max, i);
    }
  }

  lemma StaysInNewest(all: seq<Slot>, max: nat, i: nat)
    requires |all| - |Newest(all, max)| <= i < |all|
    ensures all[i] in Newest(all, max)
  {
    var out := Newest(all, max);
    assert out[i - (|all| - |out|)] == all[i];
  }

  /** What a get evicts was read longer ago than anything it leaves. */
  lemma EvictsLeastRecentlyRead(c: Config, s: System, key: string, now: int, later: int, gone: Slot, left: Slot)
    requires Inv(c, s) && Enabled(s, Get(key, now, later))
    requires gone in s.entries && gone.key != key && left in Apply(c, s, Get(key, now, later)).entries
    requires gone !in Apply(c, s, Get(key, now, later)).entries
    ensures var s' := Apply(c, s, Get(key, now, later));
            LastRead(s'.answers, gone.key) < LastRead(s'.answers, left.key)
  {
    hide Without, LastRead, Find, Hits, Newest, LatestAreHeld, Disciplined, EntriesAreLoads;
    var s' := Apply(c, s, Get(key, now, later));
    assert DistinctKeys(s.entries) by { DistinctEntries(s); }
    WithoutIs(s.entries, key);
    var slot, r := Slot(key, later, |s.loads|), Read(key, now, |s.loads|, |s.loads|);
    var all := Without(s.entries, key) + [slot];
    ReadMovesLast(s, s'.(entries := all, answers := s.answers + [r]), key, r, slot);
    if c.ttlMs > 0 && !Hits(s.entries, c.ttlMs, key, now) {
      var i, j := NewestComeLast(all, c.max, gone, left);
    }
  }

  lemma DistinctEntries(s: System)
    requires EntriesAreLoads(s)
    ensures DistinctKeys(s.entries)
  {
  }

  /** A late rejection leaves every entry but its own, and every entry where it was in the order. */
  lemma LateRejection(c: Config, s: System, load: LoadId, slot: Slot)
    requires Inv(c, s) && Enabled(s, Reject(load))
    ensures slot in Apply(c, s, Reject(load)).entries <==> slot in s.entries && slot.load != load
  {
    hide Find, Without, LastRead;
    RejectTakesOnlyItsOwn(s.entries, s.loads[load].key, load, slot);
  }
}
