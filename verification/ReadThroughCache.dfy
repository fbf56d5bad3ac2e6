/**
 * The read-through cache (src/common/read-through-cache.ts): the Map in its
 * insertion order, and what `get` and a rejected load do to it.
 *
 * A promise stands for the load that made it, so an entry is known by its load.
 */
module ReadThroughCache {

  type LoadId = nat

  datatype Slot = Slot(key: string, at: int, load: LoadId)

  // ---------- The Map ----------

  predicate DistinctKeys(entries: seq<Slot>) {
    forall i, j :: 0 <= i < j < |entries| ==> entries[i].key != entries[j].key
  }

  function Find(entries: seq<Slot>, key: string): (k: nat)
    ensures k <= |entries|
    ensures k < |entries| ==> entries[k].key == key
    ensures forall i :: 0 <= i < k ==> entries[i].key != key
  {
    if entries == [] then 0 else if entries[0].key == key then 0 else 1 + Find(entries[1..], key)
  }

  /** `Map.delete`. */
  function Without(entries: seq<Slot>, key: string): seq<Slot> {
    var k := Find(entries, key);
    if k < |entries| then entries[..k] + entries[k + 1..] else entries
  }

  /** The newest `max` entries: the oldest go first. */
  function Newest(entries: seq<Slot>, max: nat): seq<Slot> {
    if |entries| <= max then entries else entries[|entries| - max..]
  }

  // ---------- The operations ----------

  /** Is there an entry for `key` younger than the ttl? */
  predicate Hits(entries: seq<Slot>, ttlMs: int, key: string, now: int) {
    var k := Find(entries, key);
    ttlMs > 0 && k < |entries| && now - entries[k].at < ttlMs
  }

  /**
   * The Map after `get`. The clock is read for the check and, on a miss, again for
   * the entry; `next` is the load a miss begins.
   */
  function AfterGet(entries: seq<Slot>, ttlMs: int, max: nat, key: string, now: int, later: int, next: LoadId): seq<Slot> {
    if ttlMs <= 0 then entries
    else if Hits(entries, ttlMs, key, now) then Without(entries, key) + [entries[Find(entries, key)]]
    else Newest(Without(entries, key) + [Slot(key, later, next)], max)
  }

  /** The load whose promise `get` returns. */
  function Answer(entries: seq<Slot>, ttlMs: int, key: string, now: int, next: LoadId): LoadId {
    if Hits(entries, ttlMs, key, now) then entries[Find(entries, key)].load else next
  }

  /** The Map after the rejection of `load`, begun for `key`. */
  function AfterReject(entries: seq<Slot>, key: string, load: LoadId): seq<Slot> {
    var k := Find(entries, key);
    if k < |entries| && entries[k].load == load then Without(entries, key) else entries
  }

  // ---------- The object ----------

  class Cache {
    const ttlMs: int
    const maxEntries: nat
    var entries: seq<Slot>

    constructor (ttlMs: int, maxEntries: nat)
      ensures this.ttlMs == ttlMs && this.maxEntries == maxEntries && entries == []
    {
      this.ttlMs, this.maxEntries, this.entries := ttlMs, maxEntries, [];
    }

    /** `load()` begins `next` exactly when `loaded`. */
    method Get(key: string, now: int, later: int, next: LoadId) returns (answer: LoadId, loaded: bool)
      modifies this`entries
      ensures entries == AfterGet(old(entries), ttlMs, maxEntries, key, now, later, next)
      ensures answer == Answer(old(entries), ttlMs, key, now, next)
      ensures loaded == !Hits(old(entries), ttlMs, key, now)
    {
      if ttlMs <= 0 {
        return next, true;
      }
      var k := Find(entries, key);
      if k < |entries| && now - entries[k].at < ttlMs {
        var hit := entries[k];
        entries := Without(entries, key);
        entries := entries + [hit];
        return hit.load, false;
      }
      var entry := Slot(key, later, next);
      entries := Without(entries, key);
      entries := entries + [entry];
      ghost var all := entries;
      while |entries| > maxEntries
        invariant Newest(entries, maxEntries) == Newest(all, maxEntries)
        decreases |entries|
      {
        entries := entries[1..];
      }
      return next, true;
    }

    /** The `catch` callback. */
    method OnRejected(key: string, load: LoadId)
      modifies this`entries
      ensures entries == AfterReject(old(entries), key, load)
    {
      var k := Find(entries, key);
      if k < |entries| && entries[k].load == load {
        entries := Without(entries, key);
      }
    }
  }

  // ---------- What the Map's operations do ----------

  lemma FindIs(entries: seq<Slot>, k: nat)
    requires DistinctKeys(entries) && k < |entries|
    ensures Find(entries, entries[k].key) == k
  {
  }

  lemma WithoutIs(entries: seq<Slot>, key: string)
    requires DistinctKeys(entries)
    ensures DistinctKeys(Without(entries, key))
    ensures forall s :: s in Without(entries, key) <==> s in entries && s.key != key
    ensures |Without(entries, key)| <= |entries|
  {
    var k, out := Find(entries, key), Without(entries, key);
    if k < |entries| {
      forall s
        ensures s in out <==> s in entries && s.key != key
      {
        if s in entries && s.key != key {
          var i :| 0 <= i < |entries| && entries[i] == s;
          assert out[if i < k then i else i - 1] == s;
        }
      }
    }
  }

  /** A late rejection takes its own entry away, and nothing else. */
  lemma RejectTakesOnlyItsOwn(entries: seq<Slot>, key: string, load: LoadId, s: Slot)
    requires DistinctKeys(entries) && forall s' :: s' in entries && s'.load == load ==> s'.key == key
    ensures s in AfterReject(entries, key, load) <==> s in entries && s.load != load
  {
    var k := Find(entries, key);
    WithoutIs(entries, key);
    if s in entries && s.key == key {
      var i :| 0 <= i < |entries| && entries[i] == s;
      FindIs(entries, i);
    }
  }

  /** A younger entry under the key than the ttl. */
  ghost predicate HasYoung(entries: seq<Slot>, ttlMs: int, key: string, now: int) {
    exists slot :: slot in entries && slot.key == key && now - slot.at < ttlMs
  }

  /**
   * What a get does, read off the map: a young entry under its key is returned and
   * moved to the end; otherwise the load it begins takes the key's place at the end,
   * and the oldest entries go until exactly the maximum are left, if there were more.
   * `k` is where the key's entry was.
   */
  lemma GetExactly(entries: seq<Slot>, ttlMs: int, max: nat, key: string, now: int, later: int, next: LoadId) returns (k: nat)
    requires DistinctKeys(entries)
    ensures k <= |entries| && (k < |entries| ==> entries[k].key == key)
    ensures k == |entries| ==> forall slot :: slot in entries ==> slot.key != key
    ensures var rest := if k < |entries| then entries[..k] + entries[k + 1..] else entries;
            var all := rest + [Slot(key, later, next)];
            var after := AfterGet(entries, ttlMs, max, key, now, later, next);
            var answer := Answer(entries, ttlMs, key, now, next);
            if ttlMs <= 0 then after == entries && answer == next
            else if HasYoung(entries, ttlMs, key, now) then
              k < |entries| && after == rest + [entries[k]] && answer == entries[k].load
            else
              && answer == next && |after| == (if |all| > max then max else |all|)
              && after == all[|all| - |after|..]
  {
    hide Find;
    k := Find(entries, key);
    YoungIs(entries, ttlMs, key, now);
  }

  lemma YoungIs(entries: seq<Slot>, ttlMs: int, key: string, now: int)
    requires DistinctKeys(entries)
    ensures var k := Find(entries, key);
            HasYoung(entries, ttlMs, key, now) <==> k < |entries| && now - entries[k].at < ttlMs
  {
    if slot :| slot in entries && slot.key == key && now - slot.at < ttlMs {
      var i :| 0 <= i < |entries| && entries[i] == slot;
      FindIs(entries, i);
    }
  }
}
