/**
 * Rows on the chart: the key a bucket is reported under, filling the buckets
 * (src/analytics/series-window.ts), and splitting the settled rows between the
 * two windows (src/analytics/analytics.service.ts).
 */
module SeriesRows {
  import opened Common
  import opened Radix
  import opened Units
  import opened Calendar
  import opened SeriesWindow

  // ---------- bucketKey ----------

  function Fixed(n: nat, width: nat): string {
    Text(Padded(n, width))
  }

  /** The year as ISO 8601 writes it: four digits, or a sign and six. */
  function YearText(y: int): string {
    if 0 <= y <= 9999 then Fixed(y, 4) else if y < 0 then "-" + Fixed(-y, 6) else "+" + Fixed(y, 6)
  }

  /** `toISOString()` up to its time. */
  function IsoDate(t: int): (s: string) {
    var c := CivilOf(Day(t));
    CivilIs(Day(t));
    DateAtLeastOne(Day(t));
    YearText(c.year) + "-" + Fixed(c.month + 1, 2) + "-" + Fixed(c.date, 2)
  }

  /** `.slice(0, 10)`. */
  function BucketKey(t: int): string {
    Take(IsoDate(t), 10)
  }

  lemma DateAtLeastOne(day: int)
    ensures 1 <= CivilOf(day).date <= 31
  {
    hide MonthDay, CivilOf;
    CivilIs(day);
    MonthAfter(MonthOf(day));
  }

  lemma FixedIs(n: nat, width: nat)
    requires width > 0 && n < Pow(10, width)
    ensures |Fixed(n, width)| == width
  {
    hide Padded, Value;
    PaddedIs(n, width);
    var ds := Padded(n, width);
    if |ds| > width {
      ValueAtLeast(ds, 10);
      PowMonotone(10, width, |ds| - 1);
    }
  }

  lemma FixedIsInjective(a: nat, b: nat, width: nat)
    requires width > 0 && Fixed(a, width) == Fixed(b, width)
    ensures a == b
  {
    hide Padded, Value;
    TextIsInjective(Padded(a, width), Padded(b, width));
    PaddedIs(a, width);
    PaddedIs(b, width);
  }

  predicate FourDigitYear(t: int) {
    0 <= CivilOf(Day(t)).year <= 9999
  }

  lemma KeyParts(t: int)
    requires FourDigitYear(t)
    ensures var c := CivilOf(Day(t));
            && 0 <= c.month < 12 && 1 <= c.date <= 31
            && |Fixed(c.year, 4)| == 4 && |Fixed(c.month + 1, 2)| == 2 && |Fixed(c.date, 2)| == 2
            && BucketKey(t) == Fixed(c.year, 4) + "-" + Fixed(c.month + 1, 2) + "-" + Fixed(c.date, 2)
  {
    hide CivilOf, Fixed;
    var c := CivilOf(Day(t));
    CivilIs(Day(t));
    DateAtLeastOne(Day(t));
    assert Pow(10, 2) == 100 && Pow(10, 4) == 10_000;
    FixedIs(c.year, 4);
    FixedIs(c.month + 1, 2);
    FixedIs(c.date, 2);
  }

  /** A fixed-width number reads back. */
  lemma FixedReads(n: nat, width: nat)
    requires width > 0
    ensures ParseUnits(Fixed(n, width), 0) == Ok(n)
  {
    hide Value, Padded, Match;
    var ds := Padded(n, width);
    PaddedIs(n, width);
    MatchOfAmount(Text(ds), "");
    ReadOfText(ds);
    assert ds + [] + Zeros(0) == ds;
  }

  /** Years of four digits: the key is the year, the month from 1 and the day of the month, in ten characters. */
  lemma KeySpells(t: int)
    requires FourDigitYear(t)
    ensures var c, key := CivilOf(Day(t)), BucketKey(t);
            && |key| == 10 && key[4] == '-' && key[7] == '-'
            && ParseUnits(key[..4], 0) == Ok(c.year) && ParseUnits(key[5..7], 0) == Ok(c.month + 1)
            && ParseUnits(key[8..], 0) == Ok(c.date)
  {
    hide Fixed, CivilOf, BucketKey, ParseUnits;
    KeyParts(t);
    var c, key := CivilOf(Day(t)), BucketKey(t);
    FixedReads(c.year, 4);
    FixedReads(c.month + 1, 2);
    FixedReads(c.date, 2);
    assert key[..4] == Fixed(c.year, 4) && key[5..7] == Fixed(c.month + 1, 2) && key[8..] == Fixed(c.date, 2);
  }

  /** Years of four digits: two instants have one key exactly when they fall on one day. */
  lemma KeyIsItsDay(t: int, u: int)
    requires FourDigitYear(t) && FourDigitYear(u)
    ensures BucketKey(t) == BucketKey(u) <==> Day(t) == Day(u)
  {
    hide Fixed, CivilOf, BucketKey, MonthDay;
    if Day(t) == Day(u) {
      SameDaySameKey(t, u);
    } else if BucketKey(t) == BucketKey(u) {
      KeyParts(t);
      KeyParts(u);
      var c, d, key := CivilOf(Day(t)), CivilOf(Day(u)), BucketKey(t);
      assert key[..4] == Fixed(c.year, 4) == Fixed(d.year, 4);
      assert key[5..7] == Fixed(c.month + 1, 2) == Fixed(d.month + 1, 2);
      assert key[8..] == Fixed(c.date, 2) == Fixed(d.date, 2);
      FixedIsInjective(c.year, d.year, 4);
      FixedIsInjective(c.month + 1, d.month + 1, 2);
      FixedIsInjective(c.date, d.date, 2);
      CivilIs(Day(t));
      CivilIs(Day(u));
    }
  }

  lemma SameDaySameKey(t: int, u: int)
    requires Day(t) == Day(u)
    ensures BucketKey(t) == BucketKey(u)
  {
    hide YearText, Fixed, CivilOf, Day;
    assert IsoDate(t) == IsoDate(u);
  }

  /** Different buckets have different keys. */
  lemma BucketKeysDiffer(period: Period, j: int, k: int)
    requires FourDigitYear(Boundary(period, j)) && FourDigitYear(Boundary(period, k))
    ensures BucketKey(Boundary(period, j)) == BucketKey(Boundary(period, k)) <==> j == k
  {
    hide BucketKey, FirstDay, CivilOf;
    StartOfDay(FirstDay(period, j));
    StartOfDay(FirstDay(period, k));
    KeyIsItsDay(Boundary(period, j), Boundary(period, k));
    if j < k {
      BoundariesIncrease(period, j, k);
    } else if k < j {
      BoundariesIncrease(period, k, j);
    }
  }

  // ---------- fillBuckets ----------

  datatype Row<T> = Row(bucket: int, item: T)

  /** `new Map(rows.map(...)).get(key)`: the last row of that key. */
  function LookUp<T>(rows: seq<Row<T>>, key: string): Option<T> {
    if rows == [] then None
    else if BucketKey(rows[|rows| - 1].bucket) == key then Some(rows[|rows| - 1].item)
    else LookUp(rows[..|rows| - 1], key)
  }

  /** Of several rows of one key the last is found, and none only when there is none. */
  lemma {:induction false} LookUpIsLast<T>(rows: seq<Row<T>>, key: string)
    ensures LookUp(rows, key) == None <==> forall i :: 0 <= i < |rows| ==> BucketKey(rows[i].bucket) != key
    ensures forall i :: 0 <= i < |rows| && BucketKey(rows[i].bucket) == key ==>
      (forall j :: i < j < |rows| ==> BucketKey(rows[j].bucket) != key) ==> LookUp(rows, key) == Some(rows[i].item)
  {
    hide BucketKey;
    if rows != [] {
      var n := |rows| - 1;
      var front := rows[..n];
      LookUpIsLast(front, key);
      if BucketKey(rows[n].bucket) != key {
        forall i | 0 <= i < |rows| && BucketKey(rows[i].bucket) == key && forall j :: i < j < |rows| ==> BucketKey(rows[j].bucket) != key
          ensures LookUp(rows, key) == Some(rows[i].item)
        {
          assert front[i] == rows[i];
          assert forall j :: i < j < n ==> front[j] == rows[j];
        }
      }
    }
  }

  /** One entry a bucket, oldest first: its key, and its row's item when it has one. */
  function FillBuckets<T>(buckets: seq<int>, rows: seq<Row<T>>): (entries: seq<(string, Option<T>)>)
    ensures |entries| == |buckets|
    ensures forall i :: 0 <= i < |buckets| ==>
      entries[i] == (BucketKey(buckets[i]), LookUp(rows, BucketKey(buckets[i])))
  {
    seq(|buckets|, i requires 0 <= i < |buckets| => (BucketKey(buckets[i]), LookUp(rows, BucketKey(buckets[i]))))
  }

  function Weight<T>(w: T -> int, item: Option<T>): int {
    if item.None? then 0 else w(item.value)
  }

  function EntriesTotal<T>(w: T -> int, entries: seq<(string, Option<T>)>): int {
    if entries == [] then 0 else EntriesTotal(w, entries[..|entries| - 1]) + Weight(w, entries[|entries| - 1].1)
  }

  function RowsTotal<T>(w: T -> int, rows: seq<Row<T>>): int {
    if rows == [] then 0 else RowsTotal(w, rows[..|rows| - 1]) + w(rows[|rows| - 1].item)
  }

  predicate DistinctBucketKeys(buckets: seq<int>) {
    forall i, j :: 0 <= i < j < |buckets| ==> BucketKey(buckets[i]) != BucketKey(buckets[j])
  }

  predicate DistinctRowKeys<T>(rows: seq<Row<T>>) {
    forall i, j :: 0 <= i < j < |rows| ==> BucketKey(rows[i].bucket) != BucketKey(rows[j].bucket)
  }

  ghost predicate OnBuckets<T>(rows: seq<Row<T>>, buckets: seq<int>) {
    forall r :: r in rows ==> exists i :: 0 <= i < |buckets| && BucketKey(buckets[i]) == BucketKey(r.bucket)
  }

  lemma {:induction false} LookUpFinds<T>(rows: seq<Row<T>>, i: nat)
    requires i < |rows| && DistinctRowKeys(rows)
    ensures LookUp(rows, BucketKey(rows[i].bucket)) == Some(rows[i].item)
  {
    hide BucketKey;
    if i < |rows| - 1 {
      LookUpFinds(rows[..|rows| - 1], i);
    }
  }

  lemma {:induction false} LookUpMisses<T>(rows: seq<Row<T>>, key: string)
    requires forall r :: r in rows ==> BucketKey(r.bucket) != key
    ensures LookUp(rows, key) == None
  {
    hide BucketKey;
    if rows != [] {
      assert rows[|rows| - 1] in rows;
      LookUpMisses(rows[..|rows| - 1], key);
    }
  }

  lemma LookUpAppend<T>(rows: seq<Row<T>>, r: Row<T>, key: string)
    ensures LookUp(rows + [r], key) == if BucketKey(r.bucket) == key then Some(r.item) else LookUp(rows, key)
  {
    hide BucketKey;
    assert (rows + [r])[..|rows|] == rows;
  }

  /** A row more on a free bucket adds exactly its weight to the entries. */
  lemma {:induction false} OneRowMore<T>(w: T -> int, buckets: seq<int>, rows: seq<Row<T>>, r: Row<T>)
    requires DistinctBucketKeys(buckets)
    requires forall r' :: r' in rows ==> BucketKey(r'.bucket) != BucketKey(r.bucket)
    ensures EntriesTotal(w, FillBuckets(buckets, rows + [r]))
         == EntriesTotal(w, FillBuckets(buckets, rows))
            + if exists i :: 0 <= i < |buckets| && BucketKey(buckets[i]) == BucketKey(r.bucket) then w(r.item) else 0
  {
    hide BucketKey, LookUp;
    if buckets != [] {
      var n := |buckets| - 1;
      var front, key := buckets[..n], BucketKey(buckets[n]);
      OneRowMore(w, front, rows, r);
      LookUpAppend(rows, r, key);
      assert FillBuckets(buckets, rows)[..n] == FillBuckets(front, rows);
      assert FillBuckets(buckets, rows + [r])[..n] == FillBuckets(front, rows + [r]);
      if key == BucketKey(r.bucket) {
        LookUpMisses(rows, key);
        assert !exists i :: 0 <= i < |front| && BucketKey(front[i]) == BucketKey(r.bucket);
      } else if i :| 0 <= i < |buckets| && BucketKey(buckets[i]) == BucketKey(r.bucket) {
        assert front[i] == buckets[i];
      }
    }
  }

  lemma {:induction false} EmptyEntries<T>(w: T -> int, buckets: seq<int>)
    ensures EntriesTotal(w, FillBuckets<T>(buckets, [])) == 0
  {
    hide BucketKey;
    if buckets != [] {
      EmptyEntries<T>(w, buckets[..|buckets| - 1]);
      assert FillBuckets<T>(buckets, [])[..|buckets| - 1] == FillBuckets<T>(buckets[..|buckets| - 1], []);
    }
  }

  /** Filling loses nothing and counts nothing twice: whatever is summed, the entries' total is the rows'. */
  lemma {:induction false} FillingConserves<T>(w: T -> int, buckets: seq<int>, rows: seq<Row<T>>)
    requires DistinctBucketKeys(buckets) && DistinctRowKeys(rows) && OnBuckets(rows, buckets)
    ensures EntriesTotal(w, FillBuckets(buckets, rows)) == RowsTotal(w, rows)
  {
    hide BucketKey, EntriesTotal;
    if rows == [] {
      EmptyEntries(w, buckets);
    } else {
      var n := |rows| - 1;
      var front, r := rows[..n], rows[n];
      assert front + [r] == rows;
      FillingConserves(w, buckets, front);
      OneRowMore(w, buckets, front, r);
      assert r in rows;
    }
  }

  /** Each row of distinct buckets is the whole item of exactly one entry: the one of its own bucket. */
  lemma RowHasItsEntry<T>(buckets: seq<int>, rows: seq<Row<T>>, r: nat) returns (i: nat)
    requires DistinctBucketKeys(buckets) && DistinctRowKeys(rows) && OnBuckets(rows, buckets) && r < |rows|
    ensures i < |buckets| && BucketKey(buckets[i]) == BucketKey(rows[r].bucket)
    ensures FillBuckets(buckets, rows)[i].1 == Some(rows[r].item)
    ensures forall j :: 0 <= j < |buckets| && BucketKey(buckets[j]) == BucketKey(rows[r].bucket) ==> j == i
  {
    hide BucketKey;
    assert rows[r] in rows;
    var k :| 0 <= k < |buckets| && BucketKey(buckets[k]) == BucketKey(rows[r].bucket);
    i := k;
    LookUpFinds(rows, r);
  }

  /** What the query returns: rows truncated alike, one a bucket, from `since` to the end of the current bucket. */
  ghost predicate FromQuery<T>(period: Period, now: int, w: Window, rows: seq<Row<T>>, created: seq<int>) {
    && |created| == |rows|
    && (forall i :: 0 <= i < |rows| ==>
      rows[i].bucket == Truncated(period, created[i])
      && w.since <= created[i] < Boundary(period, Index(period, now) + 1) && FourDigitYear(rows[i].bucket))
    && forall i, j :: 0 <= i < j < |rows| ==> rows[i].bucket != rows[j].bucket
  }

  predicate FourDigitWindow(w: Window) {
    forall i :: 0 <= i < |w.buckets| ==> FourDigitYear(w.buckets[i])
  }

  lemma WindowKeysDiffer(period: Period, now: int, w: Window)
    requires IsWindow(period, now, w) && FourDigitWindow(w)
    ensures DistinctBucketKeys(w.buckets)
  {
    hide BucketKey, Boundary, Index, FourDigitYear;
    var from := Index(period, now) - Count(period) + 1;
    forall i, j | 0 <= i < j < |w.buckets|
      ensures BucketKey(w.buckets[i]) != BucketKey(w.buckets[j])
    {
      assert FourDigitYear(w.buckets[i]) && FourDigitYear(w.buckets[j]);
      BucketKeysDiffer(period, from + i, from + j);
    }
  }

  lemma QueriedRowsAreOnBuckets<T>(period: Period, now: int, w: Window, rows: seq<Row<T>>, created: seq<int>, r: nat)
    returns (i: nat)
    requires IsWindow(period, now, w) && FromQuery(period, now, w, rows, created) && r < |rows|
    ensures i < |w.buckets| && w.buckets[i] == rows[r].bucket
  {
    hide BucketKey, Boundary, Index, FourDigitYear;
    var k, from := Index(period, now), Index(period, now) - Count(period) + 1;
    AtOrAfter(period, created[r], from);
    AtOrAfter(period, created[r], k + 1);
    i := Index(period, created[r]) - from;
  }

  lemma QueriedKeysDiffer<T>(period: Period, now: int, w: Window, rows: seq<Row<T>>, created: seq<int>)
    requires FromQuery(period, now, w, rows, created)
    ensures DistinctRowKeys(rows)
  {
    hide BucketKey, Boundary, Index, FourDigitYear;
    forall i, j | 0 <= i < j < |rows|
      ensures BucketKey(rows[i].bucket) != BucketKey(rows[j].bucket)
    {
      BucketKeysDiffer(period, Index(period, created[i]), Index(period, created[j]));
    }
  }

  /** Over one window, every queried row lands on a bucket and the chart's total is the query's. */
  lemma ChartTotalsAreTheQuerys<T>(weight: T -> int, period: Period, now: int, w: Window, rows: seq<Row<T>>, created: seq<int>)
    requires IsWindow(period, now, w) && FourDigitWindow(w) && FromQuery(period, now, w, rows, created)
    ensures EntriesTotal(weight, FillBuckets(w.buckets, rows)) == RowsTotal(weight, rows)
  {
    hide BucketKey, IsWindow, FromQuery, FourDigitWindow, EntriesTotal, RowsTotal, DistinctBucketKeys, DistinctRowKeys;
    WindowKeysDiffer(period, now, w);
    QueriedKeysDiffer(period, now, w, rows, created);
    forall r | r in rows
      ensures exists i :: 0 <= i < |w.buckets| && BucketKey(w.buckets[i]) == BucketKey(r.bucket)
    {
      var n :| 0 <= n < |rows| && rows[n] == r;
      var i := QueriedRowsAreOnBuckets(period, now, w, rows, created, n);
    }
    FillingConserves(weight, w.buckets, rows);
  }

  // ---------- The split of the settled rows ----------

  /** A settled row: its truncated bucket, which the query may leave null, and what it is worth. */
  datatype Settled<T> = Settled(bucket: Option<int>, item: T)

  function Selected<T>(rows: seq<Settled<T>>, p: int -> bool): seq<T> {
    if rows == [] then []
    else
      var last := rows[|rows| - 1];
      Selected(rows[..|rows| - 1], p) + if last.bucket.Some? && p(last.bucket.value) then [last.item] else []
  }

  /** The loop that shares the rows between the window, its buckets and the window before. */
  method SplitRows<T>(rows: seq<Settled<T>>, since: int)
    returns (before: seq<T>, current: seq<T>, byBucket: map<string, seq<T>>)
    ensures before == Selected(rows, b => b < since)
    ensures current == Selected(rows, b => since <= b)
    ensures forall key :: (if key in byBucket then byBucket[key] else []) == Selected(rows, b => since <= b && BucketKey(b) == key)
  {
    hide BucketKey;
    before, current, byBucket := [], [], map[];
    for i := 0 to |rows|
      invariant before == Selected(rows[..i], b => b < since)
      invariant current == Selected(rows[..i], b => since <= b)
      invariant forall key ::
        (if key in byBucket then byBucket[key] else []) == Selected(rows[..i], b => since <= b && BucketKey(b) == key)
    {
      var row := rows[i];
      assert rows[..i + 1][..i] == rows[..i];
      if row.bucket.None? {
        continue;
      }
      if row.bucket.value < since {
        before := before + [row.item];
        continue;
      }
      current := current + [row.item];
      var key := BucketKey(row.bucket.value);
      byBucket := byBucket[key := (if key in byBucket then byBucket[key] else []) + [row.item]];
    }
    assert rows[..|rows|] == rows;
  }

  /** The rows created in a window, whatever their buckets. */
  function CreatedIn<T>(rows: seq<Settled<T>>, created: seq<int>, p: int -> bool): seq<T>
    requires |created| == |rows|
  {
    if rows == [] then []
    else
      var n := |rows| - 1;
      CreatedIn(rows[..n], created[..n], p) + if rows[n].bucket.Some? && p(created[n]) then [rows[n].item] else []
  }

  /** Splitting by truncated bucket is splitting by the time each row was created. */
  lemma {:induction false} SplitIsByCreation<T>(period: Period, rows: seq<Settled<T>>, created: seq<int>, since: int)
    requires |created| == |rows| && since == Truncated(period, since)
    requires forall i :: 0 <= i < |rows| && rows[i].bucket.Some? ==> rows[i].bucket.value == Truncated(period, created[i])
    ensures Selected(rows, b => b < since) == CreatedIn(rows, created, t => t < since)
    ensures Selected(rows, b => since <= b) == CreatedIn(rows, created, t => since <= t)
  {
    hide Truncated;
    if rows != [] {
      var n := |rows| - 1;
      SplitIsByCreation(period, rows[..n], created[..n], since);
      SplitsAlike(period, created[n], since);
    }
  }
}
