/**
 * The sweep itself (src/aliases/alias-challenge-sweeper.service.ts): pages of
 * expired rows, deleted page by page, while other replicas may be at the same rows.
 */
module AliasSweeper {

  const BATCH_SIZE := 1000
  const MAX_PER_CYCLE := 50_000

  function Before<K>(expiry: map<K, int>, cutoff: int): set<K> {
    set k | k in expiry && expiry[k] < cutoff
  }

  lemma BeforeLater<K>(expiry: map<K, int>, later: map<K, int>, cutoff: int)
    requires forall k :: k in later ==> if k in expiry then later[k] == expiry[k] else cutoff <= later[k]
    ensures Before(later, cutoff) <= Before(expiry, cutoff)
  {
  }

  lemma BeforeWithout<K>(expiry: map<K, int>, swept: set<K>, cutoff: int)
    ensures Before(expiry - swept, cutoff) == Before(expiry, cutoff) - swept
  {
  }

  /** One of the two swept tables. The sweep reads only when a row expires. */
  class Table<K(==,!new)> {
    var expiry: map<K, int>
    var seen: set<K>  // every id there ever was: none is used twice

    ghost predicate Valid()
      reads this
    {
      expiry.Keys <= seen
    }

    function Expired(cutoff: int): set<K>
      reads this
    {
      Before(expiry, cutoff)
    }

    /**
     * Whatever runs between two statements of the sweep. Rows come with their expiry
     * ahead of the cutoff, and no row's expiry is ever written again. With `racing`
     * false nothing runs.
     */
    method Others(racing: bool, cutoff: int)
      requires Valid()
      modifies this
      ensures Valid() && old(seen) <= seen
      ensures !racing ==> expiry == old(expiry)
      ensures forall k :: k in expiry ==>
        if k in old(expiry) then expiry[k] == old(expiry)[k] else k !in old(seen) && cutoff <= expiry[k]
    {
      if racing {
        var next: map<K, int> :| forall k :: k in next ==>
          if k in expiry then next[k] == expiry[k] else k !in seen && cutoff <= next[k];
        expiry := next;
        seen := seen + next.Keys;
      }
    }

    /** The expired row nobody has taken yet that expired first. */
    method Oldest(cutoff: int, taken: set<K>) returns (oldest: K)
      requires exists k :: k in Expired(cutoff) && k !in taken
      ensures oldest in Expired(cutoff) && oldest !in taken
      ensures forall k :: k in Expired(cutoff) && k !in taken ==> expiry[oldest] <= expiry[k]
    {
      var rest := Expired(cutoff) - taken;
      assert rest != {} by {
        var k :| k in Expired(cutoff) && k !in taken;
        assert k in rest;
      }
      oldest :| oldest in rest;
      rest := rest - {oldest};
      while rest != {}
        invariant oldest in Expired(cutoff) && oldest !in taken
        invariant rest <= Expired(cutoff)
        invariant forall k :: k in Expired(cutoff) && k !in taken ==> k in rest || expiry[oldest] <= expiry[k]
        decreases |rest|
      {
        var k :| k in rest;
        if expiry[k] < expiry[oldest] && k !in taken {
          oldest := k;
        }
        rest := rest - {k};
      }
    }

    /** `findMany where expiresAt < cutoff order by expiresAt take`: the page's ids. */
    method FindPage(cutoff: int, take: nat) returns (page: set<K>)
      ensures page <= Expired(cutoff) && |page| <= take
      ensures |page| < take ==> page == Expired(cutoff)
      ensures forall k, m :: k in page && m in Expired(cutoff) && m !in page ==> expiry[k] <= expiry[m]
    {
      page := {};
      while |page| < take && page != Expired(cutoff)
        invariant page <= Expired(cutoff) && |page| <= take
        invariant forall k, m :: k in page && m in Expired(cutoff) && m !in page ==> expiry[k] <= expiry[m]
        decreases take - |page|
      {
        assert exists k :: k in Expired(cutoff) && k !in page;
        var next := Oldest(cutoff, page);
        page := page + {next};
      }
    }

    /** `deleteMany where id in ids`: how many were still there. */
    method DeleteMany(ids: set<K>) returns (count: nat)
      modifies this`expiry
      ensures expiry == old(expiry) - ids
      ensures count == |ids * old(expiry).Keys|
    {
      count := |ids * expiry.Keys|;
      expiry := expiry - ids;
    }

    /** Rows left from `before`, whose ids were `known`, are as they were; any other is too young to sweep. */
    twostate predicate Ages(cutoff: int)
      reads this
    {
      && Valid() && old(seen) <= seen
      && forall k :: k in expiry ==>
        if k in old(expiry) then expiry[k] == old(expiry)[k] else k !in old(seen) && cutoff <= expiry[k]
    }

    /** One turn of the loop: a page found, then deleted. */
    method SweepPage(racing: bool, cutoff: int, take: nat) returns (found: nat, count: nat, ghost ids: set<K>)
      requires Valid()
      modifies this
      ensures Ages(cutoff)
      ensures found == |ids| <= take && count <= found
      ensures ids <= old(Expired(cutoff)) && ids !! expiry.Keys
      ensures !racing ==> expiry == old(expiry) - ids && count == found && (found < take ==> ids == old(Expired(cutoff)))
    {
      Others(racing, cutoff);
      var page := FindPage(cutoff, take);
      ids := page;
      found := |page|;
      assert page <= old(Expired(cutoff));
      Others(racing, cutoff);
      AtMost(page);
      assert !racing ==> page * expiry.Keys == page;
      count := DeleteMany(page);
    }

    /**
     * `drain`: at most fifty pages and fifty thousand rows examined, whatever the
     * deletes return, and every id it deletes had expired by the cutoff. Left alone
     * it deletes every expired row, or as many as one cycle may examine.
     */
    method Drain(racing: bool, cutoff: int) returns (deleted: nat, examined: nat, pages: nat, ghost swept: set<K>)
      requires Valid()
      modifies this
      ensures Ages(cutoff)
      ensures deleted <= examined <= 50_000 && pages <= 50 && examined <= 1000 * (pages + 1)
      ensures swept <= old(Expired(cutoff))
      ensures !racing ==> expiry == old(expiry) - swept && deleted == |swept|
      ensures !racing && deleted < 50_000 ==> swept == old(Expired(cutoff))
    {
      hide Before;
      deleted, examined, pages, swept := 0, 0, 0, {};
      while examined < MAX_PER_CYCLE
        invariant Ages(cutoff)
        invariant deleted <= examined <= MAX_PER_CYCLE && examined == BATCH_SIZE * pages
        invariant swept <= old(Expired(cutoff))
        invariant !racing ==> expiry == old(expiry) - swept && deleted == |swept| == examined
        decreases MAX_PER_CYCLE - examined
      {
        var take := if BATCH_SIZE < MAX_PER_CYCLE - examined then BATCH_SIZE else MAX_PER_CYCLE - examined;
        BeforeLater(old(expiry), expiry, cutoff);
        BeforeWithout(old(expiry), swept, cutoff);
        ghost var ids: set<K>;
        var found, count;
        found, count, ids := SweepPage(racing, cutoff, take);
        if found == 0 {
          break;
        }
        pages, examined, deleted := pages + 1, examined + found, deleted + count;
        swept := swept + ids;
        if found < take {
          break;
        }
      }
    }

    lemma AtMost(ids: set<K>)
      ensures forall keys: set<K> :: |ids * keys| <= |ids|
    {
      forall keys: set<K>
        ensures |ids * keys| <= |ids|
      {
        assert ids == ids * keys + (ids - keys);
      }
    }
  }
}
