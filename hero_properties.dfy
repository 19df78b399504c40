/**
 * What the documents and the page bookkeeping of internal/hero/hero.go mean,
 * stated against definitions that do not share their arithmetic or layout:
 * a page count defined by repeated subtraction, the slice of a listing that a
 * skip/limit read selects, and a reading of the filter document back into
 * filters.
 */
module HeroProperties {
  import opened Wrappers
  import opened Bson
  import opened Pagination
  import opened Hero

  // ---------------------------------------------------------- page counting

  /** How many pages of `size` items hold `total` items: the ceiling of total / size. */
  function PageCount(total: int, size: int): (n: nat)
    requires size > 0
    ensures total <= 0 ==> n == 0
    ensures total > 0 ==> size * (n - 1) < total <= size * n
    decreases total
  {
    if total <= 0 then 0 else 1 + PageCount(total - size, size)
  }

  /** The items a read with this skip and limit returns from the ordered matches `all`. */
  function Window<T>(all: seq<T>, skip: nat, limit: nat): (w: seq<T>)
    requires limit > 0
    ensures |w| <= limit
    ensures w != [] <==> skip < |all|
    ensures forall i :: 0 <= i < |w| ==> skip + i < |all| && w[i] == all[skip + i]
  {
    if skip >= |all| then []
    else all[skip .. if skip + limit <= |all| then skip + limit else |all|]
  }

  lemma MulMonotone(s: int, a: int, b: int)
    requires s > 0 && a <= b
    ensures s * a <= s * b
  {
    assert s * b - s * a == s * (b - a);
  }

  /** A next index is offered exactly when the page after this one exists. */
  lemma {:induction false} NextIndexIffLaterPage(paging: Paging, total: int)
    requires paging.size > 0 && paging.index >= 0
    ensures NextIndex(paging, total).Some? <==> paging.index + 1 < PageCount(total, paging.size)
    ensures NextIndex(paging, total).Some? ==> NextIndex(paging, total).value == paging.index + 1
  {
    var s, i := paging.size, paging.index;
    var n := PageCount(total, s);
    assert s * i + s == s * (i + 1);
    if total <= 0 {
      MulMonotone(s, 0, i + 1);
    } else if i + 1 < n {
      MulMonotone(s, i + 1, n - 1);
    } else {
      MulMonotone(s, n, i + 1);
    }
  }

  /**
   * A next index is offered exactly when the read for the next page would
   * return something, whatever the ordered matches are.
   */
  lemma NextIndexIffNextPageHasItems<T>(all: seq<T>, paging: Paging)
    requires paging.size > 0 && paging.index >= 0
    ensures NextIndex(paging, |all|).Some? <==>
      Window(all, paging.size * (paging.index + 1), paging.size) != []
  {
    assert paging.size * paging.index + paging.size == paging.size * (paging.index + 1);
    MulMonotone(paging.size, 0, paging.index + 1);
  }

  /** The items of pages 0 .. index-1, in order: what the pages before `index` return. */
  function PagesBefore<T>(all: seq<T>, size: nat, index: nat): seq<T>
    requires size > 0
    decreases index
  {
    if index == 0 then [] else PagesBefore(all, size, index - 1) + Window(all, size * (index - 1), size)
  }

  function Min(a: int, b: int): int { if a <= b then a else b }

  /**
   * The pages before `index` together hold exactly the first size * index
   * matches (or all of them), so List's read, which skips size * index,
   * starts right after them: consecutive pages tile the listing.
   */
  lemma {:induction false} ReadFollowsEarlierPages<T>(all: seq<T>, paging: Paging)
    requires paging.size > 0 && paging.index >= 0
    ensures paging.size * paging.index >= 0
    ensures PagesBefore(all, paging.size, paging.index) == all[..Min(paging.size * paging.index, |all|)]
    decreases paging.index
  {
    var size: nat, index: nat := paging.size, paging.index;
    MulMonotone(size, 0, index);
    if index > 0 {
      var k: nat, m := size * (index - 1), size * index;
      assert m == k + size;
      ReadFollowsEarlierPages(all, paging.(index := index - 1));
      var n := |all|;
      assert PagesBefore(all, size, index) == all[..Min(k, n)] + Window(all, k, size);
      if k < n {
        assert Window(all, k, size) == all[k..Min(m, n)];
        assert all[..k] + all[k..Min(m, n)] == all[..Min(m, n)];
      }
    }
  }

  /** Nothing matched: there is never a next page, whatever the page. */
  lemma NothingMatchedHasNoNext(paging: Paging, total: int)
    requires total <= 0 && paging.size >= 0 && paging.index >= 0
    ensures NextIndex(paging, total) == None
  {
  }

  /** A page size of 0 never runs out: every page of a non-empty match offers a next one. */
  lemma ZeroSizeNeverRunsOut(paging: Paging, total: int)
    requires paging.size == 0 && total > 0
    ensures NextIndex(paging, total) == Some(paging.index + 1)
  {
  }

  /**
   * The first page is page 0 (its read skips nothing), yet page 1 offers no
   * previous index even when page 0 holds items.
   */
  lemma PageOneHasNoPrevious<T>(all: seq<T>, paging: Paging)
    requires paging.index == 1 && paging.size > 0 && |all| > 0
    ensures PreviousIndex(paging) == None
    ensures Window(all, 0, paging.size) != []
  {
  }

  /** Following a next index and then the previous index returns, except from page 0. */
  lemma NextThenPrevious(paging: Paging, total: int)
    requires NextIndex(paging, total).Some?
    ensures PreviousIndex(paging.(index := NextIndex(paging, total).value)) ==
      (if paging.index >= 1 then Some(paging.index) else None)
  {
  }

  /**
   * Following a previous index and then the next index returns exactly when
   * the current page's read starts before the end of the matches.
   */
  lemma PreviousThenNext(paging: Paging, total: int)
    requires PreviousIndex(paging).Some?
    ensures NextIndex(paging.(index := PreviousIndex(paging).value), total) ==
      (if total > paging.size * paging.index then Some(paging.index) else None)
  {
    assert paging.size * (paging.index - 1) + paging.size == paging.size * paging.index;
  }

  /** Page 0 of 25 items at 10 per page has a next page and no previous; page 1 has no previous either. */
  lemma FirstPagesOfTwentyFive()
    ensures NextIndex(Paging(0, 10, []), 25) == Some(1) && PreviousIndex(Paging(0, 10, [])) == None
    ensures NextIndex(Paging(1, 10, []), 25) == Some(2) && PreviousIndex(Paging(1, 10, [])) == None
    ensures NextIndex(Paging(2, 10, []), 25) == None && PreviousIndex(Paging(2, 10, [])) == Some(1)
  {
  }

  // --------------------------------------------------------------- filters

  /** Reads a filter document back into the filters it selects by, if it is one. */
  function FiltersOfQuery(q: Document): Option<Filters>
  {
    if q == map[] then Some(Filters([]))
    else if q.Keys == {"superpowers"} && q["superpowers"].Doc?
         && q["superpowers"].fields.Keys == {"$in"}
         && q["superpowers"].fields["$in"].StrArray?
         && |q["superpowers"].fields["$in"].items| > 0
    then Some(Filters(q["superpowers"].fields["$in"].items))
    else None
  }

  /** The filter document records the filters exactly. */
  lemma FilterQueryRoundTrip(filters: Filters)
    ensures FiltersOfQuery(FilterQuery(filters)) == Some(filters)
  {
    var q := FilterQuery(filters);
    if |filters.superPowers| > 0 {
      var inner := map["$in" := StrArray(filters.superPowers)];
      assert q["superpowers"] == Doc(inner);
      assert inner.Keys == {"$in"};
      assert q.Keys == {"superpowers"};
    }
  }

  /** Every document that reads back as filters is the one built from them. */
  lemma FilterQueryOfParsed(q: Document, filters: Filters)
    requires FiltersOfQuery(q) == Some(filters)
    ensures FilterQuery(filters) == q
  {
    if q != map[] {
      var inner := q["superpowers"].fields;
      assert inner == map["$in" := StrArray(filters.superPowers)];
      assert q == map["superpowers" := Doc(inner)];
    }
  }

  /** Distinct filters give distinct queries. */
  lemma FilterQueryInjective(a: Filters, b: Filters)
    requires FilterQuery(a) == FilterQuery(b)
    ensures a == b
  {
    FilterQueryRoundTrip(a);
    FilterQueryRoundTrip(b);
  }

  // -------------------------------------------------------- soft deletion

  /** Retrieve looks up one ID and only among heroes not soft-deleted. */
  lemma RetrieveQueryPinsIdAndActive(heroId: string)
    ensures RetrieveQuery(heroId).Keys == {"_id", "isRemoved"}
    ensures RetrieveQuery(heroId)["_id"] == ObjectId(heroId)
    ensures RetrieveQuery(heroId)["isRemoved"] == Bool(false)
  {
  }

  /** Delete's update assigns the removed flag and the stamp and touches no other field. */
  lemma SoftDeleteSetsOnlyFlagAndStamp(now: Time)
    ensures SoftDeleteUpdate(now).Keys == {"$set"}
    ensures SetFields(SoftDeleteUpdate(now)).Keys == {"isRemoved", "lastUpdated"}
    ensures SetFields(SoftDeleteUpdate(now))["isRemoved"] == Bool(true)
    ensures SetFields(SoftDeleteUpdate(now))["lastUpdated"] == Timestamp(now)
  {
  }

  /** A hero that has just been soft-deleted no longer satisfies Retrieve's lookup, for any ID. */
  lemma SoftDeleteHidesFromRetrieve(heroId: string, now: Time)
    ensures Contradicts(SoftDeleteUpdate(now), RetrieveQuery(heroId))
  {
    assert "isRemoved" in SetFields(SoftDeleteUpdate(now));
  }
}
