/**
 * The hero data-access layer of internal/hero/hero.go: the list with paging,
 * the filter query, retrieve-by-id and soft delete.
 *
 * The document store is not modelled. Every call the code makes through
 * `dbConn.Execute` is a function-typed parameter giving the store's answer to
 * that request, and each operation also reports the requests it issued, in
 * order, so that "no call was made" is something a contract can say.
 * `bson.IsObjectIdHex` is likewise a parameter (an uninterpreted predicate),
 * and `time.Now()` is the parameter `now`.
 */
module Hero {
  import opened Wrappers
  import opened Bson
  import opened Pagination

  datatype Metadata = Metadata(created: Time, lastModified: Time)

  /** A stored hero, as Create fills it in (internal/hero/hero.go:19-28) plus the soft-delete flag. */
  datatype Hero = Hero(
    id: string,
    name: string,
    superPowers: seq<string>,
    gender: string,
    metadata: Metadata,
    isRemoved: bool)

  /** Query criteria of List: heroes having any of these super powers. */
  datatype Filters = Filters(superPowers: seq<string>)

  /** What List returns (internal/hero/hero.go:79-98). */
  datatype ListResults = ListResults(
    heroes: seq<Hero>,
    count: int,
    total: int,
    index: int,
    nextIndex: Option<int>,
    previousIndex: Option<int>)

  /** A sorted, windowed read: Find(query).Sort(sort...).Skip(skip).Limit(limit).All. */
  datatype FindRequest = FindRequest(query: Document, sort: seq<string>, skip: int, limit: int)

  /** One round trip to the "heroes" collection. */
  datatype Request =
    | Count(query: Document)
    | Find(find: FindRequest)
    | FindOne(query: Document)
    | UpdateId(id: Value, update: Document)

  /** An error the store reports; mgo.ErrNotFound is singled out by the code. */
  datatype StoreError = ErrNotFound | ErrOther(message: string)

  /** The store's answer to one request. */
  datatype StoreOutcome<+T> = Ok(value: T) | Err(error: StoreError)

  /** The errors the operations return. */
  datatype Error =
    | InvalidId(id: string)                       // the ID failed bson.IsObjectIdHex
    | EntityNotFound                              // errors.New("Entity not found")
    | Wrapped(cause: StoreError, during: Request) // errors.Wrap(cause, <what was being done>)

  /** An operation's result together with the store requests it issued, in order. */
  datatype Run<+T> = Run(result: Result<T, Error>, issued: seq<Request>)

  // ---------------------------------------------------------------- filters

  /** The query document for `filters`: empty, or an any-of match on "superpowers". */
  function FilterQuery(filters: Filters): (q: Document)
    ensures q == map[] <==> |filters.superPowers| == 0
    ensures q.Keys <= {"superpowers"}
  {
    if |filters.superPowers| > 0 then
      var q := map["superpowers" := Doc(map["$in" := StrArray(filters.superPowers)])];
      assert "superpowers" in q;
      q
    else
      map[]
  }

  /**
   * extractQueryFromFilters: fills an empty bson.M in place. The loop copies
   * the super powers into a slice that is then never used; the query refers
   * to the filter's own slice. The error result is always nil.
   */
  method ExtractQueryFromFilters(filters: Filters) returns (query: Document, err: Option<Error>)
    ensures query == FilterQuery(filters)
    ensures err == None
  {
    query := map[];
    if |filters.superPowers| > 0 {
      var superpowers: seq<string> := [];
      for i := 0 to |filters.superPowers|
        invariant superpowers == filters.superPowers[..i]
      {
        superpowers := superpowers + [filters.superPowers[i]];
      }
      query := query["superpowers" := Doc(map["$in" := StrArray(filters.superPowers)])];
    }
    err := None;
  }

  // ----------------------------------------------------------------- paging

  /** The sort keys of List's read: the caller's, or "created" when none are given. */
  function SortKeys(paging: Paging): (keys: seq<string>)
    ensures |keys| > 0
    ensures |paging.sort| > 0 ==> keys == paging.sort
    ensures |paging.sort| == 0 ==> keys == ["created"]
  {
    if |paging.sort| > 0 then paging.sort else ["created"]
  }

  /** The next page's index, present when items remain after this page. */
  function NextIndex(paging: Paging, total: int): (next: Option<int>)
    ensures next.Some? <==> paging.size * (paging.index + 1) < total
    ensures next.Some? ==> next.value == paging.index + 1
  {
    var countToIndex := paging.size * paging.index;
    var nextPagesCount := total - (countToIndex + paging.size);
    if nextPagesCount > 0 then Some(paging.index + 1) else None
  }

  /** The previous page's index, present only from index 2 on. */
  function PreviousIndex(paging: Paging): (previous: Option<int>)
    ensures previous.Some? <==> paging.index >= 2
    ensures previous.Some? ==> previous.value == paging.index - 1 && previous.value >= 1
  {
    if paging.index > 1 then Some(paging.index - 1) else None
  }

  /**
   * List: count the heroes matching the filters; when there are any, read
   * the requested page of them; then fill in the page bookkeeping.
   */
  method List(filters: Filters, paging: Paging,
              count: Document -> StoreOutcome<int>,
              find: FindRequest -> StoreOutcome<seq<Hero>>)
    returns (r: Result<ListResults, Error>, issued: seq<Request>)
    // The count always comes first, against the filter query.
    ensures |issued| >= 1 && issued[0] == Count(FilterQuery(filters))
    // A failed count is wrapped and ends the operation.
    ensures count(FilterQuery(filters)).Err? ==>
      issued == [Count(FilterQuery(filters))] &&
      r == Failure(Wrapped(count(FilterQuery(filters)).error, Count(FilterQuery(filters))))
    // A read is issued exactly when the count is positive, sorted by
    // SortKeys(paging), with skip = size * index and limit = size.
    ensures count(FilterQuery(filters)).Ok? ==>
      var total := count(FilterQuery(filters)).value;
      var req := FindRequest(FilterQuery(filters), SortKeys(paging), paging.size * paging.index, paging.size);
      && (total <= 0 ==> issued == [Count(FilterQuery(filters))])
      && (total > 0 ==> issued == [Count(FilterQuery(filters)), Find(req)])
      && (total > 0 && find(req).Err? ==> r == Failure(Wrapped(find(req).error, Find(req))))
      && (r.Success? <==> total <= 0 || find(req).Ok?)
      && (r.Success? ==>
            && r.value.heroes == (if total > 0 then find(req).value else [])
            && r.value.count == |r.value.heroes|
            && r.value.total == total
            && r.value.index == paging.index
            && r.value.nextIndex == NextIndex(paging, total)
            && r.value.previousIndex == PreviousIndex(paging))
  {
    var q, err := ExtractQueryFromFilters(filters);
    if err.Some? {
      // internal/hero/hero.go:44-46 cannot be reached: the query never fails.
      assert false;
    }

    issued := [Count(q)];
    var counted := count(q);
    if counted.Err? {
      r := Failure(Wrapped(counted.error, Count(q)));
      return;
    }
    var total := counted.value;

    var heroes: seq<Hero> := [];
    if total > 0 {
      var sort: seq<string>;
      if |paging.sort| > 0 {
        sort := paging.sort;
      } else {
        sort := ["created"];
      }
      var req := FindRequest(q, sort, paging.size * paging.index, paging.size);
      issued := issued + [Find(req)];
      var found := find(req);
      if found.Err? {
        r := Failure(Wrapped(found.error, Find(req)));
        return;
      }
      heroes := found.value;
    }

    var listResults := ListResults(heroes, |heroes|, total, paging.index, None, None);
    var countToIndex := paging.size * paging.index;
    var nextPagesCount := total - (countToIndex + paging.size);
    if nextPagesCount > 0 {
      listResults := listResults.(nextIndex := Some(paging.index + 1));
    }
    if paging.index > 1 {
      listResults := listResults.(previousIndex := Some(paging.index - 1));
    }
    r := Success(listResults);
  }

  // ------------------------------------------------------ retrieve / delete

  /** The lookup Retrieve issues: this ID, and only if not soft-deleted. */
  function RetrieveQuery(heroId: string): (q: Document)
    ensures "_id" in q && q["_id"] == ObjectId(heroId)
  {
    map["_id" := ObjectId(heroId), "isRemoved" := Bool(false)]
  }

  /** The soft-delete update: set the removed flag and the update stamp, nothing else. */
  function SoftDeleteUpdate(now: Time): (update: Document)
    ensures update.Keys == {"$set"}
    ensures "isRemoved" in SetFields(update) && SetFields(update)["isRemoved"] == Bool(true)
  {
    map["$set" := Doc(map["isRemoved" := Bool(true), "lastUpdated" := Timestamp(now)])]
  }

  /** Retrieve: validate the ID, look the hero up, map the store's errors. */
  function Retrieve(isObjectIdHex: string -> bool,
                    findOne: Document -> StoreOutcome<Hero>,
                    heroId: string): (run: Run<Hero>)
    // A malformed ID is rejected before any store call.
    ensures !isObjectIdHex(heroId) <==> run.result == Failure(InvalidId(heroId))
    ensures run.issued == (if isObjectIdHex(heroId) then [FindOne(RetrieveQuery(heroId))] else [])
    // The store's answer decides the rest.
    ensures run.result.Success? <==> isObjectIdHex(heroId) && findOne(RetrieveQuery(heroId)).Ok?
    ensures run.result.Success? ==> run.result.value == findOne(RetrieveQuery(heroId)).value
    ensures run.result == Failure(EntityNotFound) <==>
      isObjectIdHex(heroId) && findOne(RetrieveQuery(heroId)) == Err(ErrNotFound)
    ensures isObjectIdHex(heroId) && findOne(RetrieveQuery(heroId)).Err? && findOne(RetrieveQuery(heroId)).error != ErrNotFound ==>
      run.result == Failure(Wrapped(findOne(RetrieveQuery(heroId)).error, FindOne(RetrieveQuery(heroId))))
    ensures run.result.Failure? && run.result.error.Wrapped? ==>
      && findOne(RetrieveQuery(heroId)).Err?
      && findOne(RetrieveQuery(heroId)).error != ErrNotFound
      && run.result.error == Wrapped(findOne(RetrieveQuery(heroId)).error, FindOne(RetrieveQuery(heroId)))
  {
    if !isObjectIdHex(heroId) then
      Run(Failure(InvalidId(heroId)), [])
    else
      var q := RetrieveQuery(heroId);
      var outcome := findOne(q);
      if outcome.Err? then
        if outcome.error == ErrNotFound then
          Run(Failure(EntityNotFound), [FindOne(q)])
        else
          Run(Failure(Wrapped(outcome.error, FindOne(q))), [FindOne(q)])
      else
        Run(Success(outcome.value), [FindOne(q)])
  }

  /** Delete: validate the ID, soft-delete the hero, map the store's errors. */
  function Delete(isObjectIdHex: string -> bool,
                  updateId: (Value, Document) -> StoreOutcome<()>,
                  id: string, now: Time): (run: Run<()>)
    // A malformed ID is rejected before any store call.
    ensures !isObjectIdHex(id) <==> run.result == Failure(InvalidId(id))
    ensures run.issued == (if isObjectIdHex(id) then [UpdateId(ObjectId(id), SoftDeleteUpdate(now))] else [])
    // The store's answer decides the rest.
    ensures run.result.Success? <==> isObjectIdHex(id) && updateId(ObjectId(id), SoftDeleteUpdate(now)).Ok?
    ensures run.result == Failure(EntityNotFound) <==>
      isObjectIdHex(id) && updateId(ObjectId(id), SoftDeleteUpdate(now)) == Err(ErrNotFound)
    ensures isObjectIdHex(id) && updateId(ObjectId(id), SoftDeleteUpdate(now)).Err?
            && updateId(ObjectId(id), SoftDeleteUpdate(now)).error != ErrNotFound ==>
      run.result ==
      Failure(Wrapped(updateId(ObjectId(id), SoftDeleteUpdate(now)).error, UpdateId(ObjectId(id), SoftDeleteUpdate(now))))
    ensures run.result.Failure? && run.result.error.Wrapped? ==>
      && updateId(ObjectId(id), SoftDeleteUpdate(now)).Err?
      && updateId(ObjectId(id), SoftDeleteUpdate(now)).error != ErrNotFound
      && run.result.error ==
         Wrapped(updateId(ObjectId(id), SoftDeleteUpdate(now)).error, UpdateId(ObjectId(id), SoftDeleteUpdate(now)))
  {
    if !isObjectIdHex(id) then
      Run(Failure(InvalidId(id)), [])
    else
      var update := SoftDeleteUpdate(now);
      var outcome := updateId(ObjectId(id), update);
      if outcome.Err? then
        if outcome.error == ErrNotFound then
          Run(Failure(EntityNotFound), [UpdateId(ObjectId(id), update)])
        else
          Run(Failure(Wrapped(outcome.error, UpdateId(ObjectId(id), update))), [UpdateId(ObjectId(id), update)])
      else
        Run(Success(()), [UpdateId(ObjectId(id), update)])
  }
}
