# Hero data-access layer, modelled in Dafny

This project models the logic of `internal/hero/hero.go` in the api-workshop
repository that is not delegated to the MongoDB driver:

- **List**: the page bookkeeping around the two store reads. It counts the heroes
  that match the filters and reads a page only when the count is positive. The
  read skips `Size*Index` items, takes at most `Size` (for a positive `Size`), and sorts by the caller's
  keys, or by `"created"` when none are given. The result carries `Count`, `Total`
  and `Index`. `NextIndex` is present while items remain past this page, and
  `PreviousIndex` only when `Index > 1`.
- **extractQueryFromFilters**: the filter document: empty, or
  `{"superpowers": {"$in": SuperPowers}}`. Its error result is always nil.
- **Retrieve** and **Delete**: check the ID with `bson.IsObjectIdHex` before any
  store call. They issue the lookup `{_id, isRemoved: false}` or the soft-delete
  update `{"$set": {isRemoved: true, lastUpdated: now}}`. They turn the store's
  not-found into "Entity not found" and wrap every other store error.

The store is not modelled. Each call the code makes through
`dbConn.Execute` is a function-typed parameter that gives the store's answer to
that request (`StoreOutcome`: a value, `ErrNotFound` or another error). Each
operation also returns the requests it issued, in order. That is how the
contracts say that a malformed ID reaches no store call and that an empty count
issues no read. `bson.IsObjectIdHex` is an uninterpreted predicate parameter.
`time.Now()` is a parameter `now`.

Layout: `wrappers.dfy` (Option, Result), `bson.dfy` (document values and the
`$set` reading of an update), `pagination.dfy` (the `Paging` request),
`hero.dfy` (the operations), `hero_properties.dfy` (what the documents and the
page arithmetic mean).

The page arithmetic is related to independent definitions:

- `PageCount` is the number of pages, defined by repeated subtraction as the
  ceiling of `total / size`.
- `Window` is the slice of an ordered listing that a skip/limit read selects.

`NextIndex` is present exactly when page `Index + 1` exists, and exactly when the
next page's read would return something. Page 0 is the first page, since its read
skips nothing. Still, page 1 offers no previous index (`Index > 1` at
internal/hero/hero.go:95). The model keeps this as written, and
`PageOneHasNoPrevious` and `NextThenPrevious` state it. A page size of 0 never runs
out of next pages (`ZeroSizeNeverRunsOut`).

## Model

| member | source | states |
|---|---|---|
| `Hero.FilterQuery` | internal/hero/hero.go:103-112 | the filter document is empty exactly when no super powers are given, and it constrains no field other than "superpowers" |
| `Hero.ExtractQueryFromFilters` | internal/hero/hero.go:102-115 | builds the filter document in place, including the copy loop whose slice is never used, and never returns an error |
| `Hero.SortKeys` | internal/hero/hero.go:64-70 | the read is always sorted; the caller's keys are used when given, otherwise the default "created" |
| `Hero.NextIndex` | internal/hero/hero.go:86-94 | a next index is present exactly when Size*(Index+1), the end of this page, is below Total, and it is then Index+1 |
| `Hero.PreviousIndex` | internal/hero/hero.go:95-98 | a previous index is present exactly when Index is at least 2, and it is then Index-1, so it never points at page 0 |
| `Hero.List` | internal/hero/hero.go:42-100 | the count against the filter document comes first, and its failure is wrapped and ends the call. The read is issued exactly when the count is positive, with skip Size*Index and limit Size, and its failure is wrapped. On success `Heroes` is what the read returned (empty if nothing was read), `Count` is their number, `Total` is the count, `Index` is echoed, and `NextIndex`/`PreviousIndex` follow the page arithmetic |
| `Hero.Retrieve` | internal/hero/hero.go:119-142 | a malformed ID fails with InvalidId exactly, and no request is issued. Otherwise exactly one lookup by `RetrieveQuery` is issued. The hero is returned exactly when the store returns one, store not-found becomes EntityNotFound, and any other store error is wrapped with the lookup |
| `Hero.Delete` | internal/hero/hero.go:146-169 | a malformed ID fails with InvalidId exactly, and no request is issued. Otherwise exactly one update of that ID with `SoftDeleteUpdate(now)` is issued. Success comes exactly when the store succeeds, store not-found becomes EntityNotFound, and any other store error is wrapped with the update |
| `HeroProperties.NextIndexIffLaterPage` | internal/hero/hero.go:86-94 | for a positive size and a non-negative index, NextIndex is present exactly when Index+1 is below the number of pages (the ceiling of Total/Size), and it is then Index+1 |
| `HeroProperties.NextIndexIffNextPageHasItems` | internal/hero/hero.go:86-94 | for a positive size and a non-negative index, NextIndex is present exactly when a read with the next page's skip and limit would return at least one of the matching items |
| `HeroProperties.ReadFollowsEarlierPages` | internal/hero/hero.go:72 | for a positive size and a non-negative index, the pages before Index, read one after another, hold exactly the first Size*Index matches (or all of them), so the read that skips Size*Index starts right after them: pages tile the listing |
| `HeroProperties.NothingMatchedHasNoNext` | internal/hero/hero.go:87-94 | with no matches there is no next index for any non-negative size and index |
| `HeroProperties.ZeroSizeNeverRunsOut` | internal/hero/hero.go:87-94 | with Size 0 and a positive Total, every page offers a next index |
| `HeroProperties.PageOneHasNoPrevious` | internal/hero/hero.go:95-98 | page 1 offers no previous index, although page 0's read starts at the first item and returns something |
| `HeroProperties.NextThenPrevious` | internal/hero/hero.go:91-98 | following a next index and then the previous index returns to the starting page, except from page 0 |
| `HeroProperties.PreviousThenNext` | internal/hero/hero.go:91-98 | following a previous index and then the next index returns to the starting page exactly when Total exceeds Size*Index |
| `HeroProperties.FirstPagesOfTwentyFive` | internal/hero/hero.go:87-98 | with 25 matches at 10 per page: page 0 has next 1 and no previous, page 1 has next 2 and no previous, and page 2 has no next and previous 1 |
| `HeroProperties.FilterQueryRoundTrip` | internal/hero/hero.go:102-115 | the filter document can be read back into exactly the filters it was built from |
| `HeroProperties.FilterQueryOfParsed` | internal/hero/hero.go:102-115 | any document that reads back as filters is the document built from those filters |
| `HeroProperties.FilterQueryInjective` | internal/hero/hero.go:102-115 | distinct filters give distinct filter documents |
| `Hero.RetrieveQuery` | internal/hero/hero.go:126-129 | the lookup is keyed by the ObjectId of the given ID, so distinct IDs give distinct lookups; the lookup's content (the ID's ObjectId and isRemoved false, nothing else) is stated by `RetrieveQueryPinsIdAndActive` |
| `Hero.SoftDeleteUpdate` | internal/hero/hero.go:152-157 | the update's only operator is `$set`, and it marks the hero removed; its exact content (isRemoved true, lastUpdated now, nothing else) is stated by `SoftDeleteSetsOnlyFlagAndStamp` |
| `HeroProperties.RetrieveQueryPinsIdAndActive` | internal/hero/hero.go:126-129 | the lookup has exactly two conditions, the ObjectId of the given ID and isRemoved false |
| `HeroProperties.SoftDeleteSetsOnlyFlagAndStamp` | internal/hero/hero.go:152-157 | the soft-delete update has `$set` as its only operator, and it assigns exactly isRemoved true and lastUpdated now |
| `HeroProperties.SoftDeleteHidesFromRetrieve` | internal/hero/hero.go:126-157 | a hero that has just received the soft-delete update fails Retrieve's isRemoved condition for every ID |

## Left out

- Create and Update: besides the store call they only copy fields and stamp times. Update also converts an unchecked ID with `bson.ObjectIdHex`, and what that does with bad input is the library's business.
- The MongoDB driver (`Execute`, `Insert`, `Find`, `Count`, `Sort`, `Skip`, `Limit`, `All`, `One`, `UpdateId`): each call's outcome is an input. No matching, sorting or update semantics of the store are modelled. `Window` is the usual meaning of skip and limit for a positive limit, used only to state what the page bookkeeping means. A limit of 0, which the store reads as "no limit", is outside it.
- `bson.IsObjectIdHex`, `bson.ObjectIdHex`, `bson.NewObjectId`: the validity check is an uninterpreted predicate parameter. A checked ID becomes the value `ObjectId(hex)`.
- `time.Now()`: the instant is the parameter `now` and is only passed through.
- Error text: the messages of `errors.New`, `errors.Wrap`, `errors.Wrapf` and `database.Query` are not modelled. A wrapped error keeps its cause and the request that failed.
- Go `int` width: `Size*Index`, `Index+1` and `Total - (Size*Index + Size)` are unbounded integers here, so 64-bit overflow is not modelled.
- The declarations of `Hero`, `Filters`, `ListResults` and `Paging`, and the `database` and `pagination` packages, are not part of this model. The fields kept are the ones `hero.go` reads or writes, plus the soft-delete flag.
