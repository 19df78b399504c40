/**
 * The paging request List receives. The package that declares it
 * (internal/platform/pagination) is not part of this model: only the three
 * fields List reads are kept, with Go's signed `int` as unbounded `int`.
 */
module Pagination {

  datatype Paging = Paging(
    index: int,         // page number; the read skips size * index items
    size: int,          // page length, used as the read's limit
    sort: seq<string>)  // sort keys in order; empty means the default order
}
