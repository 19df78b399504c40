/**
 * The documents the hero operations hand to the document store: a small
 * subset of BSON values, enough for the filter, lookup and soft-delete
 * documents built in internal/hero/hero.go.
 */
module Bson {

  /** A wall-clock instant (Go's time.Time); only ever passed through. */
  datatype Time = Time(unixNano: int)

  datatype Value =
    | Bool(b: bool)
    | Str(s: string)
    | StrArray(items: seq<string>)
    | ObjectId(hex: string)      // bson.ObjectIdHex(hex), for a hex string already checked
    | Timestamp(at: Time)
    | Doc(fields: map<string, Value>)

  /** A bson.M: field name to value. */
  type Document = map<string, Value>

  /** The fields an update document assigns with its "$set" operator. */
  function SetFields(update: Document): (fields: map<string, Value>)
    ensures fields != map[] ==> "$set" in update && update["$set"] == Doc(fields)
  {
    if "$set" in update && update["$set"].Doc? then update["$set"].fields else map[]
  }

  /**
   * No document that has just received `update` can satisfy `query`: some field
   * the update assigns is pinned by an equality condition of the query to a
   * different value.
   */
  ghost predicate Contradicts(update: Document, query: Document)
  {
    exists k :: k in SetFields(update) && k in query && !query[k].Doc? && SetFields(update)[k] != query[k]
  }
}
