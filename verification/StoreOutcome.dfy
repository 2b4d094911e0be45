/** What became of a record a store was given. */
module StoreOutcome {
  datatype WriteResult = NotRetained | Kept | Lost
}
