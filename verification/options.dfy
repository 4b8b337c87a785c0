/** A value that may be missing: pandas' NaN/None cells in the event table,
    and the not-yet-set `blacklisted` flag of an incident. */
module Options {

  datatype Option<+T> = None | Some(value: T)
}
