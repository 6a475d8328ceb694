/** Optional values, used wherever the Go code returns a nil-able error
    or where a step may not have happened at all. */
module Optional {

  datatype Option<+T> = None | Some(value: T)
}
