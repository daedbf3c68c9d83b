/** A value that may be missing: an absent attribute, a null `getAttribute`
    result, a field without an error, a timer variable still `undefined`. */
module Optional {

  datatype Option<+T> = None | Some(value: T)
}
