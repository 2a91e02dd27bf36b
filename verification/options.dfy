/** A nullable reference, as `ObjElement` fields and `FirstOrDefault`
    results are in the canvas. */
module Options {

  datatype Option<+T> = None | Some(value: T)
}
