/** Failure-carrying results shared by the whole model, and the errors the
    add-on raises (Python exceptions and failed `assert` statements). */
module Wrappers {

  datatype Option<+T> = None | Some(value: T)

  datatype Result<+T, +E> = Ok(value: T) | Err(error: E)

  /** The exceptions the modelled code can raise. */
  datatype FractureError =
    | EmptyVertices      // `min` of an empty coordinate list (a ValueError)
    | NoPointsFound      // the "No points found" assertion of the cell step
    | NoMeshSelected     // the "No MESH object selected." assertion of `main`
    | NoInteriorOption   // the interior handler's check that one of its options is on
    | UnknownMassMode    // the assertion failure for a mass mode other than UNIFORM and VOLUME
}
