/** Optional values and results shared by the model: the source signals an
    unknown tag with a panic, which the model turns into a `Failure`. */
module Results {

  datatype Option<+T> = None | Some(value: T)

  datatype Result<+T, +E> = Success(value: T) | Failure(error: E)
}
