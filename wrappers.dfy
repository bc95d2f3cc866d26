/** Optional values and results with an error, as used by the list engine. */
module Wrappers {

  datatype Option<+T> = None | Some(value: T)

  datatype Result<+T, +E> = Ok(value: T) | Err(error: E)

  /** The ways an operation of the list engine can fail. */
  datatype Error =
    | NoGap              // take_position_between found two neighbours at the same position
    | NilNeighbour       // a swap was asked of a neighbour that does not exist
    | NoAddToListMethod  // scope changed while new items are added nowhere
}
