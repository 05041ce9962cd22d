/** The ways a call into the TIL contract aborts. On NEAR a panic reverts every
    storage write of the call, so a failed call leaves the contract state as it was. */
module Panics {

  datatype Panic =
    | ContentTooLong     // `Post::new` on content over the byte limit
    | PageSizeTooLarge   // `paged_vector` with a page size over the limit
    | UnwrapOnNone       // `user_timeline` looking up a post id that is not stored
}
