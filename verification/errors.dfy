/** The errors that abort one `markup` call of the enhanced:img preprocessor. */
module Errors {

  datatype Error =
      /** The imagetools plugin instance has no `load` hook. */
    | MissingLoadMethod
      /** The `load` hook returned a falsy module for a resolved id. */
    | CouldNotLoad(id: string)
      /** JSON.parse refused the normalised descriptor text. */
    | MalformedDescriptor(reason: string)
      /** A `src` value token without raw text (an attribute shorthand): reading `.raw.trim()` throws. */
    | SrcNotText
      /** The edit buffer refused an edit: an empty or out-of-bounds range, or one that splits an edited chunk. */
    | EditRejected(start: nat, end: nat)

}
