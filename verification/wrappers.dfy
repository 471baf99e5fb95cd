/** Failure-carrying datatypes shared by the model.
    `Error` names the Python exceptions the facade can raise on its own
    account; failures of the backing shelve engine are not modelled. */
module Wrappers {

  datatype Option<+T> = None | Some(value: T)

  /** The exceptions raised by the sharded store layer. */
  datatype Error =
    | IndexError            // `key[0]` on an empty key
    | KeyError(key: string) // lookup or deletion of a key its shard does not hold
    | TypeError             // `update` called with more than one positional argument

  datatype Result<+T> = Ok(value: T) | Err(error: Error)
}
