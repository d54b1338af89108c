/** Option and Result, and the error taxonomy shared by every part of the
    identity transaction processor. */
module Common {

  /** Some/None, used for dictionary lookups (`dict.get`) and for the
      state cache, where `None` records an address known to be absent. */
  datatype Option<+T> = None | Some(value: T)

  /** The outcome of an operation that may raise. */
  datatype Result<+T, +E> = Success(value: T) | Failure(error: E)

  /** Every way one invocation can be rejected. The payload errors are listed
      in the order the payload constructor checks them. */
  datatype Error =
    // raised while decoding and validating the payload
    | MalformedPayload
    | ActionRequired
    | InvalidAction
    | NameRequired
    | NameContainsSeparator
    | DateOfBirthRequired
    | GenderRequired
    | InvalidGender
    // raised by the transaction handler
    | UnhandledAction
    | NameDoesNotExist
    | IdentityAlreadyExists
    | UpdateRequiresExisting
    | NotOwner
    // raised by the state layer
    | NoSuchIdentity
    | UndecodableCacheEntry
  {
    /** Failures of the state layer rather than rejections of the
        transaction: a missing name raises InternalError, and a cached absence
        makes the deserializer raise an uncaught TypeError. Everything else is
        an InvalidTransaction, a deterministic rejection. */
    predicate IsInternal() {
      NoSuchIdentity? || UndecodableCacheEntry?
    }
  }
}
