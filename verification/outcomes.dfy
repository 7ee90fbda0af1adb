/** The abort (`check`) conditions of the key-value table, and the failure-compatible
    wrappers the model uses in their place. */
module Outcomes {

  /** One constructor per `eosio::check` message of the table engine, plus the host's
      refusal of an unknown iterator handle. */
  datatype Error =
    | InvalidHexLength        // from_hex: odd number of characters
    | HexTooLong              // to_hex: 2 * size overflows 32 bits
    | DuplicateSecondary      // put: new record, secondary key already stored
    | SecondaryInUse          // put: existing record, secondary key held by another record
    | BadDiscriminant         // deserialize: leading index is not 0
    | UnpackFailure           // the codec could not read the payload
    | ReadEnd                 // value() on an end cursor
    | ReadStatus              // value()/key(): host reports the cursor is not positioned
    | MissingPrimary          // a secondary entry names a primary key that is not stored
    | KeyNotFound             // operator[] on an absent key
    | IncrementEnd            // ++ on an end cursor
    | DecrementPastBegin      // -- past the first entry
    | InvalidHandle           // the host does not know the iterator handle

  datatype Option<+T> = None | Some(value: T)

  datatype Result<+T> = Success(value: T) | Failure(error: Error) {
    predicate IsFailure() { Failure? }
    function PropagateFailure<U>(): Result<U>
      requires Failure?
    {
      Failure(error)
    }
    function Extract(): T
      requires Success?
    {
      value
    }
  }

  datatype Outcome = Pass | Fail(error: Error) {
    predicate IsFailure() { Fail? }
    function PropagateFailure(): Outcome
      requires Fail?
    {
      this
    }
  }
}
