/** Failures of the banking operations.  The source throws an Error with a
    human-readable message; here each distinct failure of the modelled
    operations is one constructor. */
module Outcomes {

  datatype Error =
    | InvalidClient      // addClient: the candidate fails validateClient
    | DuplicateClient    // addClient: a roster entry already has that name
    | MissingClient      // bank removeClient: no roster entry has that name
    | ClientNotAllowed   // setClient: not a client of the bank, or a session is already bound
    | NoSession          // addMoney / giveMoney without a bound client
    | ExceedsBalance     // giveMoney: amount above the client's balance
    | NotMultipleOfTen   // giveMoney: amount not divisible by the smallest note
    | InsufficientNotes  // giveMoney: the greedy pass left a remainder

  /** Result of an operation that returns `true` on success. */
  datatype Outcome = Pass | Fail(error: Error)

  /** Result of an operation that returns a value on success. */
  datatype Result<T> = Ok(value: T) | Err(error: Error)
}
