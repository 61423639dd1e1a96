/** Failure values of the store and of configuration validation, and the
    two result shapes the operations return. Error messages are formatted
    strings in the program; here each kind of failure is a constructor that
    carries the same arguments the message is built from. */
module Errors {

  datatype Error =
    | NoObject(key: string)          // no object w key: <key>
    | NoCollection(name: string)     // no collection w name: <name>
    | AlreadyExist(name: string)     // collection w name: <name> already exist
    | MaxCollections                 // too many collections
    | DeleteDefault                  // couldn't delete default collection
    | EmptyField(field: string)      // <field> is empty

  /** A value, or the error returned in its place. */
  datatype Result<+T> = Success(value: T) | Failure(error: Error)

  /** The outcome of an operation that returns only an error (nil is Pass). */
  datatype Outcome = Pass | Fail(error: Error)
}
