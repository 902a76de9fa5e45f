/**
 * The exceptions of the library, folded into one datatype.
 * `AuthenticationException` and its two subclasses become `Authentication`
 * with a sub-kind; `UserAlreadyExistsException` is deliberately a separate
 * constructor because it does not derive from `AuthenticationException`.
 */
module Errors {

  /** Identifier of a record (a `System.Guid` in the source). */
  type Guid = nat

  /** Which underlying failure a `DataAccessException` wraps. */
  datatype AccessCause =
    | Format        // malformed JSON
    | Io            // IOException
    | Permission    // UnauthorizedAccessException
    | Unexpected    // any other exception

  /** The sub-kinds of `AuthenticationException`. */
  datatype AuthFailure =
    | BlankCredentials                  // the base class raised directly
    | UserNotFound(username: string)    // UserNotFoundException
    | InvalidPassword(username: string) // InvalidPasswordException

  datatype Error =
    | DataAccess(cause: AccessCause)          // DataAccessException
    | NotFound(id: Guid)                      // DataObjectNotFoundException
    | Authentication(failure: AuthFailure)    // AuthenticationException and subclasses
    | AlreadyExists(username: string)         // UserAlreadyExistsException
    | ArgumentNull(param: string)             // ArgumentNullException
    | Argument(param: string)                 // ArgumentException
    | InvalidOperation                        // InvalidOperationException
  {
    /** True of exactly the errors a `catch (AuthenticationException)` would catch. */
    predicate IsAuthentication() { Authentication? }
  }
}
