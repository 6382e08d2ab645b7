/** Shared result conventions of the record store: every handler either
    answers or fails with one of the errors below, and a failing handler
    leaves the stores as they were. */
module Outcomes {

  datatype Option<+T> = None | Some(value: T)

  /** One constructor per distinct failure the handlers raise. */
  datatype Error =
    | InvalidUserType     // user type is neither "students" nor "clubs"
    | UserAlreadyExists   // registration of an email already in the collection
    | InvalidCredentials  // login with an unknown email or a wrong password
    | UserNotFound        // profile or password request for an unknown email
    | IncorrectPassword   // password change with a wrong current password
    | MissingAttribute    // a request body read for a field its type does not declare
    | ActivityNotFound    // signup or unregister for an unknown activity
    | AlreadySignedUp     // signup of an email already on the roster
    | NotSignedUp         // unregister of an email not on the roster

  datatype Result<+T> = Ok(value: T) | Err(error: Error)
}
