/** Failure-carrying values shared by every part of the synchronisation engine. */
module Results {

  datatype Option<+T> = None | Some(value: T)

  /** The errors the engine can return; each names the check or remote call that failed. */
  datatype Error =
    | TokenRejected(status: int)           // the token endpoint answered with a non-2xx status
    | EmptyToken                           // the token endpoint answered without a token
    | DepartmentFetchFailed(departmentId: string)
    | NoGroups                             // the realm's group listing is empty
    | GroupNotFound(path: string)
    | EmptyUserList                        // the realm's user listing is empty
    | UserNotFound(username: string)
    | EmailMissing(name: string)           // a department was assigned before an email
    | Rejected(status: int)                // a remote call answered with a status not accepted
    | UnsupportedEvent(eventType: string)

  datatype Result<+T> = Ok(value: T) | Err(error: Error)

  /** The result of an operation that returns only an error (Go's `error`). */
  type Outcome = Result<()>
}
