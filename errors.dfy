/** The exceptions that leave the secret helpers. */
module Errors {
  datatype Error =
    | MissingProjectId    // ValueError("Project ID is required.")
    | InvalidIntLiteral   // ValueError raised by int() on a version id
    | NotFound            // the service's NOT_FOUND: secret or version absent
    | InvalidArgument     // the service rejects a malformed resource name
    | FailedPrecondition  // the service refuses to read a version that is not ENABLED, or to destroy one already DESTROYED
}
