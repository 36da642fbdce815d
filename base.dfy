/** Small value wrappers shared by the whole model. */
module Base {

  /** A value that may be absent (a Java `null` or a missing map entry). */
  datatype Option<+T> = None | Some(value: T)

  /** The Java exceptions that can leave the `AbilityRegistration` constructor. */
  datatype Failure =
    | UnsupportedVersion   // the version gate found no usable class
    | NoSuchMethod         // no public `(Participant)` constructor
    | IllegalAccess        // a static setting field could not be read
    | NullPointer          // a static setting field held `null`
    | IllegalArgument      // the class carries no `@AbilityManifest`

  /** Either a value or the exception that was thrown instead. */
  datatype Result<+T> = Ok(value: T) | Err(error: Failure)
}
