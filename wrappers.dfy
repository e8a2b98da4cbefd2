/** Small shared datatypes: an optional value, and the per-event signal a processor gives the framework. */
module Wrappers {

  /** A value that may be absent, such as an event collection that is not available. */
  datatype Option<+T> = None | Some(value: T)

  /** A value, or the error that was raised instead of producing one. */
  datatype Result<+T> = Success(value: T) | Failure(error: string)

  /** What a processor tells the event loop after an event: carry on, or stop processing
      (the framework's StopProcessingException). */
  datatype Status = Continue | StopProcessing
}
