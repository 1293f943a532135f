/**
 * The exceptions the queue engine raises, as values. A raised exception
 * means the enclosing transaction never commits, so every operation that
 * returns one of these leaves the committed state as it found it.
 */
module Outcomes {

  datatype Error =
    | SizeOfPersistentQueueExceeded            // the ring of keys is full
    | ObjectIsDuplicatedOnNonAcknowledgedSet   // the item is already dispatched to this connection
    | KeyError                                 // a missing key of the buffer or a missing ack-set member
    | UnboundLocalError                        // reading a local variable that was never assigned

  datatype Result<T> = Ok(value: T) | Err(error: Error)

  datatype Outcome = Pass | Fail(error: Error)

  datatype Option<T> = None | Some(value: T)
}
