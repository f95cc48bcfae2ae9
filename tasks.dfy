/**
 * What the runtime's tables hold. A boxed future is opaque to the bookkeeping:
 * it is stored, moved and dropped, and polling it yields a result the model
 * receives as a parameter.
 */
module Tasks {
  /** A `Box<dyn Future<Output = ()> + Send>`, known only by identity. */
  datatype Task = Task(id: nat)

  /** `core::task::Poll<()>`. */
  datatype Poll = Ready | Pending
}
