/** Result shapes shared by the controller model. */
module Results {

  /** A value that may be absent: the `null` a lookup returns when nothing matches. */
  datatype Option<T> = None | Some(value: T)

  /** The controller's reply envelope `R`: a success carrying data, or an error carrying a message. */
  datatype R<T> = Success(data: T) | Error(msg: string)
}
