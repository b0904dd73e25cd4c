/** The non-blocking result convention every storage operation follows.

    A call either completes (`Ready`), reports that the device is busy and
    must be polled again (`WouldBlock`), or fails with the capability's own
    error kind (`Err`). */
module Nb {

  datatype NbResult<+T, +E> = Ready(value: T) | WouldBlock | Err(error: E)

  /** Re-types an outcome that did not complete, keeping its kind and error. */
  function Forward<T, U, E>(r: NbResult<T, E>): NbResult<U, E>
    requires !r.Ready?
  {
    match r
    case WouldBlock => WouldBlock
    case Err(e) => Err(e)
  }

  /** Forgets the value of a completed outcome: `Ready(v)` becomes `Ready(())`. */
  function Discard<T, E>(r: NbResult<T, E>): NbResult<(), E>
  {
    match r
    case Ready(_) => Ready(())
    case WouldBlock => WouldBlock
    case Err(e) => Err(e)
  }
}
