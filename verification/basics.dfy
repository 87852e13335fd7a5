/** Small wrappers shared by every module of the model. */
module Basics {

  /** A value that may be absent: Python's `Optional[T]`, where `None` is the absent case. */
  datatype Option<+T> = None | Some(value: T)

  /** What a Python call does: it returns a value, or an exception escapes from it.
      The exception's class is not recorded: whichever escapes, the whole lookup
      call ends with it, and with concurrent tasks which one escapes first is a
      matter of timing. */
  datatype Outcome<+T> = Returns(value: T) | Raises

  function Min(a: int, b: int): int { if a <= b then a else b }

  function Max(a: int, b: int): int { if a >= b then a else b }
}
