/** How a collection operation ends: normally, or by the NullPointerException
    that the source raises on some inputs (the exception leaves the structure
    as it was and releases every lock through `finally`). */
module Exceptions {
  datatype Outcome = Normal | NullPointerException
}
