/** How one call of the modelled program ends. */
module Outcomes {

  /** `Threw` is a C++ exception; the last three are undefined behaviour of the original. */
  datatype Outcome =
    | Returned(done: bool)
    | Threw
    | NullDereference
    | BufferOverrun
    | LiteralOverrun   // a string is read from behind the end of a literal

  /** The code as it is, or with the corrections that the README lists. */
  datatype Version = AsShipped | Patched
}
