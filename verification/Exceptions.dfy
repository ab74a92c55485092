/** The codes the core pushes or returns (core/exception.hpp, core/text/unicode.hpp, core/memory/allocator.hpp).
    A pushed exception is modelled as a returned code. */
module Exceptions {
  datatype Code =
    | NoError
    | IndexOutOfRange
    | InvalidArgument
    | InvalidOperation
    | OutOfMemory
    | Platform
    | InvalidUnicodeLead
    | IncompleteUnicodeSequence
    | OverlongUnicodeSequence
}
