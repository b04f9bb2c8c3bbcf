/**
 * The fixed capacities and the result and type codes that the library's
 * header defines, with the C integer widths the library uses.
 */
module Limits {

  /** `int8_t`: command results and the argument count handed to handlers. */
  newtype Int8 = x: int | -0x80 <= x < 0x80

  /** `int32_t`: the numeric value of a parsed parameter. */
  newtype Int32 = x: int | -0x8000_0000 <= x < 0x8000_0000

  /** Size of the buffer that holds the command line (one byte of it for the NUL). */
  const CMD_BUF_SIZE: nat := 80

  /** Slots of `argv`: the command name plus up to nine arguments. */
  const CMDLINE_MAX_ARGS: nat := 10

  /** Terminator characters; the array holding them has one more slot for a NUL. */
  const CMDLINE_MAX_TERMINATORS: nat := 2

  // Results of command processing.
  const CMDLINE_BAD_CMD: Int8 := -1
  const CMDLINE_TOO_MANY_ARGS: Int8 := -2
  const CMDLINE_TOO_FEW_ARGS: Int8 := -3
  const CMDLINE_INVALID_ARG: Int8 := -4

  // Parameter types reported by the parameter classifier.
  const BADPARAM: Int8 := -1
  const DECVAL: Int8 := 1
  const HEXVAL: Int8 := 2
  const STRVAL: Int8 := 3

  /** The four reserved results are negative and pairwise distinct, so no two errors are confused. */
  lemma ResultCodesDistinct()
    ensures CMDLINE_BAD_CMD < 0 && CMDLINE_TOO_MANY_ARGS < 0
    ensures CMDLINE_TOO_FEW_ARGS < 0 && CMDLINE_INVALID_ARG < 0
    ensures |{CMDLINE_BAD_CMD, CMDLINE_TOO_MANY_ARGS, CMDLINE_TOO_FEW_ARGS, CMDLINE_INVALID_ARG}| == 4
  {
  }

  /** The four parameter types are pairwise distinct and only BADPARAM is negative. */
  lemma ParamCodesDistinct()
    ensures |{BADPARAM, DECVAL, HEXVAL, STRVAL}| == 4
    ensures BADPARAM < 0 && DECVAL > 0 && HEXVAL > 0 && STRVAL > 0
  {
  }
}
