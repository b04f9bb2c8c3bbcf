/**
 * What the interpreter does that is visible from outside: bytes written back
 * to the stream, handlers called, and errors reported. Handlers are
 * application code and are known here only by identity.
 */
module Events {
  import opened Ascii
  import opened Limits

  /** A command handler (`pfnCmdLine`): called with (argc, argv), returns an `int8_t`. */
  datatype Handler = Handler(id: nat)

  /** A custom error handler (`pfnCustomErrs`): called with the `int8_t` status. */
  datatype ErrorHandler = ErrorHandler(id: nat)

  /** One handler call: the handler and the strings `argv[0..argc)` point at. */
  datatype Call = Call(handler: Handler, args: seq<seq<Byte>>)

  /** The fixed messages of the built-in error reporter. */
  datatype Msg =
    | BadCommand            // "Bad command!"
    | TooManyArgs           // "Too many arguments for command processor!"
    | TooFewArgs            // "Not enough arguments for command processor!"
    | InvalidArg            // "Invalid argument for command processor!"
    | ErrorCode(code: Int8) // "Command returned error code: " and the code

  datatype Event =
    | Echo(ch: Byte)                             // a received byte written back
    | LineBreak                                  // the line break sent before dispatch
    | Invoke(call: Call)                         // a command or default handler called
    | CustomError(handler: ErrorHandler, code: Int8) // the custom error handler called
    | Message(msg: Msg)                          // a built-in error message printed
}
