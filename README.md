# Arduino CommandLine, modelled in Dafny

A model of the `CommandLine` class of the Arduino CommandLine library, with
proofs about it. The class is a non-blocking serial command interpreter.
Each call to `DoCmdLine` reads the bytes the stream has available into an
80-byte line buffer. While reading it:

- clears bit 7 of each byte;
- echoes bytes as the echo flags allow;
- applies backspace and ignores bare LF.

When a terminator arrives, or the per-call byte budget runs out, the line is
complete. `CmdLineProcess` then splits it in place on the delimiter and
calls the handler of the first command-table entry whose name matches the
first token, ignoring case. No match falls back to a default handler, or to
"bad command". The status is reported to a custom error handler, or as a
built-in message. `ParseParam` classifies one argument string as a quoted
string, a hexadecimal number, a decimal number or a bad parameter.

The modules:

- `Ascii`: bytes, the C character classes the code uses, C strings (`CStr`).
- `Limits`: the header's capacities and result codes.
- `Events`: what a call does that is visible from outside: echoed bytes,
  the line break, handler calls, reports.
- `Params`: `ParseParam`. `Classify` is the pure classification, and the
  method with its two conversion loops is proved equal to it.
- `Tokenizer`: the tokens of a line as the maximal delimiter-free runs, and
  the buffer and `argv` after the in-place split.
- `Dispatch`: the table lookup, the outcome of processing a line, and the
  result reporting.
- `LineAssembly`: the per-byte editing of the line and the reading loop
  `ReadFrom`, as functions on a buffer and cursor value.
- `Cli`: the class `CommandLine`. It has the buffer, `argv` and terminator
  arrays and the configuration fields. The receive loop, the split loop and
  the table scan are proved against the functions above.

The stream is not part of the state. `DoCmdLine` receives the bytes that
are available when it is called. It returns how many it read and the
events it produced, in order. A handler is known only by its identity. Its
result comes from a function parameter `run`, and its effects are not
modelled. The command table is a parameter of `CmdLineProcess` and
`DoCmdLine`.

The loop counter of `DoCmdLine` starts at the cursor and counts every byte
read, backspaces and LFs included. One call therefore reads at most
`79 - index` bytes. Running out of budget completes the line just as a
terminator does. The model keeps this, so where a line ends depends on how
the bytes are split between calls.

## Model

| member | source | states |
|---|---|---|
| Limits.ResultCodesDistinct | src/CommandLine.h:91-101 | the four reserved result codes are negative and pairwise distinct |
| Limits.ParamCodesDistinct | src/CommandLine.h:45-48 | the four parameter types are pairwise distinct and only BADPARAM is negative |
| Params.SpaceCount | src/CommandLine.cpp:437-450 | the prefix skipped is exactly the leading `isspace` bytes: all of them are spaces and the next byte is not |
| Params.ToInt32 | src/CommandLine.cpp:434 | the `int32_t` value is congruent to the 32-bit pattern modulo 2^32 |
| Params.TypeCode | src/CommandLine.h:45-48 | each classification maps to its own type code, in both directions |
| Params.WrapStep | src/CommandLine.cpp:476-484 | one wrapping multiply-and-add step of the accumulator agrees with the exact value modulo 2^32 |
| Params.ConvertHex | src/CommandLine.cpp:470-492 | the loop succeeds iff every byte is a hexadecimal digit in either case, and then yields their base-16 value modulo 2^32 |
| Params.ConvertDecimal | src/CommandLine.cpp:509-522 | the loop succeeds iff every byte is a decimal digit, and then yields their base-10 value modulo 2^32 |
| Params.ParseParam | src/CommandLine.cpp:431-529 | the type code is that of `Classify` on the string, and `*retval` is written with the value for HEXVAL and DECVAL only |
| Params.StrValIff | src/CommandLine.cpp:452-463 | STRVAL iff the trimmed text starts and ends with '"', so a lone '"' is one |
| Params.HexValIff | src/CommandLine.cpp:465-494 | HEXVAL iff the trimmed text is "0x" or "0X" and only hexadecimal digits, possibly none; the value is theirs modulo 2^32 |
| Params.DecValIff | src/CommandLine.cpp:496-528 | DECVAL iff the trimmed text is one or more digits, or '-' and possibly no digits; the value is negated after '-' and wraps modulo 2^32 |
| Params.BadParamIff | src/CommandLine.cpp:431-529 | BADPARAM iff none of the three other forms applies |
| Params.HexExact | src/CommandLine.cpp:470-492 | a hexadecimal value below 2^31 is returned exactly |
| Params.DecExact | src/CommandLine.cpp:509-528 | a decimal value that fits an `int32_t` is returned exactly, with or without '-' |
| Params.HexExample | src/CommandLine.cpp:465-494 | "0x1A2b" is HEXVAL 6699 |
| Params.NegativeExample | src/CommandLine.cpp:496-528 | "-42" is DECVAL -42 |
| Params.QuoteExamples | src/CommandLine.cpp:452-463 | an unclosed quote is BADPARAM and a lone '"' is STRVAL |
| Params.EmptyDigitExamples | src/CommandLine.cpp:465-528 | "0x" is HEXVAL 0, "-" is DECVAL 0 and "-0x10" is BADPARAM |
| Params.WhitespaceExamples | src/CommandLine.cpp:437-450 | leading whitespace is skipped and trailing whitespace is not |
| Params.WrapExample | src/CommandLine.cpp:470-492 | "0xFFFFFFFF" wraps to HEXVAL -1 |
| Params.Scan8NeverEnds | src/CommandLine.cpp:471-522 | the C loop with its 8-bit counter never ends once the part it scans is 256 bytes or longer and its first 256 bytes are all accepted |
| Params.Scan8Prefix | src/CommandLine.cpp:471-522 | below 256 bytes the C loop after n iterations has accepted the first n bytes with their value modulo 2^32, or has rejected one of them |
| Params.Scan8Short | src/CommandLine.cpp:471-522 | below 256 bytes the C loop ends with the verdict and value of `ConvertHex` or `ConvertDecimal` |
| Params.LongDigitsHang | src/CommandLine.cpp:510-522 | on 256 digits '1', with or without "0x" before them, the C loop runs forever where the classification gives DECVAL or HEXVAL |
| Tokenizer.StartsBeforeExact | src/CommandLine.cpp:302-314 | the recorded starts are exactly the positions that begin a token, each once, in increasing order |
| Tokenizer.TokensAreMaximalRuns | src/CommandLine.cpp:281-330 | the tokens are the non-empty maximal delimiter-free runs of the line, in order, bounded by delimiters or the ends of the line |
| Tokenizer.ArgStringsAreTokens | src/CommandLine.cpp:287-313 | once the delimiters are NUL, the C strings at the recorded starts are the tokens |
| Tokenizer.StartsBelowCut | src/CommandLine.cpp:309-322 | the starts of the tokens that fit lie before the point where the scan stops |
| Tokenizer.StartsBeforeAgree | src/CommandLine.cpp:281-330 | the starts among the first n bytes depend only on those bytes |
| Tokenizer.StartsBeforePrefix | src/CommandLine.cpp:281-330 | a longer scan only adds starts after those already found |
| Tokenizer.SplitStopsAtEleventh | src/CommandLine.cpp:309-322 | reaching the start of an eleventh token means the line has too many tokens, the scan stops at that start, and `argv` holds the first ten starts |
| Tokenizer.SplitReachesEnd | src/CommandLine.cpp:281-330 | reaching the end of the line with at most ten starts means those are all its tokens and `argv` holds them |
| Dispatch.TableEnd | src/CommandLine.cpp:347-359 | the table ends at its first entry with a null name |
| Dispatch.LookupFrom | src/CommandLine.cpp:347-388 | a selected entry lies in the table and its name matches the token |
| Dispatch.LookupIsFirstMatch | src/CommandLine.cpp:341-388 | the first matching entry before the end marker is selected, and none is selected iff no entry before it matches |
| Dispatch.LookupIgnoresCase | src/CommandLine.cpp:366-370 | tokens equal up to case select the same entry |
| Dispatch.ReportCases | src/CommandLine.cpp:181-223 | the status goes to the custom error handler when one is set; otherwise success prints nothing, -1..-4 their fixed messages, and other codes the generic one |
| Dispatch.TooManyIff | src/CommandLine.cpp:309-322 | more than ten tokens give TOO_MANY_ARGS and call nothing; a call gets at most ten arguments and its result is passed on unchanged |
| Dispatch.DispatchCases | src/CommandLine.cpp:335-402 | a matching first token calls its entry with all tokens; no match or no token calls the default handler if set, and otherwise BAD_CMD |
| Dispatch.ProcessSplitLine | src/CommandLine.cpp:335-402 | on a split line with at most ten tokens, the first token's entry is called with the tokens, else the default handler, else nothing is found |
| Dispatch.LedOnTokens | src/CommandLine.cpp:281-330 | "led on" splits into "led" and "on" |
| Dispatch.LedOnExample | src/CommandLine.cpp:259-403 | "led on" against a table naming "LED" calls that entry with both tokens |
| LineAssembly.Strip | src/CommandLine.cpp:134 | the received byte has bit 7 cleared |
| LineAssembly.Step | src/CommandLine.cpp:151-165 | a non-terminator byte moves the cursor by at most one and keeps the buffer size |
| LineAssembly.Take | src/CommandLine.cpp:141-165 | one received byte moves the cursor by at most one and keeps the buffer size |
| LineAssembly.StepEdits | src/CommandLine.cpp:151-165 | the line up to the cursor after a byte is the line before it as edited by that byte |
| LineAssembly.RunEdits | src/CommandLine.cpp:151-165 | after bytes that are not terminators, the line up to the cursor is the old line edited by them |
| LineAssembly.CompletedEdits | src/CommandLine.cpp:141-165 | when a line completes, the line up to the cursor is the edited line, with a kept terminator as its last byte |
| LineAssembly.ReadFrom | src/CommandLine.cpp:129-167 | the reading loop reads no more bytes than are available and than its budget allows, and leaves the cursor inside the buffer |
| LineAssembly.ReadFromStops | src/CommandLine.cpp:129-167 | the loop reads until the first terminator or the end of its budget, and stops incomplete only once it has read every byte |
| LineAssembly.ReadFromEchoes | src/CommandLine.cpp:135-141 | the loop echoes the bytes it reads, in order, as the echo flags allow |
| LineAssembly.ReadFromIncomplete | src/CommandLine.cpp:129-167 | an incomplete read leaves the cursor after the bytes read, with room for one more byte |
| LineAssembly.ReadFromComplete | src/CommandLine.cpp:141-167 | a complete read leaves the completed line, its kept terminator included |
| LineAssembly.ReadFromRoom | src/CommandLine.cpp:129-167 | with budget left the loop reads a byte if there is one, and an incomplete read leaves room for one more byte and the NUL |
| LineAssembly.ReadCallStops | src/CommandLine.cpp:121-171 | one call reads at least one byte, none a terminator but the last, and completes the line iff that last byte is a terminator or the budget `79 - index` is used up; an incomplete call has read every byte |
| LineAssembly.ReadCall | src/CommandLine.cpp:129-172 | one call echoes the bytes it read; it leaves the cursor after them with room to spare, or the completed line whose C string is the edited line |
| LineAssembly.EditAllLength | src/CommandLine.cpp:151-165 | a line grows by at most one byte per byte received |
| LineAssembly.EditAllPlain | src/CommandLine.cpp:160-165 | without backspaces and LFs the received bytes are appended unchanged |
| LineAssembly.BackspaceErases | src/CommandLine.cpp:151-157 | a backspace erases the byte just stored, and does nothing on an empty line |
| LineAssembly.EchoesExact | src/CommandLine.cpp:135-141 | exactly the bytes the flags allow are echoed: none with echo off, all with echo and CR/LF echo on |
| LineAssembly.NulEndsLine | src/CommandLine.cpp:141-147 | with the default terminators a received 0x00 or 0x80 ends the line and is stored, but the line's C string stops before it |
| Cli.CommandLine.constructor | src/CommandLine.cpp:81-84 | a new object has the defaults `SetDefaults` gives |
| Cli.CommandLine.SetDefaults | src/CommandLine.cpp:87-97 | echo as given, no CR/LF echo, the line break on, space delimiter, terminators "\r" and NUL, no handlers, cursor 0 |
| Cli.CommandLine.Echo | src/CommandLine.cpp:548-551 | sets the echo flag and nothing else |
| Cli.CommandLine.CrLfEcho | src/CommandLine.cpp:570-573 | sets the CR/LF echo flag and nothing else |
| Cli.CommandLine.CrLfCommand | src/CommandLine.cpp:593-596 | sets the line-break flag and nothing else |
| Cli.CommandLine.Delimiter | src/CommandLine.cpp:614-617 | sets the delimiter and nothing else |
| Cli.CommandLine.Terminators | src/CommandLine.cpp:635-638 | copies at most two bytes of the string into the terminators, NUL-padded, and leaves the third slot |
| Cli.CommandLine.SetDefaultHandler | src/CommandLine.cpp:657-660 | sets the default handler and nothing else |
| Cli.CommandLine.SetCustomErrorHandler | src/CommandLine.cpp:678-681 | sets the custom error handler and nothing else |
| Cli.CommandLine.FlushReceive | src/CommandLine.h:227-231 | the cursor is 0, the buffer holds the empty C string, and only its first byte changed |
| Cli.CommandLine.Receive | src/CommandLine.cpp:131-165 | one byte: whether it ends the line, whether it is echoed, and the new buffer and cursor as `Take` gives them |
| Cli.CommandLine.ReadLine | src/CommandLine.cpp:129-167 | the receive loop ends with what `ReadFrom` describes, and reports the last byte read |
| Cli.CommandLine.ScanByte | src/CommandLine.cpp:287-329 | one byte of the split: a delimiter becomes NUL and a token start is recorded, or the eleventh start is reached with nothing changed |
| Cli.CommandLine.Split | src/CommandLine.cpp:275-330 | TOO_MANY_ARGS iff the line has more than ten tokens; otherwise argc is their number; the delimiters up to where the scan stops are NUL, and `argv` holds the starts that fit |
| Cli.CommandLine.FindCommand | src/CommandLine.cpp:341-388 | the table scan finds what `Lookup` selects |
| Cli.CommandLine.CmdLineProcess | src/CommandLine.cpp:259-403 | the outcome is that of `Process` on the line, the status is the handler's result or the reserved code, and the buffer and `argv` are left as the split leaves them |
| Cli.CommandLine.EndLine | src/CommandLine.cpp:168-226 | the line gets its NUL; an empty line produces nothing, and a non-empty one produces the optional line break, its one call and its report; the cursor is reset |
| Cli.CommandLine.DoCmdLine | src/CommandLine.cpp:116-228 | no bytes: returns 0 and changes nothing; otherwise it reads as `ReadFrom` describes, returns 0 with the partial line kept, or returns 1 after ending the line as `EndOfLine` states |

The rows refer to these definitions, which give the behaviour of the code in terms of values and carry no row of their own:
- `Params.Classify`: the classification a parameter gets (src/CommandLine.cpp:437-528).
- `Tokenizer.Starts` and `Tokenizer.Tokens`: the token starts and the tokens of a line (src/CommandLine.cpp:281-330).
- `Dispatch.Process`: the call a split line leads to (src/CommandLine.cpp:281-402).
- `Dispatch.Report`: what the reporter switch prints for a status (src/CommandLine.cpp:185-223).
- `LineAssembly.Edit` and `LineAssembly.EditAll`: how received bytes edit the line (src/CommandLine.cpp:151-165).
- `Cli.CommandLine.EndOfLine`: the events and state after a line ends (src/CommandLine.cpp:172-226).

## Left out

- The `Stream` itself (`available`, `read`, `write`, `print`, `println`). Input is the sequence of available bytes. Output is a trace of events, and the message texts and the decimal printing of a status are not modelled.
- `ShowCommands`: it only prints the table, and its only logic is the end-marker scan that `Dispatch.TableEnd` models.
- The platform variants that read the table from program memory (`pgm_read_word`, `pgm_read_dword`, `strcasecmp_P`). They all read the same entry, and the model reads it from a sequence. The table also ends at the end of that sequence.
- The bodies of the application's handlers and its `g_sCmdTable`: handlers are identities, and their results come from a parameter.
- The one-argument constructor, which delegates to the two-argument one with echo on: it is `new CommandLine(true)`. The stream argument of both constructors is not modelled.
- `CLS_HOME` and the `ARG1`..`ARG9` index macros: they are not used by the library code.
- Params.ParseParam: its conversion loops use an unbounded counter where the C uses a `uint8_t` one (see "## Findings"). The two differ only when the part a loop scans, the text after the whitespace and the "0x" or '-', is 256 bytes or longer and its first 256 bytes are all accepted: hexadecimal digits after "0x", decimal digits otherwise. The C loop then never ends, and `ParseParam` answers as the corrected loop would: HEXVAL or DECVAL when every byte of the scanned part is a digit, BADPARAM otherwise. The tokens the library itself splits from an 80-byte line are always shorter, so for them the two agree, as `Params.Scan8Short` states.
- Params.ParseParam: signed overflow of the `int32_t` accumulator is undefined behaviour in C++. The model takes it as 32-bit wrap-around and claims nothing about what a compiler does.
- Cli.CommandLine.DoCmdLine: its contract says what a call reads through `ReadFrom`. `LineAssembly.ReadCallStops` and `LineAssembly.ReadCall` state what that reading means.
- The `char` signedness of the buffer: received bytes have bit 7 cleared, so every stored byte is below 0x80 and signedness does not matter for them.

## Findings

| source | as written | input that shows it | evidently intended | confidence | as-written member | corrected member |
|---|---|---|---|---|---|---|
| src/CommandLine.cpp:471 | the hexadecimal loop counts with a `uint8_t i` against `strlen(param)`, so `++i` wraps from 255 to 0 | "0x" followed by 256 digits '1': every visited byte is a digit and the loop never ends | the loop visits every byte once and returns HEXVAL | high as read; not executed | Params.Scan8NeverEnds | Params.ConvertHex |
| src/CommandLine.cpp:510 | the decimal loop counts with a `uint8_t i` against `strlen(param)`, so `++i` wraps from 255 to 0 | 256 digits '1': every visited byte is a digit and the loop never ends | the loop visits every byte once and returns DECVAL | high as read; not executed | Params.LongDigitsHang | Params.ConvertDecimal |
