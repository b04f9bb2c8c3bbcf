/**
 * The `CommandLine` object: its configuration, the line buffer with its
 * cursor, the argument vector, and the operations that drive them. The
 * stream is not part of the state: `DoCmdLine` is given the bytes available
 * when it is called and reports how many it read and what it did.
 */
module Cli {
  import opened Ascii
  import opened Limits
  import opened Wrappers
  import opened Events
  import opened Tokenizer
  import opened Dispatch
  import opened LineAssembly

  /** The events of a call, and the buffer and `argv` after it. */
  datatype LineEnd = LineEnd(events: seq<Event>, buf: seq<Byte>, argv: seq<nat>)

  class CommandLine {
    // input: echo control, the cursor and the line buffer
    var echoEnable: bool
    var crLfechoEnable: bool
    var crLfcmdEnable: bool
    var index: nat
    const cmdBuf: array<Byte>

    /** `argv`: the start positions, in `cmdBuf`, of the tokens of the last line processed. */
    const argv: array<nat>

    var delimiter: Byte
    const terminators: array<Byte>

    /** The unknown-command handler, or none. */
    var defaultFunc: Option<Handler>

    /** The custom error handler, or none. */
    var errorFunc: Option<ErrorHandler>

    /** The fixed capacities: an 80-byte line, ten `argv` slots, two terminators and a NUL. */
    ghost predicate Shape()
      reads this
    {
      && cmdBuf.Length == CMD_BUF_SIZE
      && argv.Length == CMDLINE_MAX_ARGS
      && terminators.Length == CMDLINE_MAX_TERMINATORS + 1
      && cmdBuf != terminators
    }

    /** Between calls the cursor leaves room for at least one more byte and the NUL. */
    ghost predicate Valid()
      reads this
    {
      Shape() && index <= CMD_BUF_SIZE - 2
    }

    /** `CommandLine(serial, echoEnable)`: the stream aside, the object starts with its defaults. */
    constructor (echo: bool)
      ensures Valid() && fresh(cmdBuf) && fresh(argv) && fresh(terminators)
      ensures echoEnable == echo && !crLfechoEnable && crLfcmdEnable
      ensures delimiter == SPACE && terminators[0] == CR && terminators[1] == NUL
      ensures defaultFunc.None? && errorFunc.None? && index == 0
    {
      cmdBuf := new Byte[CMD_BUF_SIZE](_ => NUL);
      argv := new nat[CMDLINE_MAX_ARGS](_ => 0);
      terminators := new Byte[CMDLINE_MAX_TERMINATORS + 1](_ => NUL);
      new;
      SetDefaults(echo);
    }

    /**
     * The operating defaults: echo as given, no CR/LF echo, a line break
     * before each command, space as delimiter, "\r" as the terminator (its
     * NUL in the second slot), no handlers, and an empty cursor.
     */
    method SetDefaults(echo: bool)
      requires Shape()
      modifies this, terminators
      ensures Valid()
      ensures echoEnable == echo && !crLfechoEnable && crLfcmdEnable
      ensures delimiter == SPACE
      ensures terminators[..] == [CR, NUL, old(terminators[2])]
      ensures defaultFunc.None? && errorFunc.None? && index == 0
    {
      echoEnable := echo;
      crLfechoEnable := false;
      crLfcmdEnable := true;
      delimiter := SPACE;
      // CR alone, NUL-terminated in the first two slots; slot 2 is not written
      terminators[0] := CR;
      terminators[1] := NUL;
      defaultFunc := None;
      errorFunc := None;
      index := 0;
    }

    /** Turns echo of received bytes on or off. */
    method Echo(enable: bool)
      requires Valid()
      modifies this`echoEnable
      ensures Valid() && echoEnable == enable
    {
      echoEnable := enable;
    }

    /** Turns echo of received CR and LF on or off. */
    method CrLfEcho(enable: bool)
      requires Valid()
      modifies this`crLfechoEnable
      ensures Valid() && crLfechoEnable == enable
    {
      crLfechoEnable := enable;
    }

    /** Turns the line break sent before processing a command on or off. */
    method CrLfCommand(enable: bool)
      requires Valid()
      modifies this`crLfcmdEnable
      ensures Valid() && crLfcmdEnable == enable
    {
      crLfcmdEnable := enable;
    }

    /** Sets the parameter delimiter. */
    method Delimiter(d: Byte)
      requires Valid()
      modifies this`delimiter
      ensures Valid() && delimiter == d
    {
      delimiter := d;
    }

    /**
     * `strncpy(terminators, s, 2)`: the first two bytes of the C string `s`,
     * NUL in a slot that `s` is too short to fill; the third slot is left
     * alone.
     */
    method Terminators(s: seq<Byte>)
      requires Valid() && NUL !in s
      modifies terminators
      ensures Valid()
      ensures terminators[..] == [At(s, 0), At(s, 1), old(terminators[2])]
    {
      terminators[0] := At(s, 0);
      terminators[1] := At(s, 1);
    }

    /** Sets (or, with `None`, clears) the handler for unknown commands. */
    method SetDefaultHandler(h: Option<Handler>)
      requires Valid()
      modifies this`defaultFunc
      ensures Valid() && defaultFunc == h
    {
      defaultFunc := h;
    }

    /** Sets (or, with `None`, clears) the custom error handler. */
    method SetCustomErrorHandler(h: Option<ErrorHandler>)
      requires Valid()
      modifies this`errorFunc
      ensures Valid() && errorFunc == h
    {
      errorFunc := h;
    }

    /** Abandons a partly typed line: the cursor is back at 0 and the buffer holds the empty string. */
    method FlushReceive()
      requires Valid()
      modifies this`index, cmdBuf
      ensures Valid() && index == 0
      ensures cmdBuf[..] == old(cmdBuf[..])[0 := NUL]
      ensures CStr(cmdBuf[..]) == []
    {
      index := 0;
      cmdBuf[0] := NUL;
    }

    /**
     * One received byte, bit 7 already cleared: whether it ends the line, what
     * is echoed, and what happens to the buffer and cursor. A terminator is
     * stored unless it is CR or LF; backspace moves the cursor back, if it
     * can; a bare LF is ignored; any other byte is stored.
     */
    method Receive(ch: Byte) returns (end: bool, echo: seq<Event>)
      requires Shape() && index < CMD_BUF_SIZE
      modifies this`index, cmdBuf
      ensures end == IsTerminator(ch, terminators[0], terminators[1])
      ensures echo == if Echoed(ch, echoEnable, crLfechoEnable) then [Event.Echo(ch)] else []
      ensures var c := old(Cursor(cmdBuf[..], index));
        Cursor(cmdBuf[..], index) == Take(c, ch, terminators[0], terminators[1])
    {
      echo := [];
      if echoEnable {
        if (ch != CR && ch != LF) || crLfechoEnable {
          echo := [Event.Echo(ch)];
        }
      }
      end := ch == terminators[0] || ch == terminators[1];
      if end {
        if ch != CR && ch != LF {
          cmdBuf[index] := ch;    // the terminator is kept as the last byte
          index := index + 1;
        }
      } else if ch == BS {
        if index > 0 {
          index := index - 1;
        }
      } else if ch == LF {
        // a bare LF is ignored
      } else {
        cmdBuf[index] := ch;
        index := index + 1;
      }
    }

    /**
     * The reading loop of `DoCmdLine`: it takes bytes while there are any and
     * while the loop counter, which starts at the cursor and counts every
     * byte, is below 79, as `ReadFrom` describes; `ch` is the last byte read.
     */
    method ReadLine(input: seq<Byte>) returns (done: bool, consumed: nat, ch: Byte, echoes: seq<Event>)
      requires Valid()
      modifies this`index, cmdBuf
      ensures Shape() && index < CMD_BUF_SIZE
      ensures Reading(done, consumed, Cursor(cmdBuf[..], index), echoes)
           == ReadFrom(old(Cursor(cmdBuf[..], index)), input, 0, CMD_BUF_SIZE - 1 - old(index),
                       terminators[0], terminators[1], echoEnable, crLfechoEnable, [])
      ensures consumed > 0 ==> ch == Strip(input[consumed - 1])
      ensures input != [] ==> consumed > 0
      ensures !done ==> index < CMD_BUF_SIZE - 1
    {
      ghost var t0, t1, e0, e1 := terminators[0], terminators[1], echoEnable, crLfechoEnable;
      ghost var whole := ReadFrom(Cursor(cmdBuf[..], index), input, 0, CMD_BUF_SIZE - 1 - index, t0, t1, e0, e1, []);
      consumed, ch, echoes, done := 0, NUL, [], false;
      var i := index;
      while i < CMD_BUF_SIZE - 1
        invariant index <= i <= CMD_BUF_SIZE - 1 && consumed <= |input|
        invariant Shape() && t0 == terminators[0] && t1 == terminators[1]
        invariant whole == ReadFrom(Cursor(cmdBuf[..], index), input, consumed, CMD_BUF_SIZE - 1 - i, t0, t1, e0, e1, echoes)
        invariant consumed > 0 ==> ch == Strip(input[consumed - 1])
        invariant input != [] && consumed == 0 ==> i < CMD_BUF_SIZE - 1
      {
        if consumed == |input| {
          break;    // nothing more available: no command yet
        }
        ch := Strip(input[consumed]);
        consumed := consumed + 1;
        var end, echo := Receive(ch);
        echoes := echoes + echo;
        if end {
          done := true;
          break;
        }
        i := i + 1;
      }
      if i == CMD_BUF_SIZE - 1 {
        done := true;   // the loop counter ran out
      }
    }

    /**
     * The scan of `CmdLineProcess` has passed the first `p` bytes of `buf0`,
     * the buffer it started from: each delimiter among them is NUL, `argv`
     * holds the token starts among them, and `findArg` says whether the next
     * byte that is not a delimiter begins a token.
     */
    ghost predicate ScannedTo(buf0: seq<Byte>, argv0: seq<nat>, p: nat, argc: nat, findArg: bool)
      reads this, cmdBuf, argv
    {
      && Shape() && |buf0| == CMD_BUF_SIZE && |argv0| == CMDLINE_MAX_ARGS && p < |buf0|
      && cmdBuf[..] == Blank(buf0, delimiter, p)
      && argc == |StartsBefore(buf0, delimiter, p)| <= CMDLINE_MAX_ARGS
      && argv[..] == StartsBefore(buf0, delimiter, p) + argv0[argc..]
      && findArg == (p == 0 || buf0[p - 1] == delimiter)
    }

    /**
     * One byte of the scan, at `p`: a delimiter becomes NUL; the first byte
     * of a token goes into the next `argv` slot, and when there is none left
     * the scan reports the line `full`.
     */
    method ScanByte(ghost buf0: seq<Byte>, ghost argv0: seq<nat>, p: nat, argc: nat, findArg: bool)
      returns (argc': nat, findArg': bool, full: bool)
      requires ScannedTo(buf0, argv0, p, argc, findArg) && p + 1 < |buf0|
      modifies cmdBuf, argv
      ensures Shape()
      ensures !full ==> ScannedTo(buf0, argv0, p + 1, argc', findArg')
      ensures full ==> && |StartsBefore(buf0, delimiter, p + 1)| == CMDLINE_MAX_ARGS + 1
                       && StartsBefore(buf0, delimiter, p + 1) == StartsBefore(buf0, delimiter, p) + [p]
                       && cmdBuf[..] == Blank(buf0, delimiter, p)
                       && argv[..] == StartsBefore(buf0, delimiter, p) + argv0[argc..]
    {
      ghost var d := delimiter;
      assert cmdBuf[p] == buf0[p];
      BlankStep(buf0, d, p);
      StartsBeforeStep(buf0, d, p);
      argc', findArg', full := argc, findArg, false;
      if cmdBuf[p] == delimiter {
        cmdBuf[p] := NUL;
        findArg' := true;
      } else if findArg {
        if argc < CMDLINE_MAX_ARGS {
          ArgvStore(StartsBefore(buf0, d, p), argv0, p);
          argv[argc] := p;
          argc' := argc + 1;
          findArg' := false;
        } else {
          full := true;
        }
      }
    }

    /**
     * The scan of `CmdLineProcess`: every delimiter it passes becomes NUL and
     * every token start goes into the next `argv` slot. It stops at the end
     * of the line, or at the start of an eleventh token (`tooMany`).
     */
    method Split() returns (tooMany: bool, argc: nat)
      requires Shape() && NUL in cmdBuf[..]
      modifies cmdBuf, argv
      ensures var line := CStr(old(cmdBuf[..]));
        && tooMany == (|Starts(line, delimiter)| > CMDLINE_MAX_ARGS)
        && (!tooMany ==> argc == |Starts(line, delimiter)|)
        && cmdBuf[..] == Blank(old(cmdBuf[..]), delimiter, Cut(line, delimiter))
        && argv[..] == ArgvAfter(old(argv[..]), line, delimiter)
    {
      ghost var buf0 := cmdBuf[..];
      ghost var line := CStr(buf0);
      ghost var argv0 := argv[..];
      ghost var end := |line|;
      assert end < |buf0| && buf0[end] == NUL;

      argc := 0;
      var p := 0;
      var findArg := true;
      while cmdBuf[p] != NUL
        invariant p <= end && ScannedTo(buf0, argv0, p, argc, findArg)
        decreases end - p
      {
        var full;
        argc, findArg, full := ScanByte(buf0, argv0, p, argc, findArg);
        if full {
          SplitStopsAtEleventh(buf0, line, delimiter, p, argv0);
          return true, CMDLINE_MAX_ARGS;
        }
        p := p + 1;
      }
      assert p == end;
      SplitReachesEnd(buf0, line, delimiter, argc, argv0);
      tooMany := false;
    }

    /** The scan of the command table: the first entry, before the sentinel, that names `token`. */
    method FindCommand(table: seq<Entry>, token: seq<Byte>) returns (k: Option<nat>)
      ensures k == Lookup(table, token)
    {
      var i := 0;
      while i < |table| && table[i].name.Some?
        invariant 0 <= i <= |table|
        invariant LookupFrom(table, token, i) == Lookup(table, token)
      {
        if EqualIgnoringCase(token, CStr(table[i].name.value)) {
          return Some(i);
        }
        i := i + 1;
      }
      return None;
    }

    /**
     * `CmdLineProcess(g_cCmdBuf)`: splits the C string in the buffer in place
     * and calls the selected handler. Its result is that of `Process`, and
     * the buffer and `argv` are left as the scan left them.
     */
    method CmdLineProcess(table: seq<Entry>, run: (Handler, seq<seq<Byte>>) -> Int8)
      returns (status: Int8, outcome: Outcome)
      requires Shape() && NUL in cmdBuf[..]
      modifies cmdBuf, argv
      ensures var line := CStr(old(cmdBuf[..]));
        && outcome == Process(line, delimiter, table, defaultFunc)
        && status == StatusOf(outcome, run)
        && cmdBuf[..] == Blank(old(cmdBuf[..]), delimiter, Cut(line, delimiter))
        && argv[..] == ArgvAfter(old(argv[..]), line, delimiter)
    {
      ghost var buf0 := cmdBuf[..];
      ghost var line := CStr(buf0);
      var tooMany, argc := Split();
      if tooMany {
        return CMDLINE_TOO_MANY_ARGS, TooManyTokens;
      }
      // the C strings argv[0..argc) point at
      ProcessSplitLine(buf0, line, delimiter, table, defaultFunc);
      assert argv[..argc] == Starts(line, delimiter);
      var args := ArgStrings(cmdBuf[..], argv[..argc]);
      var k := None;
      if argc > 0 {
        k := FindCommand(table, args[0]);
      }
      if k.Some? {
        var call := Call(table[k.value].func, args);
        return run(call.handler, call.args), Invoked(call);
      }
      if defaultFunc.None? {
        return CMDLINE_BAD_CMD, NotFound;
      }
      var call := Call(defaultFunc.value, args);
      return run(call.handler, call.args), Invoked(call);
    }

    /**
     * What ending a line produces, for the buffer `b` just ended with a NUL
     * at the cursor, the last byte read `last`, the events `before` written
     * earlier in the call, and `argv` as it was (`argv0`): the events up to
     * the end of the call, and the buffer and `argv` afterwards.
     */
    ghost function EndOfLine(b: seq<Byte>, last: Byte, table: seq<Entry>, run: (Handler, seq<seq<Byte>>) -> Int8,
                             before: seq<Event>, argv0: seq<nat>): LineEnd
      requires |argv0| == CMDLINE_MAX_ARGS
      reads this
    {
      var line := CStr(b);
      if line == [] then LineEnd(before, b, argv0)
      else
        var o := Process(line, delimiter, table, defaultFunc);
        LineEnd(before + (if (last == CR || last == LF) && crLfcmdEnable then [LineBreak] else [])
                  + CallEvents(o) + Report(StatusOf(o, run), errorFunc),
                Blank(b, delimiter, Cut(line, delimiter)),
                ArgvAfter(argv0, line, delimiter))
    }

    /**
     * The end of a complete line in `DoCmdLine`: a NUL at the cursor; if the
     * C string in the buffer is not empty, a line break when the last byte
     * read (`ch`) is CR or LF and that is enabled, then the command and its
     * report, after the events `before`; finally the cursor is reset.
     */
    method EndLine(ch: Byte, table: seq<Entry>, run: (Handler, seq<seq<Byte>>) -> Int8, before: seq<Event>)
      returns (events: seq<Event>)
      requires Shape() && index < CMD_BUF_SIZE
      modifies this`index, cmdBuf, argv
      ensures Valid() && index == 0
      ensures LineEnd(events, cmdBuf[..], argv[..])
           == EndOfLine(old(cmdBuf[..])[old(index) := NUL], ch, table, run, before, old(argv[..]))
    {
      cmdBuf[index] := NUL;
      ghost var b := cmdBuf[..];
      assert b[index] == NUL;
      events := before;
      if cmdBuf[0] != NUL {   // the line is not empty
        assert CStr(b) != [] by { assert b[0] != NUL; }
        var lineBreak := if (ch == CR || ch == LF) && crLfcmdEnable then [LineBreak] else [];
        var status, outcome := CmdLineProcess(table, run);
        events := before + lineBreak + CallEvents(outcome) + Report(status, errorFunc);
      } else {
        assert CStr(b) == [];
      }
      index := 0;
    }

    /**
     * `DoCmdLine()`, given the bytes the stream has available: with none, it
     * does nothing and returns 0. Otherwise it reads bytes up to the first
     * terminator or until the line budget is used up; if neither happens it
     * keeps the partial line and returns 0, and if either does it processes
     * the completed line and returns 1. `consumed` is how many bytes it read
     * and `events` what it wrote and called, in order.
     */
    method DoCmdLine(input: seq<Byte>, table: seq<Entry>, run: (Handler, seq<seq<Byte>>) -> Int8)
      returns (r: Int8, consumed: nat, events: seq<Event>)
      requires Valid()
      modifies this`index, cmdBuf, argv
      ensures Valid() && (r == 0 || r == 1) && consumed <= |input|
      ensures input == [] ==>
        r == 0 && consumed == 0 && events == [] && index == old(index)
        && cmdBuf[..] == old(cmdBuf[..]) && argv[..] == old(argv[..])
      ensures input != [] ==>
        var rd := ReadFrom(Cursor(old(cmdBuf[..]), old(index)), input, 0, CMD_BUF_SIZE - 1 - old(index),
                           terminators[0], terminators[1], echoEnable, crLfechoEnable, []);
        && 1 <= consumed == rd.consumed && (r == 1 <==> rd.done)
        && (r == 0 ==> events == rd.echoes && Cursor(cmdBuf[..], index) == rd.cursor && argv[..] == old(argv[..]))
        && (r == 1 ==>
              && index == 0
              && LineEnd(events, cmdBuf[..], argv[..])
                 == EndOfLine(rd.cursor.buf[rd.cursor.index := NUL], Strip(input[consumed - 1]), table, run,
                              rd.echoes, old(argv[..])))
    {
      if input == [] {
        return 0, 0, [];
      }
      var done, ch;
      done, consumed, ch, events := ReadLine(input);
      assert argv[..] == old(argv[..]);
      if !done {
        return 0, consumed, events;
      }
      events := EndLine(ch, table, run, events);
      r := 1;
    }
  }
}
