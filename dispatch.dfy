/**
 * Command lookup and the reporting of results: the first token is looked up,
 * case-insensitively and in table order, in the application's command table;
 * the table ends at the first entry whose name is null.
 */
module Dispatch {
  import opened Ascii
  import opened Limits
  import opened Wrappers
  import opened Events
  import opened Tokenizer

  /** `tCmdLineEntry`: a command name (null for the end marker), its handler and its help text. */
  datatype Entry = Entry(name: Option<seq<Byte>>, func: Handler, help: seq<Byte>)

  /** The entry is a command whose name equals `token` up to case (`!strcasecmp(argv[0], name)`). */
  predicate Names(entry: Entry, token: seq<Byte>) {
    entry.name.Some? && EqualIgnoringCase(token, CStr(entry.name.value))
  }

  /** The number of entries before the end marker (all of them when there is none). */
  function TableEnd(table: seq<Entry>): (n: nat)
    ensures n <= |table|
    ensures forall j :: 0 <= j < n ==> table[j].name.Some?
    ensures n < |table| ==> table[n].name.None?
  {
    if table == [] || table[0].name.None? then 0 else 1 + TableEnd(table[1..])
  }

  /** The scan of the table from entry `k` on, up to the end marker. */
  function LookupFrom(table: seq<Entry>, token: seq<Byte>, k: nat): (r: Option<nat>)
    ensures r.Some? ==> k <= r.value < |table| && Names(table[r.value], token)
    decreases |table| - k
  {
    if k >= |table| || table[k].name.None? then None
    else if Names(table[k], token) then Some(k)
    else LookupFrom(table, token, k + 1)
  }

  /** The index of the entry the first token selects, if any. */
  function Lookup(table: seq<Entry>, token: seq<Byte>): (r: Option<nat>)
    ensures r.Some? ==> r.value < |table|
  {
    LookupFrom(table, token, 0)
  }

  lemma {:induction false} LookupFromFirstMatch(table: seq<Entry>, token: seq<Byte>, k: nat)
    requires k <= TableEnd(table)
    ensures var r := LookupFrom(table, token, k);
      && (r.Some? ==> k <= r.value < TableEnd(table) && Names(table[r.value], token)
                      && forall i :: k <= i < r.value ==> !Names(table[i], token))
      && (r.None? ==> forall j :: k <= j < TableEnd(table) ==> !Names(table[j], token))
    decreases |table| - k
  {
    if k < TableEnd(table) {
      LookupFromFirstMatch(table, token, k + 1);
    }
  }

  /**
   * First match wins: the lookup selects the first entry before the end
   * marker whose name matches, and finds nothing exactly when no entry
   * before the end marker matches.
   */
  lemma LookupIsFirstMatch(table: seq<Entry>, token: seq<Byte>)
    ensures var r := Lookup(table, token);
      && (r.Some? ==> r.value < TableEnd(table) && Names(table[r.value], token)
                      && forall i :: 0 <= i < r.value ==> !Names(table[i], token))
      && (r.None? <==> forall j :: 0 <= j < TableEnd(table) ==> !Names(table[j], token))
  {
    LookupFromFirstMatch(table, token, 0);
  }

  /** Case does not matter: tokens equal up to case select the same entry ("LED", "led", "Led"). */
  lemma {:induction false} LookupIgnoresCase(table: seq<Entry>, a: seq<Byte>, b: seq<Byte>, k: nat)
    requires EqualIgnoringCase(a, b)
    ensures LookupFrom(table, a, k) == LookupFrom(table, b, k)
    decreases |table| - k
  {
    if k < |table| && table[k].name.Some? {
      LookupIgnoresCase(table, a, b, k + 1);
    }
  }

  /** What processing one line leads to. */
  datatype Outcome =
    | TooManyTokens   // an eleventh token was reached; nothing is called
    | Invoked(call: Call)
    | NotFound        // no matching command and no default handler

  /**
   * `CmdLineProcess` on the C string `line`: too many tokens; else the first
   * matching table command; else the default handler, which also receives
   * a line without tokens; else a bad command.
   */
  function Process(line: seq<Byte>, d: Byte, table: seq<Entry>, defaultFunc: Option<Handler>): Outcome {
    var T := Tokens(line, d);
    if |T| > CMDLINE_MAX_ARGS then TooManyTokens
    else if |T| > 0 && Lookup(table, T[0]).Some? then Invoked(Call(table[Lookup(table, T[0]).value].func, T))
    else if defaultFunc.Some? then Invoked(Call(defaultFunc.value, T))
    else NotFound
  }

  /** The result code of processing: a handler's own result is passed on unchanged. */
  function StatusOf(o: Outcome, run: (Handler, seq<seq<Byte>>) -> Int8): Int8 {
    match o
    case TooManyTokens => CMDLINE_TOO_MANY_ARGS
    case NotFound => CMDLINE_BAD_CMD
    case Invoked(c) => run(c.handler, c.args)
  }

  /** The events of an outcome: the handler call, if there is one. */
  function CallEvents(o: Outcome): seq<Event> {
    if o.Invoked? then [Invoke(o.call)] else []
  }

  /** Reporting a status: the custom error handler, or the built-in message for it. */
  function Report(status: Int8, errorFunc: Option<ErrorHandler>): (r: seq<Event>)
    ensures |r| <= 1
  {
    if errorFunc.Some? then [CustomError(errorFunc.value, status)]
    else if status == CMDLINE_BAD_CMD then [Message(BadCommand)]
    else if status == CMDLINE_TOO_MANY_ARGS then [Message(TooManyArgs)]
    else if status == CMDLINE_TOO_FEW_ARGS then [Message(TooFewArgs)]
    else if status == CMDLINE_INVALID_ARG then [Message(InvalidArg)]
    else if status != 0 then [Message(ErrorCode(status))]
    else []
  }

  /**
   * A status goes to the custom error handler when one is set, whatever it
   * is; otherwise success prints nothing, each reserved code prints its own
   * message, and any other code prints the generic message with the code.
   */
  lemma ReportCases(status: Int8, errorFunc: Option<ErrorHandler>)
    ensures var r := Report(status, errorFunc);
      && (errorFunc.Some? ==> r == [CustomError(errorFunc.value, status)])
      && (errorFunc.None? ==> (r == [] <==> status == 0))
      && (errorFunc.None? && r != [] ==> |r| == 1 && r[0].Message?)
      && (errorFunc.None? && status == CMDLINE_BAD_CMD ==> r == [Message(BadCommand)])
      && (errorFunc.None? && status == CMDLINE_TOO_MANY_ARGS ==> r == [Message(TooManyArgs)])
      && (errorFunc.None? && status == CMDLINE_TOO_FEW_ARGS ==> r == [Message(TooFewArgs)])
      && (errorFunc.None? && status == CMDLINE_INVALID_ARG ==> r == [Message(InvalidArg)])
      && (errorFunc.None? && status != 0 &&
          status !in {CMDLINE_BAD_CMD, CMDLINE_TOO_MANY_ARGS, CMDLINE_TOO_FEW_ARGS, CMDLINE_INVALID_ARG} ==>
            r == [Message(ErrorCode(status))])
  {
  }

  /** More than ten tokens give "too many arguments" and call nothing; otherwise the status is a handler's or "bad command". */
  lemma TooManyIff(line: seq<Byte>, d: Byte, table: seq<Entry>, defaultFunc: Option<Handler>, run: (Handler, seq<seq<Byte>>) -> Int8)
    ensures var o := Process(line, d, table, defaultFunc);
      && (o == TooManyTokens <==> |Starts(line, d)| > CMDLINE_MAX_ARGS)
      && (o == TooManyTokens ==> CallEvents(o) == [] && StatusOf(o, run) == CMDLINE_TOO_MANY_ARGS)
      && (o == NotFound ==> CallEvents(o) == [] && StatusOf(o, run) == CMDLINE_BAD_CMD)
      && (o.Invoked? ==> |o.call.args| <= CMDLINE_MAX_ARGS && StatusOf(o, run) == run(o.call.handler, o.call.args))
  {
  }

  /**
   * A line with one to ten tokens whose first token names a command calls
   * that command's handler with all the tokens; with no match, or with no
   * token at all, the default handler is called if set, and the result is
   * "bad command" otherwise.
   */
  lemma DispatchCases(line: seq<Byte>, d: Byte, table: seq<Entry>, defaultFunc: Option<Handler>)
    requires |Starts(line, d)| <= CMDLINE_MAX_ARGS
    ensures var T := Tokens(line, d); var o := Process(line, d, table, defaultFunc);
      && (|T| > 0 && Lookup(table, T[0]).Some? ==>
            o == Invoked(Call(table[Lookup(table, T[0]).value].func, T)))
      && ((|T| == 0 || Lookup(table, T[0]).None?) && defaultFunc.Some? ==>
            o == Invoked(Call(defaultFunc.value, T)))
      && ((|T| == 0 || Lookup(table, T[0]).None?) && defaultFunc.None? ==> o == NotFound)
  {
  }

  /**
   * Processing a line of at most ten tokens that sits NUL-terminated in
   * `buf`, told through the C strings at the token starts once the
   * delimiters are NUL: what `CmdLineProcess` passes to the handlers.
   */
  lemma ProcessSplitLine(buf: seq<Byte>, line: seq<Byte>, d: Byte, table: seq<Entry>, defaultFunc: Option<Handler>)
    requires CStr(buf) == line && |line| < |buf| && |Starts(line, d)| <= CMDLINE_MAX_ARGS
    ensures var A := ArgStrings(Blank(buf, d, |line|), Starts(line, d));
      Process(line, d, table, defaultFunc)
      == if |A| > 0 && Lookup(table, A[0]).Some? then Invoked(Call(table[Lookup(table, A[0]).value].func, A))
         else if defaultFunc.Some? then Invoked(Call(defaultFunc.value, A))
         else NotFound
  {
    ArgStringsAreTokens(buf, line, d);
  }

  // A concrete line; the bytes are written as their ASCII codes.

  /** "led on" with a space delimiter is the two tokens "led" and "on". */
  lemma LedOnTokens()
    ensures Tokens([0x6C, 0x65, 0x64, 0x20, 0x6F, 0x6E], SPACE) == [[0x6C, 0x65, 0x64], [0x6F, 0x6E]]
  {
    var line: seq<Byte> := [0x6C, 0x65, 0x64, 0x20, 0x6F, 0x6E];
    assert StartsBefore(line, SPACE, 1) == [0];
    assert StartsBefore(line, SPACE, 2) == [0];
    assert StartsBefore(line, SPACE, 3) == [0];
    assert StartsBefore(line, SPACE, 4) == [0];
    assert StartsBefore(line, SPACE, 5) == [0, 4];
    assert Starts(line, SPACE) == [0, 4];
    assert RunEnd(line, SPACE, 0) == 3;
    assert RunEnd(line, SPACE, 4) == 6;
    assert line[0..3] == [0x6C, 0x65, 0x64] && line[4..6] == [0x6F, 0x6E];
  }

  /** "led on" against a table whose only command is "LED" calls that command with both tokens. */
  lemma LedOnExample(h: Handler, help: seq<Byte>, defaultFunc: Option<Handler>)
    ensures Process([0x6C, 0x65, 0x64, 0x20, 0x6F, 0x6E], SPACE,
                    [Entry(Some([0x4C, 0x45, 0x44]), h, help), Entry(None, h, [])], defaultFunc)
            == Invoked(Call(h, [[0x6C, 0x65, 0x64], [0x6F, 0x6E]]))
  {
    LedOnTokens();
    var name: seq<Byte> := [0x4C, 0x45, 0x44];
    var led: seq<Byte> := [0x6C, 0x65, 0x64];
    var table := [Entry(Some(name), h, help), Entry(None, h, [])];
    assert CStr(name) == name by {
      assert CStr(name[2..]) == name[2..] by { assert name[2..][1..] == []; }
      assert name[1..][1..] == name[2..];
      assert name[1..] == [name[1]] + name[2..];
    }
    assert LowerAll(name) == led;
    assert LowerAll(led) == led;
    assert Names(table[0], led);
    assert Lookup(table, led) == Some(0);
  }
}
