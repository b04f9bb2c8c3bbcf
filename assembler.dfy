/**
 * How `DoCmdLine` assembles a command line from received bytes: each byte has
 * bit 7 cleared and may be echoed; a terminator ends the line (a terminator
 * other than CR or LF is kept as its last byte); backspace erases the last
 * byte, if any; a bare LF is ignored; every other byte is appended.
 */
module LineAssembly {
  import opened Ascii
  import opened Events

  /** `serial.read() & 0x7f`: the byte with bit 7 cleared. */
  function Strip(b: Byte): (r: Byte)
    ensures r < 0x80
    ensures b < 0x80 ==> r == b
    ensures b >= 0x80 ==> r == b - 0x80
  {
    b % 0x80
  }

  function StripAll(s: seq<Byte>): (r: seq<Byte>)
    ensures |r| == |s|
    ensures forall i :: 0 <= i < |s| ==> r[i] == Strip(s[i])
  {
    seq(|s|, i requires 0 <= i < |s| => Strip(s[i]))
  }

  /** `ch` is one of the two configured terminator slots. */
  predicate IsTerminator(ch: Byte, t0: Byte, t1: Byte) {
    ch == t0 || ch == t1
  }

  predicate NoTerminator(s: seq<Byte>, t0: Byte, t1: Byte) {
    forall j :: 0 <= j < |s| ==> !IsTerminator(s[j], t0, t1)
  }

  /** A terminator other than CR and LF is stored as the last byte of the line. */
  predicate Kept(ch: Byte) {
    ch != CR && ch != LF
  }

  /** A received byte is written back when echo is on, CR and LF only when CR/LF echo is on too. */
  predicate Echoed(ch: Byte, echo: bool, crLfEcho: bool) {
    echo && ((ch != CR && ch != LF) || crLfEcho)
  }

  /** The echo events for the bytes `s`, in order. */
  function Echoes(s: seq<Byte>, echo: bool, crLfEcho: bool): seq<Event> {
    if s == [] then []
    else
      var last := s[|s| - 1];
      Echoes(s[..|s| - 1], echo, crLfEcho) + (if Echoed(last, echo, crLfEcho) then [Echo(last)] else [])
  }

  /** The line after one byte that is not a terminator. */
  function Edit(line: seq<Byte>, ch: Byte): seq<Byte> {
    if ch == BS then (if |line| > 0 then line[..|line| - 1] else line)
    else if ch == LF then line
    else line + [ch]
  }

  /** The line after the bytes `s`, none of them a terminator. */
  function EditAll(line: seq<Byte>, s: seq<Byte>): seq<Byte> {
    if s == [] then line else Edit(EditAll(line, s[..|s| - 1]), s[|s| - 1])
  }

  /**
   * The line a call completes from the bytes `s` it consumed: the last of
   * them is either a terminator, kept unless it is CR or LF, or the last byte
   * the call had room for.
   */
  function EditedLine(line: seq<Byte>, s: seq<Byte>, t0: Byte, t1: Byte): seq<Byte>
    requires |s| > 0
  {
    var last := s[|s| - 1];
    if IsTerminator(last, t0, t1) then
      EditAll(line, s[..|s| - 1]) + (if Kept(last) then [last] else [])
    else
      EditAll(line, s)
  }

  /** The line buffer and its cursor, `input.g_cCmdBuf` and `input.index`. */
  datatype Cursor = Cursor(buf: seq<Byte>, index: nat)

  /** `g_cCmdBuf[index++] = ch` */
  function Append(c: Cursor, ch: Byte): (r: Cursor)
    requires c.index < |c.buf|
  {
    Cursor(c.buf[c.index := ch], c.index + 1)
  }

  /** The buffer and cursor after one byte that is not a terminator. */
  function Step(c: Cursor, ch: Byte): (r: Cursor)
    requires c.index < |c.buf|
    ensures |r.buf| == |c.buf| && r.index <= c.index + 1
  {
    if ch == BS then (if c.index > 0 then Cursor(c.buf, c.index - 1) else c)
    else if ch == LF then c
    else Append(c, ch)
  }

  /** One received byte: a terminator is stored unless it is CR or LF, any other byte is a `Step`. */
  function Take(c: Cursor, ch: Byte, t0: Byte, t1: Byte): (r: Cursor)
    requires c.index < |c.buf|
    ensures |r.buf| == |c.buf| && r.index <= c.index + 1
  {
    if IsTerminator(ch, t0, t1) then (if Kept(ch) then Append(c, ch) else c)
    else Step(c, ch)
  }

  /** The buffer and cursor after the bytes `s`, none of them a terminator. */
  function Run(c: Cursor, s: seq<Byte>): (r: Cursor)
    requires c.index + |s| <= |c.buf|
    ensures |r.buf| == |c.buf|
    ensures r.index <= c.index + |s|
  {
    if s == [] then c else Step(Run(c, s[..|s| - 1]), s[|s| - 1])
  }

  /** The buffer and cursor when a call completes a line from the bytes `s`. */
  function Completed(c: Cursor, s: seq<Byte>, t0: Byte, t1: Byte): (r: Cursor)
    requires |s| > 0 && c.index + |s| <= |c.buf|
    ensures |r.buf| == |c.buf|
    ensures r.index <= c.index + |s|
  {
    var last := s[|s| - 1];
    if IsTerminator(last, t0, t1) then
      var p := Run(c, s[..|s| - 1]);
      if Kept(last) then Append(p, last) else p
    else
      Run(c, s)
  }

  /** A step edits the line up to the cursor as `Edit` says. */
  lemma StepEdits(c: Cursor, ch: Byte)
    requires c.index < |c.buf|
    ensures var r := Step(c, ch); r.buf[..r.index] == Edit(c.buf[..c.index], ch)
  {
  }

  /**
   * With room for all of the bytes `s`, none of them a terminator, the line
   * up to the cursor is the edited line.
   */
  lemma {:induction false} RunEdits(c: Cursor, s: seq<Byte>)
    requires c.index + |s| <= |c.buf|
    ensures var r := Run(c, s); r.buf[..r.index] == EditAll(c.buf[..c.index], s)
  {
    if s != [] {
      RunEdits(c, s[..|s| - 1]);
      StepEdits(Run(c, s[..|s| - 1]), s[|s| - 1]);
    }
  }

  /** When a call completes a line, the line up to the cursor is the one `EditedLine` describes. */
  lemma CompletedEdits(c: Cursor, s: seq<Byte>, t0: Byte, t1: Byte)
    requires |s| > 0 && c.index + |s| <= |c.buf|
    ensures var r := Completed(c, s, t0, t1); r.buf[..r.index] == EditedLine(c.buf[..c.index], s, t0, t1)
  {
    var last := s[|s| - 1];
    if IsTerminator(last, t0, t1) {
      RunEdits(c, s[..|s| - 1]);
    } else {
      RunEdits(c, s);
    }
  }

  lemma NoTerminatorStep(s: seq<Byte>, ch: Byte, t0: Byte, t1: Byte)
    requires NoTerminator(s, t0, t1) && !IsTerminator(ch, t0, t1)
    ensures NoTerminator(s + [ch], t0, t1)
  {
    forall j | 0 <= j < |s| + 1 ensures !IsTerminator((s + [ch])[j], t0, t1) {
      if j < |s| { assert (s + [ch])[j] == s[j]; }
    }
  }

  /** One more byte that is not a terminator is one more `Step`. */
  lemma RunStep(c: Cursor, s: seq<Byte>, ch: Byte)
    requires c.index + |s| + 1 <= |c.buf|
    ensures Run(c, s + [ch]) == Step(Run(c, s), ch)
  {
    assert (s + [ch])[..|s|] == s;
  }

  /** One more byte is one more echo if it is echoed. */
  lemma EchoesStep(s: seq<Byte>, ch: Byte, echo: bool, crLfEcho: bool)
    ensures Echoes(s + [ch], echo, crLfEcho) == Echoes(s, echo, crLfEcho) + (if Echoed(ch, echo, crLfEcho) then [Echo(ch)] else [])
  {
    assert (s + [ch])[..|s|] == s;
  }

  /** A terminator after the bytes `s` completes the line the bytes `s` edited, plus the terminator if it is kept. */
  lemma CompletedByTerminator(c: Cursor, s: seq<Byte>, ch: Byte, t0: Byte, t1: Byte)
    requires c.index + |s| + 1 <= |c.buf| && IsTerminator(ch, t0, t1)
    ensures Run(c, s).index < |c.buf|
    ensures Completed(c, s + [ch], t0, t1) == if Kept(ch) then Append(Run(c, s), ch) else Run(c, s)
  {
    assert (s + [ch])[..|s|] == s;
  }

  /** Where a call's reading loop stops: whether the line is complete, how many bytes it read, the cursor, and what it echoed. */
  datatype Reading = Reading(done: bool, consumed: nat, cursor: Cursor, echoes: seq<Event>)

  /**
   * The reading loop from byte `k` of the available bytes `input` on, with
   * `room` passes of the loop counter left: it stops complete when the
   * counter runs out or after a terminator, and incomplete when the bytes
   * run out first.
   */
  function ReadFrom(c: Cursor, input: seq<Byte>, k: nat, room: nat, t0: Byte, t1: Byte,
                    echo: bool, crLfEcho: bool, echoes: seq<Event>): (r: Reading)
    requires k <= |input| && c.index + room < |c.buf|
    ensures k <= r.consumed <= |input| && r.consumed <= k + room
    ensures |r.cursor.buf| == |c.buf| && r.cursor.index <= c.index + room
    decreases room
  {
    if room == 0 then Reading(true, k, c, echoes)
    else if k == |input| then Reading(false, k, c, echoes)
    else
      var ch := Strip(input[k]);
      var e := echoes + (if Echoed(ch, echo, crLfEcho) then [Echo(ch)] else []);
      if IsTerminator(ch, t0, t1) then Reading(true, k + 1, Take(c, ch, t0, t1), e)
      else ReadFrom(Take(c, ch, t0, t1), input, k + 1, room - 1, t0, t1, echo, crLfEcho, e)
  }

  /**
   * Where the reading loop stops: after at most `room` more bytes; after at
   * least one more unless the counter or the bytes have run out; before any
   * terminator but the last byte it reads; complete exactly when that last
   * byte is a terminator or the counter has run out; and incomplete only
   * when it has read every byte.
   */
  lemma {:induction false} ReadFromStops(c: Cursor, input: seq<Byte>, k: nat, room: nat, t0: Byte, t1: Byte,
                                         echo: bool, crLfEcho: bool, echoes: seq<Event>)
    requires k <= |input| && c.index + room < |c.buf|
    ensures var r := ReadFrom(c, input, k, room, t0, t1, echo, crLfEcho, echoes);
      && (r.consumed == k ==> room == 0 || k == |input|)
      && (forall j :: k <= j < r.consumed - 1 ==> !IsTerminator(Strip(input[j]), t0, t1))
      && (r.done <==> (r.consumed > k && IsTerminator(Strip(input[r.consumed - 1]), t0, t1)) || r.consumed == k + room)
      && (!r.done ==> r.consumed == |input|)
    decreases room
  {
    if room > 0 && k < |input| {
      var ch := Strip(input[k]);
      if !IsTerminator(ch, t0, t1) {
        var e := echoes + (if Echoed(ch, echo, crLfEcho) then [Echo(ch)] else []);
        ReadFromStops(Take(c, ch, t0, t1), input, k + 1, room - 1, t0, t1, echo, crLfEcho, e);
      }
    }
  }

  lemma StripAllStep(input: seq<Byte>, k: nat)
    requires k < |input|
    ensures StripAll(input[..k + 1]) == StripAll(input[..k]) + [Strip(input[k])]
  {
  }

  /** The reading loop echoes the bytes it reads, in order, as the echo flags allow. */
  lemma {:induction false} ReadFromEchoes(c: Cursor, input: seq<Byte>, k: nat, room: nat, t0: Byte, t1: Byte,
                                          echo: bool, crLfEcho: bool)
    requires k <= |input| && c.index + room < |c.buf|
    ensures var r := ReadFrom(c, input, k, room, t0, t1, echo, crLfEcho, Echoes(StripAll(input[..k]), echo, crLfEcho));
      r.echoes == Echoes(StripAll(input[..r.consumed]), echo, crLfEcho)
    decreases room
  {
    if room > 0 && k < |input| {
      var ch := Strip(input[k]);
      StripAllStep(input, k);
      EchoesStep(StripAll(input[..k]), ch, echo, crLfEcho);
      if !IsTerminator(ch, t0, t1) {
        ReadFromEchoes(Take(c, ch, t0, t1), input, k + 1, room - 1, t0, t1, echo, crLfEcho);
      }
    }
  }

  /** The terminator case of `ReadFromComplete`: the line is complete after the byte `k`. */
  lemma ReadFromTerminator(c0: Cursor, input: seq<Byte>, k: nat, room: nat, t0: Byte, t1: Byte,
                           echo: bool, crLfEcho: bool, echoes: seq<Event>)
    requires k < |input| && room > 0 && c0.index + k + room < |c0.buf|
    requires IsTerminator(Strip(input[k]), t0, t1)
    ensures var r := ReadFrom(Run(c0, StripAll(input[..k])), input, k, room, t0, t1, echo, crLfEcho, echoes);
      r.done && r.consumed == k + 1 && r.cursor == Completed(c0, StripAll(input[..k + 1]), t0, t1)
  {
    StripAllStep(input, k);
    CompletedByTerminator(c0, StripAll(input[..k]), Strip(input[k]), t0, t1);
  }

  /** The other case of the cursor lemmas: the byte `k` is applied and the loop goes on. */
  lemma ReadFromContinues(c0: Cursor, input: seq<Byte>, k: nat, room: nat, t0: Byte, t1: Byte,
                          echo: bool, crLfEcho: bool, echoes: seq<Event>)
    requires k < |input| && room > 0 && c0.index + k + room < |c0.buf|
    requires !IsTerminator(Strip(input[k]), t0, t1)
    ensures var ch := Strip(input[k]);
      ReadFrom(Run(c0, StripAll(input[..k])), input, k, room, t0, t1, echo, crLfEcho, echoes)
      == ReadFrom(Run(c0, StripAll(input[..k + 1])), input, k + 1, room - 1, t0, t1, echo, crLfEcho,
                  echoes + (if Echoed(ch, echo, crLfEcho) then [Echo(ch)] else []))
  {
    StripAllStep(input, k);
    RunStep(c0, StripAll(input[..k]), Strip(input[k]));
  }

  /**
   * An incomplete read, continued from byte `k` with the first `k` bytes
   * already applied, leaves the cursor where `Run` puts it after all the
   * bytes read, with room for one more byte.
   */
  lemma {:induction false} ReadFromIncomplete(c0: Cursor, input: seq<Byte>, k: nat, room: nat, t0: Byte, t1: Byte,
                                              echo: bool, crLfEcho: bool, echoes: seq<Event>)
    requires k <= |input| && c0.index + k + room < |c0.buf|
    ensures var r := ReadFrom(Run(c0, StripAll(input[..k])), input, k, room, t0, t1, echo, crLfEcho, echoes);
      !r.done ==> r.cursor == Run(c0, StripAll(input[..r.consumed])) && r.cursor.index + 1 < |c0.buf|
    decreases room
  {
    if room > 0 && k < |input| {
      var ch := Strip(input[k]);
      if !IsTerminator(ch, t0, t1) {
        ReadFromContinues(c0, input, k, room, t0, t1, echo, crLfEcho, echoes);
        var e := echoes + (if Echoed(ch, echo, crLfEcho) then [Echo(ch)] else []);
        ReadFromIncomplete(c0, input, k + 1, room - 1, t0, t1, echo, crLfEcho, e);
      }
    }
  }

  /**
   * A complete read, continued from byte `k` with the first `k` bytes
   * already applied and none of them a terminator, leaves the cursor where
   * `Completed` puts it after all the bytes read.
   */
  lemma {:induction false} ReadFromComplete(c0: Cursor, input: seq<Byte>, k: nat, room: nat, t0: Byte, t1: Byte,
                                            echo: bool, crLfEcho: bool, echoes: seq<Event>)
    requires k <= |input| && c0.index + k + room < |c0.buf|
    requires NoTerminator(StripAll(input[..k]), t0, t1)
    ensures var r := ReadFrom(Run(c0, StripAll(input[..k])), input, k, room, t0, t1, echo, crLfEcho, echoes);
      r.done && r.consumed > 0 ==> r.cursor == Completed(c0, StripAll(input[..r.consumed]), t0, t1)
    decreases room
  {
    var sk := StripAll(input[..k]);
    if room == 0 {
      if k > 0 {
        assert !IsTerminator(sk[|sk| - 1], t0, t1);
      }
    } else if k < |input| {
      var ch := Strip(input[k]);
      if IsTerminator(ch, t0, t1) {
        ReadFromTerminator(c0, input, k, room, t0, t1, echo, crLfEcho, echoes);
      } else {
        StripAllStep(input, k);
        NoTerminatorStep(sk, ch, t0, t1);
        ReadFromContinues(c0, input, k, room, t0, t1, echo, crLfEcho, echoes);
        var e := echoes + (if Echoed(ch, echo, crLfEcho) then [Echo(ch)] else []);
        ReadFromComplete(c0, input, k + 1, room - 1, t0, t1, echo, crLfEcho, e);
      }
    }
  }

  /**
   * With some of the counter left, the reading loop reads at least one byte
   * when there is one, and an incomplete read leaves the cursor below where
   * the counter would have taken it.
   */
  lemma {:induction false} ReadFromRoom(c: Cursor, input: seq<Byte>, k: nat, room: nat, t0: Byte, t1: Byte,
                                        echo: bool, crLfEcho: bool, echoes: seq<Event>)
    requires k <= |input| && 0 < room && c.index + room < |c.buf|
    ensures var r := ReadFrom(c, input, k, room, t0, t1, echo, crLfEcho, echoes);
      (k < |input| ==> k < r.consumed) && (!r.done ==> r.cursor.index < c.index + room)
    decreases room
  {
    if k < |input| {
      var ch := Strip(input[k]);
      if !IsTerminator(ch, t0, t1) && room > 1 {
        var e := echoes + (if Echoed(ch, echo, crLfEcho) then [Echo(ch)] else []);
        ReadFromRoom(Take(c, ch, t0, t1), input, k + 1, room - 1, t0, t1, echo, crLfEcho, e);
      }
    }
  }

  /**
   * Where the reading loop of one call stops, run from the first available
   * byte with its whole budget `room`: it reads at least one byte, none of
   * them a terminator but the last, and it completes the line exactly when
   * that last byte is a terminator or the budget is used up; an incomplete
   * read has read every byte.
   */
  lemma ReadCallStops(c0: Cursor, input: seq<Byte>, room: nat, t0: Byte, t1: Byte, echo: bool, crLfEcho: bool)
    requires 0 < |input| && 0 < room && c0.index + room < |c0.buf|
    ensures var r := ReadFrom(c0, input, 0, room, t0, t1, echo, crLfEcho, []);
      var s := StripAll(input[..r.consumed]);
      && 1 <= r.consumed
      && (forall j :: 0 <= j < r.consumed - 1 ==> !IsTerminator(s[j], t0, t1))
      && (r.done <==> IsTerminator(s[r.consumed - 1], t0, t1) || r.consumed == room)
      && (!r.done ==> r.consumed == |input|)
  {
    var r := ReadFrom(c0, input, 0, room, t0, t1, echo, crLfEcho, []);
    var s := StripAll(input[..r.consumed]);
    ReadFromStops(c0, input, 0, room, t0, t1, echo, crLfEcho, []);
    forall j | 0 <= j < r.consumed ensures s[j] == Strip(input[j]) {
      assert input[..r.consumed][j] == input[j];
    }
  }

  /**
   * What the reading loop of one call leaves: the echoes of the bytes read,
   * and a cursor after those bytes with room for one more byte, or the
   * completed line, whose C string is the edited line.
   */
  lemma ReadCall(c0: Cursor, input: seq<Byte>, room: nat, t0: Byte, t1: Byte, echo: bool, crLfEcho: bool)
    requires 0 < |input| && 0 < room && c0.index + room < |c0.buf|
    ensures var r := ReadFrom(c0, input, 0, room, t0, t1, echo, crLfEcho, []);
      var s := StripAll(input[..r.consumed]);
      && r.echoes == Echoes(s, echo, crLfEcho)
      && (!r.done ==> r.cursor == Run(c0, s) && r.cursor.index + 1 < |c0.buf|)
      && (r.done ==> r.cursor == Completed(c0, s, t0, t1)
                     && CStr(r.cursor.buf[r.cursor.index := NUL]) == CStr(EditedLine(c0.buf[..c0.index], s, t0, t1)))
  {
    var r := ReadFrom(c0, input, 0, room, t0, t1, echo, crLfEcho, []);
    var s := StripAll(input[..r.consumed]);
    assert input[..0] == [] && StripAll([]) == [];
    ReadFromRoom(c0, input, 0, room, t0, t1, echo, crLfEcho, []);
    ReadFromEchoes(c0, input, 0, room, t0, t1, echo, crLfEcho);
    ReadFromIncomplete(c0, input, 0, room, t0, t1, echo, crLfEcho, []);
    ReadFromComplete(c0, input, 0, room, t0, t1, echo, crLfEcho, []);
    if r.done {
      CompletedEdits(c0, s, t0, t1);
      CStrAfterNul(r.cursor.buf, r.cursor.index);
    }
  }

  /** A call stores at most one byte per byte it consumes. */
  lemma {:induction false} EditAllLength(line: seq<Byte>, s: seq<Byte>)
    ensures |EditAll(line, s)| <= |line| + |s|
  {
    if s != [] {
      EditAllLength(line, s[..|s| - 1]);
    }
  }

  /** Without backspaces and LFs the bytes are simply appended. */
  lemma {:induction false} EditAllPlain(line: seq<Byte>, s: seq<Byte>)
    requires BS !in s && LF !in s
    ensures EditAll(line, s) == line + s
  {
    if s != [] {
      var p := s[..|s| - 1];
      assert BS !in p && LF !in p by {
        forall j | 0 <= j < |p| ensures p[j] != BS && p[j] != LF {
          assert p[j] == s[j];
        }
      }
      EditAllPlain(line, p);
      assert p + [s[|s| - 1]] == s;
    }
  }

  /** A backspace erases the byte just appended, and at the start of a line it does nothing. */
  lemma BackspaceErases(line: seq<Byte>, s: seq<Byte>, ch: Byte)
    requires ch != BS && ch != LF
    ensures EditAll(line, s + [ch, BS]) == EditAll(line, s)
    ensures EditAll([], [BS]) == []
  {
    var u := s + [ch, BS];
    assert u[..|u| - 1] == s + [ch];
    assert (s + [ch])[..|s|] == s;
  }

  /**
   * Echo writes back exactly the consumed bytes the echo flags allow, in
   * order: nothing with echo off, and every byte with echo and CR/LF echo on.
   */
  lemma {:induction false} EchoesExact(s: seq<Byte>, echo: bool, crLfEcho: bool)
    ensures |Echoes(s, echo, crLfEcho)| <= |s|
    ensures forall e :: e in Echoes(s, echo, crLfEcho) <==> e.Echo? && e.ch in s && Echoed(e.ch, echo, crLfEcho)
    ensures !echo ==> Echoes(s, echo, crLfEcho) == []
    ensures echo && crLfEcho ==> Echoes(s, echo, crLfEcho) == seq(|s|, i requires 0 <= i < |s| => Echo(s[i]))
  {
    if s != [] {
      var p := s[..|s| - 1];
      EchoesExact(p, echo, crLfEcho);
      assert s == p + [s[|s| - 1]];
      forall e ensures e in Echoes(s, echo, crLfEcho) <==> e.Echo? && e.ch in s && Echoed(e.ch, echo, crLfEcho) {
        if e.Echo? && e.ch in s && Echoed(e.ch, echo, crLfEcho) && e.ch !in p {
          assert e.ch == s[|s| - 1];
        }
      }
    }
  }

  /**
   * With the default terminators ("\r" and the NUL of its end), a received
   * 0x00 or 0x80 ends the line and is stored, but the C string of the
   * line stops before it.
   */
  lemma NulEndsLine(line: seq<Byte>, s: seq<Byte>, b: Byte)
    requires b == 0x00 || b == 0x80
    ensures IsTerminator(Strip(b), CR, NUL) && Kept(Strip(b))
    ensures CStr(EditedLine(line, s + [Strip(b)], CR, NUL)) == CStr(EditAll(line, s))
  {
    var u := s + [Strip(b)];
    assert u[..|u| - 1] == s;
    CStrAppendNul(EditAll(line, s));
  }
}
