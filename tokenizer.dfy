/**
 * How `CmdLineProcess` splits a command line: tokens are the maximal runs of
 * bytes other than the single delimiter, each referenced by its start
 * position, and every delimiter it passes is overwritten with NUL so that
 * each token is a C string of its own.
 */
module Tokenizer {
  import opened Ascii
  import opened Limits

  /** Position `p` begins a token: it is no delimiter, and it is the first byte or follows one. */
  predicate IsStart(line: seq<Byte>, d: Byte, p: nat)
    requires p < |line|
  {
    line[p] != d && (p == 0 || line[p - 1] == d)
  }

  /** The token starts among the first `n` positions, in increasing order. */
  function StartsBefore(line: seq<Byte>, d: Byte, n: nat): (r: seq<nat>)
    requires n <= |line|
    ensures forall k :: 0 <= k < |r| ==> r[k] < n
  {
    if n == 0 then []
    else StartsBefore(line, d, n - 1) + (if IsStart(line, d, n - 1) then [n - 1] else [])
  }

  /** Where every token of the line starts. */
  function Starts(line: seq<Byte>, d: Byte): (r: seq<nat>)
    ensures forall k :: 0 <= k < |r| ==> r[k] < |line|
  {
    StartsBefore(line, d, |line|)
  }

  /** The end of the run that begins at `s`: the next delimiter, or the end of the line. */
  function RunEnd(line: seq<Byte>, d: Byte, s: nat): (e: nat)
    requires s <= |line|
    ensures s <= e <= |line|
    ensures forall j :: s <= j < e ==> line[j] != d
    ensures e < |line| ==> line[e] == d
    decreases |line| - s
  {
    if s == |line| || line[s] == d then s else RunEnd(line, d, s + 1)
  }

  /** The tokens of a line, in order. */
  function Tokens(line: seq<Byte>, d: Byte): (r: seq<seq<Byte>>)
    ensures |r| == |Starts(line, d)|
  {
    var S := Starts(line, d);
    seq(|S|, k requires 0 <= k < |S| => line[S[k]..RunEnd(line, d, S[k])])
  }

  /** The buffer after the scan has passed its first `n` bytes: each delimiter among them is now NUL. */
  function Blank(buf: seq<Byte>, d: Byte, n: nat): (r: seq<Byte>)
    ensures |r| == |buf|
  {
    seq(|buf|, j requires 0 <= j < |buf| => if j < n && buf[j] == d then NUL else buf[j])
  }

  /** The C strings that `argv` entries holding positions `starts` point at in `buf`. */
  function ArgStrings(buf: seq<Byte>, starts: seq<nat>): (r: seq<seq<Byte>>)
    requires forall k :: 0 <= k < |starts| ==> starts[k] <= |buf|
    ensures |r| == |starts|
  {
    seq(|starts|, k requires 0 <= k < |starts| => CStr(buf[starts[k]..]))
  }

  /**
   * How far the scan goes: to the end of the line, or, when the line has too
   * many tokens, to the start of the first token that does not fit.
   */
  function Cut(line: seq<Byte>, d: Byte): nat {
    var S := Starts(line, d);
    if |S| > CMDLINE_MAX_ARGS then S[CMDLINE_MAX_ARGS] else |line|
  }

  /** `argv` after the scan: the starts that fit, then the slots it did not reach. */
  function ArgvAfter(argv: seq<nat>, line: seq<Byte>, d: Byte): seq<nat>
    requires |argv| == CMDLINE_MAX_ARGS
  {
    var S := Starts(line, d);
    var n := if |S| < CMDLINE_MAX_ARGS then |S| else CMDLINE_MAX_ARGS;
    S[..n] + argv[n..]
  }

  /** Passing one more byte blanks it if it is the delimiter. */
  lemma BlankStep(buf: seq<Byte>, d: Byte, p: nat)
    requires p < |buf|
    ensures Blank(buf, d, p + 1) == if buf[p] == d then Blank(buf, d, p)[p := NUL] else Blank(buf, d, p)
  {
  }

  /** One more position adds itself to the starts if it begins a token. */
  lemma StartsBeforeStep(line: seq<Byte>, d: Byte, p: nat)
    requires p < |line|
    ensures StartsBefore(line, d, p + 1) == StartsBefore(line, d, p) + (if IsStart(line, d, p) then [p] else [])
  {
  }

  /** Storing one more start into `argv` after the starts `S`. */
  lemma ArgvStore(S: seq<nat>, argv0: seq<nat>, p: nat)
    requires |S| < |argv0|
    ensures (S + argv0[|S|..])[|S| := p] == (S + [p]) + argv0[|S| + 1..]
  {
  }

  /** The starts among the first `n` positions depend on those positions only. */
  lemma {:induction false} StartsBeforeAgree(a: seq<Byte>, b: seq<Byte>, d: Byte, n: nat)
    requires n <= |a| && n <= |b| && a[..n] == b[..n]
    ensures StartsBefore(a, d, n) == StartsBefore(b, d, n)
  {
    if n > 0 {
      assert a[..n - 1] == a[..n][..n - 1] && b[..n - 1] == b[..n][..n - 1];
      assert a[n - 1] == a[..n][n - 1] && b[n - 1] == b[..n][n - 1];
      if n > 1 {
        assert a[n - 2] == a[..n][n - 2] && b[n - 2] == b[..n][n - 2];
      }
      StartsBeforeAgree(a, b, d, n - 1);
    }
  }

  /** The starts found among the first `n` positions are the first starts of the line. */
  lemma {:induction false} StartsBeforePrefix(line: seq<Byte>, d: Byte, n: nat, m: nat)
    requires n <= m <= |line|
    ensures StartsBefore(line, d, n) <= StartsBefore(line, d, m)
    decreases m
  {
    if n < m {
      StartsBeforePrefix(line, d, n, m - 1);
    }
  }

  /**
   * The starts among the first `n` positions are exactly the positions below
   * `n` that begin a token, listed once each in increasing order.
   */
  lemma {:induction false} StartsBeforeExact(line: seq<Byte>, d: Byte, n: nat)
    requires n <= |line|
    ensures forall k :: 0 <= k < |StartsBefore(line, d, n)| ==> IsStart(line, d, StartsBefore(line, d, n)[k])
    ensures forall p :: 0 <= p < n && IsStart(line, d, p) ==> p in StartsBefore(line, d, n)
    ensures forall i, j :: 0 <= i < j < |StartsBefore(line, d, n)| ==>
      StartsBefore(line, d, n)[i] < StartsBefore(line, d, n)[j]
  {
    if n > 0 {
      StartsBeforeExact(line, d, n - 1);
    }
  }

  /**
   * The tokens are exactly the maximal delimiter-free runs of the line, in
   * order: every start begins one, every token is non-empty and holds no
   * delimiter, and it is bounded by a delimiter or an end of the line on
   * both sides.
   */
  lemma TokensAreMaximalRuns(line: seq<Byte>, d: Byte)
    ensures forall p :: 0 <= p < |line| ==> (p in Starts(line, d) <==> IsStart(line, d, p))
    ensures forall i, j :: 0 <= i < j < |Starts(line, d)| ==> Starts(line, d)[i] < Starts(line, d)[j]
    ensures forall k :: 0 <= k < |Tokens(line, d)| ==>
      var s, t := Starts(line, d)[k], Tokens(line, d)[k];
      && t != [] && d !in t
      && s + |t| <= |line| && t == line[s..s + |t|]
      && (s == 0 || line[s - 1] == d)
      && (s + |t| == |line| || line[s + |t|] == d)
  {
    StartsBeforeExact(line, d, |line|);
    var S, T := Starts(line, d), Tokens(line, d);
    forall k | 0 <= k < |T|
      ensures d !in T[k]
    {
      var e := RunEnd(line, d, S[k]);
      assert T[k] == line[S[k]..e];
      forall j | 0 <= j < |T[k]| ensures T[k][j] != d {
        assert T[k][j] == line[S[k] + j];
      }
    }
  }

  /** Blanking the line in its buffer turns its delimiters into NUL and keeps its other bytes, none of them NUL. */
  lemma BlankedByte(buf: seq<Byte>, line: seq<Byte>, d: Byte, j: nat)
    requires CStr(buf) == line && |line| < |buf| && j <= |line|
    ensures j < |line| ==> line[j] != NUL
    ensures Blank(buf, d, |line|)[j] == if j == |line| || line[j] == d then NUL else line[j]
  {
    if j < |line| {
      assert buf[j] == line[j];
      assert line[j] in line;
    }
  }

  /** After blanking, the C string at a position of the line runs to the next delimiter. */
  lemma RunIsCString(buf: seq<Byte>, line: seq<Byte>, d: Byte, s: nat)
    requires CStr(buf) == line && |line| < |buf| && s <= |line|
    ensures CStr(Blank(buf, d, |line|)[s..]) == line[s..RunEnd(line, d, s)]
  {
    var B := Blank(buf, d, |line|);
    var e := RunEnd(line, d, s);
    var u := B[s..];
    forall j | 0 <= j < e - s
      ensures u[j] != NUL && u[j] == line[s + j]
    {
      BlankedByte(buf, line, d, s + j);
    }
    BlankedByte(buf, line, d, e);
    CStrUpTo(u, e - s);
    assert u[..e - s] == line[s..e];
  }

  /**
   * Once the line sits NUL-terminated in a buffer and its delimiters are
   * NUL, the C strings at the token starts are the tokens.
   */
  lemma ArgStringsAreTokens(buf: seq<Byte>, line: seq<Byte>, d: Byte)
    requires CStr(buf) == line && |line| < |buf|
    ensures ArgStrings(Blank(buf, d, |line|), Starts(line, d)) == Tokens(line, d)
  {
    var S, T := Starts(line, d), Tokens(line, d);
    var A := ArgStrings(Blank(buf, d, |line|), S);
    forall k | 0 <= k < |S|
      ensures A[k] == T[k]
    {
      RunIsCString(buf, line, d, S[k]);
    }
  }

  /** The starting positions of the tokens that fit are below the cut. */
  lemma StartsBelowCut(line: seq<Byte>, d: Byte)
    ensures Cut(line, d) <= |line|
    ensures forall k :: 0 <= k < |Starts(line, d)| && k < CMDLINE_MAX_ARGS ==> Starts(line, d)[k] < Cut(line, d)
  {
    StartsBeforeExact(line, d, |line|);
  }

  /**
   * The scan reaches the start of an eleventh token at `p` in the buffer
   * `buf` that holds the C string `line`: the line has too many tokens, the
   * scan stops there, and `argv` holds the first ten starts.
   */
  lemma SplitStopsAtEleventh(buf: seq<Byte>, line: seq<Byte>, d: Byte, p: nat, argv0: seq<nat>)
    requires CStr(buf) == line && p < |line| && |argv0| == CMDLINE_MAX_ARGS
    requires StartsBefore(buf, d, p + 1) == StartsBefore(buf, d, p) + [p]
    requires |StartsBefore(buf, d, p + 1)| == CMDLINE_MAX_ARGS + 1
    ensures |Starts(line, d)| > CMDLINE_MAX_ARGS && Cut(line, d) == p
    ensures StartsBefore(buf, d, p) + argv0[CMDLINE_MAX_ARGS..] == ArgvAfter(argv0, line, d)
  {
    StartsBeforeAgree(buf, line, d, p + 1);
    StartsBeforePrefix(line, d, p + 1, |line|);
    StartsBeforeAgree(buf, line, d, p);
    assert Starts(line, d)[..CMDLINE_MAX_ARGS] == StartsBefore(line, d, p);
  }

  /**
   * The scan reaches the NUL that ends the C string `line` in `buf` with
   * `argc` starts recorded, at most ten: those are all the tokens, the scan
   * went to the end of the line, and `argv` holds their starts.
   */
  lemma SplitReachesEnd(buf: seq<Byte>, line: seq<Byte>, d: Byte, argc: nat, argv0: seq<nat>)
    requires CStr(buf) == line && |line| < |buf| && |argv0| == CMDLINE_MAX_ARGS
    requires argc == |StartsBefore(buf, d, |line|)| <= CMDLINE_MAX_ARGS
    ensures |Starts(line, d)| == argc && Cut(line, d) == |line|
    ensures StartsBefore(buf, d, |line|) + argv0[argc..] == ArgvAfter(argv0, line, d)
  {
    StartsBeforeAgree(buf, line, d, |line|);
    assert Starts(line, d)[..argc] == Starts(line, d);
  }
}
