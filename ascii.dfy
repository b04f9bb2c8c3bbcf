/**
 * The byte-level vocabulary of the library: the C `char` values it compares
 * against, the `<ctype.h>` classifications it relies on (in the "C" locale),
 * and C strings, which are the bytes of a buffer up to its first NUL.
 */
module Ascii {

  /** One byte of the serial stream or of a C string, as an unsigned value. */
  newtype Byte = x: int | 0 <= x < 256

  const NUL: Byte := 0
  const BS: Byte := 0x08       // CHAR_BS, the backspace control code
  const LF: Byte := 0x0A       // '\n'
  const CR: Byte := 0x0D       // '\r'
  const SPACE: Byte := 0x20    // ' '
  const QUOTE: Byte := 0x22    // '"'
  const MINUS: Byte := 0x2D    // '-'
  const DIGIT_0: Byte := 0x30  // '0'
  const UPPER_A: Byte := 0x41  // 'A'
  const LOWER_X: Byte := 0x78  // 'x'

  /** `isspace`: space, '\t', '\n', '\v', '\f' and '\r'. */
  predicate IsSpace(b: Byte) {
    b == SPACE || 0x09 <= b <= 0x0D
  }

  /** `isdigit` */
  predicate IsDigit(b: Byte) {
    0x30 <= b <= 0x39
  }

  /** `isxdigit` */
  predicate IsXDigit(b: Byte) {
    IsDigit(b) || 0x41 <= b <= 0x46 || 0x61 <= b <= 0x66
  }

  /** `tolower`: only 'A'..'Z' change. */
  function ToLower(b: Byte): Byte {
    if 0x41 <= b <= 0x5A then b + 0x20 else b
  }

  /** `toupper`: only 'a'..'z' change. */
  function ToUpper(b: Byte): Byte {
    if 0x61 <= b <= 0x7A then b - 0x20 else b
  }

  /** A string with every letter lowered, the form `strcasecmp` compares. */
  function LowerAll(s: seq<Byte>): (r: seq<Byte>)
    ensures |r| == |s|
    ensures forall i :: 0 <= i < |s| ==> r[i] == ToLower(s[i])
  {
    seq(|s|, i requires 0 <= i < |s| => ToLower(s[i]))
  }

  /** `strcasecmp(a, b) == 0` */
  predicate EqualIgnoringCase(a: seq<Byte>, b: seq<Byte>) {
    LowerAll(a) == LowerAll(b)
  }

  /** `s[i]` for a C string whose bytes are `s`: reading at its end gives the terminating NUL. */
  function At(s: seq<Byte>, i: nat): (b: Byte)
    ensures i < |s| ==> b == s[i]
    ensures i >= |s| ==> b == NUL
  {
    if i < |s| then s[i] else NUL
  }

  /**
   * The C string held at the start of `s`: every byte before the first NUL
   * (all of `s` when it holds none). `strlen` is its length.
   */
  function CStr(s: seq<Byte>): (r: seq<Byte>)
    ensures |r| <= |s| && r == s[..|r|]
    ensures NUL !in r
    ensures |r| < |s| ==> s[|r|] == NUL
  {
    if s == [] || s[0] == NUL then [] else [s[0]] + CStr(s[1..])
  }

  /** The C string is fixed by where the first NUL stands. */
  lemma {:induction false} CStrUpTo(s: seq<Byte>, e: nat)
    requires e <= |s|
    requires forall j :: 0 <= j < e ==> s[j] != NUL
    requires e < |s| ==> s[e] == NUL
    ensures CStr(s) == s[..e]
  {
    if e > 0 {
      CStrUpTo(s[1..], e - 1);
      assert s[..e] == [s[0]] + s[1..][..e - 1];
    }
  }

  /** Writing a NUL right after some bytes ends the C string there at the latest. */
  lemma CStrAfterNul(s: seq<Byte>, n: nat)
    requires n < |s|
    ensures CStr(s[n := NUL]) == CStr(s[..n])
  {
    var t := s[n := NUL];
    var e := |CStr(s[..n])|;
    assert e <= n;
    assert forall j :: 0 <= j < e ==> t[j] == s[..n][j];
    if e < n {
      assert t[e] == s[..n][e];
    }
    CStrUpTo(t, e);
    assert t[..e] == s[..n][..e];
  }

  /** A NUL appended to a C string does not change it. */
  lemma CStrAppendNul(s: seq<Byte>)
    ensures CStr(s + [NUL]) == CStr(s)
  {
    var t := s + [NUL];
    assert t[|s| := NUL] == t;
    CStrAfterNul(t, |s|);
    assert t[..|s|] == s;
  }
}
