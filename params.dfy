/**
 * The parameter classifier `ParseParam`: one argument string is a quoted
 * string, a hexadecimal number, a decimal number or a bad parameter. Numbers
 * are accumulated in an `int32_t`, so a value that does not fit wraps
 * around modulo 2^32.
 */
module Params {
  import opened Ascii
  import opened Limits

  /** 2^32: the accumulator wraps around at this modulus. */
  const M: int := 0x1_0000_0000

  /** Number of leading `isspace` bytes: exactly the prefix the classifier skips. */
  function SpaceCount(s: seq<Byte>): (k: nat)
    ensures k <= |s|
    ensures forall j :: 0 <= j < k ==> IsSpace(s[j])
    ensures k < |s| ==> !IsSpace(s[k])
  {
    if s != [] && IsSpace(s[0]) then 1 + SpaceCount(s[1..]) else 0
  }

  predicate AllHex(s: seq<Byte>) {
    forall j :: 0 <= j < |s| ==> IsXDigit(s[j])
  }

  predicate AllDigits(s: seq<Byte>) {
    forall j :: 0 <= j < |s| ==> IsDigit(s[j])
  }

  /** The value of one hexadecimal (and so also decimal) digit. */
  function DigitOf(b: Byte): nat {
    if IsDigit(b) then (b - DIGIT_0) as nat
    else if 0x41 <= b <= 0x46 then (b - 0x41) as nat + 10
    else if 0x61 <= b <= 0x66 then (b - 0x61) as nat + 10
    else 0
  }

  /** The mathematical value of the digit string `s` in base `base`, most significant first. */
  function Value(s: seq<Byte>, base: nat): nat {
    if s == [] then 0 else Value(s[..|s| - 1], base) * base + DigitOf(s[|s| - 1])
  }

  /** Interprets 32 bits as a two's-complement `int32_t`. */
  function ToInt32(u: int): (v: Int32)
    requires 0 <= u < M
    ensures v as int % M == u
  {
    if u < 0x8000_0000 then u as Int32 else (u - M) as Int32
  }

  /** What `ParseParam` reports, with the value it stores at `*retval` where it stores one. */
  datatype Param = BadParam | DecVal(value: Int32) | HexVal(value: Int32) | StrVal

  /** The `int8_t` type code returned for a classification. */
  function TypeCode(p: Param): (c: Int8)
    ensures c == BADPARAM <==> p.BadParam?
    ensures c == DECVAL <==> p.DecVal?
    ensures c == HEXVAL <==> p.HexVal?
    ensures c == STRVAL <==> p.StrVal?
  {
    match p
    case BadParam => BADPARAM
    case DecVal(_) => DECVAL
    case HexVal(_) => HEXVAL
    case StrVal => STRVAL
  }

  /** `*retval` after the call: the parsed number, or what it held before. */
  function StoredValue(p: Param, prior: Int32): Int32 {
    match p
    case DecVal(v) => v
    case HexVal(v) => v
    case _ => prior
  }

  /**
   * The classification of the C string `param`, in the order the code tests:
   * after the leading whitespace, a '"' start (and a '"' end), then a "0x" or
   * "0X" start, then an optional '-', then decimal digits.
   */
  function Classify(param: seq<Byte>): Param {
    var t := param[SpaceCount(param)..];
    if At(t, 0) == QUOTE then
      (if t[|t| - 1] == QUOTE then StrVal else BadParam)
    else if At(t, 0) == DIGIT_0 && ToLower(At(t, 1)) == LOWER_X then
      (if AllHex(t[2..]) then HexVal(ToInt32(Value(t[2..], 16) % M)) else BadParam)
    else if At(t, 0) == MINUS then
      (if AllDigits(t[1..]) then DecVal(ToInt32((0 - Value(t[1..], 10)) % M)) else BadParam)
    else if IsDigit(At(t, 0)) && AllDigits(t) then
      DecVal(ToInt32(Value(t, 10) % M))
    else
      BadParam
  }

  lemma ModAddMultiple(x: int, y: int)
    ensures (x * M + y) % M == y % M
  {
  }

  /** One wrapping multiply-and-add step of the accumulator agrees with the exact value modulo 2^32. */
  lemma WrapStep(v: int, base: int, d: int)
    requires base >= 0
    ensures ((v % M) * base % M + d) % M == (v * base + d) % M
  {
    var q, a := v / M, v % M;
    assert v == q * M + a;
    var p := a * base;
    assert v * base + d == (q * base) * M + (p + d) by {
      assert v * base == (q * M + a) * base;
      assert (q * M + a) * base == (q * base) * M + a * base;
    }
    ModAddMultiple(q * base, p + d);
    assert p == (p / M) * M + p % M;
    assert p + d == (p / M) * M + (p % M + d);
    ModAddMultiple(p / M, p % M + d);
  }

  /** Negation modulo 2^32 does not depend on the representative. */
  lemma WrapNeg(v: int)
    ensures (0 - v % M) % M == (0 - v) % M
  {
    var q, a := v / M, v % M;
    assert 0 - v == (0 - q) * M + (0 - a);
    ModAddMultiple(0 - q, 0 - a);
  }

  lemma ValueStep(s: seq<Byte>, i: nat, base: nat)
    requires i < |s|
    ensures Value(s[..i + 1], base) == Value(s[..i], base) * base + DigitOf(s[i])
  {
    assert s[..i + 1][..i] == s[..i];
  }

  /** The digit value `ch - '0'` or `ch - 'A' + 10` of an upper-cased hexadecimal digit. */
  lemma UpperDigit(b: Byte)
    requires IsXDigit(b)
    ensures IsXDigit(ToUpper(b))
    ensures IsDigit(ToUpper(b)) ==> (ToUpper(b) - DIGIT_0) as int == DigitOf(b)
    ensures !IsDigit(ToUpper(b)) ==> (ToUpper(b) - UPPER_A) as int + 10 == DigitOf(b)
  {
  }

  /**
   * The hexadecimal conversion loop of `ParseParam` over the digits after
   * "0x": it stops at the first byte that is not a hexadecimal digit.
   */
  method ConvertHex(h: seq<Byte>) returns (ok: bool, val: int)
    ensures ok == AllHex(h)
    ensures ok ==> val == Value(h, 16) % M
  {
    val := 0;
    var i := 0;
    while i < |h|
      invariant 0 <= i <= |h|
      invariant AllHex(h[..i])
      invariant val == Value(h[..i], 16) % M
    {
      var ch := ToUpper(h[i]);
      if IsXDigit(ch) {
        assert IsXDigit(h[i]);
        UpperDigit(h[i]);
        WrapStep(Value(h[..i], 16), 16, DigitOf(h[i]));
        ValueStep(h, i, 16);
        val := val * 16 % M;
        if IsDigit(ch) {
          val := (val + (ch - DIGIT_0) as int) % M;
        } else {
          val := (val + (ch - UPPER_A) as int + 10) % M;
        }
      } else {
        assert !IsXDigit(h[i]);
        return false, val;
      }
      i := i + 1;
    }
    assert h[..i] == h;
    return true, val;
  }

  /** The decimal conversion loop of `ParseParam`: it stops at the first byte that is not a digit. */
  method ConvertDecimal(ds: seq<Byte>) returns (ok: bool, val: int)
    ensures ok == AllDigits(ds)
    ensures ok ==> val == Value(ds, 10) % M
  {
    val := 0;
    var i := 0;
    while i < |ds|
      invariant 0 <= i <= |ds|
      invariant AllDigits(ds[..i])
      invariant val == Value(ds[..i], 10) % M
    {
      var ch := ds[i];
      if IsDigit(ch) {
        WrapStep(Value(ds[..i], 10), 10, DigitOf(ch));
        ValueStep(ds, i, 10);
        val := val * 10 % M;
        val := (val + (ch - DIGIT_0) as int) % M;
      } else {
        return false, val;
      }
      i := i + 1;
    }
    assert ds[..i] == ds;
    return true, val;
  }

  /** Whether the C conversion loop accepts byte `b`: `isxdigit(toupper(b))` after "0x", `isdigit(b)` otherwise. */
  predicate ScanDigit(b: Byte, hex: bool) {
    if hex then IsXDigit(ToUpper(b)) else IsDigit(b)
  }

  function Base(hex: bool): nat {
    if hex then 16 else 10
  }

  /** One step of the C accumulator, `val *= base; val += d`, modulo 2^32. */
  function Accumulate(val: int, base: nat, d: nat): (r: int)
    ensures 0 <= r < M
  {
    (val * base % M + d) % M
  }

  /** The C conversion loop part way: still going at counter `i`, or finished with a verdict. */
  datatype Scan = Scanning(i: nat, val: int) | Scanned(ok: bool, val: int)

  /**
   * The conversion loop as the C writes it, after `n` iterations over the
   * digits `s`. Its counter is a `uint8_t`, so `++i` takes 255 back to 0
   * before `i < strlen(param)` is tested again.
   */
  function Scan8(s: seq<Byte>, hex: bool, n: nat): (r: Scan)
    ensures r.Scanning? ==> r.i < 256
  {
    if n == 0 then Scanning(0, 0)
    else
      var prev := Scan8(s, hex, n - 1);
      if prev.Scanned? then prev
      else if prev.i >= |s| then Scanned(true, prev.val)
      else if ScanDigit(s[prev.i], hex) then
        Scanning(if prev.i == 255 then 0 else prev.i + 1, Accumulate(prev.val, Base(hex), DigitOf(s[prev.i])))
      else Scanned(false, prev.val)
  }

  /**
   * When the part the loop scans has 256 bytes or more and the first 256 are
   * all accepted, the 8-bit counter only ever revisits them: after any
   * number of iterations the loop is still running.
   */
  lemma {:induction false} Scan8NeverEnds(s: seq<Byte>, hex: bool, n: nat)
    requires |s| >= 256
    requires forall j :: 0 <= j < 256 ==> ScanDigit(s[j], hex)
    ensures Scan8(s, hex, n).Scanning? && Scan8(s, hex, n).i == n % 256
  {
    if n > 0 {
      Scan8NeverEnds(s, hex, n - 1);
      var i := Scan8(s, hex, n - 1).i;
      assert ScanDigit(s[i], hex);
      assert (if i == 255 then 0 else i + 1) == n % 256;
    }
  }

  /** One accumulator step of the C loop extends the value of the digits read so far by the next one. */
  lemma AccumulateValue(s: seq<Byte>, i: nat, base: nat)
    requires i < |s|
    ensures Accumulate(Value(s[..i], base) % M, base, DigitOf(s[i])) == Value(s[..i + 1], base) % M
  {
    WrapStep(Value(s[..i], base), base, DigitOf(s[i]));
    ValueStep(s, i, base);
  }

  /** All of the first `n` bytes are accepted by the C loop. */
  predicate ScanDigits(s: seq<Byte>, hex: bool, n: nat)
    requires n <= |s|
  {
    forall j :: 0 <= j < n ==> ScanDigit(s[j], hex)
  }

  /** Below 256 bytes the loop has visited exactly the first `n` bytes, all accepted, or has rejected one of them. */
  lemma {:induction false} Scan8Prefix(s: seq<Byte>, hex: bool, n: nat)
    requires n <= |s| < 256
    ensures Scan8(s, hex, n).Scanning? <==> ScanDigits(s, hex, n)
    ensures Scan8(s, hex, n).Scanning? ==> Scan8(s, hex, n) == Scanning(n, Value(s[..n], Base(hex)) % M)
    ensures Scan8(s, hex, n).Scanned? ==> !Scan8(s, hex, n).ok
  {
    if n > 0 {
      Scan8Prefix(s, hex, n - 1);
      var prev := Scan8(s, hex, n - 1);
      assert ScanDigits(s, hex, n) <==> ScanDigits(s, hex, n - 1) && ScanDigit(s[n - 1], hex);
      if prev.Scanning? {
        assert prev.i == n - 1 && n - 1 < 255;
        if ScanDigit(s[n - 1], hex) {
          AccumulateValue(s, n - 1, Base(hex));
          assert Scan8(s, hex, n) == Scanning(n, Accumulate(prev.val, Base(hex), DigitOf(s[n - 1])));
        } else {
          assert Scan8(s, hex, n) == Scanned(false, prev.val);
        }
      } else {
        assert Scan8(s, hex, n) == prev;
      }
    }
  }

  /**
   * Below 256 bytes the C loop ends, one iteration after the last byte, with
   * the verdict and value of `ConvertHex` or `ConvertDecimal`.
   */
  lemma Scan8Short(s: seq<Byte>, hex: bool)
    requires |s| < 256
    ensures Scan8(s, hex, |s| + 1).Scanned?
    ensures Scan8(s, hex, |s| + 1).ok == if hex then AllHex(s) else AllDigits(s)
    ensures Scan8(s, hex, |s| + 1).ok ==> Scan8(s, hex, |s| + 1).val == Value(s, Base(hex)) % M
  {
    Scan8Prefix(s, hex, |s|);
    assert s[..|s|] == s;
    if hex {
      assert forall j :: 0 <= j < |s| ==> (ScanDigit(s[j], true) <==> IsXDigit(s[j]));
    }
  }

  /**
   * 256 digits '1': the classification answers DECVAL and, after "0x",
   * HEXVAL, yet the C loop over those digits never ends.
   */
  lemma LongDigitsHang(n: nat)
    ensures var ones := seq(256, j => 0x31 as Byte);
      && Classify(ones).DecVal? && Scan8(ones, false, n).Scanning?
      && Classify([0x30, 0x78] + ones).HexVal? && Scan8(ones, true, n).Scanning?
  {
    var ones := seq(256, j => 0x31 as Byte);
    assert SpaceCount(ones) == 0;
    assert SpaceCount([0x30, 0x78] + ones) == 0;
    assert ([0x30, 0x78] + ones)[2..] == ones;
    Scan8NeverEnds(ones, false, n);
    Scan8NeverEnds(ones, true, n);
  }

  /**
   * `ParseParam(param, &retval)`: the type code of `param`, and `*retval`,
   * written only for a hexadecimal or decimal parameter. The library's
   * member uses no state of the object.
   */
  method ParseParam(param: seq<Byte>, prior: Int32) returns (kind: Int8, retval: Int32)
    requires NUL !in param
    ensures kind == TypeCode(Classify(param))
    ensures retval == StoredValue(Classify(param), prior)
  {
    retval := prior;
    // p: the length of the leading whitespace
    var p := 0;
    while p < |param| && IsSpace(param[p])
      invariant p <= |param|
      invariant forall j :: 0 <= j < p ==> IsSpace(param[j])
    {
      p := p + 1;
    }
    assert p == SpaceCount(param);
    var t := param[p..];

    // a quoted string: STRVAL or BADPARAM by its last byte
    if At(t, 0) == QUOTE {
      if t[|t| - 1] == QUOTE {
        return STRVAL, retval;
      } else {
        return BADPARAM, retval;
      }
    }

    // "0x" or "0X": the digits after it, or BADPARAM
    if At(t, 0) == DIGIT_0 && ToLower(At(t, 1)) == LOWER_X {
      var ok, val := ConvertHex(t[2..]);
      if !ok {
        return BADPARAM, retval;
      }
      return HEXVAL, ToInt32(val);
    }

    // q: where the digits begin, after an optional '-'
    var neg := false;
    var q := 0;
    if At(t, 0) == MINUS {
      neg := true;
      q := 1;
    } else if !IsDigit(At(t, 0)) {
      return BADPARAM, retval;
    }

    // the digits, negated modulo 2^32 after a '-'
    var ok, val := ConvertDecimal(t[q..]);
    if !ok {
      return BADPARAM, retval;
    }
    if neg {
      WrapNeg(Value(t[q..], 10));
      val := (0 - val) % M;
    }
    return DECVAL, ToInt32(val);
  }

  /** The text the classifier looks at: `param` without its leading whitespace. */
  function Trimmed(param: seq<Byte>): (t: seq<Byte>)
    ensures |t| <= |param| && t == param[|param| - |t|..]
    ensures t != [] ==> !IsSpace(t[0])
  {
    param[SpaceCount(param)..]
  }

  /** STRVAL exactly when the trimmed text starts and ends with '"'; a lone '"' is one. */
  lemma StrValIff(param: seq<Byte>)
    ensures var t := Trimmed(param);
      Classify(param) == StrVal <==> |t| > 0 && t[0] == QUOTE && t[|t| - 1] == QUOTE
  {
  }

  /**
   * HEXVAL exactly when the trimmed text is "0x" or "0X" followed only by
   * hexadecimal digits (none at all gives 0); the value is theirs modulo 2^32.
   */
  lemma HexValIff(param: seq<Byte>)
    ensures var t := Trimmed(param);
      Classify(param).HexVal? <==>
        |t| >= 2 && t[0] == DIGIT_0 && (t[1] == 0x78 || t[1] == 0x58) && AllHex(t[2..])
    ensures var t := Trimmed(param);
      Classify(param).HexVal? ==> Classify(param).value == ToInt32(Value(t[2..], 16) % M)
  {
  }

  /**
   * DECVAL exactly when the trimmed text is decimal digits (at least one), or
   * one '-' followed by decimal digits (possibly none); a '-' negates the
   * value, and the value wraps modulo 2^32.
   */
  lemma DecValIff(param: seq<Byte>)
    ensures var t := Trimmed(param);
      Classify(param).DecVal? <==>
        |t| > 0 && ((t[0] == MINUS && AllDigits(t[1..])) || AllDigits(t))
    ensures var t := Trimmed(param);
      Classify(param).DecVal? ==>
        Classify(param).value ==
          if t[0] == MINUS then ToInt32((0 - Value(t[1..], 10)) % M) else ToInt32(Value(t, 10) % M)
  {
  }

  /** Everything else is BADPARAM. */
  lemma BadParamIff(param: seq<Byte>)
    ensures var t := Trimmed(param);
      Classify(param) == BadParam <==>
        !(|t| > 0 && t[0] == QUOTE && t[|t| - 1] == QUOTE) &&
        !(|t| >= 2 && t[0] == DIGIT_0 && (t[1] == 0x78 || t[1] == 0x58) && AllHex(t[2..])) &&
        !(|t| > 0 && ((t[0] == MINUS && AllDigits(t[1..])) || AllDigits(t)))
  {
    StrValIff(param);
    HexValIff(param);
    DecValIff(param);
  }

  /** A hexadecimal value below 2^31 is returned exactly. */
  lemma HexExact(param: seq<Byte>)
    requires Classify(param).HexVal?
    requires Value(Trimmed(param)[2..], 16) < 0x8000_0000
    ensures Classify(param).value as int == Value(Trimmed(param)[2..], 16)
  {
    HexValIff(param);
  }

  /**
   * A decimal value that fits is returned exactly: up to 2^31 - 1 without a
   * sign, and down to -2^31 with one.
   */
  lemma DecExact(param: seq<Byte>)
    requires Classify(param).DecVal?
    ensures var t := Trimmed(param);
      t[0] != MINUS && Value(t, 10) < 0x8000_0000 ==> Classify(param).value as int == Value(t, 10)
    ensures var t := Trimmed(param);
      t[0] == MINUS && Value(t[1..], 10) <= 0x8000_0000 ==> Classify(param).value as int == 0 - Value(t[1..], 10)
  {
    DecValIff(param);
    var t := Trimmed(param);
    if t[0] == MINUS {
      if Value(t[1..], 10) <= 0x8000_0000 {
        NegatedExact(Value(t[1..], 10));
      }
    } else if Value(t, 10) < 0x8000_0000 {
      assert Value(t, 10) % M == Value(t, 10);
    }
  }

  /** The wrapped negation of a magnitude up to 2^31 reads back as its exact negative. */
  lemma NegatedExact(n: nat)
    requires n <= 0x8000_0000
    ensures ToInt32((0 - n) % M) as int == 0 - n
  {
    if n == 0 {
      assert (0 - n) % M == 0;
    } else {
      assert (0 - n) % M == M - n;
    }
  }

  // Concrete parameters; the bytes are written as their ASCII codes.

  /** "0x1A2b" is HEXVAL 6699, case-insensitively in its digits. */
  lemma HexExample()
    ensures Classify([0x30, 0x78, 0x31, 0x41, 0x32, 0x62]) == HexVal(6699)
  {
    var t: seq<Byte> := [0x30, 0x78, 0x31, 0x41, 0x32, 0x62];
    assert SpaceCount(t) == 0;
    var h: seq<Byte> := [0x31, 0x41, 0x32, 0x62];
    assert t[2..] == h;
    ValueStep(h, 0, 16); ValueStep(h, 1, 16); ValueStep(h, 2, 16); ValueStep(h, 3, 16);
    assert h[..0] == [] && h[..4] == h;
  }

  /** "-42" is DECVAL -42. */
  lemma NegativeExample()
    ensures Classify([0x2D, 0x34, 0x32]) == DecVal(-42)
  {
    var t: seq<Byte> := [0x2D, 0x34, 0x32];
    assert SpaceCount(t) == 0;
    var ds: seq<Byte> := [0x34, 0x32];
    assert t[1..] == ds;
    ValueStep(ds, 0, 10); ValueStep(ds, 1, 10);
    assert ds[..0] == [] && ds[..2] == ds;
  }

  /** An unclosed quote is BADPARAM and a lone '"' is STRVAL. */
  lemma QuoteExamples()
    ensures Classify([0x22, 0x61, 0x62, 0x63]) == BadParam
    ensures Classify([0x22]) == StrVal
  {
    assert SpaceCount([0x22, 0x61, 0x62, 0x63]) == 0;
    assert SpaceCount([0x22]) == 0;
  }

  /** "0x" alone is HEXVAL 0, "-" alone is DECVAL 0, and "-0x10" is BADPARAM. */
  lemma EmptyDigitExamples()
    ensures Classify([0x30, 0x78]) == HexVal(0)
    ensures Classify([0x2D]) == DecVal(0)
    ensures Classify([0x2D, 0x30, 0x78, 0x31, 0x30]) == BadParam
  {
    assert SpaceCount([0x30, 0x78]) == 0;
    assert SpaceCount([0x2D]) == 0;
    var t: seq<Byte> := [0x2D, 0x30, 0x78, 0x31, 0x30];
    assert SpaceCount(t) == 0;
    assert !IsDigit(t[1..][1]);
  }

  /** Leading whitespace is skipped and trailing whitespace is not: " 12" is DECVAL 12, "12 " is BADPARAM. */
  lemma WhitespaceExamples()
    ensures Classify([0x20, 0x31, 0x32]) == DecVal(12)
    ensures Classify([0x31, 0x32, 0x20]) == BadParam
  {
    var t: seq<Byte> := [0x20, 0x31, 0x32];
    assert SpaceCount(t) == 1;
    assert t[1..] == [0x31, 0x32];
    assert Value(t[1..], 10) == 12;
    var u: seq<Byte> := [0x31, 0x32, 0x20];
    assert SpaceCount(u) == 0;
    assert !IsDigit(u[2]);
  }

  /** Eight hexadecimal 'F' digits are 2^32 - 1. */
  lemma EightF()
    ensures Value([0x46, 0x46, 0x46, 0x46, 0x46, 0x46, 0x46, 0x46], 16) == 0xFFFF_FFFF
  {
    var h: seq<Byte> := [0x46, 0x46, 0x46, 0x46, 0x46, 0x46, 0x46, 0x46];
    assert h[..0] == [] && h[..8] == h;
    ValueStep(h, 0, 16); assert Value(h[..1], 16) == 0xF;
    ValueStep(h, 1, 16); assert Value(h[..2], 16) == 0xFF;
    ValueStep(h, 2, 16); assert Value(h[..3], 16) == 0xFFF;
    ValueStep(h, 3, 16); assert Value(h[..4], 16) == 0xFFFF;
    ValueStep(h, 4, 16); assert Value(h[..5], 16) == 0xF_FFFF;
    ValueStep(h, 5, 16); assert Value(h[..6], 16) == 0xFF_FFFF;
    ValueStep(h, 6, 16); assert Value(h[..7], 16) == 0xFFF_FFFF;
    ValueStep(h, 7, 16);
  }

  /** "0xFFFFFFFF" wraps to HEXVAL -1 in the `int32_t`. */
  lemma WrapExample()
    ensures Classify([0x30, 0x78, 0x46, 0x46, 0x46, 0x46, 0x46, 0x46, 0x46, 0x46]) == HexVal(-1)
  {
    var t: seq<Byte> := [0x30, 0x78, 0x46, 0x46, 0x46, 0x46, 0x46, 0x46, 0x46, 0x46];
    assert SpaceCount(t) == 0;
    assert t[2..] == [0x46, 0x46, 0x46, 0x46, 0x46, 0x46, 0x46, 0x46];
    EightF();
  }
}
