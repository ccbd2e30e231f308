/** JavaScript strings as sequences of UTF-16 code units, their UTF-8 byte
    length as Node's `Buffer.byteLength(s, "utf8")` computes it, and the
    decimal rendering of a non-negative integer inside a template literal. */
module JsText {

  /** One UTF-16 code unit: the element of a JavaScript string. */
  type CodeUnit = x: int | 0 <= x < 0x1_0000

  /** A JavaScript string. Unlike Dafny's `string`, it can hold lone surrogates. */
  type JsString = seq<CodeUnit>

  const LF: CodeUnit := 10
  const CR: CodeUnit := 13

  datatype Option<+T> = None | Some(value: T)

  /** The code unit of a character of a Dafny literal (all literals used here are ASCII). */
  function Unit(c: char): CodeUnit
  {
    if c as int < 0x1_0000 then c as int else 0xFFFD
  }

  /** A Dafny string literal as a JavaScript string. */
  function Lit(s: string): (r: JsString)
    ensures |r| == |s|
    ensures forall i :: 0 <= i < |s| ==> r[i] == Unit(s[i])
  {
    seq(|s|, i requires 0 <= i < |s| => Unit(s[i]))
  }

  predicate IsHighSurrogate(u: CodeUnit) { 0xD800 <= u < 0xDC00 }
  predicate IsLowSurrogate(u: CodeUnit) { 0xDC00 <= u < 0xE000 }

  /** True when the string starts with a surrogate pair, i.e. one code point
      above U+FFFF taking two code units. */
  predicate StartsWithPair(s: JsString)
  {
    |s| >= 2 && IsHighSurrogate(s[0]) && IsLowSurrogate(s[1])
  }

  /** UTF-8 bytes of a code point held in one code unit. A lone surrogate is
      written as U+FFFD, which takes three bytes. */
  function UnitBytes(u: CodeUnit): (n: nat)
    ensures 1 <= n <= 3
    ensures n == 1 <==> u < 0x80
  {
    if u < 0x80 then 1 else if u < 0x800 then 2 else 3
  }

  /** Number of code points, counting a surrogate pair as one and a lone
      surrogate as one. */
  function CodePoints(s: JsString): (n: nat)
    ensures n <= |s|
    decreases |s|
  {
    if s == [] then 0
    else if StartsWithPair(s) then 1 + CodePoints(s[2..])
    else 1 + CodePoints(s[1..])
  }

  /** The UTF-8 byte length of a JavaScript string. */
  function Utf8Len(s: JsString): (n: nat)
    ensures |s| <= n <= 3 * |s|
    decreases |s|
  {
    if s == [] then 0
    else if StartsWithPair(s) then 4 + Utf8Len(s[2..])
    else UnitBytes(s[0]) + Utf8Len(s[1..])
  }

  predicate IsAscii(s: JsString)
  {
    forall i :: 0 <= i < |s| ==> s[i] < 0x80
  }

  lemma AsciiUncons(s: JsString)
    requires s != []
    ensures IsAscii(s) <==> s[0] < 0x80 && IsAscii(s[1..])
  {
    if s[0] < 0x80 && IsAscii(s[1..]) {
      forall i | 0 < i < |s| ensures s[i] < 0x80 { assert s[i] == s[1..][i - 1]; }
    }
  }

  /** The byte length is never below the number of code points, and equals it
      exactly when every code point is below 0x80. */
  lemma {:induction false} Utf8LenVersusCodePoints(s: JsString)
    ensures Utf8Len(s) >= CodePoints(s)
    ensures Utf8Len(s) == CodePoints(s) <==> IsAscii(s)
    decreases |s|
  {
    if s == [] {
    } else if StartsWithPair(s) {
      Utf8LenVersusCodePoints(s[2..]);
      assert !IsAscii(s) by { assert s[0] >= 0x80; }
    } else {
      Utf8LenVersusCodePoints(s[1..]);
      AsciiUncons(s);
    }
  }

  /** The byte length equals the number of code units exactly for ASCII text. */
  lemma {:induction false} Utf8LenVersusCodeUnits(s: JsString)
    ensures Utf8Len(s) == |s| <==> IsAscii(s)
    decreases |s|
  {
    if s == [] {
    } else if StartsWithPair(s) {
      assert Utf8Len(s) == 4 + Utf8Len(s[2..]);
      assert !IsAscii(s) by { assert s[0] >= 0x80; }
    } else {
      Utf8LenVersusCodeUnits(s[1..]);
      AsciiUncons(s);
    }
  }

  predicate IsDigit(u: CodeUnit) { 48 <= u <= 57 }

  predicate AllDigits(s: JsString)
  {
    forall i :: 0 <= i < |s| ==> IsDigit(s[i])
  }

  /** The decimal text of a non-negative integer, as `${n}` renders it:
      no sign, no leading zero except for 0 itself. */
  function Decimal(n: nat): (r: JsString)
    ensures |r| >= 1 && AllDigits(r)
    ensures |r| > 1 ==> r[0] != 48
  {
    if n < 10 then [48 + n] else Decimal(n / 10) + [48 + n % 10]
  }

  /** The value of a string of decimal digits, read most significant first. */
  function DigitsValue(s: JsString): nat
    requires AllDigits(s)
  {
    if s == [] then 0 else 10 * DigitsValue(s[..|s| - 1]) + (s[|s| - 1] - 48)
  }

  /** Reading back the decimal text gives the number. */
  lemma {:induction false} DecimalRoundTrip(n: nat)
    ensures DigitsValue(Decimal(n)) == n
  {
    if n >= 10 {
      var r := Decimal(n);
      DecimalRoundTrip(n / 10);
      assert r[..|r| - 1] == Decimal(n / 10);
    }
  }
}
