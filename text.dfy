/** Bytes, characters and the small pieces of text handling the receiver
    protocol relies on: ASCII encoding of commands, decimal digit strings
    (Python's `int()` of a `\d+` capture and `"{}".format(n)`), and the
    `strip()` / `replace("\n", "")` clean-up of a received sentence. */
module Text {

  type byte = bv8

  datatype Option<+T> = None | Some(value: T) {
    predicate IsFailure() { None? }
    function PropagateFailure<U>(): Option<U>
      requires None?
    { None }
    function Extract(): T
      requires Some?
    { value }
  }

  // ---------------------------------------------------------------- ASCII

  predicate IsAscii(s: string) {
    forall i :: 0 <= i < |s| ==> s[i] as int < 128
  }

  /** `str.encode("ascii")`: one byte per character, same code. */
  function Encode(s: string): (b: seq<byte>)
    requires IsAscii(s)
    ensures |b| == |s|
    ensures forall i :: 0 <= i < |s| ==> b[i] as int == s[i] as int
  {
    seq(|s|, i requires 0 <= i < |s| => Byte(s[i]))
  }

  /** The byte with an ASCII character's code, counted up from NUL (this
      keeps the solver away from integer-to-bit-vector conversion). */
  function Byte(c: char): (b: byte)
    requires c as int < 128
    ensures b as int == c as int
  {
    if c as int == 0 then 0 else Byte((c as int - 1) as char) + 1
  }

  /** `bytes.decode("ascii")` for input that is ASCII: one character per
      byte, same code. */
  function Decode(b: seq<byte>): (s: string)
    ensures |s| == |b|
    ensures forall i :: 0 <= i < |b| ==> s[i] as int == b[i] as int
  {
    seq(|b|, i requires 0 <= i < |b| => (b[i] as int) as char)
  }

  lemma AsciiAppend(a: string, b: string)
    requires IsAscii(a) && IsAscii(b)
    ensures IsAscii(a + b)
  {
    forall i | 0 <= i < |a + b| ensures (a + b)[i] as int < 128 {
      if i < |a| { assert (a + b)[i] == a[i]; } else { assert (a + b)[i] == b[i - |a|]; }
    }
  }

  // --------------------------------------------------------------- digits

  predicate IsDigit(c: char) { '0' <= c <= '9' }

  predicate AllDigits(s: string) {
    forall i :: 0 <= i < |s| ==> IsDigit(s[i])
  }

  function DigitChar(d: nat): (c: char)
    requires d < 10
    ensures IsDigit(c) && c as int - '0' as int == d
  {
    (d + '0' as int) as char
  }

  function Pow10(n: nat): (p: nat)
    ensures p >= 1
  {
    if n == 0 then 1 else 10 * Pow10(n - 1)
  }

  /** Python's `int(t)` of a digit string: the decimal value, leading zeros
      allowed; a string of k digits denotes a number below 10^k. */
  function DigitsValue(s: string): (n: nat)
    requires AllDigits(s)
    ensures n < Pow10(|s|)
  {
    if s == [] then 0
    else
      var front := DigitsValue(s[..|s| - 1]);
      var d := s[|s| - 1] as int - '0' as int;
      assert front <= Pow10(|s| - 1) - 1;
      assert front * 10 <= Pow10(|s|) - 10;
      front * 10 + d
  }

  /** `"{}".format(n)` of a non-negative integer: decimal digits, no
      leading zero unless the number is 0 itself. */
  function Decimal(n: nat): (s: string)
    ensures AllDigits(s) && IsAscii(s) && 1 <= |s|
    ensures |s| == 1 <==> n < 10
    ensures |s| > 1 ==> s[0] != '0'
    ensures ',' !in s
  {
    if n < 10 then [DigitChar(n)]
    else
      var front := Decimal(n / 10);
      assert |front| == 1 ==> front[0] != '0';
      front + [DigitChar(n % 10)]
  }

  lemma {:induction false} DecimalRoundTrip(n: nat)
    ensures DigitsValue(Decimal(n)) == n
  {
    if n >= 10 {
      DecimalRoundTrip(n / 10);
      var s := Decimal(n);
      assert s[..|s| - 1] == Decimal(n / 10);
    }
  }

  // ----------------------------------------------------- whitespace, LF

  /** Characters MicroPython's `str.strip()` removes from ASCII text:
      space, and tab through carriage return. */
  predicate IsSpace(c: char) { c == ' ' || '\t' <= c <= '\r' }

  function TrimStart(s: string): string {
    if s == [] || !IsSpace(s[0]) then s else TrimStart(s[1..])
  }

  function TrimEnd(s: string): string {
    if s == [] || !IsSpace(s[|s| - 1]) then s else TrimEnd(s[..|s| - 1])
  }

  /** TrimStart removes exactly the leading run of whitespace. */
  lemma {:induction false} TrimStartSpec(s: string)
    ensures var r := TrimStart(s);
            |r| <= |s| && r == s[|s| - |r|..] &&
            (forall i :: 0 <= i < |s| - |r| ==> IsSpace(s[i])) &&
            (r == [] || !IsSpace(r[0]))
  {
    if s != [] && IsSpace(s[0]) {
      TrimStartSpec(s[1..]);
      var r := TrimStart(s);
      assert s[1..][|s| - 1 - |r|..] == s[|s| - |r|..];
      forall i | 0 <= i < |s| - |r| ensures IsSpace(s[i]) {
        if i > 0 { assert s[i] == s[1..][i - 1]; }
      }
    }
  }

  /** TrimEnd removes exactly the trailing run of whitespace. */
  lemma {:induction false} TrimEndSpec(s: string)
    ensures var r := TrimEnd(s);
            |r| <= |s| && r == s[..|r|] &&
            (forall i :: |r| <= i < |s| ==> IsSpace(s[i])) &&
            (r == [] || !IsSpace(r[|r| - 1]))
  {
    if s != [] && IsSpace(s[|s| - 1]) {
      var front := s[..|s| - 1];
      TrimEndSpec(front);
      var r := TrimEnd(s);
      assert front[..|r|] == s[..|r|];
      forall i | |r| <= i < |s| ensures IsSpace(s[i]) {
        if i < |s| - 1 { assert s[i] == front[i]; }
      }
    }
  }

  /** Python's `str.strip()`: a slice of the input that neither starts nor
      ends with whitespace; input without whitespace at either end is
      returned as it is. */
  function Strip(s: string): (r: string)
    ensures |r| <= |s|
    ensures r == [] || (!IsSpace(r[0]) && !IsSpace(r[|r| - 1]))
    ensures s != [] && !IsSpace(s[0]) && !IsSpace(s[|s| - 1]) ==> r == s
  {
    TrimStartSpec(s);
    TrimEndSpec(TrimStart(s));
    TrimEnd(TrimStart(s))
  }

  /** Python's `s.replace("\n", "")`: the other characters, in order. */
  function RemoveLF(s: string): (r: string)
    ensures '\n' !in r
    ensures |r| <= |s|
    ensures '\n' !in s ==> r == s
  {
    if s == [] then []
    else if s[|s| - 1] == '\n' then RemoveLF(s[..|s| - 1])
    else RemoveLF(s[..|s| - 1]) + [s[|s| - 1]]
  }
}
