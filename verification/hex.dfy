/** Lower-case base-16 rendering of unsigned counters, as `strconv.FormatUint(n, 16)`
    produces it, together with its inverse. Identifiers of the call graph are a
    one-letter prefix followed by this rendering of a counter. */
module Hex {

  /** Exclusive upper bound of Go's `uint64`. */
  const Uint64Limit: nat := 0x1_0000_0000_0000_0000

  predicate IsHexDigit(c: char) {
    '0' <= c <= '9' || 'a' <= c <= 'f'
  }

  function DigitChar(d: nat): (c: char)
    requires d < 16
    ensures IsHexDigit(c)
    ensures DigitValue(c) == d
  {
    if d < 10 then ('0' as int + d) as char else ('a' as int + d - 10) as char
  }

  /** Value of a hex digit; characters that are not hex digits read as 0. */
  function DigitValue(c: char): (d: nat)
    ensures d < 16
    ensures IsHexDigit(c) ==> (d == 0 <==> c == '0')
  {
    if '0' <= c <= '9' then c as int - '0' as int
    else if 'a' <= c <= 'f' then c as int - 'a' as int + 10
    else 0
  }

  /** A rendering FormatUint can produce: hex digits only, no leading zero. */
  predicate IsCanonical(s: string) {
    && |s| >= 1
    && (forall i | 0 <= i < |s| :: IsHexDigit(s[i]))
    && (|s| > 1 ==> s[0] != '0')
  }

  /** `strconv.FormatUint(n, 16)`: most significant digit first, "0" for zero. */
  function FormatUint(n: nat): (s: string)
    ensures IsCanonical(s)
    ensures s[0] == '0' <==> n == 0
    decreases n
  {
    if n < 16 then [DigitChar(n)] else FormatUint(n / 16) + [DigitChar(n % 16)]
  }

  /** Reads a string of hex digits back as a number (the reference inverse). */
  function ParseHex(s: string): nat
    decreases |s|
  {
    if |s| == 0 then 0 else ParseHex(s[..|s| - 1]) * 16 + DigitValue(s[|s| - 1])
  }

  /** Reading a rendering gives back the counter. */
  lemma {:induction false} ParseFormat(n: nat)
    ensures ParseHex(FormatUint(n)) == n
  {
    var s := FormatUint(n);
    if n >= 16 {
      assert s[..|s| - 1] == FormatUint(n / 16);
      ParseFormat(n / 16);
    }
  }

  /** Rendering what was read gives back every canonical string. */
  lemma {:induction false} FormatParse(s: string)
    requires IsCanonical(s)
    ensures FormatUint(ParseHex(s)) == s
  {
    if |s| > 1 {
      var p := s[..|s| - 1];
      assert IsCanonical(p);
      FormatParse(p);
      var n := ParseHex(s);
      assert ParseHex(p) != 0;
      assert n / 16 == ParseHex(p) && n % 16 == DigitValue(s[|s| - 1]);
      assert FormatUint(n) == p + [s[|s| - 1]];
    }
  }

  /** Distinct counters never share a rendering. */
  lemma FormatInjective(a: nat, b: nat)
    ensures FormatUint(a) == FormatUint(b) <==> a == b
  {
    if FormatUint(a) == FormatUint(b) {
      ParseFormat(a);
      ParseFormat(b);
    }
  }
}
