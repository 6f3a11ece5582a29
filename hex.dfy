/** Hexadecimal numerals, the part of Python's `int(s, 16)` the address arguments use. */
module Hex {
  import opened Wrappers

  predicate IsHexDigit(c: char)
  {
    '0' <= c <= '9' || 'a' <= c <= 'f' || 'A' <= c <= 'F'
  }

  function DigitValue(c: char): (v: nat)
    requires IsHexDigit(c)
    ensures v < 16
  {
    if '0' <= c <= '9' then c as int - '0' as int
    else if 'a' <= c <= 'f' then c as int - 'a' as int + 10
    else c as int - 'A' as int + 10
  }

  /** The lower-case digit for a value below 16. */
  function DigitChar(v: nat): (c: char)
    requires v < 16
    ensures IsHexDigit(c) && DigitValue(c) == v
  {
    if v < 10 then (v + '0' as int) as char else (v - 10 + 'a' as int) as char
  }

  /** Value of a string of hex digits, most significant first. */
  function Value(s: string): nat
    requires forall k :: 0 <= k < |s| ==> IsHexDigit(s[k])
  {
    if s == [] then 0 else Value(s[..|s| - 1]) * 16 + DigitValue(s[|s| - 1])
  }

  /** `int(s, 16)`: a non-empty run of hex digits, anything else is a `ValueError` (None). */
  function Parse(s: string): (r: Option<nat>)
    ensures r.Some? <==> s != [] && forall k :: 0 <= k < |s| ==> IsHexDigit(s[k])
  {
    if s != [] && forall k :: 0 <= k < |s| ==> IsHexDigit(s[k]) then Some(Value(s)) else None
  }

  /** Lower-case hexadecimal rendering without prefix, as `format(n, 'x')`. */
  function Format(n: nat): (s: string)
    ensures s != []
    ensures forall k :: 0 <= k < |s| ==> IsHexDigit(s[k])
  {
    if n < 16 then [DigitChar(n)] else Format(n / 16) + [DigitChar(n % 16)]
  }

  /** Parsing what was formatted gives the number back. */
  lemma {:induction false} ParseFormat(n: nat)
    ensures Parse(Format(n)) == Some(n)
  {
    ValueFormat(n);
  }

  lemma {:induction false} ValueFormat(n: nat)
    ensures Value(Format(n)) == n
  {
    var s := Format(n);
    if n >= 16 {
      assert s[..|s| - 1] == Format(n / 16);
      ValueFormat(n / 16);
    }
  }
}
