/** Character classes and small string operations shared by the recognisers. */
module Text {

  /** `\d` restricted to ASCII digits. */
  predicate IsDigit(c: char) { '0' <= c <= '9' }

  /** Python's `.` outside DOTALL mode: any character but a newline. */
  predicate IsAny(c: char) { c != '\n' }

  predicate IsLowerAlnum(c: char) { 'a' <= c <= 'z' || '0' <= c <= '9' }

  /** `s` has `t` at position `i`. */
  predicate At(s: string, i: nat, t: string)
  {
    i + |t| <= |s| && s[i..i + |t|] == t
  }

  predicate StartsWith(s: string, t: string) { At(s, 0, t) }

  lemma StartsWithAppend(p: string, q: string)
    ensures StartsWith(p + q, p)
  {
    assert (p + q)[..|p|] == p;
  }

  /** `t` occurs somewhere in `s`. */
  predicate Occurs(s: string, t: string)
  {
    exists i: nat | i <= |s| :: At(s, i, t)
  }

  /** Length of the longest run of digits beginning at `i`. */
  function DigitRun(s: string, i: nat): (n: nat)
    requires i <= |s|
    ensures i + n <= |s|
    ensures forall k :: i <= k < i + n ==> IsDigit(s[k])
    ensures i + n == |s| || !IsDigit(s[i + n])
    decreases |s| - i
  {
    if i < |s| && IsDigit(s[i]) then 1 + DigitRun(s, i + 1) else 0
  }

  /** ASCII `str.lower()`. */
  function LowerChar(c: char): char
  {
    if 'A' <= c <= 'Z' then (c as int + 32) as char else c
  }

  function Lower(s: string): (r: string)
    ensures |r| == |s|
    ensures forall k :: 0 <= k < |s| ==> r[k] == LowerChar(s[k])
  {
    if s == [] then [] else [LowerChar(s[0])] + Lower(s[1..])
  }

  /** `s.replace(pat, "")`: occurrences are removed left to right, without rescanning the output. */
  function RemoveAll(s: string, pat: string): (r: string)
    requires pat != []
    ensures |r| <= |s|
    decreases |s|
  {
    if |s| < |pat| then s
    else if s[..|pat|] == pat then RemoveAll(s[|pat|..], pat)
    else [s[0]] + RemoveAll(s[1..], pat)
  }

  /** Removing a pattern never introduces a character that was not in the input. */
  lemma {:induction false} RemoveAllKeepsChars(s: string, pat: string, c: char)
    requires pat != []
    requires c !in s
    ensures c !in RemoveAll(s, pat)
    decreases |s|
  {
    if |s| < |pat| {
    } else if s[..|pat|] == pat {
      RemoveAllKeepsChars(s[|pat|..], pat, c);
    } else {
      RemoveAllKeepsChars(s[1..], pat, c);
    }
  }

  /** A string in which the pattern does not occur is returned unchanged. */
  lemma {:induction false} RemoveAllAbsent(s: string, pat: string)
    requires pat != []
    requires forall i: nat | i <= |s| :: !At(s, i, pat)
    ensures RemoveAll(s, pat) == s
    decreases |s|
  {
    if |s| < |pat| {
    } else {
      assert !At(s, 0, pat);
      forall i: nat | i <= |s[1..]| ensures !At(s[1..], i, pat) {
        assert !At(s, i + 1, pat);
      }
      RemoveAllAbsent(s[1..], pat);
    }
  }
}
