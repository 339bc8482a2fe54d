/** Characters and strings with the meaning java.lang.String and java.util.regex give them. */
module Text {

  /** `\s` of java.util.regex (no UNICODE_CHARACTER_CLASS): space, tab, line feed,
      vertical tab, form feed and carriage return. */
  predicate IsSpace(c: char) {
    c == ' ' || c == '\t' || c == '\n' || c == '\U{B}' || c == '\U{C}' || c == '\r'
  }

  /** The line terminators of java.util.regex (no UNIX_LINES): `.` does not match them,
      and a `$` without MULTILINE also matches just before one that ends the input. */
  predicate IsLineTerminator(c: char) {
    c == '\n' || c == '\r' || c == '\U{85}' || c == '\U{2028}' || c == '\U{2029}'
  }

  /** Every character of t[a..b] is a `\s`. */
  predicate SpaceIn(t: string, a: nat, b: nat)
    requires a <= b <= |t|
  {
    forall k :: a <= k < b ==> IsSpace(t[k])
  }

  /** No character of t[a..b] is a line terminator. */
  predicate NoLineTerminatorIn(t: string, a: nat, b: nat)
    requires a <= b <= |t|
  {
    forall k :: a <= k < b ==> !IsLineTerminator(t[k])
  }

  /** End of the run of `\s` that starts at a: what a greedy `\s*` consumes from there. */
  function SpanSpaces(t: string, a: nat): (b: nat)
    requires a <= |t|
    ensures a <= b <= |t| && SpaceIn(t, a, b)
    ensures b < |t| ==> !IsSpace(t[b])
    decreases |t| - a
  {
    if a < |t| && IsSpace(t[a]) then SpanSpaces(t, a + 1) else a
  }

  /** Start of the run of `\s` that ends at b, not going below a. */
  function BackOverSpaces(t: string, a: nat, b: nat): (e: nat)
    requires a <= b <= |t|
    ensures a <= e <= b && SpaceIn(t, e, b)
    ensures a < e ==> !IsSpace(t[e - 1])
    decreases b - a
  {
    if a < b && IsSpace(t[b - 1]) then BackOverSpaces(t, a, b - 1) else b
  }

  /** String.toLowerCase on the ASCII letters. */
  function LowerChar(c: char): char {
    if 'A' <= c <= 'Z' then (c as int - 'A' as int + 'a' as int) as char else c
  }

  function ToLower(s: string): string {
    seq(|s|, i requires 0 <= i < |s| => LowerChar(s[i]))
  }

  predicate StartsWith(s: string, prefix: string) {
    |prefix| <= |s| && s[..|prefix|] == prefix
  }

  /** Integer.toString for a non-negative int: decimal digits, no sign, no leading zero. */
  function NatToString(n: nat): string
    decreases n
  {
    var digit := ['0' + (n % 10) as char];
    if n < 10 then digit else NatToString(n / 10) + digit
  }
}
