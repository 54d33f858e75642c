/** Character classes of GLib's g_ascii_* functions and of the C locale, for 7-bit text. */
module Ascii {

  const VTAB: char := '\U{0B}'
  const FORMFEED: char := '\U{0C}'

  /** g_ascii_isspace: the vertical tab is not a space for GLib. */
  predicate IsSpace(c: char) {
    c == ' ' || c == '\t' || c == '\n' || c == '\r' || c == FORMFEED
  }

  /** isspace() in the C locale, which flex's [[:space:]] and strtoull use. */
  predicate IsCSpace(c: char) {
    IsSpace(c) || c == VTAB
  }

  predicate IsDigit(c: char) {
    '0' <= c <= '9'
  }

  predicate IsAlpha(c: char) {
    'a' <= c <= 'z' || 'A' <= c <= 'Z'
  }

  predicate IsAlnum(c: char) {
    IsAlpha(c) || IsDigit(c)
  }

  /** g_ascii_tolower */
  function Lower(c: char): char {
    if 'A' <= c <= 'Z' then (c as int + 32) as char else c
  }

  /** The length of the longest prefix of s whose characters all satisfy p. */
  function Run(s: string, p: char -> bool): (n: nat)
    ensures n <= |s|
    ensures forall i :: 0 <= i < n ==> p(s[i])
    ensures n < |s| ==> !p(s[n])
  {
    if s == "" || !p(s[0]) then 0 else 1 + Run(s[1..], p)
  }

  /** Run is the only number with these three properties. */
  lemma {:induction false} RunIs(s: string, p: char -> bool, n: nat)
    requires n <= |s|
    requires forall i :: 0 <= i < n ==> p(s[i])
    requires n < |s| ==> !p(s[n])
    ensures Run(s, p) == n
  {
  }
}
