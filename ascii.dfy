/** Character classes and ASCII upper-casing used by the GTM-ID validator. */
module Ascii {

  /** A character of the class `[0-9A-Z]`. */
  predicate IsIdChar(c: char) {
    ('0' <= c <= '9') || ('A' <= c <= 'Z')
  }

  /** Every character of `s` is in `[0-9A-Z]`. */
  predicate AllIdChars(s: string) {
    forall i :: 0 <= i < |s| ==> IsIdChar(s[i])
  }

  /** The characters that `.` in a JavaScript regular expression (without the `s` flag) does not match. */
  predicate IsLineTerminator(c: char) {
    c == '\n' || c == '\r' || c == '\U{2028}' || c == '\U{2029}'
  }

  predicate NoLineTerminators(s: string) {
    forall i :: 0 <= i < |s| ==> !IsLineTerminator(s[i])
  }

  predicate IsLower(c: char) {
    'a' <= c <= 'z'
  }

  /** `String.prototype.toUpperCase` restricted to ASCII: `a`-`z` become `A`-`Z`, all else is kept. */
  function UpperChar(c: char): (d: char)
    ensures IsIdChar(d) <==> IsIdChar(c) || IsLower(c)
    ensures !IsLower(d)
    ensures IsLineTerminator(d) <==> IsLineTerminator(c)
    ensures d == '-' <==> c == '-'
  {
    if IsLower(c) then (c as int - 'a' as int + 'A' as int) as char else c
  }

  /** Upper-cases a string character by character. */
  function Upper(s: string): (r: string)
    ensures |r| == |s|
    ensures forall i :: 0 <= i < |s| ==> r[i] == UpperChar(s[i])
  {
    if s == [] then [] else [UpperChar(s[0])] + Upper(s[1..])
  }

  /** Upper-casing leaves a string that is already upper case unchanged, so it is idempotent. */
  lemma UpperIdentity(s: string)
    requires forall i :: 0 <= i < |s| ==> !IsLower(s[i])
    ensures Upper(s) == s
  {
    assert forall i :: 0 <= i < |s| ==> Upper(s)[i] == s[i];
  }

  lemma UpperIdempotent(s: string)
    ensures Upper(Upper(s)) == Upper(s)
  {
    UpperIdentity(Upper(s));
  }

  lemma UpperAppend(a: string, b: string)
    ensures Upper(a + b) == Upper(a) + Upper(b)
  {
    assert forall i :: 0 <= i < |a + b| ==> Upper(a + b)[i] == (Upper(a) + Upper(b))[i];
  }

  lemma UpperKeepsNoLineTerminators(s: string)
    requires NoLineTerminators(s)
    ensures NoLineTerminators(Upper(s))
  {
  }
}
