/**
 * The text of the `Error` thrown for a rejected ID:
 * `'<id>' is not a valid GTM-ID (/^(GTM|G)-[0-9A-Z]+$/). Did you mean 'GTM-<s>' or 'G-<s>'?`
 * where `<s>` is the suggestion.
 */
module Message {
  import opened Wrappers
  import opened Ascii
  import opened GtmId
  import opened Suggest

  /** The explanation after the quoted ID; it quotes the validity pattern. */
  const Explanation: string := " is not a valid GTM-ID (/^(GTM|G)-[0-9A-Z]+$/). Did you mean "

  /** The fixed text between the ID and the first suggestion. */
  const AfterId: string := "'" + Explanation + "'GTM-"

  /** The fixed text between the two suggestions. */
  const BetweenCandidates: string := "' or 'G-"

  const Closing: string := "'?"

  function ErrorMessage(id: string): string {
    var s := Suggestion(id);
    "'" + id + AfterId + s + BetweenCandidates + s + Closing
  }

  /** What can be read back from an error message: the rejected ID and the suggestion offered for it. */
  datatype Reading = Reading(id: string, suggestion: string)

  function StripSuffix(m: string, suffix: string): (r: Option<string>)
    ensures r.Some? <==> |suffix| <= |m| && m[|m| - |suffix|..] == suffix
    ensures r.Some? ==> r.value + suffix == m
  {
    if |suffix| <= |m| && m[|m| - |suffix|..] == suffix then
      assert m[..|m| - |suffix|] + m[|m| - |suffix|..] == m;
      Some(m[..|m| - |suffix|])
    else
      None
  }

  /** The length of the longest suffix of `s` over `[0-9A-Z]`. */
  function TrailingIdRun(s: string): (n: nat)
    ensures n <= |s|
    ensures forall i :: |s| - n <= i < |s| ==> IsIdChar(s[i])
    ensures n < |s| ==> !IsIdChar(s[|s| - n - 1])
  {
    if s == [] || !IsIdChar(s[|s| - 1]) then 0 else 1 + TrailingIdRun(s[..|s| - 1])
  }

  /**
   * Reads an error message back: the suggestion is the run of `[0-9A-Z]` before the closing `'?`,
   * it must occur twice with the fixed texts around it, and what is left between the first quote
   * and the fixed text is the ID.
   */
  function ParseErrorMessage(m: string): (r: Option<Reading>)
    ensures r.Some? ==> AllIdChars(r.value.suggestion)
    ensures r.Some? ==>
      m == "'" + r.value.id + AfterId + r.value.suggestion + BetweenCandidates + r.value.suggestion + Closing
  {
    var a :- StripSuffix(m, Closing);
    var n := TrailingIdRun(a);
    var s := a[|a| - n..];
    assert a[..|a| - n] + s == a;
    var b :- StripSuffix(a[..|a| - n], BetweenCandidates);
    var c :- StripSuffix(b, s);
    var d :- StripSuffix(c, AfterId);
    if |d| > 0 && d[0] == '\'' then
      assert d == "'" + d[1..];
      Some(Reading(d[1..], s))
    else
      None
  }

  lemma StripSuffixOfAppend(a: string, b: string)
    ensures StripSuffix(a + b, b) == Some(a)
  {
    assert (a + b)[|a + b| - |b|..] == b;
    assert (a + b)[..|a|] == a;
  }

  /** Behind a character outside `[0-9A-Z]` the trailing run is exactly the appended string. */
  lemma TrailingIdRunOfAppend(p: string, x: string)
    requires p != [] && !IsIdChar(p[|p| - 1])
    requires AllIdChars(x)
    ensures TrailingIdRun(p + x) == |x|
  {
    var s := p + x;
    var n := TrailingIdRun(s);
    assert s[|s| - |x| - 1] == p[|p| - 1];
    assert forall i :: 0 <= i < |x| ==> s[|p| + i] == x[i];
  }

  /** The message determines the rejected ID and the suggestion: reading it back recovers both. */
  lemma ErrorMessageRoundTrip(id: string)
    ensures ParseErrorMessage(ErrorMessage(id)) == Some(Reading(id, Suggestion(id)))
  {
    var s := Suggestion(id);
    var q := "'" + id;
    var c := q + AfterId;
    var b := c + s;
    var p := b + BetweenCandidates;
    var a := p + s;
    var m := a + Closing;
    assert m == ErrorMessage(id);
    StripSuffixOfAppend(a, Closing);
    assert p[|p| - 1] == '-';
    TrailingIdRunOfAppend(p, s);
    assert a[|a| - |s|..] == s && a[..|a| - |s|] == p;
    StripSuffixOfAppend(b, BetweenCandidates);
    StripSuffixOfAppend(c, s);
    StripSuffixOfAppend(q, AfterId);
    assert q[0] == '\'' && q[1..] == id;
  }

  /** Different rejected IDs never produce the same message. */
  lemma ErrorMessageInjective(id1: string, id2: string)
    requires ErrorMessage(id1) == ErrorMessage(id2)
    ensures id1 == id2
  {
    ErrorMessageRoundTrip(id1);
    ErrorMessageRoundTrip(id2);
  }

  /** The message opens with the rejected ID in single quotes and quotes the validity pattern. */
  lemma ErrorMessageQuotesId(id: string)
    ensures var m := ErrorMessage(id);
      |m| > |id| + 1 && m[0] == '\'' && m[1..|id| + 1] == id && m[|id| + 1] == '\''
  {
    var m := ErrorMessage(id);
    var head := "'" + id + AfterId;
    assert AfterId[0] == '\'';
    assert head[|id| + 1] == '\'' && head[1..|id| + 1] == id;
    assert m[..|head|] == head;
  }

  /** The message in the shape of the template literal of the tests: quote, ID, quote, explanation, two candidates. */
  lemma ErrorMessageTemplate(id: string, s: string)
    requires Suggestion(id) == s
    ensures ErrorMessage(id) == "'" + id + "'" + Explanation + "'GTM-" + s + "' or 'G-" + s + "'?"
  {
  }

  // The messages the tests expect, written as their template literal fills in.

  lemma MessageForLowerCaseId()
    ensures ErrorMessage("gtm-a") == "'" + "gtm-a" + "'" + Explanation + "'GTM-" + "A" + "' or 'G-" + "A" + "'?"
  {
    SuggestionOfLowerCaseId();
    ErrorMessageTemplate("gtm-a", "A");
  }

  /** For `Error` the suggestion is `ERROR`, not empty. */
  lemma MessageForErrorWord()
    ensures ErrorMessage("Error") == "'" + "Error" + "'" + Explanation + "'GTM-" + "ERROR" + "' or 'G-" + "ERROR" + "'?"
  {
    SuggestionOfErrorWord();
    ErrorMessageTemplate("Error", "ERROR");
  }
}
