/** The validity rule for container IDs: the pattern `^(GTM|G)-[0-9A-Z]+$`, written over characters. */
module GtmId {
  import opened Ascii

  /** `s` matches `^(GTM|G)-[0-9A-Z]+$`: the prefix `GTM-` or `G-` followed by one or more of `[0-9A-Z]`. */
  predicate IsValidId(s: string) {
    (|s| > 4 && s[..4] == "GTM-" && AllIdChars(s[4..]))
    || (|s| > 2 && s[..2] == "G-" && AllIdChars(s[2..]))
  }

  /** The pattern read as a language: one of the two prefixes, a dash, and a non-empty suffix over `[0-9A-Z]`. */
  ghost predicate InPatternLanguage(s: string) {
    (exists x :: AllIdChars(x) && x != [] && s == "GTM-" + x)
    || (exists x :: AllIdChars(x) && x != [] && s == "G-" + x)
  }

  /** The character-level check accepts exactly the strings of the pattern's language. */
  lemma IsValidIdMatchesPattern(s: string)
    ensures IsValidId(s) <==> InPatternLanguage(s)
  {
    if |s| > 4 && s[..4] == "GTM-" && AllIdChars(s[4..]) {
      assert s == "GTM-" + s[4..];
    }
    if |s| > 2 && s[..2] == "G-" && AllIdChars(s[2..]) {
      assert s == "G-" + s[2..];
    }
    if exists x :: AllIdChars(x) && x != [] && s == "GTM-" + x {
      var x :| AllIdChars(x) && x != [] && s == "GTM-" + x;
      assert s[..4] == "GTM-" && s[4..] == x;
    }
    if exists x :: AllIdChars(x) && x != [] && s == "G-" + x {
      var x :| AllIdChars(x) && x != [] && s == "G-" + x;
      assert s[..2] == "G-" && s[2..] == x;
    }
  }

  /** The part after the prefix of a valid ID. */
  function ValidSuffix(s: string): (x: string)
    requires IsValidId(s)
    ensures AllIdChars(x) && x != []
    ensures s == "GTM-" + x || s == "G-" + x
  {
    if |s| > 4 && s[..4] == "GTM-" then
      assert s[..2][1] == 'T';
      s[4..]
    else
      s[2..]
  }

  /** A valid ID contains only `[0-9A-Z]` and `-`, with exactly one `-`, at index 3 or 1. */
  lemma ValidIdCharacters(s: string)
    requires IsValidId(s)
    ensures NoLineTerminators(s)
    ensures forall i :: 0 <= i < |s| ==> !IsLower(s[i])
    ensures var x := ValidSuffix(s); '-' !in x && s[|s| - |x| - 1] == '-'
  {
    var x := ValidSuffix(s);
    assert forall i :: 0 <= i < |x| ==> IsIdChar(x[i]);
    if s == "GTM-" + x {
      assert forall i :: 4 <= i < |s| ==> s[i] == x[i - 4];
    } else {
      assert forall i :: 2 <= i < |s| ==> s[i] == x[i - 2];
    }
  }

  /** The examples of tests/index.test.ts: `GTM-X` is accepted and five malformed IDs are rejected. */
  lemma TestIdsClassified()
    ensures IsValidId("GTM-X")
    ensures !IsValidId("GTM-x")
    ensures !IsValidId("a")
    ensures !IsValidId("gtm-a")
    ensures !IsValidId("Error: ")
    ensures !IsValidId("Error")
  {
    assert "GTM-X"[..4] == "GTM-";
    assert !IsIdChar("GTM-x"[4..][0]);
    assert "GTM-x"[..2][1] != '-';
    assert "gtm-a"[..4][0] != 'G' && "gtm-a"[..2][0] != 'G';
    assert "Error: "[..4][0] != 'G' && "Error: "[..2][0] != 'G';
    assert "Error"[..4][0] != 'G' && "Error"[..2][0] != 'G';
  }

  /** Case matters: an ID whose first character is not an upper-case `G` (a lower-case `g`, say) is invalid. */
  lemma PrefixIsCaseSensitive(s: string)
    requires s == [] || s[0] != 'G'
    ensures !IsValidId(s)
  {
    if |s| > 4 { assert s[..4][0] == s[0]; }
    if |s| > 2 { assert s[..2][0] == s[0]; }
  }
}
