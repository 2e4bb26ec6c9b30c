/**
 * The corrective suggestion of the error message: the ID upper-cased, then every match of the
 * regular expression `/.*-|[^0-9A-Z]/g` replaced by the empty string.
 */
module Suggest {
  import opened Wrappers
  import opened Ascii
  import opened GtmId

  /** `.*-` matches the prefix `u[..j+1]`: it ends in `-` at `j` and holds no line terminator. */
  ghost predicate DashPrefixAt(u: string, j: int) {
    0 <= j < |u| && u[j] == '-' && forall i :: 0 <= i <= j ==> !IsLineTerminator(u[i])
  }

  /**
   * The length of the match of `.*-` at the start of `u`. The star is greedy, so the match runs to the
   * last `-` that comes before the first line terminator; there is no match when no such `-` exists.
   */
  function DashPrefixMatch(u: string): (m: Option<nat>)
    ensures m.Some? ==> 0 < m.value <= |u| && DashPrefixAt(u, m.value - 1)
    ensures forall j :: DashPrefixAt(u, j) ==> m.Some? && j < m.value
    decreases |u|
  {
    if u == [] || IsLineTerminator(u[0]) then
      None
    else
      var rest := DashPrefixMatch(u[1..]);
      assert forall j :: 1 <= j < |u| ==> (DashPrefixAt(u, j) <==> DashPrefixAt(u[1..], j - 1));
      match rest
      case Some(k) => Some(k + 1)
      case None => if u[0] == '-' then Some(1) else None
  }

  /**
   * Deleting every match of `/.*-|[^0-9A-Z]/g` from `u`: at each position the first alternative is
   * tried, then the second; a character that neither matches is kept and the scan moves on.
   */
  function RegexReplace(u: string): (r: string)
    ensures AllIdChars(r)
    ensures |r| <= |u|
    decreases |u|
  {
    if u == [] then []
    else
      match DashPrefixMatch(u)
      case Some(k) => RegexReplace(u[k..])
      case None => (if IsIdChar(u[0]) then [u[0]] else []) + RegexReplace(u[1..])
  }

  /** The suggested suffix offered for a rejected `id`. */
  function Suggestion(id: string): (r: string)
    ensures AllIdChars(r)
    ensures '-' !in r
  {
    RegexReplace(Upper(id))
  }

  // A reference definition: the three rewriting steps, one after the other.

  /** The longest suffix of `u` without `-`: everything up to and including the last `-` is deleted. */
  function AfterLastDash(u: string): (r: string)
    ensures '-' !in r
    ensures |r| <= |u| && forall i :: 0 <= i < |r| ==> r[i] == u[|u| - |r| + i]
    ensures |r| < |u| ==> u[|u| - |r| - 1] == '-'
  {
    if u == [] then []
    else if u[|u| - 1] == '-' then []
    else AfterLastDash(u[..|u| - 1]) + [u[|u| - 1]]
  }

  /** Deletes every character outside `[0-9A-Z]`, keeping the order of the others. */
  function KeepIdChars(u: string): (r: string)
    ensures AllIdChars(r)
    ensures |r| <= |u|
  {
    if u == [] then []
    else (if IsIdChar(u[0]) then [u[0]] else []) + KeepIdChars(u[1..])
  }

  /** Upper-case, delete through the last `-`, delete what is outside `[0-9A-Z]`. */
  function RewriteSteps(id: string): string {
    KeepIdChars(AfterLastDash(Upper(id)))
  }

  lemma {:induction false} KeepIdCharsIdentity(u: string)
    requires AllIdChars(u)
    ensures KeepIdChars(u) == u
  {
    if u != [] {
      KeepIdCharsIdentity(u[1..]);
    }
  }

  /** When `u[d]` is the last `-` of `u`, the suffix after it is what remains. */
  lemma AfterLastDashAt(u: string, d: nat)
    requires d < |u| && u[d] == '-'
    requires forall i :: d < i < |u| ==> u[i] != '-'
    ensures AfterLastDash(u) == u[d + 1..]
  {
    var r := AfterLastDash(u);
    assert |r| == |u| - d - 1;
  }

  /** `AfterLastDash` picks out the suffix following a dash when that suffix has no dash itself. */
  lemma AfterLastDashOfSuffix(p: string, x: string)
    requires '-' !in x
    ensures AfterLastDash(p + "-" + x) == x
  {
    var u := p + "-" + x;
    assert forall i :: |p| < i < |u| ==> u[i] == x[i - |p| - 1];
    AfterLastDashAt(u, |p|);
    assert u[|p| + 1..] == x;
  }

  /** A string without `-` is its own dash-free suffix. */
  lemma AfterLastDashWithoutDash(u: string)
    requires '-' !in u
    ensures AfterLastDash(u) == u
  {
  }

  /** With no line terminator in `u`, `.*-` matches exactly through the last `-` of `u`. */
  lemma DashPrefixMatchIsLastDash(u: string)
    requires NoLineTerminators(u)
    ensures DashPrefixMatch(u) == if '-' in u then Some(|u| - |AfterLastDash(u)|) else None
  {
    var m := DashPrefixMatch(u);
    if '-' in u {
      var j :| 0 <= j < |u| && u[j] == '-';
      assert DashPrefixAt(u, j);
      var k := m.value;
      var r := AfterLastDash(u);
      var n := |u| - |r|;
      assert forall i :: n <= i < |u| ==> r[i - n] == u[i];
      assert n > 0;
      assert DashPrefixAt(u, n - 1);
      assert u[k - 1] == '-';
      assert k == n;
    }
  }

  /** On a string with neither `-` nor line terminators only the second alternative can match. */
  lemma {:induction false} RegexReplaceWithoutDash(u: string)
    requires '-' !in u && NoLineTerminators(u)
    ensures RegexReplace(u) == KeepIdChars(u)
  {
    DashPrefixMatchIsLastDash(u);
    if u != [] {
      RegexReplaceWithoutDash(u[1..]);
    }
  }

  /** Away from line terminators the regular expression performs the two deletions in turn. */
  lemma RegexReplaceIsTwoDeletions(u: string)
    requires NoLineTerminators(u)
    ensures RegexReplace(u) == KeepIdChars(AfterLastDash(u))
  {
    var r := AfterLastDash(u);
    DashPrefixMatchIsLastDash(u);
    if '-' in u {
      var k := |u| - |r|;
      assert DashPrefixMatch(u) == Some(k);
      assert u[k..] == r;
      assert RegexReplace(u) == RegexReplace(r);
      assert NoLineTerminators(r) by {
        assert forall i :: 0 <= i < |r| ==> r[i] == u[k + i];
      }
      RegexReplaceWithoutDash(r);
    } else {
      AfterLastDashWithoutDash(u);
      RegexReplaceWithoutDash(u);
    }
  }

  /** The suggestion is the three-step rewrite for every ID without line terminators. */
  lemma SuggestionIsRewriteSteps(id: string)
    requires NoLineTerminators(id)
    ensures Suggestion(id) == RewriteSteps(id)
  {
    UpperKeepsNoLineTerminators(id);
    RegexReplaceIsTwoDeletions(Upper(id));
  }

  /** A string over `[0-9A-Z]` passes through the replacement unchanged. */
  lemma RegexReplaceIdentity(u: string)
    requires AllIdChars(u)
    ensures RegexReplace(u) == u
  {
    assert NoLineTerminators(u) by {
      assert forall i :: 0 <= i < |u| ==> IsIdChar(u[i]);
    }
    RegexReplaceWithoutDash(u);
    KeepIdCharsIdentity(u);
  }

  /** Suggesting again from a suggestion changes nothing. */
  lemma SuggestionIdempotent(id: string)
    ensures Suggestion(Suggestion(id)) == Suggestion(id)
  {
    var t := Suggestion(id);
    UpperIdentity(t);
    RegexReplaceIdentity(t);
  }

  /** A valid ID is one of its own two suggestions: its suggested suffix is exactly its suffix. */
  lemma ValidIdSuggestsItself(id: string)
    requires IsValidId(id)
    ensures Suggestion(id) == ValidSuffix(id)
    ensures id == "GTM-" + Suggestion(id) || id == "G-" + Suggestion(id)
  {
    var x := ValidSuffix(id);
    ValidIdCharacters(id);
    UpperIdentity(id);
    SuggestionIsRewriteSteps(id);
    var p := id[..|id| - |x| - 1];
    assert id == p + "-" + x;
    AfterLastDashOfSuffix(p, x);
    KeepIdCharsIdentity(x);
  }

  /** Both candidates offered by the message are valid IDs exactly when the suggestion is non-empty. */
  lemma CandidatesValid(id: string)
    ensures IsValidId("GTM-" + Suggestion(id)) <==> Suggestion(id) != []
    ensures IsValidId("G-" + Suggestion(id)) <==> Suggestion(id) != []
  {
    var x := Suggestion(id);
    var a := "GTM-" + x;
    var b := "G-" + x;
    assert a[..4] == "GTM-" && a[4..] == x && a[..2][1] == 'T';
    assert b[..2] == "G-" && b[2..] == x;
    if |b| > 4 {
      assert b[..4][1] == '-';
    }
  }

  // The inputs of tests/index.test.ts and the suggestions the rewrite gives for them.

  /** An ID with a `-` is suggested its upper-cased part after the last `-`, filtered to `[0-9A-Z]`. */
  lemma SuggestionAfterDash(p: string, x: string)
    requires NoLineTerminators(p + "-" + x) && '-' !in x
    ensures Suggestion(p + "-" + x) == KeepIdChars(Upper(x))
  {
    SuggestionIsRewriteSteps(p + "-" + x);
    UpperAppend(p, "-");
    UpperAppend(p + "-", x);
    assert Upper("-") == "-";
    assert '-' !in Upper(x);
    AfterLastDashOfSuffix(Upper(p), Upper(x));
  }

  /** An ID without `-` is suggested its upper-cased form, filtered to `[0-9A-Z]`. */
  lemma SuggestionWithoutDash(x: string)
    requires NoLineTerminators(x) && '-' !in x
    ensures Suggestion(x) == KeepIdChars(Upper(x))
  {
    SuggestionIsRewriteSteps(x);
    assert '-' !in Upper(x);
    AfterLastDashWithoutDash(Upper(x));
  }

  lemma SuggestionOfUpperCaseTypo()
    ensures Suggestion("GTM-x") == "X"
  {
    assert "GTM-x" == "GTM" + "-" + "x";
    SuggestionAfterDash("GTM", "x");
    assert Upper("x") == "X";
  }

  lemma SuggestionOfBareLetter()
    ensures Suggestion("a") == "A"
  {
    SuggestionWithoutDash("a");
    assert Upper("a") == "A";
  }

  lemma SuggestionOfLowerCaseId()
    ensures Suggestion("gtm-a") == "A"
  {
    assert "gtm-a" == "gtm" + "-" + "a";
    SuggestionAfterDash("gtm", "a");
    assert Upper("a") == "A";
  }

  /** Without a `-` nothing is deleted by the first step, so `Error` and `Error: ` both suggest `ERROR`. */
  lemma SuggestionOfErrorWord()
    ensures Suggestion("Error") == "ERROR"
  {
    SuggestionWithoutDash("Error");
    assert Upper("Error") == "ERROR";
    KeepIdCharsIdentity("ERROR");
  }

  /** Trailing characters outside `[0-9A-Z]` and `a`-`z` are dropped from a dash-free ID. */
  lemma SuggestionDropsTrailingJunk(a: string, b: string)
    requires NoLineTerminators(a + b) && '-' !in a + b
    requires AllIdChars(Upper(a))
    requires forall i :: 0 <= i < |b| ==> !IsIdChar(b[i]) && !IsLower(b[i])
    ensures Suggestion(a + b) == Upper(a)
  {
    SuggestionWithoutDash(a + b);
    UpperAppend(a, b);
    UpperIdentity(b);
    KeepIdCharsAppend(Upper(a), b);
    KeepIdCharsIdentity(Upper(a));
    KeepIdCharsNone(b);
  }

  lemma {:induction false} KeepIdCharsNone(b: string)
    requires forall i :: 0 <= i < |b| ==> !IsIdChar(b[i])
    ensures KeepIdChars(b) == []
  {
    if b != [] {
      KeepIdCharsNone(b[1..]);
    }
  }

  lemma SuggestionOfErrorPrefix()
    ensures Suggestion("Error: ") == "ERROR"
  {
    assert "Error: " == "Error" + ": ";
    assert Upper("Error") == "ERROR";
    SuggestionDropsTrailingJunk("Error", ": ");
  }

  lemma {:induction false} KeepIdCharsAppend(a: string, b: string)
    ensures KeepIdChars(a + b) == KeepIdChars(a) + KeepIdChars(b)
  {
    if a != [] {
      assert (a + b)[0] == a[0] && (a + b)[1..] == a[1..] + b;
      KeepIdCharsAppend(a[1..], b);
    } else {
      assert a + b == b;
    }
  }
}
