/**
 * The decision logic of `JiraConnector` (src/jiraConnector.ts): picking the
 * issue key out of the pull request's source branch, extracting a version
 * token from a string, and deciding whether a ticket's fix version matches
 * the pull request's target branch.
 */
module JiraConnector {
  import opened Wrappers
  import opened JsString
  import opened SemverRegex

  // ------------------------------------------------------------------------
  // getIssueCodeFromBranch
  // ------------------------------------------------------------------------

  /** Capture group 1 of the user's pattern: `undefined`, or the span `[start, end)` of the input. */
  datatype Capture = Undefined | Captured(start: nat, end: nat)

  /** What `branchName.match(new RegExp(JIRA_ISSUE_REGEX))` gave: `null`, or a match with its group 1. */
  datatype RegexResult = NoMatch | Match(group1: Capture)

  /** A capture the regular-expression engine reports always lies inside the string it searched. */
  predicate CaptureWithin(result: RegexResult, branchName: string) {
    result.Match? && result.group1.Captured? ==>
      result.group1.start <= result.group1.end <= |branchName|
  }

  /** The pattern captured a non-empty group 1 (a truthy `issueKey[1]`). */
  predicate CapturedKey(result: RegexResult) {
    result.Match? && result.group1.Captured? && result.group1.start < result.group1.end
  }

  /**
   * `getIssueCodeFromBranch`: with a non-empty pattern, the non-empty group 1
   * of its match; in every other case the branch name unchanged. The
   * user's pattern is run by the caller and arrives as `result`.
   */
  function GetIssueCodeFromBranch(branchName: string, issueRegex: string, result: RegexResult): (key: string)
    requires CaptureWithin(result, branchName)
    ensures issueRegex == "" ==> key == branchName
    ensures issueRegex != "" && CapturedKey(result) ==>
      key == branchName[result.group1.start..result.group1.end]
    ensures !(issueRegex != "" && CapturedKey(result)) ==> key == branchName
    ensures |key| <= |branchName|
    ensures key == "" ==> branchName == ""
  {
    if issueRegex != "" then
      match result
      case Match(Captured(start, end)) =>
        var group := branchName[start..end];
        if group != "" then group else branchName
      case _ => branchName
    else
      branchName
  }

  // ------------------------------------------------------------------------
  // extractSemver
  // ------------------------------------------------------------------------

  /**
   * `extractSemver`: `match[0]` of the fixed pattern, that is the leftmost
   * token together with the boundary character consumed on each side of it.
   */
  function ExtractSemver(input: string): (r: Option<string>)
    ensures r.Some? ==> 5 <= |r.value|
  {
    match Exec(input)
    case None => None
    case Some(m) =>
      GroupShape(input, m.groupStart, m.groupEnd);
      Some(input[m.index..m.end])
  }

  /**
   * `ExtractSemver` is null exactly when the pattern has no match, and
   * otherwise the text of the leftmost match, which is the token with at
   * most one character more on each side.
   */
  lemma ExtractSemverSpec(input: string)
    ensures ExtractSemver(input).None? <==> forall m :: !IsMatch(input, m)
    ensures ExtractSemver(input).Some? ==>
      exists m :: IsLeftmost(input, m) && ExtractSemver(input) == Some(input[m.index..m.end])
    ensures forall m | IsLeftmost(input, m) :: ExtractSemver(input) == Some(input[m.index..m.end])
    ensures forall m | IsLeftmost(input, m) ::
      m.groupEnd - m.groupStart <= |ExtractSemver(input).value| <= m.groupEnd - m.groupStart + 2
  {
    ExecSpec(input);
  }

  /**
   * The evidently intended extraction: `match[1]`, the token alone, without
   * the boundary characters.
   */
  function ExtractSemverGroup(input: string): (r: Option<string>)
    ensures r.Some? ==> IsToken(r.value)
  {
    match Exec(input)
    case None => None
    case Some(m) => Some(input[m.groupStart..m.groupEnd])
  }

  /** `ExtractSemverGroup` is null exactly when the pattern has no match, and otherwise the leftmost token. */
  lemma ExtractSemverGroupSpec(input: string)
    ensures ExtractSemverGroup(input).None? <==> forall m :: !IsMatch(input, m)
    ensures forall m | IsLeftmost(input, m) ::
      ExtractSemverGroup(input) == Some(input[m.groupStart..m.groupEnd])
  {
    ExecSpec(input);
  }

  // ------------------------------------------------------------------------
  // isMatchedVersion
  // ------------------------------------------------------------------------

  /** JavaScript truthiness of `string | null`: not null and not empty. */
  predicate Truthy(v: Option<string>) {
    v.Some? && v.value != ""
  }

  /**
   * The three rules of `isMatchedVersion`, given the version extracted from
   * each side: compare the extractions when both are truthy; else, when the
   * fix version has no `/` and the target branch splits on `/` into exactly
   * two parts, compare the fix version with the second part; else compare
   * the two strings whole.
   */
  predicate MatchByRules(fixSemver: Option<string>, targetSemver: Option<string>,
                         fixVersion: string, targetBranch: string)
  {
    if Truthy(fixSemver) && Truthy(targetSemver) then
      fixSemver.value == targetSemver.value
    else if '/' !in fixVersion && |Split(targetBranch, '/')| == 2 then
      fixVersion == Split(targetBranch, '/')[1]
    else
      fixVersion == targetBranch
  }

  /**
   * `isMatchedVersion` as written: the rules over `ExtractSemver` (`match[0]`).
   * Equal strings always match; two different strings match only through
   * equal extractions, or through a fix version without `/` against a
   * branch with exactly one `/`.
   */
  function IsMatchedVersion(fixVersion: string, targetBranch: string): (r: bool)
    ensures fixVersion == targetBranch ==> r
    ensures r && fixVersion != targetBranch ==>
      (ExtractSemver(fixVersion).Some? && ExtractSemver(fixVersion) == ExtractSemver(targetBranch)) ||
      ('/' !in fixVersion && Occurrences(targetBranch, '/') == 1)
  {
    MatchByRules(ExtractSemver(fixVersion), ExtractSemver(targetBranch), fixVersion, targetBranch)
  }

  /**
   * `isMatchedVersion` as evidently intended: the same rules over
   * `ExtractSemverGroup` (`match[1]`), with the same guarantees.
   */
  function IsMatchedVersionByGroup(fixVersion: string, targetBranch: string): (r: bool)
    ensures fixVersion == targetBranch ==> r
    ensures r && fixVersion != targetBranch ==>
      (ExtractSemverGroup(fixVersion).Some? && ExtractSemverGroup(fixVersion) == ExtractSemverGroup(targetBranch)) ||
      ('/' !in fixVersion && Occurrences(targetBranch, '/') == 1)
  {
    MatchByRules(ExtractSemverGroup(fixVersion), ExtractSemverGroup(targetBranch), fixVersion, targetBranch)
  }

  /** Rule 1: when both sides hold a match, the answer is string equality of the extractions and nothing else. */
  lemma SemverRule(fixVersion: string, targetBranch: string)
    requires ExtractSemver(fixVersion).Some? && ExtractSemver(targetBranch).Some?
    ensures IsMatchedVersion(fixVersion, targetBranch) <==>
      ExtractSemver(fixVersion).value == ExtractSemver(targetBranch).value
  {
  }

  /**
   * Rule 2: when a side has no match, a fix version without `/` and a target
   * branch with exactly one `/` match exactly when the fix version is the
   * text after that `/`.
   */
  lemma SplitRule(fixVersion: string, head: string, tail: string)
    requires ExtractSemver(fixVersion).None? || ExtractSemver(head + "/" + tail).None?
    requires '/' !in fixVersion && '/' !in head && '/' !in tail
    ensures IsMatchedVersion(fixVersion, head + "/" + tail) <==> fixVersion == tail
  {
    SplitAtOnlySeparator(head, '/', tail);
  }

  /**
   * Rule 3: when a side has no match and the fix version has a `/` or the
   * target branch has zero or several, only the identical string matches.
   */
  lemma EqualityRule(fixVersion: string, targetBranch: string)
    requires ExtractSemver(fixVersion).None? || ExtractSemver(targetBranch).None?
    requires '/' in fixVersion || Occurrences(targetBranch, '/') != 1
    ensures IsMatchedVersion(fixVersion, targetBranch) <==> fixVersion == targetBranch
  {
  }

  /** The last character of `p` as a string, or the empty string. */
  function LastChar(p: string): string {
    if p == [] then [] else [p[|p| - 1]]
  }

  /** A digit-free prefix that is empty or ends in a `[^0-9.]` character, such as `release/` or `Frontend `. */
  predicate PlainPrefix(p: string) {
    (forall i | 0 <= i < |p| :: !IsDigit(p[i])) && (p == [] || IsBoundary(p[|p| - 1]))
  }

  /** Both extractions of a token behind a plain prefix: `match[0]` keeps the prefix's last character. */
  lemma ExtractAfterPrefix(p: string, v: string)
    requires IsToken(v) && PlainPrefix(p)
    ensures ExtractSemver(p + v) == Some(LastChar(p) + v)
    ensures ExtractSemverGroup(p + v) == Some(v)
  {
    var s := p + v;
    ExecAfterPrefix(p, v);
    ExtractOfExec(s, SemverMatch(if p == [] then 0 else |p| - 1, |p|, |s|, |s|));
    assert s[|p|..|s|] == v;
    if p != [] {
      assert s[|p| - 1..|s|] == [p[|p| - 1]] + v;
    } else {
      assert s[0..|s|] == v == LastChar(p) + v;
    }
  }

  /** Both extractions read their text off the match `Exec` returns. */
  lemma ExtractOfExec(s: string, m: SemverMatch)
    requires Exec(s) == Some(m)
    ensures ExtractSemver(s) == Some(s[m.index..m.end])
    ensures ExtractSemverGroup(s) == Some(s[m.groupStart..m.groupEnd])
  {
  }

  /**
   * As written, tokens behind plain prefixes match exactly when the tokens
   * are equal AND the prefixes end in the same character.
   */
  lemma PrefixedTokensAsWritten(q: string, p: string, u: string, v: string)
    requires IsToken(u) && IsToken(v) && PlainPrefix(q) && PlainPrefix(p)
    ensures IsMatchedVersion(q + u, p + v) <==> LastChar(q) == LastChar(p) && u == v
  {
    ExtractAfterPrefix(q, u);
    ExtractAfterPrefix(p, v);
    SemverRule(q + u, p + v);
    var a, b := LastChar(q), LastChar(p);
    TokenShape(u);
    TokenShape(v);
    if a + u == b + v {
      // a token starts with a digit and a prefix's last character is not one
      assert |a| == |b|;
      assert a == (a + u)[..|a|] == (b + v)[..|b|] == b;
      assert u == (a + u)[|a|..] == (b + v)[|b|..] == v;
    }
  }

  /** With `match[1]`, tokens behind any plain prefixes match exactly when the tokens are equal. */
  lemma PrefixedTokensByGroup(q: string, p: string, u: string, v: string)
    requires IsToken(u) && IsToken(v) && PlainPrefix(q) && PlainPrefix(p)
    ensures IsMatchedVersionByGroup(q + u, p + v) <==> u == v
  {
    ExtractAfterPrefix(q, u);
    ExtractAfterPrefix(p, v);
    TokenShape(u);
    TokenShape(v);
    assert Truthy(ExtractSemverGroup(q + u)) && Truthy(ExtractSemverGroup(p + v));
  }

  /** Any `d.d.d` of single digits is a token, as in `1.2.3`. */
  lemma SingleDigitToken(a: char, b: char, c: char)
    requires IsDigit(a) && IsDigit(b) && IsDigit(c)
    ensures IsToken([a, '.', b, '.', c])
  {
    assert DotsAt([a, '.', b, '.', c], 1, 3);
  }

  /** As written, the extraction from `release/<token>` keeps the `/`: `release/1.2.3` gives `/1.2.3`. */
  lemma ExtractFromReleaseBranch(v: string)
    requires IsToken(v)
    ensures ExtractSemver("release/" + v) == Some("/" + v)
  {
    var release := "release/";
    assert PlainPrefix(release) && LastChar(release) == "/";
    ExtractAfterPrefix(release, v);
  }

  /** As written, the extraction from `Frontend <token>` keeps the space: `Frontend 1.2.3` gives ` 1.2.3`. */
  lemma ExtractFromFrontendLabel(v: string)
    requires IsToken(v)
    ensures ExtractSemver("Frontend " + v) == Some(" " + v)
  {
    var frontend := "Frontend ";
    assert PlainPrefix(frontend) && LastChar(frontend) == " ";
    ExtractAfterPrefix(frontend, v);
  }

  /**
   * As written, a bare token never matches `release/<token>`, not even the
   * same one, so `1.2.3` does not match `release/1.2.3`; with `match[1]` it
   * matches exactly the same token.
   */
  lemma BareVersionAgainstReleaseBranch(u: string, v: string)
    requires IsToken(u) && IsToken(v)
    ensures !IsMatchedVersion(u, "release/" + v)
    ensures IsMatchedVersionByGroup(u, "release/" + v) <==> u == v
  {
    var none, release := "", "release/";
    assert PlainPrefix(none) && PlainPrefix(release) && none + u == u;
    assert LastChar(none) != LastChar(release);
    PrefixedTokensAsWritten(none, release, u, v);
    PrefixedTokensByGroup(none, release, u, v);
  }

  /**
   * As written, `Frontend <token>` never matches `release/<token>`, so
   * `Frontend 1.2.3` does not match `release/1.2.3`; with `match[1]` it
   * matches exactly the same token.
   */
  lemma FrontendVersionAgainstReleaseBranch(u: string, v: string)
    requires IsToken(u) && IsToken(v)
    ensures !IsMatchedVersion("Frontend " + u, "release/" + v)
    ensures IsMatchedVersionByGroup("Frontend " + u, "release/" + v) <==> u == v
  {
    var frontend, release := "Frontend ", "release/";
    assert PlainPrefix(frontend) && PlainPrefix(release);
    assert LastChar(frontend) != LastChar(release);
    PrefixedTokensAsWritten(frontend, release, u, v);
    PrefixedTokensByGroup(frontend, release, u, v);
  }

  /**
   * The release-branch cases of the unit tests. As the code is written, all
   * four give `false`: `1.2.3` against `release/1.2.4` and `1.3.0` against
   * `release/1.2.9` as the tests expect, but also `1.2.3` and
   * `Frontend 1.2.3` against `release/1.2.3`, where the tests expect `true`.
   * With `match[1]` all four give the results the tests expect.
   */
  lemma ReleaseBranchTestCases()
    ensures !IsMatchedVersion("1.2.3", "release/1.2.4")
    ensures !IsMatchedVersion("1.3.0", "release/1.2.9")
    ensures !IsMatchedVersion("1.2.3", "release/1.2.3")
    ensures !IsMatchedVersion("Frontend 1.2.3", "release/1.2.3")
    ensures !IsMatchedVersionByGroup("1.2.3", "release/1.2.4")
    ensures !IsMatchedVersionByGroup("1.3.0", "release/1.2.9")
    ensures IsMatchedVersionByGroup("1.2.3", "release/1.2.3")
    ensures IsMatchedVersionByGroup("Frontend 1.2.3", "release/1.2.3")
  {
    SingleDigitToken('1', '2', '3');
    SingleDigitToken('1', '2', '4');
    SingleDigitToken('1', '3', '0');
    SingleDigitToken('1', '2', '9');
    assert "release/" + "1.2.4" == "release/1.2.4";
    assert "release/" + "1.2.9" == "release/1.2.9";
    assert "release/" + "1.2.3" == "release/1.2.3";
    assert "Frontend " + "1.2.3" == "Frontend 1.2.3";
    BareVersionAgainstReleaseBranch("1.2.3", "1.2.4");
    BareVersionAgainstReleaseBranch("1.3.0", "1.2.9");
    BareVersionAgainstReleaseBranch("1.2.3", "1.2.3");
    FrontendVersionAgainstReleaseBranch("1.2.3", "1.2.3");
  }

  /**
   * A release label without digits or `/` matches itself and a branch that
   * has it after its only `/`, and never a branch with two `/`.
   */
  lemma DigitFreeLabel(name: string, head: string, mid: string)
    requires forall i | 0 <= i < |name| :: !IsDigit(name[i])
    requires '/' !in name && '/' !in head && '/' !in mid
    ensures IsMatchedVersion(name, name)
    ensures IsMatchedVersion(name, head + "/" + name)
    ensures !IsMatchedVersion(name, head + "/" + mid + "/" + name)
  {
    NoDigitsNoMatch(name);
    SplitRule(name, head, name);
    var branch := head + "/" + mid + "/" + name;
    assert multiset(branch) == multiset(head) + multiset("/") + multiset(mid) + multiset("/") + multiset(name);
    EqualityRule(name, branch);
    assert |branch| > |name|;
  }

  /**
   * `hotfix` matches `hotfix` and `release/hotfix` (through the text after
   * the only `/`), but not `team/release/hotfix`.
   */
  lemma HotfixTestCases()
    ensures IsMatchedVersion("hotfix", "hotfix")
    ensures IsMatchedVersion("hotfix", "release/hotfix")
    ensures !IsMatchedVersion("hotfix", "team/release/hotfix")
  {
    assert "release" + "/" + "hotfix" == "release/hotfix";
    assert "team" + "/" + "release" + "/" + "hotfix" == "team/release/hotfix";
    DigitFreeLabel("hotfix", "release", "team");
    DigitFreeLabel("hotfix", "team", "release");
  }
}
