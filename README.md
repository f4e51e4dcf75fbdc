# Jira fix-version matching, modelled in Dafny

This project models the decision logic of the `JiraConnector` class of a
GitHub Action. The action checks that the fix version of a pull request's
Jira ticket agrees with the pull request's target branch. Three operations
are modelled:

- `getIssueCodeFromBranch` picks the issue key out of the source branch
  name using the user's pattern.
- `extractSemver` finds the first `d+.d+.d+` token that is not glued to
  other digits or dots.
- `isMatchedVersion` decides whether a fix version and a target branch
  agree. It has three rules: compare the extracted versions, else compare
  with the part after the only `/`, else compare the strings whole.

The files are:

- `wrappers.dfy` holds `Option`, which stands for JavaScript's `null` or a value.
- `js_string.dfy` holds `String.prototype.split` on a one-character
  separator, with its inverse `Join` and the round trips between them.
- `semver_regex.dfy` models the fixed pattern
  `(?:^|[^0-9.])(\d+\.\d+\.\d+)(?:$|[^0-9.])`. `IsMatch` and `IsLeftmost`
  state what a match is and which one comes first. `Exec` computes the
  match by scanning left to right, and `ExecSpec` proves that `Exec`
  returns exactly the leftmost match, or none when there is no match.
- `jira_connector.dfy` holds the three operations and what they promise.

`extractSemver` returns `match[0]` of the fixed pattern, not `match[1]`.
`match[0]` includes the boundary character consumed before and after the
token. Because of this, `1.2.3` does not match `release/1.2.3`: the first
extracts `1.2.3` and the second extracts `/1.2.3`. The unit tests for this
case and for `Frontend 1.2.3` expect `true`. The model follows the code:
`IsMatchedVersion` is the behaviour as written, proved to return `false`
there. `IsMatchedVersionByGroup` is the same cascade over `match[1]`, proved
to return `true` for those cases (see "## Findings").

JavaScript truthiness is modelled explicitly. A `null` extraction and an
empty string are both falsy (`Truthy`). `core.getInput` yields `""` for an
absent input, so an empty pattern means "no pattern".

## Model

| member | source | states |
|---|---|---|
| JsString.Split | src/jiraConnector.ts:54 | splitting on `/` gives one more part than there are `/` characters, and no part contains `/` |
| JsString.JoinSplit | src/jiraConnector.ts:54 | joining the parts of a split with the separator gives back the original string |
| JsString.SplitJoin | src/jiraConnector.ts:54 | splitting the join of separator-free parts gives back those parts |
| JsString.SplitAtOnlySeparator | src/jiraConnector.ts:54-56 | a string with exactly one `/` splits into two parts, the text before it and the text after it |
| JsString.SplitNoSeparator | src/jiraConnector.ts:54-55 | a string without `/` splits into one part, itself |
| SemverRegex.DigitRun | src/jiraConnector.ts:40 | a greedy `\d+` stops at the end of the input or at a non-digit |
| SemverRegex.DigitRunExact | src/jiraConnector.ts:40 | a run of digits followed by a non-digit or the end is exactly the greedy run |
| SemverRegex.TokenEnd | src/jiraConnector.ts:40 | a token found at a position is a `d+.d+.d+` text followed by the end or a `[^0-9.]` character |
| SemverRegex.TokenEndComplete | src/jiraConnector.ts:40 | any token at a position with a valid right boundary is the one `TokenEnd` finds |
| SemverRegex.MatchAt | src/jiraConnector.ts:40 | a match attempted at a position is a match of the pattern starting at that position |
| SemverRegex.MatchAtComplete | src/jiraConnector.ts:40 | every match of the pattern is found by an attempt at its own start position |
| SemverRegex.Exec | src/jiraConnector.ts:41 | `input.match` with the fixed pattern: any result is a match of the pattern; `ExecSpec` proves it is exactly the leftmost match, or `null` when there is none |
| SemverRegex.ExecFrom | src/jiraConnector.ts:41 | the scan from a position returns a match that starts at or after that position |
| SemverRegex.ExecFromLeftmost | src/jiraConnector.ts:41 | the scan from a position returns the first match that starts at or after it |
| SemverRegex.ExecSpec | src/jiraConnector.ts:40-41 | `input.match` gives no match exactly when the pattern matches nowhere, and otherwise the unique leftmost match |
| SemverRegex.NoDigitsNoMatch | src/jiraConnector.ts:40 | a string without digits has no version token |
| SemverRegex.ExecAfterPrefix | src/jiraConnector.ts:40-41 | a token behind a digit-free prefix ending in a boundary character is matched with that character as its left boundary |
| JiraConnector.GetIssueCodeFromBranch | src/jiraConnector.ts:20-28 | with an empty pattern, the branch name; with a non-empty group 1, that group; otherwise the branch name. The key is never longer than the branch and is empty only for an empty branch |
| JiraConnector.ExtractSemver | src/jiraConnector.ts:39-43 | an extraction is at least 5 characters long |
| JiraConnector.ExtractSemverSpec | src/jiraConnector.ts:39-43 | `null` exactly when there is no match; otherwise `match[0]`, the slice of the input from the match index to its end, with the token plus at most two boundary characters |
| JiraConnector.ExtractSemverGroup | src/jiraConnector.ts:40-42 | `match[1]` of the same pattern is always a `d+.d+.d+` token |
| JiraConnector.ExtractSemverGroupSpec | src/jiraConnector.ts:40-42 | `match[1]` is `null` exactly when there is no match, and otherwise the leftmost match's token |
| JiraConnector.SemverRule | src/jiraConnector.ts:46-51 | when both sides yield an extraction, the versions match exactly when the extractions are equal strings |
| JiraConnector.SplitRule | src/jiraConnector.ts:53-57 | when a side yields no extraction and there is exactly one `/` in the branch and none in the fix version, they match exactly when the fix version equals the text after the `/` |
| JiraConnector.EqualityRule | src/jiraConnector.ts:53-60 | when a side yields no extraction and the fix version has a `/` or the branch does not have exactly one, only identical strings match |
| JiraConnector.IsMatchedVersion | src/jiraConnector.ts:45-61 | `isMatchedVersion` as written: equal strings always match; different strings match only through equal non-null extractions, or through a fix version without `/` against a branch with exactly one `/`. `SemverRule`, `SplitRule` and `EqualityRule` decide every case exactly |
| JiraConnector.IsMatchedVersionByGroup | src/jiraConnector.ts:45-61 | the same cascade over `match[1]`, with the same two guarantees; `PrefixedTokensByGroup` and `ReleaseBranchTestCases` state how it corrects the as-written behaviour |
| JiraConnector.ExtractAfterPrefix | src/jiraConnector.ts:39-43 | behind a plain prefix, `match[0]` is the prefix's last character plus the token, and `match[1]` is the token |
| JiraConnector.PrefixedTokensAsWritten | src/jiraConnector.ts:45-51 | two tokens behind plain prefixes match exactly when the tokens are equal and the prefixes end in the same character |
| JiraConnector.PrefixedTokensByGroup | src/jiraConnector.ts:45-51 | with `match[1]`, two tokens behind plain prefixes match exactly when the tokens are equal |
| JiraConnector.ExtractFromReleaseBranch | src/jiraConnector.ts:39-43 | `release/<token>` extracts `/<token>` |
| JiraConnector.ExtractFromFrontendLabel | src/jiraConnector.ts:39-43 | `Frontend <token>` extracts ` <token>` |
| JiraConnector.BareVersionAgainstReleaseBranch | src/jiraConnector.ts:45-51 | a bare token never matches `release/<token>`, while with `match[1]` it matches exactly the same token |
| JiraConnector.FrontendVersionAgainstReleaseBranch | src/jiraConnector.ts:45-51 | `Frontend <token>` never matches `release/<token>`, while with `match[1]` it matches exactly the same token |
| JiraConnector.ReleaseBranchTestCases | __test__/jira-connector.spec.ts:176-201 | as written, all four release-branch cases of the unit tests give `false`, including the two the tests expect to be `true`; with `match[1]` all four give the results the tests expect |
| JiraConnector.DigitFreeLabel | src/jiraConnector.ts:53-60 | a label without digits or `/` matches itself and `x/label`, and never `x/y/label` |
| JiraConnector.HotfixTestCases | src/jiraConnector.ts:53-60 | `hotfix` matches `hotfix` (the case the unit test at `__test__/jira-connector.spec.ts:203-207` checks) and `release/hotfix` through the text after the only `/`, and does not match `team/release/hotfix` |

## Left out

- The `JiraConnector` constructor is left out: it only configures the Jira REST client.
- `getfixVersionFromTicket` is left out because it is a network call to Jira. As written, `fixVersions[0]` throws when the ticket has no `fixVersions` field; `fixVersions?.[0]` was presumably meant.
- GetIssueCodeFromBranch: the user's pattern is not compiled or run. The caller passes its match result in as `RegexResult`, so this is a parameter of the model. A pattern that fails to compile throws in the source; that exception is not modelled.
- Reading the action inputs (`getInputs` in `src/inputs.ts`) is left out; the pattern is a parameter.
- The orchestration in `src/main.ts` and the GitHub API calls in `src/pullRequestConnector.ts` are not part of this model, because they are I/O.
- JavaScript strings are sequences of UTF-16 code units, and Dafny strings here are sequences of whole characters, so an input that already holds a lone surrogate cannot be represented. The two differ in two places, both involving characters outside the Basic Multilingual Plane:
  - Next to a version token, the source's `[^0-9.]` consumes one surrogate, so its `match[0]` holds a lone surrogate: the low one for a character on the left of the token, the high one for a character on the right. The model's `ExtractSemver` holds the whole character instead. So `IsMatchedVersion` can differ from the source: two different astral characters that share the surrogate kept (U+1F600 and U+1F200 both end in `\uDE00`) give equal extractions in the source and unequal ones in the model.
  - In the issue key, described on the next line.
- GetIssueCodeFromBranch: the source runs the user's pattern without the `u` flag, so group 1 is a span of UTF-16 code units and can cut a surrogate pair (the pattern `^(.)` on `😀-x` captures the lone high surrogate, which the source returns as the key). `Captured(start, end)` is a span of whole characters, so such a capture has no counterpart in the model.
- The pattern is modelled by its meaning, not by a general regular-expression engine. `Exec` is the leftmost-match scan specialised to this one pattern; its backtracking is covered by `SemverRegex.DigitRunExact`.

## Findings

| source | as written | input that shows it | evidently intended | confidence | as-written member | corrected member |
|---|---|---|---|---|---|---|
| src/jiraConnector.ts:42 | `extractSemver` returns `match[0]`, which includes the boundary character before and after the version | `isMatchedVersion('1.2.3', 'release/1.2.3')` compares `1.2.3` with `/1.2.3` and returns `false`; `'Frontend 1.2.3'` gives ` 1.2.3` and also fails | return `match[1]`, the version alone, as the unit tests at `__test__/jira-connector.spec.ts:176-195` expect | high; not executed | JiraConnector.BareVersionAgainstReleaseBranch | JiraConnector.PrefixedTokensByGroup |
