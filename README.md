# GTM container-ID validation (vue-gtm)

A Dafny model of the one piece of logic in the vue-gtm plugin: checking the `id` option given to
the plugin at install time. An ID is acceptable when it matches `^(GTM|G)-[0-9A-Z]+$`. When an ID is
not acceptable, the install throws an `Error` whose message quotes the ID and suggests two corrected
forms. The `id` option may be a single string, a list of strings or a list of `{id}` records. IDs are
checked in order, and the first invalid one decides the error.

The plugin's implementation (`src/index`) is not part of this model's sources. Its behaviour is taken
from `tests/index.test.ts`, which computes the expected message itself. The model follows that test:

- `ascii.dfy` (module `Ascii`): the character class `[0-9A-Z]`, the characters that `.` does not
  match in a JavaScript regular expression, and upper-casing restricted to ASCII.
- `gtm_id.dfy` (module `GtmId`): the validity rule, written over characters (`IsValidId`). It is
  proved equal to the pattern read as a language (one of two prefixes, a dash, a non-empty suffix).
- `suggestion.dfy` (module `Suggest`): the suggestion, which upper-cases the ID and then deletes
  every match of `/.*-|[^0-9A-Z]/g`. `RegexReplace` models the global
  replacement as a left-to-right scan. At each position it tries the alternatives in order, and the
  greedy `.*-` is `DashPrefixMatch`. For IDs without line terminators this is proved equal to three
  plain steps: upper-case, delete through the last `-`, delete everything outside `[0-9A-Z]`.
- `message.dfy` (module `Message`): the message text, and a reader that recovers the ID and the
  suggestion from a message. The round trip proves that the message determines the rejected ID.
- `config.dfy` (module `Config`): the three option shapes, normalisation to a list of IDs, the
  search for the first invalid ID, and `Validate`, which returns `Ok(ids)` or `Err(message)`.
- `wrappers.dfy` (module `Wrappers`): `Option` and `Result`.

Throwing an `Error` is modelled as the `Err` value of `Result`. Nothing is thrown or caught.

`Error` and `Error: ` are both suggested `ERROR`: neither contains a `-`, and once upper-cased only
`:` and the space fall outside `[0-9A-Z]` (`Suggest.SuggestionOfErrorWord`,
`Suggest.SuggestionOfErrorPrefix`, `Message.MessageForErrorWord`).

## Model

| member | source | states |
|---|---|---|
| `GtmId.IsValidId` | tests/index.test.ts:32 | definition of the pattern test over characters: the prefix `GTM-` with more than four characters in all, or `G-` with more than two, and every character after the prefix in `[0-9A-Z]`; its meaning is stated by `GtmId.IsValidIdMatchesPattern` |
| `GtmId.IsValidIdMatchesPattern` | tests/index.test.ts:32 | the character-level `IsValidId` holds exactly for `GTM-` or `G-` followed by a non-empty string over `[0-9A-Z]`, in both directions |
| `GtmId.PrefixIsCaseSensitive` | tests/index.test.ts:32 | the pattern is case-sensitive: any string whose first character is not an upper-case `G` (a lower-case `g` included), and the empty string, is invalid |
| `GtmId.TestIdsClassified` | tests/index.test.ts:24-25 | `GTM-X` is valid; `GTM-x`, `a`, `gtm-a`, `Error: ` and `Error` are not |
| `Ascii.Upper` | tests/index.test.ts:29 | upper-casing keeps the length and maps each character on its own (ASCII `a`-`z` to `A`-`Z`) |
| `Ascii.UpperIdempotent` | tests/index.test.ts:29 | upper-casing twice is the same as upper-casing once |
| `Suggest.DashPrefixMatch` | tests/index.test.ts:30 | the match of `.*-` at the start of a string ends at a `-` with no line terminator before it, and no longer match of that kind exists (greedy); no match exists when no such `-` does |
| `Suggest.RegexReplace` | tests/index.test.ts:30 | the global replacement leaves only characters in `[0-9A-Z]` and never lengthens the string |
| `Suggest.Suggestion` | tests/index.test.ts:28-30 | the suggestion holds only characters in `[0-9A-Z]`, so never a `-` |
| `Suggest.AfterLastDash` | tests/index.test.ts:30 | deleting through the last `-` leaves the longest suffix without a `-`: a suffix of the input, preceded by a `-` unless it is the whole input |
| `Suggest.KeepIdChars` | tests/index.test.ts:30 | deleting the characters outside `[0-9A-Z]` leaves only `[0-9A-Z]` |
| `Suggest.RegexReplaceIsTwoDeletions` | tests/index.test.ts:30 | without line terminators, the replacement equals deleting through the last `-` and then deleting the rest of the characters outside `[0-9A-Z]` |
| `Suggest.SuggestionIsRewriteSteps` | tests/index.test.ts:28-30 | for every ID without line terminators, the suggestion equals the three steps (upper-case, delete through the last `-`, keep `[0-9A-Z]`) |
| `Suggest.SuggestionIdempotent` | tests/index.test.ts:28-30 | suggesting again from a suggestion changes nothing |
| `Suggest.ValidIdSuggestsItself` | tests/index.test.ts:28-32 | for a valid ID the suggestion is its suffix after the prefix, so the ID is one of its own two candidates |
| `Suggest.CandidatesValid` | tests/index.test.ts:30-32 | `GTM-` + suggestion and `G-` + suggestion are valid IDs exactly when the suggestion is non-empty |
| `Suggest.SuggestionAfterDash` | tests/index.test.ts:28-30 | an ID `p-x` with no `-` in `x` is suggested the upper-cased `x` filtered to `[0-9A-Z]` |
| `Suggest.SuggestionWithoutDash` | tests/index.test.ts:28-30 | an ID without `-` is suggested its upper-cased form filtered to `[0-9A-Z]` |
| `Suggest.SuggestionDropsTrailingJunk` | tests/index.test.ts:28-30 | characters outside `[0-9A-Z]` and `a`-`z` after a dash-free ID are dropped from its suggestion |
| `Suggest.SuggestionOfUpperCaseTypo` | tests/index.test.ts:25-30 | the suggestion for `GTM-x` is `X` |
| `Suggest.SuggestionOfBareLetter` | tests/index.test.ts:25-30 | the suggestion for `a` is `A` |
| `Suggest.SuggestionOfLowerCaseId` | tests/index.test.ts:25-30 | the suggestion for `gtm-a` is `A` |
| `Suggest.SuggestionOfErrorWord` | tests/index.test.ts:25-30 | the suggestion for `Error` is `ERROR` |
| `Suggest.SuggestionOfErrorPrefix` | tests/index.test.ts:25-30 | the suggestion for `Error: ` is `ERROR` |
| `Message.ErrorMessage` | tests/index.test.ts:32 | definition of the message: a quote, the ID, the text `' is not a valid GTM-ID (/^(GTM|G)-[0-9A-Z]+$/). Did you mean 'GTM-`, the suggestion, `' or 'G-`, the suggestion again, and `'?`; what it means is stated by the round trip, injectivity and example lemmas below |
| `Message.ErrorMessageQuotesId` | tests/index.test.ts:32 | the message starts with the rejected ID between single quotes |
| `Message.ParseErrorMessage` | tests/index.test.ts:32 | whatever the reader accepts has the message's form, with a suggestion over `[0-9A-Z]` |
| `Message.ErrorMessageRoundTrip` | tests/index.test.ts:32 | reading a message back gives the rejected ID and its suggestion |
| `Message.ErrorMessageInjective` | tests/index.test.ts:32 | two different IDs never get the same message |
| `Message.MessageForLowerCaseId` | tests/index.test.ts:25-32 | the message for `gtm-a` suggests `GTM-A` and `G-A` |
| `Message.MessageForErrorWord` | tests/index.test.ts:25-32 | the message for `Error` suggests `GTM-ERROR` and `G-ERROR` |
| `Config.Ids` | tests/index.test.ts:35-49 | a single ID becomes the one-element list, a list of strings is kept as it is, and a list of records gives one ID per record in the same order |
| `Config.RecordIds` | tests/index.test.ts:44-49 | a list of `{id}` records gives its IDs, one per record, in the same order |
| `Config.FirstInvalid` | tests/index.test.ts:40-50 | no index is found exactly when every ID is valid; a found index holds an invalid ID and every ID before it is valid |
| `Config.Validate` | tests/index.test.ts:34-50 | the option is accepted exactly when all its IDs are valid, and then the IDs are returned unchanged; otherwise the error is the message for the first invalid ID |
| `Config.ValidSingleAccepted` | tests/index.test.ts:24 | a valid ID on its own is accepted and returned unchanged |
| `Config.ValidPrefixDoesNotMask` | tests/index.test.ts:40-42 | valid IDs placed before a list of strings neither cause an error nor change the error that list reports |
| `Config.ValidRecordPrefixDoesNotMask` | tests/index.test.ts:46-50 | valid records placed before a list of records neither cause an error nor change the error that list reports |
| `Config.ShapesReportSameError` | tests/index.test.ts:34-50 | a string, a one-string list, a valid-then-invalid list, a one-record list and a valid-then-invalid record list all give `Err(ErrorMessage(bad))` |
| `Config.TestInputsRejected` | tests/index.test.ts:24-50 | each of the five invalid IDs of the test is rejected with its own message in all five shapes, behind `GTM-X` where the test puts it |

## Left out

- The Vue plugin machinery (`VueGtm.install` as a function, `createGtm`, `app.use(...).mount`, `$gtm` in `globalProperties`): host-framework dependency injection, with nothing to model beyond validation.
- `useGtm()` returning `undefined` before installation and the installed handle afterwards: global framework state.
- Script injection into the page, the `dataLayer` and the DOM helpers of the tests: I/O.
- `src/index` is not part of this model; the rule, the rewrite and the message come from the test that pins them down.
- `Ascii.UpperChar`: does not model JavaScript's full Unicode `toUpperCase`. There `ß` becomes `SS` and `ı` becomes `I`, so a suggestion can differ for non-ASCII IDs. Only `a`-`z` are mapped.
- `Suggest.SuggestionIsRewriteSteps`: stated only for IDs without line terminators, because `.` does not match them. `Suggest.Suggestion` itself models line terminators as the regular expression treats them.
- Lists that mix strings and records, and a single `{id}` record outside a list: the tests do not exercise them, and the implementation is not available to say how it handles them.
- An empty list of IDs: the tests do not pin it down; the model accepts it as `Ok([])`.
- An invalid ID whose suggestion is empty, such as `GTM-` or `-`: the tests never check one. The model still offers `'GTM-'` and `'G-'`, which are not valid IDs (`Suggest.CandidatesValid`).
