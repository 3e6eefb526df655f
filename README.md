# otel-finder: a verified model of the command logic

otel-finder is a chat slash-command bot. Given `/otel-finder [repos]`, it searches
the issue tracker for open, unassigned issues carrying a beginner label in
OpenTelemetry repositories. It then posts one message per repository. Around the
chat and tracker clients sits a small amount of deterministic logic. This
project models that logic in Dafny and proves what it does:

- **Command dispatch** (`Handler`): the text `help` only acknowledges and shows
  the help. Any other text acknowledges, posts the header, posts rejection
  notices, and starts one search per resolved repository.
- **Repository resolution** (`Repos`): empty text selects the whole registry.
  Otherwise the text is split on commas. Each token whose trimmed form is a
  registry key is kept. Every other token yields one rejection notice.
- **Normalisation** (`Issues`): a search response becomes at most 30 issue
  summaries, in response order. Each summary's interactions are comments plus
  reactions.
- **Formatting** (`Formatter`): the new-issue indicator, the interaction tier
  indicator and the markdown line for one issue.
- **Reply assembly** (`Messages`): a header block, one markdown block per issue
  or a placeholder, and a divider.
- **JavaScript string behaviour** (`Text`): `trim`, `split(",")`, and the decimal
  rendering of a number in a template literal.

The registry (repository name to label) is a parameter of type
`map<string, string>`. Times are integer milliseconds since the epoch, and the
current time `now` is a parameter, read once per reply. The locale-dependent date text is a function
parameter `renderDate`. The effects the handler starts (acknowledgements, posts,
searches) are returned as a list of `Effect` values; nothing is sent anywhere.

Where the code and its evident intent differ, the model follows the code:

- **Padded tokens.** The intent is that each requested name is trimmed. The
  code only trims to *test* a token (`src/index.js:133`). It stores the kept
  entry under the untrimmed token, and it looks up the label with the untrimmed
  token too. So `"opentelemetry-js, opentelemetry-java"` keeps
  `" opentelemetry-java"` with a missing label (`None`, JavaScript's
  `undefined`). Its search query then ends in `label:undefined`.
  `Repos.PaddedTokenLosesLabel` and `Repos.KeptLabel` state this.
- **Missing reaction total.** The optional chaining `?.` suggests a missing
  reaction total should count as zero. The code adds `undefined`, which gives `NaN`
  (`src/index.js:60`). The model keeps `NaN` as `Interactions.NaN`. A `NaN`
  count gets no tier indicator and renders as the text `NaN`.

## Model

| member | source | states |
|---|---|---|
| `Text.TrimStartIsSuffix` | src/index.js:133 | the leading part of `trim`: what it removes is whitespace, and what it keeps is a suffix starting at a non-blank |
| `Text.TrimEndIsPrefix` | src/index.js:133 | the trailing part of `trim`: what it removes is whitespace, and what it keeps is a prefix ending at a non-blank |
| `Text.TrimRemovesSurroundingWhitespace` | src/index.js:133 | `trim(s)` occurs in `s` with only whitespace around it, and it neither starts nor ends with whitespace |
| `Text.TrimFixedPoint` | src/index.js:133 | `trim(s) == s` exactly when `s` is empty or starts and ends with a non-blank |
| `Text.TrimIdempotent` | src/index.js:133 | trimming twice is the same as trimming once |
| `Text.Split` | src/index.js:130 | `split(",")` yields at least one part, and no part contains the separator |
| `Text.JoinSplit` | src/index.js:130 | joining the parts of a split with the separator gives back the text |
| `Text.SplitJoin` | src/index.js:130 | splitting a join of separator-free parts gives back the parts (the other half of the round trip) |
| `Text.NatToDecimal` | src/index.js:152 | the rendered count is a non-empty run of decimal digits with no leading zero |
| `Text.DecimalRoundTrip` | src/index.js:152 | reading the rendered count back as a decimal gives the count |
| `Issues.Summarise` | src/index.js:56-61 | url, title and creation time are copied; interactions are comments plus the reaction total, or `NaN` exactly when the total is missing |
| `Issues.Normalise` | src/index.js:51-62 | the loop visits every item and keeps min(30, number of items) summaries; summary `i` is the summary of item `i`, so the list follows response order |
| `Issues.NormalisedIgnoresTail` | src/index.js:53-55 | once 30 items have been seen, later items change nothing |
| `Issues.NormalisedIsPrefix` | src/index.js:52-61 | more response items only extend the list: the shorter response's list is a prefix of the longer one's |
| `Formatter.NewIssueEmoji` | src/index.js:155-163 | `:new-issue:` exactly when the issue was created strictly after now minus 30 days; otherwise the empty string |
| `Formatter.InteractionsEmoji` | src/index.js:165-176 | `:thisisfine:` from 50, `:fire::fire:` from 15 to 49, `:fire:` from 5 to 14, nothing below 5 or for `NaN` |
| `Formatter.TierIsThresholdsReached` | src/index.js:165-176 | the tier's rank equals the number of thresholds (5, 15, 50) the count reaches |
| `Formatter.ThresholdsReachedMonotone` | src/index.js:165-176 | the threshold count is monotone in the interaction count |
| `Formatter.TierMonotone` | src/index.js:165-176 | more interactions never give a lower tier |
| `Formatter.InteractionsText` | src/index.js:152 | a count renders as its decimal digits, and `NaN` as the text `NaN` |
| `Formatter.FormatIssue` | src/index.js:147-153 | every issue line is a markdown list item (it starts with `- [`) |
| `Formatter.FormatIssueShows` | src/index.js:147-152 | the issue line contains the markdown link `[title](url)`, the title, the url, the rendered creation date, the new-issue indicator, the count and the tier indicator |
| `Formatter.FormatIssueLinksTitle` | src/index.js:150 | right after the list marker `- `, the line holds the markdown link `[title](url)` |
| `Formatter.FreshBusyIssueShowsBothIndicators` | src/index.js:150-176 | an issue created now with 60 interactions shows both `:new-issue:` and `:thisisfine:` |
| `Formatter.OldQuietIssueShowsNoIndicator` | src/index.js:155-176 | an issue created 90 days ago with 2 interactions gets neither indicator |
| `Messages.AssembleBlocks` | src/index.js:66-77 | the header names the repository and the last block is a divider; block `i+1` is issue `i`'s line in list order; the placeholder appears exactly when the list is empty; the length is max(n,1)+2 |
| `Messages.ReplyForRepo` | src/index.js:51-77 | one repository's reply, from the response items: min(30, items) issue lines in response order, or the placeholder exactly when the response is empty, between header and divider |
| `Repos.AllTargets` | src/index.js:127-129 | empty text selects exactly the registry's keys, each with its registry label |
| `Repos.ResolveRepos` | src/index.js:126-145 | the loop keeps exactly the recognised tokens (under the untrimmed token) and returns the rejection notices in token order; empty text gives the whole registry and no notices |
| `Repos.RejectedTokensMembership` | src/index.js:132-142 | a token gets a notice exactly when it is in the list and its trimmed form is not a registry key |
| `Repos.RejectedTokensCount` | src/index.js:135-141 | every occurrence of an unrecognised token yields exactly one notice, and a recognised token yields none |
| `Repos.KeptOrRejected` | src/index.js:132-142 | every token is kept or rejected, never both: kept exactly when recognised, rejected exactly when not |
| `Repos.KeptAreRecognised` | src/index.js:133-134 | no entry is kept for a token whose trimmed form is not a registry key |
| `Repos.KeptLabel` | src/index.js:133-134 | a kept entry's label is the lookup of the untrimmed token, so it is present exactly when the token as typed is a registry key |
| `Repos.PaddedTokenLosesLabel` | src/index.js:130-134 | for two registered names typed as "a, b", "a" is kept with its label, " b" is kept without one, and nothing is rejected |
| `Handler.SearchQuery` | src/index.js:49 | the query starts with `repo:open-telemetry/<repo>`, continues with exactly the filters `is:issue state:open no:assignee` and then `label:<label>`, where a missing label renders as `undefined` |
| `Handler.Notices` | src/index.js:136-141 | one user-only notice per rejected token, in order |
| `Handler.StartSearches` | src/index.js:45-50 | exactly one search per resolved repository, each with that repository's query, in unspecified order |
| `Handler.HandleCommand` | src/index.js:32-44 | text `help` gives only an acknowledgement and the help; any other text gives the status acknowledgement, the header, the rejection notices in order, then one search per resolved repository, and never the help |

## Left out

- Slack client calls are out: `ack`, `postMessage` and `postEphemeral` (`src/index.js:79-84`, `90-124`). So are the Express receiver and the process start with its port and environment handling (`src/index.js:9-30`, `178`). They are network I/O through foreign SDKs. The model records which effect is started, not its delivery.
- The help text and the header/greeting texts are out. They are static strings, shown only as the effects `PostHelp` and `PostHeader`.
- The fallback text of each reply (`List of issues found for <repo>`) is out. Only the blocks are modelled.
- The tracker search call is out (`src/index.js:48`), and so are its failures. The model starts from the response items it returns. The query string itself is modelled.
- The promise chain's concurrency is out. Searches start in the unspecified order the set of repositories yields. How replies from different repositories interleave is not modelled.
- `Object.keys(issues).sort()` runs over an object that only ever holds the one repository of its own promise. The reply is therefore modelled per repository.
- The registry module `otel.js` is not part of this model. It is the `registry` parameter.
- The target dictionary's key order is out, because it only decides the order in which searches start. Object-prototype keys are out too. The kept entries are a Dafny `map`.
- Parsing `created_at` with `new Date` and its locale rendering are out (`src/index.js:148-149`). The creation time is an integer timestamp and the rendering is the `renderDate` parameter. An unparsable date (`Invalid Date`) is not modelled.
- NewIssueEmoji: `setDate(getDate() - 30)` moves back thirty calendar days in local time. The model subtracts exactly 30 × 86 400 000 ms, so it does not model a daylight-saving shift inside the window.
- Text.NatToDecimal: renders an unbounded natural number exactly. JavaScript adds comments and reactions as doubles, so a count above 2^53 may be inexact and one of 10^21 or more renders in exponent form (`1e+21`). Neither is modelled.
- Messages.AssembleBlocks: formats every line of one reply against a single `now`. The code reads the clock again for each issue line, twice per `getNewIssueEmoji` call (`src/index.js:157-158`). Later lines may therefore be compared against a slightly later cut-off, and the two reads can fall on different days around midnight. The model does not capture either. The same holds for `Messages.ReplyForRepo`.
- A missing `comments` field is not modelled; comments are a natural number. A missing reaction total is modelled (`NaN`).
