# Claude Code quota monitor: the estimation engine, in Dafny

This project is a Dafny model of the quota-estimation core of the VS Code
extension *vscode-claudecode-monitor*. The extension cannot ask the service
for the real quota. It estimates the quota from Claude Code's local files and
shows the estimate in the status bar. The model covers these parts:

- **Model-name normaliser** `getQuotaModelName` (module `ModelName`). It
  rewrites an identifier such as `claude-opus-4-5-20251101` into a display
  name such as `Opus 4.5`.
- **Project-path normaliser** `normalizeProjectPath` (module `ProjectPath`).
  It turns a workspace root into the directory name Claude Code keeps its
  project logs under.
- **Active-model extraction** (module `ActiveModel`). It scans the lines of
  the newest project log, newest first, for a `Set model to …` command
  output. It matches the regular expression
  `/Set model to\s+([^\(\)]+)(?:\(([^)]+)\))?/i` as a backtracking engine
  would, and prefers the parenthesised id over the bare name.
- **Backward chunked scan** of the global prompt history (module
  `SessionScan`). It reads the file in chunks of at most 64 KiB from the end,
  carries the first, possibly partial, line of each chunk over to the chunk
  before it, and counts the prompts of the last four hours. It stops at the
  first stamped entry that is older than that.
- **Quota projection** (module `Projection`). It covers:
  - the remaining session percentage against the estimated 55-message limit;
  - the Healthy/Warning/Critical status;
  - the reset time and the countdown;
  - the weekly percentage against an estimated 4000 messages;
  - the list of included models;
  - the one `QuotaGroup` record that `getRealtimeQuota` returns.
- **Status bar** (module `StatusBar`). It covers the ten-cell progress bar,
  the status text for each display format, the tooltip, and the low-quota
  warning. The warning is shown once while the quota stays low, and shown
  again only after the quota has been not low for at least one update.

Several effects of the code are turned into parameters of the operations that
need them:

- parsing a JSON line: `parse`, a function to an `Option` of the parsed entry;
- the ANSI-stripping regular expression: `strip`;
- formatting a local time as `HH:MM`: `clock`;
- the current time: `now`;
- the weekly cutoff date: `cutoff`.

The newest project log and the history file are given as their text, or as
absent when there is none, and the statistics cache as a value. The project
log has its own `parse` and `strip`.

The modules are in these files:

- `wrappers.dfy`: `Option`.
- `text.dfy`: the string operations of JavaScript that the code uses, under
  their own contracts. These are `trim` with JavaScript's whitespace set,
  `split` and `join`, `includes`/`indexOf`, `repeat`, and number-to-string.
- `log_entry.dfy`: the JSON shapes the engine reads.
- `model_name.dfy`, `project_path.dfy`, `active_model.dfy`,
  `session_scan.dfy`, `projection.dfy` and `status_bar.dfy`: one module each,
  as listed above.

Pure transforms are written as functions with lemmas about them. The code's
loops are written as methods with loop invariants, proved against a
specification function:

- the chunked scan and its inner reverse `for` loop;
- the newest-first search of the project log;
- the weekly `forEach`;
- `getRealtimeQuota` as a whole.

`updateStatusBar` is a method of a class that holds the status-bar item's
fields and the module-level `hasWarnedLowQuota` flag.

## Model

| member | source | states |
|---|---|---|
| `ModelName.HyphensToSpaces` | src/services/quota-service.ts:66-67 | same length; each `-` becomes a space and every other character stays. |
| `ModelName.JoinVersions` | src/services/quota-service.ts:69-70 | the output adds no character except `.` that was not already in the input. |
| `ModelName.JoinVersionsUnchangedIff` | src/services/quota-service.ts:69-70 | step 4 leaves a text unchanged exactly when `(\d)\s+(\d)` matches at no position of it. |
| `ModelName.CutMarketingSuffix` | src/services/quota-service.ts:72-75 | no `·` survives, every character of the output comes from the input, and a text without `·` is kept whole. |
| `ModelName.CutBeforeDelimiter` | src/services/quota-service.ts:72-75 | with a `·`, the output is a slice of the text before the first `·` with only whitespace cut on either side, and it neither starts nor ends with whitespace. |
| `ModelName.TitleCaseIsCapitalizeWords` | src/services/quota-service.ts:77-83 | split on spaces, capitalise each word and re-join is the same as upper-casing exactly the characters that open the text or follow a space. |
| `ModelName.NameHasNoDashOrDelimiter` | src/services/quota-service.ts:59-84 | for every input, the normalised name contains neither `-` nor `·`. |
| `ModelName.VersionedIdName` | src/services/quota-service.ts:59-84 | every `claude-<family>-<d>-<d>` id, with or without an eight-digit date, reads as `<Family> <d>.<d>`. |
| `ModelName.MarketingSuffixDropped` | src/services/quota-service.ts:72-75 | `claude-<family>-<d>-<d> · <anything>` reads as `<Family> <d>.<d>`: nothing from the `·` on survives. |
| `ModelName.NotIdempotent` | src/services/quota-service.ts:59-84 | `x-1-2-3` reads as `X 1.2 3`, and `X 1.2 3` reads as `X 1.2.3`: normalising twice differs from normalising once. |
| `ModelName.FirstPass` | src/services/quota-service.ts:59-84 | `<x>-<a>-<b>-<c>`, for a letter-like `x` and digits `a`, `b`, `c`, reads as `<X> <a>.<b> <c>`. |
| `ModelName.SecondPass` | src/services/quota-service.ts:59-84 | `<x> <a>.<b> <c>` reads as `<X> <a>.<b>.<c>`. |
| `ModelName.SonnetName` | src/services/quota-service.test.ts:19-22 | `claude-sonnet-4-5-20250929` reads as `Sonnet 4.5`. |
| `ModelName.OpusName` | src/services/quota-service.test.ts:24-27 | `claude-opus-4-5-20251101` reads as `Opus 4.5`. |
| `ModelName.HaikuName` | src/services/quota-service.test.ts:29-32 | `claude-haiku-4-5` reads as `Haiku 4.5`. |
| `ModelName.SonnetUndatedName` | src/services/quota-service.test.ts:34-43 | `claude-sonnet-4-5` without a date reads as `Sonnet 4.5`, not `Sonnet 4 5`. |
| `ModelName.SonnetWithMarketingSuffix` | src/services/quota-service.test.ts:45-48 | `claude-sonnet-4-5 · Best For Everyday Tasks` reads as `Sonnet 4.5`. |
| `ProjectPath.NormalizeProjectPath` | src/services/quota-service.ts:133-144 | the result starts with `-` and holds no `/` or `\`. It is the input with each separator turned into `-`, in the same order, with one `-` put in front exactly when the input starts with neither `-` nor a separator. |
| `ProjectPath.ReplaceSeparators` | src/services/quota-service.ts:138 | same length; each `/` or `\` becomes `-` and every other character stays. |
| `ProjectPath.NormalizeIdempotent` | src/services/quota-service.ts:133-144 | normalising twice gives the same as normalising once. |
| `ProjectPath.SeparatorsInterchangeable` | src/services/quota-service.test.ts:79-83 | two paths that differ only in which separator they use normalise to the same name. |
| `ProjectPath.DashesMarkSeparators` | src/services/quota-service.ts:138-141 | a character of the input is `-` in the result exactly when it was `-`, `/` or `\`. |
| `ProjectPath.UnixStyle` | src/services/quota-service.ts:135-141 | `/a/b/…` normalises to `-a-b-…`, with no second dash in front. |
| `ProjectPath.WindowsStyle` | src/services/quota-service.ts:136-141 | `C:\a\…` normalises to `-C:-a-…`; the colon stays. |
| `ProjectPath.UnixPath` | src/services/quota-service.test.ts:52-56 | `/Users/test/project` gives `-Users-test-project`. |
| `ProjectPath.WindowsPath` | src/services/quota-service.test.ts:58-77 | `C:\Users\test\project` gives `-C:-Users-test-project`. |
| `ProjectPath.MixedSeparatorsPath` | src/services/quota-service.test.ts:79-83 | `C:/Users\test/project` gives `-C:-Users-test-project`. |
| `ProjectPath.NoDoubleDash` | src/services/quota-service.test.ts:85-92 | `/Users/foo` gives `-Users-foo`, with one leading dash. |
| `ActiveModel.FindMatch` | src/services/quota-service.ts:198 | the match found is a match of the expression, and no earlier position holds one; `None` means that no position holds one. |
| `ActiveModel.MatchAtComplete` | src/services/quota-service.ts:198 | a match that satisfies the engine's rules at a position is the one `MatchAt` computes there, so the greedy, backtracking reading is unique. |
| `ActiveModel.DetailPreferred` | src/services/quota-service.ts:198-206 | for `Set model to <name>(<id>)…` the chosen text is the trimmed id, not the name. |
| `ActiveModel.BareSwitch` | src/services/quota-service.ts:198-206 | for `Set model to <name>` with no parenthesis, the whole name is group 1 and the chosen text is the trimmed name. |
| `ActiveModel.DetailedSwitchLine` | src/services/quota-service.ts:188-208 | a log line whose message content is such a command output yields the normalised trimmed id. |
| `ActiveModel.OpusSwitch` | src/services/quota-service.ts:194-208 | the example output `Set model to opus (claude-opus-4-5-20251101)` yields `Opus 4.5`. |
| `ActiveModel.NewestSwitchWins` | src/services/quota-service.ts:184-209 | the newest line that yields a model decides, whatever older lines say. |
| `ActiveModel.NoSwitchNoModel` | src/services/quota-service.ts:184-220 | the result is `null` exactly when no line yields a model. |
| `ActiveModel.ActiveModelFromLog` | src/services/quota-service.ts:183-215 | the loop over the reversed lines, with its early return, gives the verdict of the newest line that has one. |
| `ActiveModel.NewestIsAVerdict` | src/services/quota-service.ts:184-209 | a model found is the verdict of one of the lines. |
| `ActiveModel.LineModelIsNormalised` | src/services/quota-service.ts:188-208 | a line's verdict is a normalised name: no `-` and no `·`. |
| `ActiveModel.LatestModelIsNormalised` | src/services/quota-service.ts:183-215 | the model the log names, when there is one, contains neither `-` nor `·`. |
| `SessionScan.BufferSize` | src/services/quota-service.ts:252 | the chunk size is the file size capped at 64 KiB, and it is 0 exactly for an empty file. |
| `SessionScan.FindTextItem` | src/services/quota-service.ts:302 | `find` stops at the first element that is `null` (it throws) or a text part (it is found), after elements that are parts but not text parts; nothing is found exactly when every element is such a part. |
| `SessionScan.FirstTextPart` | src/services/quota-service.ts:302 | a text part preceded only by parts that are not text parts is the element `find` returns. |
| `SessionScan.FindAfter` | src/services/quota-service.ts:302 | skipping elements that are parts but not text parts does not change what `find` gives. |
| `SessionScan.ClaimOf` | src/services/quota-service.ts:294-305 | a string `display` is the content; an entry with no `display` and no user tag consumes nothing. A user message takes its string `content`, else its string `message.content`, else the first text part's `text \|\| content \|\| ''`, and else `''`. Reading the entry fails exactly when a `null` element is reached first in the content array. |
| `SessionScan.CountedInWindow` | src/services/quota-service.ts:277-290 | a counted line is not blank, parses, and has a timestamp inside the window. |
| `SessionScan.HaltIff` | src/services/quota-service.ts:318-320 | a line stops the scan exactly when it parses and has a non-zero timestamp at or before the window start. |
| `SessionScan.UnstampedIgnored` | src/services/quota-service.ts:282-290 | an entry with a zero timestamp neither counts nor stops the scan. |
| `SessionScan.BlankIgnored` | src/services/quota-service.ts:277 | a blank line is skipped. |
| `SessionScan.DisplayCountsIff` | src/services/quota-service.ts:294-309 | an entry in the window with a string `display` counts exactly when that text does not trim-start with `/`. |
| `SessionScan.OtherEntriesNotCounted` | src/services/quota-service.ts:291-305 | an entry with neither `display` nor a user tag is never counted. |
| `SessionScan.UserContentCountsIff` | src/services/quota-service.ts:297-309 | a user entry in the window with non-empty string content counts exactly when it is not a slash command. |
| `SessionScan.MessageContentCountsIff` | src/services/quota-service.ts:300-311 | a user entry in the window with no string `content` and a string `message.content` counts exactly when that text is not a slash command. |
| `SessionScan.TextPartCountsIff` | src/services/quota-service.ts:301-311 | a user entry in the window whose first text part has a non-empty string `text` counts exactly when that text is not a slash command. |
| `SessionScan.TextPartContentCountsIff` | src/services/quota-service.ts:301-311 | when that part's `text` is falsy and its `content` a string, the `content` decides in the same way. |
| `SessionScan.NonStringTextSkipped` | src/services/quota-service.ts:303-307 | a truthy `text` that is not a string makes `trim` throw, and the line is skipped. |
| `SessionScan.UserWithoutTextCounts` | src/services/quota-service.ts:297-311 | a user entry in the window with no text content counts. |
| `SessionScan.NullItemSkipped` | src/services/quota-service.ts:301-303 | a `null` element reached before any text part makes `find` throw, so the line is skipped; outside the window the content is never read, and the timestamp alone decides. |
| `SessionScan.TallyIsStamps` | src/services/quota-service.ts:311-317 | the count grows by the number of counted lines, the oldest time is the minimum of their timestamps, and the scan stops exactly when a line halts it. |
| `SessionScan.TallyAppend` | src/services/quota-service.ts:276-323 | scanning two runs of lines one after the other is the same as scanning them joined. |
| `SessionScan.SessionBounds` | src/services/quota-service.ts:245 | a message was found exactly when the count is positive, and the oldest time lies in `(now - 4h, now]`. |
| `SessionScan.VisitChunk` | src/services/quota-service.ts:276-323 | the reverse `for` loop over one chunk's lines tallies them newest first. |
| `SessionScan.ChunkLines` | src/services/quota-service.ts:265-274 | the lines of a chunk joined to the carried remainder, followed by the lines already visited, are exactly the lines of the file from that chunk on. |
| `SessionScan.ScanRoundKeeps` | src/services/quota-service.ts:260-325 | one pass of the `while` loop keeps the invariant. The invariant is that the carried remainder is the first line after the next read position, and the tally covers exactly the later lines, newest first. |
| `SessionScan.ScanHistory` | src/services/quota-service.ts:248-331 | the chunked scan gives the tally of the file's newline-separated lines, visited newest first, each once. |
| `SessionScan.EmptyHistoryNeverFinishes` | src/services/quota-service.ts:252-260 | on an empty history file, any number of passes of the loop as written leaves the state unchanged, and the loop guard still holds. |
| `Projection.RoundPercent` | src/services/quota-service.ts:335 | the result is `100·n/d` rounded half up, stated by its bounds. |
| `Projection.RoundPercentUnique` | src/services/quota-service.ts:335 | any integer within those bounds is the rounded percentage. |
| `Projection.SessionUsedPct` | src/services/quota-service.ts:334-335 | at most 100; exactly 100 once 55 messages are counted; below that the rounded share of 55. |
| `Projection.SessionRemaining` | src/services/quota-service.ts:336 | in [0, 100]; 0 exactly from 55 messages on; 100 exactly with none. |
| `Projection.RemainingAntitone` | src/services/quota-service.ts:335-336 | more messages never leave more quota. |
| `Projection.StatusOf` | src/services/quota-service.ts:354-356 | Critical iff remaining < 10, Warning iff 10 ≤ remaining < 30, Healthy iff remaining ≥ 30. |
| `Projection.StatusByCount` | src/services/quota-service.ts:334-356 | in message counts: Critical from 50 on, Warning from 39 to 49, Healthy below 39. |
| `Projection.CountdownOf` | src/services/quota-service.ts:348-351 | the hours and minutes are the floor of the time to the reset, clamped at zero; minutes lie in [0, 59]. |
| `Projection.CountdownSentinel` | src/services/quota-service.ts:346-352 | the countdown reads `Fully Charged` exactly when nothing was counted, and the reset time then reads `Now`. |
| `Projection.ResetWithinWindow` | src/services/quota-service.ts:338-352 | after a scan that counted something, the reset lies in `(now, now + 4h]`, and the countdown is at most 4h 0m. |
| `Projection.LexLessTotal` | src/services/quota-service.ts:366 | the string order of dates is total. |
| `Projection.LexLessTransitive` | src/services/quota-service.ts:366 | the string order of dates is transitive. |
| `Projection.EarlierDaysIgnored` | src/services/quota-service.ts:365-369 | days before the cutoff add nothing to the weekly sum. |
| `Projection.CutoffMonotone` | src/services/quota-service.ts:365-369 | a later cutoff never gives a larger weekly sum. |
| `Projection.WeeklyMessageCount` | src/services/quota-service.ts:359-370 | the `forEach` sums `messageCount` over the days dated on or after the cutoff, and gives 0 without statistics. |
| `Projection.WeeklyUsedPct` | src/services/quota-service.ts:372-373 | at most 100; exactly 100 from 3980 messages on; below that the rounded share of 4000. |
| `Projection.Distinct` | src/services/quota-service.ts:97 | the result has no duplicates and the same members. |
| `Projection.DistinctKeeps` | src/services/quota-service.ts:97 | a list without duplicates comes through unchanged. |
| `Projection.DistinctPrefix` | src/services/quota-service.ts:97 | de-duplicating a concatenation keeps the de-duplicated first part as its prefix. |
| `Projection.IncludedModels` | src/services/quota-service.ts:86-98 | the list starts with `Sonnet 4.5`, `Opus 4.5`, `Haiku 4.5` in that order and has no duplicates. A name is in it exactly when it is a default or the reading of a used id. |
| `Projection.WithActive` | src/services/quota-service.ts:231-237 | the list is kept as its prefix; a resolved active model not yet listed is appended, and otherwise nothing changes; it adds no duplicates. |
| `Projection.ActiveOrDefault` | src/services/quota-service.ts:383 | the active model is the resolved one, or `Sonnet 4.5` when none was resolved. |
| `Projection.GroupFacts` | src/services/quota-service.ts:375-392 | the projected group has a percentage in [0, 100] and its status is the status of that percentage. Its model list starts with the defaults, has no duplicates and contains the active model. It records the counted messages against the limit 55, and its weekly percentage is at most 100. |
| `Projection.RealtimeQuota` | src/services/quota-service.ts:223-392 | `getRealtimeQuota` returns one group, projected from the model the newest project log names (none without a log), the scan of the history file and the weekly count. |
| `StatusBar.ProgressBar` | src/extension.ts:44-48 | a bar is drawn exactly when the filled count lies in [0, 10]: 10 cells, the first `filled` of them full and the rest empty. |
| `StatusBar.Filled` | src/extension.ts:46 | the filled count is `p/10` rounded half up, stated by its bounds. |
| `StatusBar.BarInRange` | src/extension.ts:44-48 | for a percentage in [0, 100] the filled count lies in [0, 10], filled and empty add up to 10, and the bar is drawn. |
| `StatusBar.FilledMonotone` | src/extension.ts:46 | a larger percentage never fills fewer cells. |
| `StatusBar.ProjectedBarDraws` | src/extension.ts:33-48 | the group `getRealtimeQuota` projects always gives a drawable bar. |
| `StatusBar.StatusText` | src/extension.ts:51-69 | format `percentage` shows exactly `${p}%`. |
| `StatusBar.UnknownFormatIsDefault` | src/extension.ts:51-69 | an unrecognised format shows the same text as `percentage-with-progress`. |
| `StatusBar.FormatShowsPercent` | src/extension.ts:51-67 | every format except `countdown` shows `${p}%`. |
| `StatusBar.UsedLine` | src/extension.ts:78 | without a used count the line reads `Used: 0 msgs`. |
| `StatusBar.TooltipWithoutCount` | src/extension.ts:74-81 | the tooltip then contains `Used: 0 msgs`. |
| `StatusBar.Notify` | src/extension.ts:84-91 | a warning is shown exactly when the quota is low and the flag is down, and the flag afterwards says whether the quota was low. |
| `StatusBar.Warnings` | src/extension.ts:84-91 | a run of updates gives one warning verdict per update. |
| `StatusBar.WarnOnEntry` | src/extension.ts:84-91 | over any run of updates, a warning is shown exactly at an update that finds the quota low when the update before did not (at the first update, when the flag was down). |
| `StatusBar.NeverTwiceInARow` | src/extension.ts:84-91 | two consecutive updates never both warn. |
| `StatusBar.StatusBarController.constructor` | src/extension.ts:5-6 | the flag starts down. |
| `StatusBar.StatusBarController.Update` | src/extension.ts:31-100 | with no group, or a bar that cannot be drawn, nothing changes and nothing is shown. Otherwise the text, the tooltip, the flag and the warning are those of the first group, and the item is shown. |

## Left out

- File access: `existsSync`, `statSync`, `openSync`/`readSync`, the
  project-directory listing and its sort by modification time. Each file
  enters the model as its whole text, or as `None` when it is missing.
- A missing file: `getRealtimeQuota` treats a missing history file as no
  messages and missing statistics as no models used. Both are modelled.
  An exception thrown by the file system itself is not modelled.
- `getLastActiveProjectRoot` and the workspace-folder fallback: the model
  takes the project log's text as given. The path normaliser that links them
  is modelled on its own.
- The 100 KiB tail of the project log: the model reads the lines as given,
  so a first line cut by the tail is just a line that does not parse.
- UTF-8: chunks are cut in characters. A multi-byte character split between
  two chunks is not modelled.
- `JSON.parse` and the untyped shapes: `parse` is a parameter. A record is
  reduced to the fields the code reads, with JavaScript truthiness kept (see
  `log_entry.dfy`).
- The ANSI-stripping expression: `strip` is a parameter.
- Dates: ISO timestamp parsing is folded into the parsed entry's `timestamp`
  field, with 0 for a missing, mistyped or invalid one. A non-integer
  timestamp is not modelled. `getHours`/`getMinutes` formatting is the
  `clock` parameter. The `toISOString` computation of the weekly cutoff is
  the `cutoff` parameter. `Date.now()` is `now`.
- `ActiveModel.OpusSwitch`: the example output in the source comment is
  wrapped in `<local-command-stdout>…</local-command-stdout>`. The lemma
  covers the unwrapped form only. `ActiveModel.FindMatch` takes the first
  position where the expression matches, but no lemma states the result for
  the wrapped form.
- Case folding: the `i` flag and `toUpperCase` are modelled for ASCII letters
  only.
- Floating point: `Math.round` on `count/55·100`, `w/4000·100` and
  `p/100·10` is modelled as exact rounding, half up.
  - Session: `100·c/55 = 20·c/11` is never a half, nor within a rounding
    error of one, so the exact figure is the integer the code computes.
  - Progress bar: the halves at `p = 5, 15, …, 95` are taken as exact halves.
  - Weekly: the products can fall just below a half. For example, 580/4000
    = 0.145 has no exact binary form and its double lies below it, so
    `Math.round` gives 14 where exact rounding gives 15.
  - `Projection.WeeklyUsedPct` therefore states the exact-rounding figure
    and not the double result for a count like that.
- `Projection.IncludedModels`: `Object.keys(modelUsage)` is taken as a given
  sequence of ids. Its enumeration order, insertion order with integer-like
  keys first, is not modelled.
- `ModelName.QuotaModelName` is not idempotent, and no lemma claims it is.
  `ModelName.NotIdempotent` proves that `x-1-2-3` reads as `X 1.2 3`, because
  the global digit-space-digit rewrite does not reuse the `2` it consumed,
  and that `X 1.2 3` then reads as `X 1.2.3`.
- The `Â·` in the marketing-suffix test is a mis-encoded `·`. Given that
  literal, the code would keep the stray `Â` (`Sonnet 4.5 Â`).
  `ModelName.SonnetWithMarketingSuffix` states the intended `·` form.
- `SessionScan.VisitChunk` requires a tally that has not stopped. The loop
  is entered only while the scan has not stopped, so this adds no condition
  beyond the code's own.
- VS Code APIs: `MarkdownString` and its flags, the theme colour, `show()`
  (reduced to the `visible` field), `showWarningMessage` (returned as the
  warning text) and `getConfiguration` (its values are parameters of
  `Update`). The update interval timer and `activate`/`deactivate` are left
  out.
- `src/mcp-server.ts` and the webview panels are presentation and transport
  around the same service, and are not part of this model.

## Findings

| source | as written | input that shows it | evidently intended | confidence | as-written member | corrected member |
|---|---|---|---|---|---|---|
| src/services/quota-service.ts:252-260,324-325 | the chunk size is `min(fileSize, 64K)`, and the loop runs `while (pos >= -bufferSize && !stop)` and steps `pos -= bufferSize` | an existing but empty `history.jsonl`: the chunk size is 0, so `pos` stays 0, the guard `0 >= -0` holds forever, and the loop never ends | an empty file holds no messages, and the scan ends at once with a count of 0 | high by proof, not executed | `SessionScan.EmptyHistoryNeverFinishes` | `SessionScan.ScanHistory` |
