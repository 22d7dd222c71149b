# RGBDS diagnostics language server — Dafny model

The server validates Game Boy assembly projects built with RGBDS. When a
document is opened or edited, or when the client pulls diagnostics, it runs
one of two commands in the workspace root:

- `make clean -s && make -s` when the root has a `Makefile`;
- otherwise `rgbasm -Weverything -o /dev/null <file>`.

It joins the command's stdout and stderr with a newline and parses the
result into LSP diagnostics for the current file. The parser does four
things:

- It drops blank lines.
- It looks on every line for `error:`/`warning:` followed by
  `file(line):` and an optional message.
- It takes the message from the next line when the first line has none and
  the next line is indented by at least four whitespace characters.
- It keeps only reports whose normalized file name the file's
  workspace-relative path ends with.

Each diagnostic covers the whole reported line: from column 0 to column
999, at the reported line number minus one. It is tagged `rgbasm`. A report
without a message reads `Unknown <severity> reported by rgbasm.`.

Edits go through one debounced validator with a 500 ms delay.

The model has five modules:

- `Text` covers JavaScript's string operations the parser relies on:
  - `split("\n")`, proved to be inverse to joining with `"\n"`;
  - `trim()` with JavaScript's whitespace set;
  - the blank-line filter;
  - `endsWith`;
  - the decimal value of a digit string.
- `Patterns` handles the two regular expressions.
  - Each is given as a reference predicate on positions.
  - Each also has the function that picks the match the JavaScript engine
    reports. That means the leftmost start, the greedy `\s*`, the lazy file
    part and the greedy message. Both are proved to agree.
- `Parser` holds `parseRgbdsOutput`.
  - `Scan`, `Accepted` and `Diagnostics` specify it on values.
  - `ParseRgbdsOutput` is the source's index loop, with the manual skip over
    a consumed continuation line. It is proved to compute exactly `Parse`.
  - The loop advances `i` at the end of each branch rather than once in the
    `for` header. The effect is the same.
- `Debounce` holds `debounce`.
  - It is a trace semantics (`Step`/`Run` over calls and timer ticks) with
    its properties.
  - `Debouncer` is a class whose single slot the methods update in place.
- `Server` covers the rest:
  - `uriToPath` with the win32 drive-letter rule;
  - the workspace-root check and the command choice;
  - the joined output;
  - `runRgbdsDiagnostics`;
  - the pull-diagnostics handler;
  - the wiring of the shared validator.

Edits to different documents are not independent. The code creates one
debounced function (`server/src/server.ts:100-107`) and calls it for every
document (`server/src/server.ts:110-112`). So an edit to a second document
within 500 ms cancels the pending validation of the first.
`Server.SharedValidatorDropsEarlierDocument` proves this.

The host environment enters as parameters (`Server.Host`):

- URL decoding (`decodeURIComponent(new URL(uri).pathname)`);
- `path.normalize` and `path.relative`;
- the platform test;
- whether `<root>/Makefile` exists;
- what running a command printed (`run: Command -> ExecResult`).

## Model

| member | source | states |
|---|---|---|
| Text.WhitespaceEndSpec | server/src/server.ts:163 | the end of a whitespace run from i: everything before it is whitespace, and the character after it is not (greedy `\s*`) |
| Text.RestEndSpec | server/src/server.ts:163 | the end of `.*` from i: no line terminator before it, and it stops at a terminator or the end of the line |
| Text.DigitsEndSpec | server/src/server.ts:163 | the end of a digit run from i: all digits before it, and a non-digit or the end after it (greedy `\d+`) |
| Text.TrimBounds | server/src/server.ts:175 | `trim()` returns the slice between a leading and a trailing whitespace run, and it neither starts nor ends with whitespace |
| Text.TrimSpec | server/src/server.ts:159 | the trimmed string is empty exactly when the string is all whitespace; otherwise neither end is whitespace; it is a slice of the string between whitespace runs |
| Text.Trim | server/src/server.ts:159 | `trim()` never lengthens a string (TrimBounds and TrimSpec give its exact result) |
| Text.SplitLines | server/src/server.ts:159 | `split("\n")` always returns at least one piece |
| Text.JoinSplit | server/src/server.ts:159 | joining the pieces of `split("\n")` with `"\n"` gives back the string |
| Text.SplitJoin | server/src/server.ts:159 | splitting a join of newline-free pieces gives back the pieces |
| Text.SplitAround | server/src/server.ts:144 | splitting `a + "\n" + b` gives the pieces of a followed by the pieces of b |
| Text.NonBlankLines | server/src/server.ts:159 | the filter never lengthens the list |
| Text.NonBlankLinesSpec | server/src/server.ts:159 | `filter(line => line.trim().length > 0)` keeps exactly the pieces that are not all whitespace |
| Text.NonBlankAppend | server/src/server.ts:159 | the blank-line filter distributes over concatenation |
| Text.BlankFiltered | server/src/server.ts:159 | a whitespace-only text leaves no line after split and filter |
| Text.EndsWith | server/src/server.ts:192 | every string ends with the empty string, and a suffix is never longer than the string |
| Text.EndsWithSpec | server/src/server.ts:192 | `endsWith` holds exactly when the last characters of the string are those of the suffix, one by one, i.e. the string is some text followed by the suffix |
| Text.DecimalValue | server/src/server.ts:196 | the value of a digit string (what `parseInt(s, 10)` returns for it) is below 10 to the power of its length |
| Patterns.GreedyRestEnds | server/src/server.ts:163 | greedy `\s*(.*)` from any position stops at the first non-space and then at the first line terminator |
| Patterns.LineRefEnd | server/src/server.ts:163 | a `(digits):` group found at j has at least one digit and fits in the line |
| Patterns.LineRefEndSpec | server/src/server.ts:163 | `\((\d+)\):` at j is found exactly when the line has such a group there |
| Patterns.FileEnd | server/src/server.ts:163 | the group found for the lazy file part lies at or after the start position and within the line |
| Patterns.FileEndSpec | server/src/server.ts:163 | the lazy `(.*?)` stops at the first `(digits):` group and crosses no line terminator; when none is reachable there is no match |
| Patterns.MaximalWhitespace | server/src/server.ts:163 | backtracking into the first `\s*` never yields another match: the full whitespace run is used |
| Patterns.KeywordUnique | server/src/server.ts:163 | at most one of `error:`/`warning:` starts at a position |
| Patterns.MatchWith | server/src/server.ts:163 | a match found at p starts at p, and all its positions fit in the line |
| Patterns.MatchWithSpec | server/src/server.ts:163 | for a given keyword at p, the engine's match is found when one exists, and none is claimed otherwise |
| Patterns.MatchWithFound | server/src/server.ts:163 | the match found covers the keyword, greedy whitespace, the shortest file part and the line group |
| Patterns.MatchAt | server/src/server.ts:163 | trying start position p: a match starts at p and fits in the line |
| Patterns.MatchAtSpec | server/src/server.ts:163 | at position p, the engine's match is returned exactly when some match of the pattern starts there |
| Patterns.FindFrom | server/src/server.ts:171 | scanning start positions from p: a match found starts at or after p and fits in the line |
| Patterns.FindFromChoice | server/src/server.ts:171 | the match found from p is the engine's choice at its start |
| Patterns.FindFromLeftmost | server/src/server.ts:171 | no match starts between p and the match found |
| Patterns.FindFromNone | server/src/server.ts:171 | when nothing is found from p, no match starts at or after p |
| Patterns.FindPrimary | server/src/server.ts:171 | the reported match fits in the line |
| Patterns.FindPrimarySpec | server/src/server.ts:171 | `line.match(singleLineRegex)` is null exactly when the pattern matches nowhere; otherwise it is the leftmost match with the engine's choices |
| Patterns.Captures | server/src/server.ts:174 | the severity group is the keyword matched |
| Patterns.MatchPrimary | server/src/server.ts:171-174 | a match has severity `error` or `warning` and at least one line-number digit (MatchPrimarySpec gives the rest) |
| Patterns.CapturesSpec | server/src/server.ts:174 | the groups are `error`/`warning`, one or more digits, and a file part and a message that contain no line terminator and, when non-empty, start on a non-space |
| Patterns.MatchPrimarySpec | server/src/server.ts:171-174 | a line's match is absent exactly when the pattern matches nowhere; when present, its groups are well formed |
| Patterns.MatchContinuation | server/src/server.ts:181 | a continuation capture leaves at least the four indentation characters of the line unused (MatchContinuationSpec gives the exact capture) |
| Patterns.ContinuationFromEnd | server/src/server.ts:167 | the recursive reading of `^\s{4,}(.*)` agrees with the greedy whitespace run followed by `.*` |
| Patterns.MatchContinuationSpec | server/src/server.ts:181 | `lines[i + 1].match(messageOnlyRegex)` succeeds exactly when the line starts with four whitespace characters; the capture is the text after the whole run, up to a line terminator |
| Patterns.ContinuationHasText | server/src/server.ts:184 | on a non-blank line, a continuation match captures text whose trim is non-empty |
| Parser.OutputLines | server/src/server.ts:159 | the lines scanned are never blank and hold no newline |
| Parser.ToDiagnostic | server/src/server.ts:196-215 | severity Error exactly for `error`; the range is columns 0 to 999 on line number minus one; source `rgbasm`; the message is the final message, or `Unknown <severity> reported by rgbasm.` when that is empty, so it is never empty |
| Parser.Accepted | server/src/server.ts:189-194 | the file filter never adds entries |
| Parser.Diagnostics | server/src/server.ts:201-215 | one diagnostic per accepted entry |
| Parser.Scan | server/src/server.ts:169-187 | the reference reading of the loop: the primary matches of lines[i..] in order, with the next line consumed when the first message is empty and the next line is a continuation (no contract of its own; ScanEntries, ScanOrdered, ScanComplete and ScanCount state its properties) |
| Parser.ScanEntries | server/src/server.ts:169-187 | every scanned entry comes from a line with a primary match, with the trimmed first-line message, or the trimmed continuation when the first is empty and the next line is indented by four or more |
| Parser.ScanOrdered | server/src/server.ts:169-187 | entries come in line order, and a consumed continuation line is never the primary line of another entry |
| Parser.ScanStep | server/src/server.ts:169-187 | a primary line yields one entry, and the scan resumes after its last line |
| Parser.NoEntryStep | server/src/server.ts:171-173 | a line without a primary match yields nothing |
| Parser.ScanAdvance | server/src/server.ts:175-187 | one loop step: the message is the trimmed first message, or the trimmed continuation with the next line consumed (`i++`) |
| Parser.DiagnosticsSnoc | server/src/server.ts:189-215 | one more entry adds its diagnostic exactly when its normalized file is a suffix of the relative path |
| Parser.DiagnosticsAt | server/src/server.ts:201-215 | the n-th diagnostic is the conversion of the n-th accepted entry |
| Parser.AcceptedMembers | server/src/server.ts:189-194 | the filter keeps exactly the entries whose normalized file the relative path ends with |
| Parser.AcceptedOrdered | server/src/server.ts:189-194 | the filter keeps line order |
| Parser.Parse | server/src/server.ts:152-220 | no more diagnostics than scanned lines |
| Parser.ParseSpec | server/src/server.ts:152-220 | the result is one diagnostic per accepted entry, in line order; each entry follows the matching and stitching rule and passes the file filter |
| Parser.ParseFields | server/src/server.ts:201-215 | every diagnostic has source `rgbasm`, a non-empty message, and columns 0 to 999 on a single line |
| Parser.ScanComplete | server/src/server.ts:169-187 | every line with a primary match yields an entry, unless it was consumed as the continuation of the entry before it |
| Parser.PrimaryCount | server/src/server.ts:171 | the number of matching lines is at most the number of lines |
| Parser.PrimaryCountMonotone | server/src/server.ts:171 | fewer lines never hold more primary matches |
| Parser.ScanCount | server/src/server.ts:169-187 | there are no more entries than lines with a primary match |
| Parser.ParseCount | server/src/server.ts:159-220 | there are at most as many diagnostics as non-blank lines with a primary match |
| Parser.StitchedMessage | server/src/server.ts:180-187 | a message taken from a continuation line is never empty, so the fallback appears only when no continuation follows |
| Parser.BlankOutput | server/src/server.ts:159 | output made only of whitespace leaves no lines and no diagnostics |
| Parser.BlankPieceIgnored | server/src/server.ts:159 | a whitespace-only piece between two parts of the text leaves the filtered pieces unchanged |
| Parser.BlankLineIgnored | server/src/server.ts:159 | a whitespace-only line inside the output changes nothing, so it never separates a report from its continuation |
| Parser.ParseRgbdsOutput | server/src/server.ts:152-220 | the index loop with its manual skip computes exactly `Parse` of the non-blank lines |
| Debounce.Step | server/src/server.ts:34-44 | one event only appends to the runs of `func`, and appends one exactly on a tick at which the pending invocation is due |
| Debounce.Run | server/src/server.ts:29-45 | `func` runs at most once per event |
| Debounce.CallCount | server/src/server.ts:29-45 | no more calls than events |
| Debounce.LastCall | server/src/server.ts:29-45 | the index found is a call and only ticks follow it; no index means the events hold no call |
| Debounce.FiresAtMostCalls | server/src/server.ts:29-45 | runs so far plus pending invocations never exceed the number of calls |
| Debounce.SlotHoldsLatestCall | server/src/server.ts:35-44 | a pending invocation carries the latest call's arguments, due `wait` after that call |
| Debounce.TickFiresLatestCall | server/src/server.ts:36-39 | a tick runs `func` exactly when the pending invocation is due; it then uses the latest call's arguments and clears the slot; otherwise nothing changes |
| Debounce.CallReplacesPending | server/src/server.ts:40-43 | a call cancels the pending invocation, schedules a new one at now + wait, and runs nothing |
| Debounce.QuietUntilDeadline | server/src/server.ts:40-43 | ticks before the deadline of the latest call run nothing |
| Debounce.FiresAfterQuietPeriod | server/src/server.ts:29-45 | after a quiet period, exactly one run with the last call's arguments, and the slot is empty again |
| Debounce.BurstFiresNothing | server/src/server.ts:40-43 | calls with every tick before the deadline of the latest call preceding it run `func` never |
| Debounce.BurstFiresOnce | server/src/server.ts:29-45 | such a burst followed by a tick past the last call's deadline runs `func` exactly once, with the last call's arguments, and leaves nothing pending |
| Debounce.SlotEmptyOnlyWithoutCall | server/src/server.ts:36-43 | if `func` never ran and nothing is pending, there was no call |
| Debounce.SpacedCallsFireEach | server/src/server.ts:29-45 | calls each followed by a tick past their own deadline run `func` once per call, with each call's arguments, in order, and leave nothing pending |
| Debounce.Debouncer.constructor | server/src/server.ts:33 | a new debouncer has nothing pending |
| Debounce.Debouncer.Call | server/src/server.ts:34-44 | the slot afterwards holds this call's arguments, due at now + wait, as `Step` prescribes |
| Debounce.Debouncer.Tick | server/src/server.ts:36-39 | when due, returns the pending arguments and clears the slot; otherwise returns nothing and changes nothing; agrees with `Step` |
| Server.StripDriveSlash | server/src/server.ts:52-58 | the path changes exactly on win32 for a path of the form `/X:/`; then only the leading slash is dropped and the result is drive-rooted; on win32 no drive slash remains |
| Server.UriToPath | server/src/server.ts:47-61 | the normalized decoded path, taken from the second character when on win32 with a drive slash, otherwise whole |
| Server.SelectCommand | server/src/server.ts:117-136 | no command exactly when the root is missing or empty; it runs in the root; it is the make command exactly when a Makefile exists, otherwise the rgbasm prefix followed by the file path |
| Server.CombinedOutput | server/src/server.ts:144 | the text is stdout, one newline, then stderr |
| Server.CombinedLines | server/src/server.ts:144 | the lines of `stdout + "\n" + stderr` are the lines of stdout followed by those of stderr |
| Server.DiagnosticsFor | server/src/server.ts:114-150 | no root gives no diagnostics; every diagnostic is tagged `rgbasm`, has a non-empty message and spans columns 0 to 999 |
| Server.StreamOrder | server/src/server.ts:136-145 | diagnostics are parsed from stdout's lines followed by stderr's, whether or not the command failed |
| Server.SilentCommand | server/src/server.ts:144-145 | a command that prints only whitespace gives no diagnostics |
| Server.RunRgbdsDiagnostics | server/src/server.ts:114-150 | no root gives no command and no diagnostics; otherwise the selected command's joined output parsed for the relative path |
| Server.HandleDiagnosticRequest | server/src/server.ts:81-97 | the report is always Full, never Unchanged; it is empty for a document that is not open, and otherwise holds that document's diagnostics |
| Server.OnDidChangeContent | server/src/server.ts:110-112 | every edit, of any document, replaces the one pending validation with its own, due 500 ms later |
| Server.OnValidatorTimer | server/src/server.ts:100-107 | when due, the slot clears and the diagnostics of the latest edited document are published for it; otherwise nothing happens |
| Server.SharedValidatorDropsEarlierDocument | server/src/server.ts:100-112 | an edit to document b less than 500 ms after an edit to a, with the timer checked only before b's edit and before b's deadline, then once after it: only b is validated, and a never is |

## Left out

- The VS Code client (`client/src/extension.ts`) is not part of this model.
- `onInitialize` and its capabilities are not modelled. The workspace root
  it sets is an input (`root: Option<string>`).
- `documents.listen` and `connection.listen` are not modelled.
- Logging is not modelled.
- The `sendDiagnostics` that clears a document before each run
  (`server/src/server.ts:121-124`) is not modelled. It is an LSP
  notification with no effect on the result. The later publication on the
  push path is the value `Server.OnValidatorTimer` returns.
- `exec` is the parameter `run`. The source reads the error it reports
  only to log it (`server/src/server.ts:138-142`); that logging is not
  modelled, so the failure flag is carried but unused. `fs.existsSync(path.join(root, "Makefile"))`
  is the boolean `makefileExists`.
- `new URL`, `decodeURIComponent`, `path.normalize` and `path.relative` are
  abstract host functions. Their own behaviour is not modelled, including
  the exceptions they can throw on malformed input.
- Asynchrony, concurrency and real timers are not modelled.
  - Timers are explicit `Tick` events with integer milliseconds.
  - Overlapping runs of the command, and the order in which their promises
    resolve, are not modelled.
- Parser.ToDiagnostic: `parseInt` on a digit string is modelled as the
  exact decimal value. JavaScript loses precision above 2^53, and that loss
  is not modelled. A reported line 0 gives line index -1 in both the source
  and the model.
- The `document` parameter of `parseRgbdsOutput` is not modelled; the
  source never reads it.
- The `this` context that `debounce` forwards to `func` is not modelled.
- Strings are sequences of Unicode characters, not UTF-16 code units.
  Surrogate pairs count as one character.
