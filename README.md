# sqlplus session driver: a Dafny model

The program in `src/query.go` runs an SQL script through the interactive
`sqlplus` client. It starts `sqlplus user@host` and copies the client's
output into a `bytes.Buffer` (the transcript). It waits for the line
`Enter password:`, writes the password, waits for `SQL>`, and writes the
script. Then it waits for the client to exit and counts the transcript lines
that hold an Oracle (`ORA-`) or SQL*Plus (`SP2-`) error code.

This project models the parts of that file that are logic rather than
process control:

- `transcript.dfy` (module `Transcript`): the transcript buffer as a class
  with a byte sequence and a read offset, and `ReadString('\n')` with Go's
  semantics. A read returns up to and including the next `'\n'`. When there
  is no `'\n'`, it returns the rest of the buffer together with EOF. Either
  way the bytes are consumed. `Lines(s)` is the list of chunks that
  successive reads return; the lemmas say it splits `s` exactly and has one
  chunk more than `s` has `'\n'` bytes.
- `errorscan.dfy` (module `ErrorScan`): `check_for_errors`. The regular
  expression `(ORA|SP2)-[0-9]+:` is stated as a predicate, `MatchesPattern`.
  A hand-written matcher, `HasErrorCode`, is proved to decide it.
  `CheckForErrors` is the loop itself, proved against the counting
  specification `CountErrors`.
- `promptscan.dfy` (module `PromptScan`): the line test inside
  `wait_for_string`. Chunks are read in order, and the wait stops at the
  first chunk that starts with the prompt.
- `settings.dfy` (module `Settings`): the rules in `main` that work on plain
  values. Four settings are required. An empty executable path defaults to
  `sqlplus`. The client's argument is `user@host`. The error count is
  reported as "N error(s) occurred during SQL execution".
- `session.dfy` (module `Session`): `main` as one sequential pass that uses
  the pieces above on a single transcript buffer.
- `wrappers.dfy`: `Option` and `Result`.

Points where the code's behaviour is easy to misread:

- The pattern is not anchored, so an error code anywhere in a line counts:
  `foo ORA-1234: bar` counts (`ErrorScan.TestMidLine`).
- `check_for_errors` receives `buf_output` by value, after both prompt waits
  have read from it. It therefore scans only what the waits left unread,
  followed by the script's output, not the whole transcript from the start
  (`Session.OnlyScriptOutputScanned`).
- In the table of `src/query_test.go`, each name comes before its input. The
  "empty" case therefore scans the text `empty input`. `ErrorScan.TestEmpty`
  covers that text and the real empty buffer.

The client's output is supplied as three parameters. `login` is what the
client prints before the password is written. `connected` is what it prints
from then until the script is written. `output` is what it prints while
running the script. How `sqlplus.Wait()` ends is a parameter too. Each
prompt wait reads everything that has arrived so far; when the prompt is not
among it, the source's time-out fires.

## Model

| member | source | states |
|---|---|---|
| `Transcript.IndexOfNewline` | src/query.go:167 | the position of the first `'\n'`: it holds `'\n'`, and no earlier byte does; the length of the buffer when there is none |
| `Transcript.Lines` | src/query.go:166-179 | the chunks successive ReadString calls return, through the call that reports EOF (so there is always at least one): the first runs through the first `'\n'`, the rest are the chunks of what follows; with no `'\n'` the whole buffer is the one EOF chunk |
| `Transcript.LinesFlatten` | src/query.go:166-179 | the chunks that successive ReadString calls return, joined together, are exactly the buffer |
| `Transcript.LinesShape` | src/query.go:167-177 | every chunk except the last ends with its only `'\n'`; the last chunk (possibly empty) has no `'\n'` |
| `Transcript.LinesCount` | src/query.go:166-179 | the number of chunks read is the number of `'\n'` bytes plus one |
| `Transcript.LinesOfTerminated` | src/query.go:167 | if a buffer is complete lines followed by an unterminated tail, the chunks read are exactly those lines and then the tail; this is the only way to cut a buffer into chunks |
| `Transcript.LinesOfLine` | src/query.go:167 | a complete line at the front of the buffer is the first chunk read |
| `Transcript.LinesAfterRead` | src/query.go:166-179 | one read leaves a shorter buffer that reads back as the remaining chunks, or nothing after the last chunk |
| `Transcript.FlattenAppend` | src/query.go:166-179 | joining chunks distributes over concatenation |
| `Transcript.Buffer.constructor` | src/query.go:63 | a new buffer has nothing unread |
| `Transcript.Buffer.Clone` | src/query.go:121 | a buffer passed by value is a copy with the same bytes and its own read offset |
| `Transcript.Buffer.Write` | src/query.go:63-65 | the written bytes are appended to the unread bytes |
| `Transcript.Buffer.ReadString` | src/query.go:141-142 | returns the first chunk; signals EOF exactly when no `'\n'` was unread; leaves the remaining chunks unread |
| `ErrorScan.DigitsEnd` | src/query.go:165 | the end of the run of ASCII digits that starts at `k` |
| `ErrorScan.MatchesPattern` | src/query.go:165 | the regular expression of the scan as a predicate: at some position `ORA-` or `SP2-`, then one or more ASCII digits, then `:`, anywhere in the line |
| `ErrorScan.HasErrorCode` | src/query.go:172 | the executable stand-in for `r.MatchString(line)`, a left-to-right scan over candidate positions; `HasErrorCodeCorrect` proves it decides `MatchesPattern` |
| `ErrorScan.ErrorCodeAtCorrect` | src/query.go:165 | the matcher's test at one position holds exactly when the pattern occurs there |
| `ErrorScan.HasErrorCodeFromCorrect` | src/query.go:165 | scanning from position `i` finds an occurrence exactly when one starts at or after `i` |
| `ErrorScan.HasErrorCodeCorrect` | src/query.go:165-172 | the hand-written matcher decides the unanchored pattern (`ORA-` or `SP2-`, one or more digits, a colon), in both directions |
| `ErrorScan.CheckForErrors` | src/query.go:163-181 | reads a copy of the buffer chunk by chunk, testing the last chunk too, and returns the number of chunks in which the pattern occurs; the caller's buffer is not touched |
| `ErrorScan.CountErrors` | src/query.go:163-181 | the specification of the scan: the number of ReadString chunks of the unread bytes in which the pattern occurs |
| `ErrorScan.CountErrorsStep` | src/query.go:166-177 | the count is the first chunk's share plus the count of what one read leaves, unless that chunk was the last; a further read always has less left |
| `ErrorScan.ScanTwice` | src/query.go:163-167 | scanning the same buffer twice gives the same count |
| `ErrorScan.CountMatchingAppend` | src/query.go:164-179 | the count over two runs of chunks is the sum of their counts |
| `ErrorScan.CountMatchingStep` | src/query.go:172-174 | reading one more chunk adds one if the pattern occurs in it, zero otherwise |
| `ErrorScan.CountMatchingIsCardinality` | src/query.go:172-174 | the count is the number of chunk positions in which the pattern occurs |
| `ErrorScan.CountErrorsIsLineCount` | src/query.go:164-180 | a line counts exactly when the pattern occurs in it, and each line counts once |
| `ErrorScan.CountMatchingBound` | src/query.go:172-174 | each chunk adds at most one |
| `ErrorScan.CountErrorsBound` | src/query.go:166-179 | the count never exceeds the number of `'\n'` bytes plus one |
| `ErrorScan.OccurrenceHasNoNewline` | src/query.go:165 | no byte of an occurrence is a `'\n'` |
| `ErrorScan.MatchesInfix` | src/query.go:165 | an occurrence inside a piece of a text is an occurrence in the text |
| `ErrorScan.MatchesOfLine` | src/query.go:165-172 | an occurrence in a chunk is an occurrence in the buffer |
| `ErrorScan.MatchInSomeLine` | src/query.go:165-172 | an occurrence in the buffer lies within one chunk |
| `ErrorScan.CountErrorsZeroIff` | src/query.go:164-180 | the count is 0 exactly when the pattern occurs nowhere in the scanned bytes; an empty buffer gives 0 |
| `ErrorScan.MatchesWithNewline` | src/query.go:167-172 | the `'\n'` that ends a chunk never changes whether it matches |
| `ErrorScan.SplitLast` | src/query.go:167-177 | a buffer is its complete lines followed by its unterminated last chunk |
| `ErrorScan.LinesOfJoin` | src/query.go:167-177 | joining two buffers with a `'\n'` ends the first one's last chunk and is followed by the second one's chunks |
| `ErrorScan.JoinCount` | src/query.go:164-180 | two transcripts joined by a `'\n'` count as the sum of their counts |
| `ErrorScan.CountErrorsConcat` | src/query_test.go:22 | two transcripts joined by a `'\n'` count as the sum of their counts, in either order |
| `ErrorScan.CountMatchingPermutation` | src/query.go:164-180 | any reordering of the chunks gives the same count |
| `ErrorScan.CountErrorsReorder` | src/query.go:164-180 | reordering the complete lines of a transcript leaves its count unchanged |
| `ErrorScan.TestEmpty` | src/query_test.go:18 | the empty buffer and the text `empty input` count 0 |
| `ErrorScan.TestNoErrors` | src/query_test.go:19 | `no errors at all` counts 0 |
| `ErrorScan.TestOra` | src/query_test.go:20 | `ORA-1234: some error` counts 1 |
| `ErrorScan.TestSp2` | src/query_test.go:21 | `SP2-1234: some error` counts 1 |
| `ErrorScan.TestSp2Other` | src/query_test.go:22 | `SP2-0000: some other error` counts 1 |
| `ErrorScan.TestMultiple` | src/query_test.go:22 | `ORA-1234: some error\nSP2-0000: some other error` counts 2; the unterminated last line is examined |
| `ErrorScan.TestMidLine` | src/query.go:165 | an error code in the middle of a line counts |
| `ErrorScan.NoErrorCode` | src/query.go:165 | a text without the letters `O` and `S` counts 0 |
| `ErrorScan.SingleErrorLine` | src/query.go:165-177 | one line without `'\n'` that holds an error code counts 1 |
| `PromptScan.FirstPrefixed` | src/query.go:148-151 | the index of the first chunk that starts with the needle: it matches and no earlier chunk does; none exactly when no chunk matches |
| `PromptScan.HasPrefix` | src/query.go:148 | `strings.HasPrefix`: the chunk begins with the needle |
| `PromptScan.PromptSeen` | src/query.go:140-151 | the wait succeeds exactly when some chunk of the buffer begins with the needle |
| `PromptScan.Unconsumed` | src/query.go:140-151 | what the wait leaves unread: the chunks after the first matching one, or nothing when none matches |
| `PromptScan.FirstPrefixedAppend` | src/query.go:140-151 | on more chunks, the result is the first match in the earlier chunks, if any; otherwise the first match in the later ones |
| `PromptScan.NoLaterChunkInspected` | src/query.go:140-151 | chunks after the first match never change the result |
| `PromptScan.PromptOnUnterminatedLine` | src/query.go:141-148 | a prompt printed without a trailing `'\n'` is found as the final chunk read with EOF |
| `PromptScan.PromptConsumesAll` | src/query.go:141-151 | a wait that ends on a prompt printed as the unterminated last line consumes the whole buffer |
| `PromptScan.FirstPrefixedTail` | src/query.go:148-151 | past a chunk that does not match, the search result is decided by the chunks after it |
| `PromptScan.WaitForString` | src/query.go:140-151 | reads chunks until one starts with the needle; reports exactly whether one does; consumes through that chunk, or everything when none matches |
| `PromptScan.WaitStep` | src/query.go:141-151 | one read of the wait either stops on a matching chunk, gives up on the last chunk, or leaves a shorter buffer with the same verdict and the same leftover |
| `Settings.SqlplusPath` | src/query.go:39-42 | the executable path is never empty: a set path is kept, an empty one becomes `sqlplus` |
| `Settings.LoadConfig` | src/query.go:35-56 | succeeds exactly when host, user, password and query are all non-empty, with a valid config carrying those values and the defaulted path; otherwise reports the first empty one in the order host, user, password, query |
| `Settings.ConnectString` | src/query.go:59 | `user + "@" + host`: the user, then `@`, then the host, each at its fixed position |
| `Settings.ClientArgs` | src/query.go:59 | the command is the executable path (never empty for a valid config) with the one argument `user@host`, which splits back into the user and the host when the user has no `@` |
| `Settings.SplitConnect` | src/query.go:59 | splitting at the first `@` gives the text before it (free of `@`) and after it |
| `Settings.ConnectStringRoundTrip` | src/query.go:59 | when the user name has no `@`, the argument `user@host` splits back into the user and the host |
| `Settings.Decimal` | src/query.go:126 | `%d` of the count: a non-empty run of digits with no leading zero |
| `Settings.DecimalRoundTrip` | src/query.go:126 | reading the digits back gives the count |
| `Settings.LeadingDigitsOf` | src/query.go:126 | the digit run at the front of a message is the whole formatted number |
| `Settings.ErrorNoun` | src/query.go:122-125 | "error" exactly when the count is 1, "errors" otherwise |
| `Settings.ErrorSummary` | src/query.go:126 | the `Fatalf` text `%d %s occurred during SQL execution` with the count and its noun |
| `Settings.ScanVerdict` | src/query.go:121-128 | success exactly when the count is 0; otherwise the failure carries the message built by `ErrorSummary` |
| `Settings.ErrorSummaryCarriesCount` | src/query.go:126 | the failure message begins with the count, which can be read back from it |
| `Settings.ErrorSummaryInjective` | src/query.go:126 | different counts give different messages |
| `Settings.ReportOneError` | src/query.go:121-127 | count 0 is success; count 1 is `1 error occurred during SQL execution` |
| `Settings.ReportTwoErrors` | src/query.go:121-127 | count 2 is `2 errors occurred during SQL execution` |
| `Session.Run` | src/query.go:30-130 | the sequential handshake: validate, wait for the password prompt, wait for the SQL prompt, check the exit, scan what the waits left unread plus the script output; its outcome is `SessionOutcome` |
| `Session.SessionOutcome` | src/query.go:30-130 | the outcome of main in its order of fatal exits: a missing setting, the password-prompt time-out, the SQL-prompt time-out, the finish time-out, a failed stop, then the error scan |
| `Session.FinishedIff` | src/query.go:44-128 | the run finishes exactly when the settings are complete, both prompts appear, the client exits with status 0, and no error code occurs in the scanned bytes |
| `Session.ScriptErrorsReportCount` | src/query.go:121-127 | a failed scan reports a non-zero count, the matching message, and a scanned text in which the pattern occurs |
| `Session.OnlyScriptOutputScanned` | src/query.go:82-121 | when each prompt is printed as an unterminated last line, the scan sees exactly the script's output; nothing printed during login is counted |
| `Session.NoPasswordPromptTimesOut` | src/query.go:80-86 | with the settings valid and no chunk starting with `Enter password:`, the run ends in the password-prompt time-out |

## Left out

- Starting the client, `StdinPipe`, and writing the password and script to its input (src/query.go:59-78, 90, 106-107): these are process I/O. The model has no input stream, so it cannot state that the password is written only after the prompt. The order of the steps in `Session.Run` shows it. `Session.Run` therefore does not build the command line; `Settings.ClientArgs` states what it would be.
- Goroutines, channels, `time.After` (20 s, 20 s and 5 s) and the 100 ms `time.Sleep` poll (src/query.go:110-119, 138-160): these are timing and concurrency. Each wait is one pass over what has arrived, and a prompt that is not there stands for the time-out firing.
- The concurrent `io.MultiWriter` copy into the buffer while the wait reads it (src/query.go:63-65): sharing a buffer under concurrent access is not modelled. Each installment of output is taken to be complete before the wait reads it. So the model does not capture that a line read in two parts (the first part consumed at EOF) would be tested as two separate chunks.
- Reading the environment (src/query.go:35-39): the five variables are the fields of `Settings.Env`.
- Logging through go-log, the echo of the script lines, and `write_empty_line` (src/query.go:25, 32, 74, 81, 93, 102-105, 128, 133-135): these are library calls and output.
- Go's `regexp` engine: the fixed pattern has a hand-written matcher. The pattern is all ASCII, so matching bytes agrees with Go's UTF-8 matching.
- The non-EOF read errors in `check_for_errors` and `wait_for_string` (src/query.go:144-146, 168-170): they cannot occur for an in-memory buffer.
- `Session.Run`: errors from `sqlplus.Wait()` other than a non-zero exit status (for example a failed output copy) are not modelled. The process exit codes that go-log's `Fatal` produces are shown as `Outcome` values.
- The `uint` width of the counter: the count never exceeds the number of `'\n'` plus one (`ErrorScan.CountErrorsBound`), so it cannot wrap.
