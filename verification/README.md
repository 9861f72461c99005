# Serial capture session of tinyml4all, modelled in Dafny

`tinyml4all` records sensor data that a microcontroller prints over a USB
serial line. A `CaptureUSB` session is set up fluently. `capture_usb("10s")`
sets the duration, `.from_port(port)` the port and baudrate, `.with_names("t, h")`
the column names, and `.to_file("data.csv")` the destination CSV file, after
asking whether to wipe an existing file. `.run()` then:

- checks the configuration;
- decides whether the file needs a header line;
- opens the port and the file;
- reads lines until the deadline.

Every non-blank line that decodes as UTF-8 is written after a timestamp. A line
with the wrong number of comma-separated values ends the run with an
assertion error. `as_list_of_strings` turns a comma-separated string into a
list of stripped, non-blank tokens. It parses both the column names and every
incoming line.

The model has six modules:

- `Wrappers` (`wrappers.dfy`): `Option` and `Result`.
- `Seqs` (`seqs.dfy`): general facts about sequences used by the proofs.
- `Text` (`text.dfy`): the Python string operations the session relies on.
  These are `str.strip` with Python's whitespace set, `str.split` on one
  character, `str.join`, and the UTF-8 byte size of a text. The module proves
  that split and join invert each other.
- `Typing` (`typing.dfy`): `as_list_of_strings` as a function on
  `Str(text) | List(items)`. It proves which tokens it keeps and in what order,
  that it is idempotent, and that a comma-joined clean list round-trips.
- `Acquisition` (`acquisition.dfy`): the `while now < timeout` loop of `run`.
  Serial reads and clock readings become a finite list of events. The loop is
  a fold over those events, giving the rows written, the counter, the progress
  deltas and why it stopped. The method `Acquire` is the same loop written
  imperatively and is proved equal to the fold.
- `CaptureUsb` (`capture_usb.dfy`): the configuration record, the fluent
  setters, `to_file` over a map-shaped file system, the assertions of `run`,
  and `run` in two versions. `RunAsWritten` is `run` exactly as the code has
  it. `Run` is `run` with its header decision corrected (see "## Findings"),
  and the rest of the model builds on it. Both report the final file system,
  whether a header was written, the rows, the counter and the outcome, and
  they differ only in the header.

Time is a natural number of milliseconds, and `int(time())` is the whole
second `t / 1000`. The deadline is `start + 1000 * duration`.

## Model

| member | source | states |
|---|---|---|
| Typing.AsListOfStrings | tinyml4all/typing.py:8-17 | a string yields only clean tokens (non-empty, trimmed, comma-free), at most one more than its commas; a list comes back unchanged |
| Typing.Clean | tinyml4all/typing.py:15 | the comprehension never lengthens the list and keeps only non-empty, trimmed tokens |
| Typing.CleanNoComma | tinyml4all/typing.py:15 | stripping and filtering comma-free pieces leaves comma-free tokens |
| Typing.CleanKeepsOrder | tinyml4all/typing.py:15 | the kept tokens are a subsequence of the stripped pieces in their original order, one fewer for every blank piece |
| Typing.StringOrderKept | tinyml4all/typing.py:14-15 | parsing a string lists its non-blank comma-separated pieces, stripped, left to right, dropping exactly the blank ones |
| Typing.CleanOfClean | tinyml4all/typing.py:15 | a list of clean tokens passes the comprehension unchanged |
| Typing.CleanTokensRoundTrip | tinyml4all/typing.py:14-15 | joining clean tokens with commas and parsing the result gives the tokens back |
| Typing.StringIdempotent | tinyml4all/typing.py:14-15 | re-parsing the comma-join of a parsed string gives the same list |
| Typing.ValuesOfJoined | tinyml4all/typing.py:15 | the values of `a,b` are the values of `a` followed by those of `b` |
| Typing.CleanAppend | tinyml4all/typing.py:15 | the comprehension distributes over concatenation of the piece lists |
| Text.IsSpace | tinyml4all/typing.py:15 | no contract; the whitespace set of `str.strip()` with no argument (the code points of `str.isspace`), also used at capture_usb.py:114 |
| Text.Strip | tinyml4all/typing.py:15 | `str.strip` leaves no leading or trailing Python whitespace |
| Text.TrimStart | tinyml4all/typing.py:15 | the left strip is no longer than its input and does not start with whitespace |
| Text.TrimEnd | tinyml4all/typing.py:15 | the right strip is a prefix of its input and does not end with whitespace |
| Text.TrimStartSlice | tinyml4all/typing.py:15 | the left strip removes a run of whitespace from the front and nothing else |
| Text.TrimEndSlice | tinyml4all/typing.py:15 | the right strip removes only whitespace from the back |
| Text.StripSlice | tinyml4all/typing.py:15 | the stripped text is a contiguous slice of the input with only whitespace around it |
| Text.StripTrimmed | tinyml4all/typing.py:15 | stripping an already trimmed string changes nothing |
| Text.StripKeepsOut | tinyml4all/typing.py:15 | stripping never introduces a character |
| Text.StripEmptyIff | tinyml4all/utils/capture_usb.py:114-116 | a line strips to nothing exactly when it is all whitespace, which is when `len(line) > 0` fails |
| Text.Split | tinyml4all/typing.py:15 | `str.split` always yields at least one piece |
| Text.SplitPieces | tinyml4all/typing.py:15 | the split has one more piece than the separators in the text, and no piece holds the separator |
| Text.Join | tinyml4all/typing.py:15 | no contract; `str.join`, specified by `JoinSplit` and `SplitJoin` as the inverse of `Split` |
| Text.JoinSplit | tinyml4all/typing.py:15 | joining the pieces of a split with the separator restores the text |
| Text.SplitJoin | tinyml4all/typing.py:15 | separator-free parts, joined and split again, come back unchanged |
| Text.SplitNoSep | tinyml4all/typing.py:15 | a text without the separator splits into itself alone |
| Text.SplitAppend | tinyml4all/typing.py:15 | the pieces of `a + sep + b` are the pieces of `a` followed by those of `b` |
| Text.ConcatAppend | tinyml4all/utils/capture_usb.py:121 | writing two batches of rows in turn gives the concatenation of both |
| Text.Utf8Size | tinyml4all/utils/capture_usb.py:89 | no contract; `os.stat(dest).st_size` as the UTF-8 byte count of the text, specified by `Utf8SizeBelowTwo` |
| Text.Utf8Width | tinyml4all/utils/capture_usb.py:89 | every character takes one to four bytes, and one byte exactly when it is ASCII |
| Text.Utf8SizeBelowTwo | tinyml4all/utils/capture_usb.py:89 | a file is below two bytes exactly when it is empty or holds one ASCII character |
| Acquisition.DataRow | tinyml4all/utils/capture_usb.py:121 | no contract; the row `timestamp,line` plus newline, specified by `RowFields` and `RowCsvFields` |
| Acquisition.Handle | tinyml4all/utils/capture_usb.py:113-125 | no contract; the body of the `try` block, specified by `HandleSpec` |
| Acquisition.HandleSpec | tinyml4all/utils/capture_usb.py:113-125 | an iteration ignores exactly undecodable or blank reads, accepts a line exactly when its value count equals the column count, then writing the stripped line after the timestamp, and reports any other count as a mismatch |
| Acquisition.Second | tinyml4all/utils/capture_usb.py:108-109 | no contract; `int(now)`, the whole second of a millisecond reading |
| Acquisition.DeadlineOf | tinyml4all/utils/capture_usb.py:102 | no contract; `timeout = now + duration.seconds` in milliseconds |
| Acquisition.Tick | tinyml4all/utils/capture_usb.py:106-111 | at most one positive delta, reported only when the whole second advanced, equal to the seconds the progress time moved |
| Acquisition.Classify | tinyml4all/utils/capture_usb.py:113-120 | one step per event |
| Acquisition.ClassifyAt | tinyml4all/utils/capture_usb.py:113-120 | step `k` carries the clock reading of event `k` and the handling of its line |
| Acquisition.ClassifyPrefix | tinyml4all/utils/capture_usb.py:113-120 | handling a prefix of the events gives the prefix of the steps |
| Acquisition.Loop | tinyml4all/utils/capture_usb.py:100-125 | the counter equals the rows written; an iteration runs only if the previous reading was before the deadline; a deadline stop follows a reading at or past it; a mismatch stop follows a mismatched line; running out of events happens while the last reading compared was before the deadline (that every reading was is `RunOutUneventful`) |
| Acquisition.LoopProgress | tinyml4all/utils/capture_usb.py:104-111 | every progress delta is positive, progress never goes back, and the deltas add up to the whole seconds between the first and last progress times |
| Acquisition.ProgressTelescopes | tinyml4all/utils/capture_usb.py:100-111 | with a clock that never runs backwards, the deltas add up to the whole seconds from the start to the last reading taken |
| Acquisition.LoopRows | tinyml4all/utils/capture_usb.py:113-123 | the rows written are exactly those of the accepted lines among the iterations run, in order |
| Acquisition.LoopUneventful | tinyml4all/utils/capture_usb.py:105-121 | every iteration before the last one run read its clock before the deadline and had no mismatch |
| Acquisition.RunOutUneventful | tinyml4all/utils/capture_usb.py:105-121 | when the events run out, none of them was late or mismatched |
| Acquisition.AcceptedRowsAppend | tinyml4all/utils/capture_usb.py:121-123 | the rows of two stretches of iterations are those of the first followed by those of the second |
| Acquisition.DeadlineBoundsIterations | tinyml4all/utils/capture_usb.py:100-106 | a reading at or past the deadline is the last iteration at the latest, and the loop does not outlive it |
| Acquisition.StopsAtFirstLateReading | tinyml4all/utils/capture_usb.py:102-121 | after harmless iterations, the first late reading is the last iteration, its line is still handled, and the loop stops on the deadline |
| Acquisition.UneventfulRunsOut | tinyml4all/utils/capture_usb.py:105-125 | with no late reading and no mismatch, every event is consumed and every accepted line written |
| Acquisition.RowsOnlyGrow | tinyml4all/utils/capture_usb.py:121-123 | rows are never taken back: the rows after fewer events are a prefix of the rows after more |
| Acquisition.MismatchRows | tinyml4all/utils/capture_usb.py:118-121 | on a mismatch the rows are those accepted before the offending line |
| Acquisition.MismatchKeepsEarlierRows | tinyml4all/utils/capture_usb.py:118-121 | a mismatch keeps every row written before it, which is what a run cut off just before the offending line writes |
| Acquisition.LastRowless | tinyml4all/utils/capture_usb.py:116-123 | an iteration that accepts nothing adds no row |
| Acquisition.LoopIgnoresProgress | tinyml4all/utils/capture_usb.py:106-111 | the progress bookkeeping never affects the rows, the stop reason or the iteration count |
| Acquisition.LoopSameStart | tinyml4all/utils/capture_usb.py:100-106 | any two start readings before the deadline give the same rows, stop reason and iteration count |
| Acquisition.DropIgnored | tinyml4all/utils/capture_usb.py:113-125 | removing an ignored read taken before the deadline changes neither the rows, the counter nor the stop reason |
| Acquisition.Acquire | tinyml4all/utils/capture_usb.py:100-125 | the imperative loop computes exactly the fold `Loop` over the handled events |
| CaptureUsb.New | tinyml4all/utils/capture_usb.py:23-30 | no contract; the initial configuration, specified by `FreshSession` |
| CaptureUsb.Confirms | tinyml4all/utils/capture_usb.py:61-62 | no contract; the stripped answer starts with `y`, used by `ToFile` |
| CaptureUsb.FreshSession | tinyml4all/utils/capture_usb.py:18-30 | a new session has nothing set and mode `"a"`, and running it fails on the duration or else on the port |
| CaptureUsb.FromPort | tinyml4all/utils/capture_usb.py:32-41 | sets port and baudrate, leaving every other setting as it was |
| CaptureUsb.BadBaudrateRejected | tinyml4all/utils/capture_usb.py:84 | a non-positive baudrate given to `from_port` is refused by the baudrate assertion |
| CaptureUsb.WithNames | tinyml4all/utils/capture_usb.py:43-50 | the columns become the clean tokens of a string or the given list, leaving every other setting as it was |
| CaptureUsb.ToFile | tinyml4all/utils/capture_usb.py:52-68 | sets the destination; for an existing file the mode is `"w"` exactly when the stripped answer starts with `y`, and only then is the file emptied, while declining sets `"a"` and keeps the file; for a missing file, the mode and every file stay as they were |
| CaptureUsb.WipeLeadsToHeader | tinyml4all/utils/capture_usb.py:60-66 | confirming the wipe leaves an empty file, so the header decision holds |
| CaptureUsb.DeclineKeepsContents | tinyml4all/utils/capture_usb.py:60-62 | declining keeps the file and appends; a header follows only if the file is below two bytes |
| CaptureUsb.Validate | tinyml4all/utils/capture_usb.py:82-86 | a configuration passes exactly when the duration is positive and port, positive baudrate, columns and destination are set; otherwise it fails with the first unmet assertion, in source order |
| CaptureUsb.FluentSetup | tinyml4all/utils/capture_usb.py:18-86 | the full fluent set-up passes validation exactly when the duration is positive, with the default baudrate, the parsed names and the mode the prompt chose |
| CaptureUsb.HeaderNeeded | tinyml4all/utils/capture_usb.py:89 | no contract; the corrected header decision (mode `"w"`, or the decision as written), used by `Run` and specified by `HeaderFirst` and `RunMatchesAsWritten` |
| CaptureUsb.HeaderWanted | tinyml4all/utils/capture_usb.py:89 | no contract; the header decision as written, specified by `HeaderWantedIff` |
| CaptureUsb.Header | tinyml4all/utils/capture_usb.py:94-95 | no contract; the header line, specified by `HeaderParses` |
| CaptureUsb.Prior | tinyml4all/utils/capture_usb.py:92 | no contract; what `open(dest, mode)` leaves in the file before the first write, used by `Capture` |
| CaptureUsb.HeaderWantedIff | tinyml4all/utils/capture_usb.py:89 | a header is wanted exactly when the file is missing, empty or holds one ASCII character |
| CaptureUsb.HeaderParses | tinyml4all/utils/capture_usb.py:94-95 | with clean column names, the header line read back gives `timestamp` followed by the columns |
| CaptureUsb.SingleToken | tinyml4all/typing.py:14-15 | a clean token parses to itself alone |
| CaptureUsb.RowFields | tinyml4all/utils/capture_usb.py:116-121 | an accepted row read back with `as_list_of_strings` gives the timestamp followed by the line's values, one field more than the columns, lining up with the header when read that way |
| CaptureUsb.RowCsvFields | tinyml4all/utils/capture_usb.py:116-121 | an accepted row split on every comma gives the timestamp followed by every piece of the line, blank ones included; it has one field more than the columns exactly when no piece of the line is blank |
| CaptureUsb.BlankFieldAccepted | tinyml4all/utils/capture_usb.py:116-121 | a line `a,,b` against two columns passes the value count, yet its row has four comma-separated fields against the header's three |
| CaptureUsb.Capture | tinyml4all/utils/capture_usb.py:91-125 | the destination holds its prior contents (when appending), the header if written, then the rows; the counter is the rows written; no other file changes |
| CaptureUsb.RunAsWritten | tinyml4all/utils/capture_usb.py:70-125 | `run` as written: rejected exactly when validation fails, with that error; finished exactly when valid and the port opens; otherwise no file changes; when finished, the header is written exactly when the file is missing or below two bytes, whatever the mode, and the destination holds the prior contents (when appending), that header, then the rows, with no other file changed |
| CaptureUsb.Run | tinyml4all/utils/capture_usb.py:70-125 | the corrected `run`, whose header decision also holds for mode `"w"`: a run is rejected exactly when validation fails, with that error; it finishes exactly when valid and the port opens; otherwise no file changes; when finished, the destination holds the prior contents (when appending), the header when needed, then the rows, and no other file changes |
| CaptureUsb.RunRows | tinyml4all/utils/capture_usb.py:113-123 | the rows of a run are those of its accepted lines in order, and the counter `count` is their number (it is printed only when the loop is not aborted by a mismatch) |
| CaptureUsb.RunAbortKeepsPrefix | tinyml4all/utils/capture_usb.py:118-122 | a run ended by a mismatch leaves the files as a run that never read the offending line |
| CaptureUsb.RunAsWrittenAbortKeepsPrefix | tinyml4all/utils/capture_usb.py:118-122 | `run` as written, ended by a mismatch, also leaves the files as a run that never read the offending line |
| CaptureUsb.RunsShareLoop | tinyml4all/utils/capture_usb.py:88-125 | the corrected and the as-written run write the same rows, count, progress and outcome: they differ only in the header |
| CaptureUsb.RunOnlyAppends | tinyml4all/utils/capture_usb.py:121-122 | for both the corrected run and `run` as written, the destination only grows while a run goes on: fewer events leave a prefix of what more events leave |
| CaptureUsb.DeclinedRunAppends | tinyml4all/utils/capture_usb.py:60-95 | declining the wipe of a file of two bytes or more, then running, appends the rows after the old contents with no header; `run` as written gives the same result |
| CaptureUsb.RunMatchesAsWritten | tinyml4all/utils/capture_usb.py:89-95 | the corrected run and the run as written agree whenever the mode is `"a"` or the file is missing or below two bytes |
| CaptureUsb.HeaderLostAsWritten | tinyml4all/utils/capture_usb.py:89-95 | as written, mode `"w"` against a file of two bytes or more writes no header and leaves only the data rows |
| CaptureUsb.HeaderLostExample | tinyml4all/utils/capture_usb.py:89-95 | a session re-run in mode `"w"` over its earlier header, reading nothing, leaves the file empty |
| CaptureUsb.HeaderFirst | tinyml4all/utils/capture_usb.py:89-95 | with the corrected decision, a run that creates, empties or truncates the file leaves it starting with the header |
| CaptureUsb.TwoValueLine | tinyml4all/utils/capture_usb.py:114-121 | a line of two clean values plus newline, read against two columns, is accepted as the timestamp and the two values |
| CaptureUsb.TwoReadingsSteps | tinyml4all/utils/capture_usb.py:113-125 | two readings of two values are accepted and an empty read is ignored |
| CaptureUsb.TwoAcceptedThenLate | tinyml4all/utils/capture_usb.py:105-123 | two accepted lines before the deadline, then an ignored read at it, give two rows and a deadline stop after three iterations |
| CaptureUsb.TwoReadingsLoop | tinyml4all/utils/capture_usb.py:100-125 | a two-second capture of two readings one second apart writes both rows and stops on the deadline |
| CaptureUsb.TwoReadingsScenario | tinyml4all/utils/capture_usb.py:70-125 | a two-second capture into a new file yields the header and exactly the two timestamped rows, with count two; `run` as written gives the same result |

## Left out

- The `countdown()` before reading is not modelled. It waits for the user to press enter, prints and sleeps, and writes nothing.
- Opening the serial port is reduced to the `portOpens` flag. `Serial`, its `timeout=3` and `reset_input_buffer` are replaced by the list of events a run receives. A read that times out with nothing received is `Received("")`. When the device stalls mid-line, `readline` returns the partial line without its newline, which is `Received(partial)` and is handled like any other line.
- The UTF-8 decoding of a line is reduced to the `Undecodable` alternative. Which byte sequences fail to decode is not modelled.
- `str(datetime.now())` is a timestamp string carried by each event. Its format is not modelled.
- `Duration(duration)` parsing is not modelled. The configuration holds the resolved whole number of seconds.
- `time()` is a natural number of milliseconds. Floating point is not modelled, and `int(now)` is the whole second.
- The `tqdm` progress bar is reduced to the list of deltas passed to `progress.update`. The closing `print` is reduced to the counter.
- `cast` in typing.py is not modelled. It is not part of the capture session.
- `os.path.isfile` is modelled as membership in the file map. `os.stat(...).st_size` is the UTF-8 size of the text. Directories and non-UTF-8 contents are not modelled.
- I/O errors from `open`, `file.flush()` and the cleanup done by the `with` blocks are not modelled. The final contents are stated after the last write.
- `input()` is replaced by the `answer` parameter of `ToFile`.
- A `Path` destination is modelled as a string.
- `as_list_of_strings` returns the caller's own list object, so the session shares it with the caller and later changes to it show through. The model stores a value, so this sharing is not modelled.
- An exception from `serial.readline()` other than a decoding error (a port unplugged mid-run) is not caught and ends `run` with an error. The model has no such event. Its effect on the files is that of the event list ending there, reported as `OutOfEvents`: the rows written before it stay and nothing follows.
- The file is opened in text mode, so on Windows every `"\n"` of the header and the rows is written as `"\r\n"`, and `st_size` counts the extra bytes. The model writes `"\n"` as it is, as on POSIX systems.
- The port delivers finitely many events in the model. If they run out before the deadline, `Run` reports `OutOfEvents`, which is the loop still waiting.
- The model assumes Python runs with assertions enabled. Under `python -O` the five checks on the configuration and the size check on each line are removed, so an unset setting is not refused and a mismatched line is written and counted. That behaviour is not modelled.
- The `AssertionError` raised by a mismatched line is modelled as the `SchemaMismatch` outcome. The assertions on the configuration are modelled as `Rejected(error)`.
- Acquisition.Classify: its contract gives only the number of steps. Their content is stated by `ClassifyAt`.
- The code accepts an empty list of columns and an empty port string. Only `None` is refused, and the model follows the code.
- A line with the wrong number of values ends the whole run rather than being skipped, and the model follows the code.
- Names given to `with_names` as a list are kept exactly as given. They are not stripped or filtered.

## Findings

| source | as written | input that shows it | evidently intended | confidence | as-written member | corrected member |
|---|---|---|---|---|---|---|
| tinyml4all/utils/capture_usb.py:89 | `write_header` looks only at whether the file exists and is at least two bytes, not at the mode it is about to be opened with | a session whose mode is `"w"` run against a file of two bytes or more. Running the same session twice is enough: the second run sees the first run's header, skips its own, then truncates the file, leaving data rows without a header | a file opened with `"w"` starts empty, so it always gets a header | medium, not executed | CaptureUsb.RunAsWritten, CaptureUsb.HeaderLostAsWritten, CaptureUsb.HeaderLostExample | CaptureUsb.Run, CaptureUsb.HeaderFirst |
