# hashcat wrapper: supervision core in Dafny

This project models the run-supervision core of `hashcat_wrapper.py`, a script that runs
hashcat and reports on the run through ntfy notifications. The model covers four parts:

- **Supervisor** (`supervisor.dfy`). This is the status loop of `execute_attack`. For every
  line hashcat prints, the loop polls the process, decodes the line as JSON, and, when more
  than 30 minutes have passed since the last summary, sends a summary. The summary holds the
  elapsed time, the aggregate speed of all devices, the seconds left and the number of
  recovered hashes. The loop state (`start_time`, `last_time`) is the class
  `Supervisor.AttackLoop`. Its methods are proved against the pure specification
  `Decide`/`Run`, and the throttle, monotonicity and exit-code properties are proved about
  `Run`.
- **Tailer** (`tailer.dfy`). This is `monitor_output`, the thread that tails hashcat's
  output file. The class `Tailer.ResultTailer` holds the file text, the read position of
  the open file object, the stop flag and the notices sent. `Step` is one iteration of the
  loop, with Python's `readline()` semantics. `CatchUp` runs the loop until the end of the
  file. Scenario methods show the interleavings that matter: lines appended later, a
  half-written line, a pre-existing file, and a stop while idle.
- **Paths** (`paths.dfy`). This is the file-name derivation of `handle_file` and
  `handle_file_url`: the URL's last segment, the `.gz` removal (`str.replace`), the `.tar`
  test and the join onto `/tmp`.
- **Config** (`config.dfy`). This holds the constants, the `DISABLE_NTFY` test and the
  hashcat argument vector, with its token order and its `--outfile`.

`wrappers.dfy` holds the `Option` and `Result` datatypes.

The model follows the code as written. These are the behaviours a reader is most likely
to expect otherwise:

- **Throttle.** The summary throttle is strict: `delta > 30 min`, so nothing is sent at
  exactly 30 minutes (`ThrottleBoundary`).
- **Time left.** It is `estimated_stop - now`, without clamping, so it can be negative
  (`TimeLeftMayBeNegative`). A missing `estimated_stop` (or any other missing key) raises
  `KeyError` and ends `execute_attack`. It is not reported as "unknown".
- **Half-written lines.** `readline()` returns a half-written line at the end of the file.
  The tailer sends it as one notice and sends the rest of the line later as another notice
  (`PartialLineSplit`).
- **Existing output file.** The file is read from its start, so lines an earlier run left in
  it are sent again (`ExistingFileResent`).
- **Lines unread at the stop.** The stop event is checked before each read, so lines the
  tailer has not yet read when `stop_event.set()` runs are never sent (`LateLineDropped`).
- **`last_time` and `KeyError`.** `last_time` is updated before the summary fields are
  looked up, so a `KeyError` still moves it (`NextLast`).
- **Compressed and archived downloads.** `handle_file` raises for every name ending in
  ".gz" or ".tar", before any name is derived (see Findings). `StageNameAsWritten`
  models that. `StageName` and the lemmas about it model the name derivation the code
  is meant to perform.

## Model

| member | source | states |
|---|---|---|
| Paths.Join | hashcat_wrapper.py:77 | `os.path.join(dir, name)`: the result ends with `name`, and an absolute `name` replaces `dir` |
| Paths.EndsWith | hashcat_wrapper.py:51 | `s.endswith(suffix)` holds exactly when `s` is a prefix followed by `suffix` |
| Paths.Basename | hashcat_wrapper.py:90 | `url.split("/")[-1]` is a '/'-free suffix of the URL that is either the whole URL or directly follows a '/' |
| Paths.LastSegmentUnique | hashcat_wrapper.py:90 | that characterisation has exactly one solution, so it pins down the basename |
| Paths.BasenameOfJoin | hashcat_wrapper.py:77-90 | the basename of `join(dir, name)` is `name` for every '/'-free name |
| Paths.BasenameExamples | hashcat_wrapper.py:90 | a URL's last segment is its file name; a URL ending in '/' yields the empty name |
| Paths.SplitGz | hashcat_wrapper.py:60 | reference definition of `split(".gz")`: the pieces are ".gz"-free and join back with ".gz" into the input |
| Paths.StripGz | hashcat_wrapper.py:60 | `replace(".gz", "")` never lengthens the name; what it computes is stated by `StripGzIsSplitConcat` |
| Paths.StripGzAcross | hashcat_wrapper.py:60 | the single left-to-right pass of `replace(".gz", "")` keeps a ".gz"-free prefix and drops the ".gz" after it |
| Paths.StripGzOfFree | hashcat_wrapper.py:60 | `replace` leaves a ".gz"-free name unchanged |
| Paths.StripGzOfJoin | hashcat_wrapper.py:60 | `replace` on pieces joined by ".gz" equals the pieces concatenated |
| Paths.StripGzIsSplitConcat | hashcat_wrapper.py:60 | `s.replace(".gz", "") == "".join(s.split(".gz"))` for every `s` |
| Paths.StripGzKeepsChars | hashcat_wrapper.py:60 | removing ".gz" introduces no character, so a '/'-free name stays '/'-free |
| Paths.StripGzMayLeaveGz | hashcat_wrapper.py:60 | one pass is not a fixpoint: "a..gzgz.gz" becomes "a.gz", which still holds ".gz" |
| Paths.GunzippedName | hashcat_wrapper.py:51-60 | intended: a name not ending in ".gz" is kept; a name ending in ".gz" becomes its `replace(".gz", "")` and loses at least three characters |
| Paths.GunzippedLength | hashcat_wrapper.py:51-60 | a name ending in ".gz" loses at least its final ".gz" |
| Paths.GunzippedStem | hashcat_wrapper.py:51-60 | intended: "<stem>.gz" with a ".gz"-free stem is stored as "<stem>" |
| Paths.StageName | hashcat_wrapper.py:50-79 | intended staging: never a crash; a name is unpacked exactly when its gunzipped form ends with ".tar", and otherwise it is saved under a path ending with the gunzipped name |
| Paths.StageNameAsWritten | hashcat_wrapper.py:50-79 | as written: `handle_file` raises exactly when the name ends with ".gz" (gzip step) or ".tar" (tarfile step); any other name is saved as the intended staging says |
| Paths.GzipDownloadCrashes | hashcat_wrapper.py:51-60 | "w.gz" crashes in the gzip step as written, where the intended staging saves "/tmp/w" |
| Paths.TarDownloadCrashes | hashcat_wrapper.py:62-67 | "w.tar" crashes in `tarfile.open` as written, where the intended staging unpacks "w.tar" |
| Paths.StageUrl | hashcat_wrapper.py:82-90 | intended: a download is never a crash; it is unpacked exactly when the URL's last segment, gunzipped, ends with ".tar", and then that gunzipped name is the archive; a saved download's basename is that gunzipped name |
| Paths.StagedDownloadInTmp | hashcat_wrapper.py:76-90 | intended: a downloaded non-archive is saved as "/tmp/" followed by the URL's last segment, gunzipped |
| Paths.StagePlainName | hashcat_wrapper.py:62-79 | a relative name that is neither ".gz" nor ".tar" is saved as "/tmp/<name>" |
| Paths.StageGzippedPlain | hashcat_wrapper.py:51-79 | intended: "<stem>.gz" that is not a tar is saved as "/tmp/<stem>" |
| Paths.StageGzippedArchive | hashcat_wrapper.py:51-75 | intended: "<stem>.tar.gz" is unpacked as the archive "<stem>.tar" |
| Config.OutFilePath | hashcat_wrapper.py:22 | OUT_FILE is "/tmp/hashcat.out" |
| Config.Lower | hashcat_wrapper.py:27 | `str.lower()` restricted to ASCII: keeps the length and lowercases each ASCII letter in place |
| Config.NotificationsDisabled | hashcat_wrapper.py:27 | notifications can be off only when DISABLE_NTFY is set to a four-character value |
| Config.NotificationsDisabledIff | hashcat_wrapper.py:27 | notifications are off if and only if DISABLE_NTFY is set to "true" in any letter case; unset, empty or any other value leaves them on |
| Config.Decimal | hashcat_wrapper.py:24 | `str(n)` is a non-empty string of decimal digits |
| Config.StatusOptions | hashcat_wrapper.py:24 | the status options are "--quiet", "--status", "--status-json", "--status-timer=10", "--outfile", "/tmp/hashcat.out" |
| Config.Command | hashcat_wrapper.py:94 | the argument vector is eight fixed tokens followed by the target tokens and then the attack tokens, unchanged |
| Config.DecimalRoundTrip | hashcat_wrapper.py:24 | reading `str(n)` back as a number gives `n` |
| Config.StatusTimerValue | hashcat_wrapper.py:23-24 | the status option is "--status-timer=10", which reads back as UPDATE_INTERVAL |
| Config.LastValue | hashcat_wrapper.py:24 | the value of the last occurrence of a flag that has a token after it; `None` exactly when no such occurrence exists |
| Config.LastValueAppend | hashcat_wrapper.py:94 | appending tokens without the flag leaves the flag's value unchanged |
| Config.CommandWritesOutFile | hashcat_wrapper.py:94-97 | the last `--outfile <path>` pair of the command names OUT_FILE, the file the tailer watches, when the user's tokens hold no `--outfile` token |
| Config.CommandLayout | hashcat_wrapper.py:94 | the argument vector is "hashcat", "-w4", "--quiet", "--status", "--status-json", "--status-timer=10", "--outfile", "/tmp/hashcat.out", then the target tokens and the attack tokens in that order |
| Supervisor.SpeedSumAppend | hashcat_wrapper.py:118-120 | one more device adds exactly its speed; a missing speed makes the sum undefined |
| Supervisor.SpeedSum | hashcat_wrapper.py:118-120 | the aggregate speed exists only when every device reports a speed |
| Supervisor.SpeedSumDefined | hashcat_wrapper.py:118-120 | the aggregate speed exists if and only if every device reports a speed |
| Supervisor.SpeedSumBounds | hashcat_wrapper.py:118-120 | with non-negative speeds, each device's speed lies between 0 and the total |
| Supervisor.SpeedSumNonNegative | hashcat_wrapper.py:118-120 | non-negative speeds give a non-negative total |
| Supervisor.SpeedSumPrefixNone | hashcat_wrapper.py:118-120 | once a prefix has a device without a speed, the whole sum is undefined |
| Supervisor.AggregateSpeed | hashcat_wrapper.py:118-120 | the accumulation loop returns the sum of all speeds, or `None` (KeyError) when a device lacks one |
| Supervisor.Summarize | hashcat_wrapper.py:118-126 | the summary exists if and only if every key is present. Then speed is the sum, time left is `estimated_stop - now`, recovered is the list length and elapsed is `now - start`. Otherwise the failure names the first missing key in lookup order, each stated as an if-and-only-if: `devices`, then a device's `speed`, then `estimated_stop`, then `recovered_hashes` |
| Supervisor.Decide | hashcat_wrapper.py:101-126 | poll 0 exits; any other poll code fails with that code; an undecodable line is skipped; a decoded line produces a summary or a KeyError if and only if more than 30 minutes have passed since the last summary |
| Supervisor.NextLast | hashcat_wrapper.py:113-116 | `last_time` becomes now on every iteration that sends a summary or raises `KeyError`, and stays as it was on every other iteration |
| Supervisor.Run | hashcat_wrapper.py:101-127 | the loop over a sequence of iterations sends at most one summary per iteration |
| Supervisor.RunLastMonotone | hashcat_wrapper.py:99-116 | `last_time` never decreases, and it stays put when no summary was sent and no KeyError raised |
| Supervisor.RunSummariesSpaced | hashcat_wrapper.py:113-126 | the first summary comes more than 30 minutes after the initial `last_time`, and each later one more than 30 minutes after the previous |
| Supervisor.RunReturnsPolledCode | hashcat_wrapper.py:101-134 | a returned code is the first non-`None` poll result, with every earlier poll `None`; a loop still running has polled `None` throughout |
| Supervisor.HaltMatchesPollsShift | hashcat_wrapper.py:101-106 | a leading iteration whose poll saw no exit keeps that correspondence |
| Supervisor.RunIgnoresMalformedLine | hashcat_wrapper.py:107-110 | inserting an undecodable line anywhere changes neither the halt, nor `last_time`, nor the summaries sent |
| Supervisor.ThrottleBoundary | hashcat_wrapper.py:113-126 | exactly 30 minutes after the last summary nothing is sent; one second later the summary reports speed 2500, 60 seconds left and 1 hash |
| Supervisor.TimeLeftMayBeNegative | hashcat_wrapper.py:122 | an estimated stop in the past is reported as a negative time left |
| Supervisor.AttackLoop.constructor | hashcat_wrapper.py:99 | `start_time` and `last_time` both start at the launch time; no summary has been sent |
| Supervisor.AttackLoop.Step | hashcat_wrapper.py:101-127 | one iteration does what `Decide` says; `last_time` moves to now exactly when a summary or a KeyError happens; the summary sent is appended |
| Supervisor.AttackLoop.Supervise | hashcat_wrapper.py:101-134 | the loop ends as `Run` says, with `Run`'s final `last_time`, having appended exactly `Run`'s summaries |
| Tailer.ReadLine | hashcat_wrapper.py:145 | `readline()` returns a result no longer than the unread text; the result is empty exactly at end of file |
| Tailer.ReadLineSpec | hashcat_wrapper.py:145 | `readline()` returns a prefix of the unread text with no '\n' before its end, ending at the first '\n' or at end of file |
| Tailer.ReadLineUnique | hashcat_wrapper.py:145 | those properties determine `readline()`'s result |
| Tailer.ReadLineOfCompleteLine | hashcat_wrapper.py:145 | a complete line at the read position is returned whole, whatever follows it |
| Tailer.ReadLineOfPartialLine | hashcat_wrapper.py:145 | unread text without '\n' is returned as it stands |
| Tailer.SplitLinesSpec | hashcat_wrapper.py:144-146 | the lines successive reads return concatenate to the text; each is a line, and all but the last end with '\n' |
| Tailer.SplitLines | hashcat_wrapper.py:144-146 | repeated reads return no line exactly when the text is empty, and never more lines than characters |
| Tailer.SplitLinesNext | hashcat_wrapper.py:144-146 | the lines from a position are the line read there followed by the lines after it |
| Tailer.SplitLinesOfCompleteLine | hashcat_wrapper.py:144-146 | a complete line at the front is read first, whatever follows |
| Tailer.SplitLinesOfPartialLine | hashcat_wrapper.py:144-146 | a half-written line alone is read as one line |
| Tailer.Notice | hashcat_wrapper.py:147 | the message is "Found recovered hash: " followed by the line unchanged, '\n' included |
| Tailer.Notices | hashcat_wrapper.py:147 | one notice per line |
| Tailer.NoticesConcat | hashcat_wrapper.py:147 | the notices of two runs of lines are the notices of each, in order |
| Tailer.NextStep | hashcat_wrapper.py:144-149 | an iteration exits if and only if stopped; it sleeps if and only if not stopped at end of file; otherwise it sends a line: a non-empty prefix of the unread text, ending at its first '\n' or at end of file |
| Tailer.NextStepOfCompleteLine | hashcat_wrapper.py:144-147 | an iteration that finds a complete line sends exactly that line |
| Tailer.NextStepOfPartialLine | hashcat_wrapper.py:144-147 | an iteration that reaches a half-written line at end of file sends that fragment |
| Tailer.CatchUpStep | hashcat_wrapper.py:144-147 | sending the line at the read position moves its notice from the pending notices to the sent ones, leaving the total unchanged |
| Tailer.DeliveredStep | hashcat_wrapper.py:144-147 | reading one more line keeps the record: the line joins the text read and its notice joins the notices sent |
| Tailer.ResultTailer.constructor | hashcat_wrapper.py:138-143 | a missing file is created empty; the file is opened at its start; nothing is read or sent yet, so the invariant holds |
| Tailer.ResultTailer.Append | hashcat_wrapper.py:143-146 | hashcat appending to the file grows only the unread text, so the invariant is kept |
| Tailer.ResultTailer.Stop | hashcat_wrapper.py:178 | the stop event is set |
| Tailer.ResultTailer.Step | hashcat_wrapper.py:144-149 | once stopped, the loop exits; otherwise it reads one line, records it, sends one notice for exactly the text read and advances past it, or sleeps at end of file. The invariant is kept: the lines read make up exactly the text before the read position, one notice each |
| Tailer.ResultTailer.CatchUp | hashcat_wrapper.py:144-149 | unless stopped, the loop reads to the end of the file and sends one notice per line of the unread text, in order, keeping the invariant |
| Tailer.TwoLinesInOrder | hashcat_wrapper.py:138-149 | starting from a missing file, two lines appended one after the other give exactly two notices, in the order written |
| Tailer.AppendCompleteLine | hashcat_wrapper.py:144-147 | a running tailer at the end of the file sends a newly appended complete line as one notice and is at the end again |
| Tailer.PartialLineSplit | hashcat_wrapper.py:144-149 | a line the tailer reaches half-written is sent in two notices, the written part and the rest |
| Tailer.ExistingFileResent | hashcat_wrapper.py:143-147 | the lines already in the file when the tailer starts are all sent again |
| Tailer.StopWhileIdle | hashcat_wrapper.py:144 | once stopped with nothing new in the file, the next iteration exits and sends nothing |
| Tailer.LateLineDropped | hashcat_wrapper.py:144 | a line the tailer has not read when the stop event is set is never read or sent: the tailer exits with it unread |

## Findings

| source | as written | input that shows it | evidently intended | confidence | as-written member | corrected member |
|---|---|---|---|---|---|---|
| hashcat_wrapper.py:51-60 | `gzip.open(filename)` opens the bare name for reading. A missing file raises FileNotFoundError, and `gzip_f.close()` in the `finally` then raises UnboundLocalError. An existing file is read-only, so `write` raises OSError. Neither is `BadGzipFile`, so line 60 is never reached | a download whose URL ends in "/w.gz" | the content is gunzipped and staged under the name without ".gz", here "/tmp/w" | high (not executed) | Paths.GzipDownloadCrashes | Paths.StageGzippedPlain |
| hashcat_wrapper.py:62-67 | `tarfile.open(content)` takes the downloaded bytes as a file name. Real tar bytes hold NUL bytes, so it raises ValueError (embedded null byte); content with no NUL byte raises OSError. Neither is a `TarError`, so the members are never extracted | a download whose URL ends in "/w.tar" | the archive is opened from its bytes and unpacked | high (not executed) | Paths.TarDownloadCrashes | Paths.StageName |

## Left out

- Launching hashcat (`subprocess.Popen`, `shlex.split`), reading its stdout and stderr, and `p.poll()` are not modelled. Each loop iteration receives the poll result, the decoded line and the clock as a `Tick`, and hashcat's output file is appended to by explicit `Append` calls.
- The target and the attack string are given as tokens already split. `shlex` quoting is not modelled, and neither is the `repr` of a list-valued `HASH_TARGET` (a tar of hash files) in the command string.
- `json.loads` is not modelled: a line is either a decoded `Status` with optional fields, or `None` for a decoding error. JSON values of the wrong type are not modelled.
- stdout is a bytes stream, so `iter(readline, "")` never meets its `""` sentinel. After end of file every empty line fails to decode and is skipped, and only a poll or a `KeyError` ends the loop. The model's finite tick sequence stands for any prefix of that loop (`Running`).
- The notification transport (`requests.post`, `send_ntfy`) and logging are not modelled. Summaries and notices are recorded as values. The text formatting of the summary (`timedelta` rendering) is not modelled.
- Supervisor.AttackLoop.Step: the source reads the clock twice per iteration (for the throttle and for the elapsed time). The model uses one reading, `now`, for both.
- `time.sleep` is not modelled. A `Slept` step stands for the half-second wait, and the 5-second pause after each status line is omitted.
- Threads, `threading.Event` and `join` are not modelled. The stop event is a field set by `Stop`, and interleavings are explicit call sequences of `Append`, `Step`, `CatchUp` and `Stop`. A `KeyError` that leaves `execute_attack` skips `stop_event.set()`, so the tailer is never stopped. The model has no thread to show this.
- Tailer.ResultTailer.Step: text mode's decoding and universal-newline translation are not modelled. The file is a string, and only '\n' ends a line.
- The gzip and tar payload handling (`gzip.open`, `tarfile.open`, the member names tar members are saved under) and `save_file` are not modelled. Only the names that `handle_file` derives are modelled (`Staging`). A URL ending in '/' gives the empty name and the path "/tmp/", where `save_file` would raise IsADirectoryError. The model records `Save("/tmp/")`.
- Paths.StageNameAsWritten: for downloaded content with no NUL byte, assumes that no file in the working directory is named by that content. If one were, `tarfile.open(content)` would open that file instead of raising. Content with a NUL byte always raises ValueError.
- Supervisor.Decide: the clock is modelled in whole seconds (`Tick.now`). The source compares microsecond `datetime` values, so a delta of 1800.4 seconds sends a summary there. The elapsed time is a `timedelta`, not an integer.
- Paths.StageName: models the intended staging, which the rest of the model uses (`StageUrl`, `StagedDownloadInTmp`, `StageGzippedPlain`, `StageGzippedArchive`, `GunzippedStem`). As written, every ".gz" or ".tar" name crashes instead (see Findings).
- CommandWritesOutFile: covers only the `--outfile <path>` spelling. hashcat's option parsing is not part of the wrapper, so the `-o <path>` and `--outfile=<path>` spellings in the user's tokens are not modelled.
- A failed notification is not modelled: every send succeeds. `send_ntfy` calls `requests.post` with no timeout and no handler. A connection error during a summary leaves `execute_attack` and skips `stop_event.set()`. During a notice it ends the tailer thread, and no later hash is notified. `Notified` always continues in both loops.
- Downloading (`requests.get`, `raise_for_status`, redirects) is not modelled. `StageUrl` takes the final URL.
- `main` (argv, `HASHES_URL`, `DICT_URL`, `exit(2)`) and the environment reads are not modelled. Environment values are parameters (`NotificationsDisabled` takes `DISABLE_NTFY`'s value).
- Config.Lower: lowercases the ASCII letters only. No other character lowercases to a letter of "true", so the `DISABLE_NTFY` test is exact.
- Tailer.Notices: its own contract states only the length. Its content and order are stated by `NoticesConcat`, `CatchUp` and the scenarios.
