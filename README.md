# Blue/green log watcher, modelled in Dafny

The watcher tails an nginx access log in which every line is a JSON record of one proxied
request. For each record it does two things:

- It tracks the share of upstream errors (5xx) over a rolling window of the most recent
  requests, and posts an error-rate alert when that share crosses a threshold.
- It tracks the active pool. A successful response (2xx or 3xx) from a pool other than
  the current one counts as a cut-over. The watcher records the new pool and posts a
  failover alert, unless maintenance mode is on.

Each alert kind has its own cooldown.

The model covers the core of `watcher/watcher.py`:

- `pytext.dfy` (module `PyText`): the Python string and integer semantics the watcher
  relies on. These are `str.strip()`, `str.lower()`, `str(int)` and `int(str)`, over
  `seq<char>`.
- `status.dfy` (module `StatusExtraction`): `parse_status_code` and `is_error`.
  - A JSON field value is modelled as `Field`: absent or null, a string, or an integer.
  - `re.findall(r"\d{3}", …)` is modelled as non-overlapping left-to-right chunking (`Groups`).
- `window.dfy` (module `ErrorWindows`): the `deque(maxlen=WINDOW_SIZE)` of error flags.
  - As values: `LastN`, `Appended`, `CountTrue`.
  - As a ring-buffer class over an array, `ErrorWindow`, whose methods are proved
    against those functions.
  - Also the minimum sample `max(50, int(WINDOW_SIZE * 0.25))` and the rate comparison.
- `detector.dfy` (module `Detection`): the per-record state machine as values.
  - The state is `last_pool`, the window and the two last-fired timestamps.
  - A line's effect is `Observe` or `React`; the effect of a whole stream is `Run`.
  - `Run` follows the corrected loop, which skips a JSON line that is not an object and
    a line on which `json.loads` raises anything but `JSONDecodeError`.
    `RunAsWritten` is the loop as the code has it, over the lines `Line` classifies,
    which exits with code 2 on such a line;
    two lemmas relate the two (see "## Findings").
  - The lemmas state when each alert fires, how the cooldown spaces alerts, that
    maintenance mode silences failover alerts, what the active pool and the window are
    after any stream, how the log is stamped, and that the invariant is kept.
- `watcher.dfy` (module `Watching`): the process-wide mutable state as a class
  `Watcher`. Each method that updates it in place is proved to do what the
  corresponding `Detection` function says, up to the main loop `Watch` over a finite
  stretch of the log. `ProcessLine` and `Watch` follow the corrected loop, as `Run` does.

The wall clock is a parameter. Each record gets one clock reading `now`, which stands
for every `time.time()` call made while that record is processed. The Slack sink
becomes the list of `Alert` values emitted, each stamped with its decision time.

Four behaviours of the code that the model keeps as they are:

- The minimum sample is `max(50, floor(WINDOW_SIZE / 4))`, because `int()` truncates
  the float product.
- `parse_status_code` can return any integer that `int(status)` yields. The 0 to 999
  bound holds only when the code comes from the upstream status.
- Both last-fired timestamps start at `0.0`. So right after start-up an alert is
  suppressed only if the clock reads less than `ALERT_COOLDOWN_SEC`.
- Maintenance mode suppresses only the failover alert. The active pool still moves.

## Model

| member | source | states |
|---|---|---|
| PyText.ParseIntOfDecimalString | watcher/watcher.py:55 | `int(str(n)) == n` for every integer of at most 4300 digits, CPython's default limit: the decimal rendering, with its sign, parses back to the same value; the rendering of a longer integer makes `int()` raise |
| PyText.ParseIntPastDigitLimit | watcher/watcher.py:54-57 | `int()` raises on a run of more than 4300 digits |
| PyText.ParseInt | watcher/watcher.py:54-57 | `int()` raises (the result is `None`) on any text containing no decimal digit, whatever its signs and whitespace, so the fallback becomes 0 |
| PyText.NormalizeIdempotent | watcher/watcher.py:11 | `strip().lower()` is idempotent: a normalised pool name is its own normal form, so the configured pool and record pools compare in one form |
| StatusExtraction.ParseStatusCode | watcher/watcher.py:42-57 | the function is total; with a truthy upstream status holding three consecutive digits the code is in 0..999; otherwise it is `int(status)`, or 0 when that raises |
| StatusExtraction.Groups | watcher/watcher.py:48 | every match of `\d{3}` is exactly three decimal digits |
| StatusExtraction.GroupsNonEmptyIff | watcher/watcher.py:47-49 | `findall` yields a match exactly when three consecutive digits occur (both directions) |
| StatusExtraction.GroupsSplit | watcher/watcher.py:48 | a non-digit is a barrier: the matches of `a + b` are those of `a` followed by those of `b` when `a` ends in a non-digit |
| StatusExtraction.GroupsOfJoinCodes | watcher/watcher.py:43-48 | for a chain of three-digit codes joined by a digit-free separator, the matches are exactly the codes, in order |
| StatusExtraction.LastAttemptWins | watcher/watcher.py:43-51 | for any such chain the code is the value of the last attempt, whatever `status` says |
| StatusExtraction.FinalAttemptDecidesError | watcher/watcher.py:43-60 | for a chain of attempts, `is_error` (`StatusExtraction.IsError`) of the code holds exactly when the final attempt is a 5xx, whatever the earlier attempts were |
| StatusExtraction.SuffixDecides | watcher/watcher.py:47-51 | text up to and including a non-digit cannot change the code when the text after it holds three consecutive digits |
| StatusExtraction.ColonSeparatedChain | watcher/watcher.py:43-51 | the chain `"502, 504 : 200"` from an internal redirect gives 200 |
| StatusExtraction.ChainEndingInError | watcher/watcher.py:43-51 | `"200, 502"` gives 502 |
| StatusExtraction.ChainEndingInSuccess | watcher/watcher.py:43-51 | `"502, 200"` gives 200 |
| StatusExtraction.ChunkingExample | watcher/watcher.py:48-51 | matches are consecutive chunks, not digit runs: `"12345678"` gives `["123", "456"]` and code 456 |
| StatusExtraction.FallbackToStatus | watcher/watcher.py:47-55 | an empty or digit-free upstream status falls back to `int(status)`, from a string or an integer |
| StatusExtraction.FallbackStripsSpace | watcher/watcher.py:47-55 | a falsy upstream status (0) is skipped, and `int()` ignores surrounding whitespace |
| StatusExtraction.OverlongStatusIsZero | watcher/watcher.py:54-57 | a `status` of more than 4300 digits, with no usable upstream status, gives the sentinel 0, because `int()` raises on it |
| StatusExtraction.FallbackToZero | watcher/watcher.py:54-57 | when neither field yields a number the code is 0 |
| ErrorWindows.AppendKeepsNewest | watcher/watcher.py:136 | `Appended` (built on `LastN`): `append` on a deque of capacity `cap` never exceeds `cap`, puts the new flag last, and drops the oldest entry only when the deque was full; a zero-capacity deque stays empty |
| ErrorWindows.FillKeepsLatest | watcher/watcher.py:136 | after any sequence of appends to an empty window it holds exactly the latest `cap` flags |
| ErrorWindows.CountTrueIsMultiplicity | watcher/watcher.py:138 | `CountTrue`, the count `sum(1 for x in window if x)`, is the number of occurrences of an error flag in the window, independent of their order |
| ErrorWindows.CountTrueExtremes | watcher/watcher.py:138 | an all-error window counts every entry and an error-free one counts none |
| ErrorWindows.MinFill | watcher/watcher.py:137 | the minimum sample is at least 50 and at least `floor(W / 4)`, and equal to one of them |
| ErrorWindows.ErrorRatePercent | watcher/watcher.py:138 | the rate is a percentage in 0..100; it is 100 when every entry is an error and 0 when none is |
| ErrorWindows.RateAboveIff | watcher/watcher.py:138-139 | `errors / total * 100 > threshold` exactly when `errors * 100 > threshold * total` |
| ErrorWindows.ErrorWindow.Length | watcher/watcher.py:137 | `len(window)` is the number of retained flags and never exceeds the capacity |
| ErrorWindows.ErrorWindow.Append | watcher/watcher.py:136 | the ring buffer's new contents are `LastN(old contents + [x], capacity)`, and its invariant is kept |
| ErrorWindows.ErrorWindow.CountErrors | watcher/watcher.py:138 | the loop over the ring buffer returns the number of error flags in the window's contents |
| ErrorWindows.ErrorWindow.constructor | watcher/watcher.py:21 | a new window is empty with the configured capacity |
| Detection.Initial | watcher/watcher.py:11-23 | the start state has an empty window and both timestamps 0.0 |
| Detection.InitialIsValid | watcher/watcher.py:11-23 | the start state satisfies the invariant: its window is within capacity and its active pool is in normal form |
| Detection.DispositionOf | watcher/watcher.py:119-133 | in the corrected loop no line is fatal, and a line is processed exactly when it is a JSON object |
| Detection.FatalLinesAsWritten | watcher/watcher.py:123-160 | `DispositionAsWritten`: as written, of the lines `Line` classifies, exactly the JSON lines that are not objects and the lines on which `json.loads` raises anything but `JSONDecodeError` end the watcher, always with exit code 2, while the corrected loop skips them |
| Detection.DispositionAgreesOnOtherLines | watcher/watcher.py:119-133 | on every other line the written and the corrected loop do the same thing |
| Detection.Perceive | watcher/watcher.py:119-133 | in the corrected loop, a line yields an observation exactly when it is a record object |
| Detection.SkippedLineChangesNothing | watcher/watcher.py:120-127 | blank and non-JSON lines leave the whole state unchanged and emit nothing |
| Detection.ReactToRecord | watcher/watcher.py:129-153 | the effect of a record line is the effect of its pool and code on the state |
| Detection.PoolOfIsNormal | watcher/watcher.py:129 | `PoolOf`: a record's pool, `str(pool or "").strip().lower()`, is already in normal form |
| Detection.MissingPoolNeverSwitches | watcher/watcher.py:129-152 | a record whose pool is missing, null, empty or 0 has the empty pool, which never moves the active pool and never raises a failover alert |
| Detection.ObservePoolOldOrNew | watcher/watcher.py:143-152 | after `Observe` the active pool is either the previous one or the record's pool |
| Detection.ObserveKeepsValid | watcher/watcher.py:136-152 | a record keeps the window within capacity and the active pool in normal form |
| Detection.LineKeepsValid | watcher/watcher.py:119-153 | whatever line arrives, the invariant survives it |
| Detection.StreamKeepsValid | watcher/watcher.py:119-153 | `Run`: from a valid state, the invariant holds after any stream of lines |
| Detection.WindowRecordsOutcome | watcher/watcher.py:136 | the record's outcome (error exactly on 500..599) becomes the newest entry; the oldest entry is dropped only when the window was full; code 0 records a success |
| Detection.ErrorRateAlertIff | watcher/watcher.py:136-140 | `ErrorRateStep` within `Observe`: an error-rate alert fires exactly when the window holds at least the minimum sample, the rate exceeds the threshold and the cooldown has elapsed; it carries the window's error count and length, and only then is its timestamp moved to `now` |
| Detection.ActivePoolFollowsSuccess | watcher/watcher.py:143-152 | `FailoverStep` within `Observe`: the active pool becomes the record's pool exactly when that pool is non-empty and the code is 2xx or 3xx; maintenance mode and the cooldown do not affect this |
| Detection.FailoverAlertIff | watcher/watcher.py:143-149 | `FailoverStep` within `Observe`: a failover alert fires exactly when the active pool changed, maintenance is off and the cooldown has elapsed; it names the old and the new pool; at most two alerts per record, rate before failover; only then is its timestamp moved |
| Detection.CutOverNeedsSuccess | watcher/watcher.py:143-152 | a 500 from a new pool neither moves the active pool nor raises a failover alert; a following 200 from it moves the pool, and raises the alert exactly when maintenance is off and the cooldown has elapsed |
| Detection.SmallWindowNeverAlerts | watcher/watcher.py:137 | with `WINDOW_SIZE < 50` the minimum sample is never reached, so only failover alerts can be emitted |
| Detection.CooldownExpires | watcher/watcher.py:72-73 | `cooldown_ok` (`Detection.CooldownOk`) with a positive cooldown blocks at the moment of firing, lets through again once the full interval has passed and from then on; with the start-up timestamp 0.0 it lets through exactly the clock readings of at least the cooldown |
| Detection.CooldownGate | watcher/watcher.py:72-98 | per record and per kind, at most one alert fires, only when `now - last >= cooldown`, and the kind's timestamp becomes `now` exactly when it fires |
| Detection.CooldownGateEvent | watcher/watcher.py:72-98 | the same gate holds for any line, skipped ones included |
| Detection.TimesAppend | watcher/watcher.py:119-153 | the alert times of a concatenated log are those of its parts, in order |
| Detection.AlertsRespectCooldown | watcher/watcher.py:72-98 | along any stream, consecutive alerts of one kind are at least the cooldown apart, the first is at least the cooldown after the initial timestamp, and the timestamp is the time of the latest alert |
| Detection.MaintenanceSilencesFailover | watcher/watcher.py:146-153 | in maintenance mode no failover alert is ever emitted, whatever the stream |
| Detection.ActivePoolIsLatestSuccessfulPool | watcher/watcher.py:143-152 | after any stream the active pool is the pool of the latest successful record with a non-empty pool, or the start pool when there is none |
| Detection.WindowIsLatestOutcomes | watcher/watcher.py:136 | after any stream the window is the last `WINDOW_SIZE` of the previous window followed by the outcomes of the stream's records |
| Detection.StampsAreEventTimes | watcher/watcher.py:119-153 | every alert in the log of a stream is stamped with the clock reading of one of the stream's events |
| Detection.StampsInOrder | watcher/watcher.py:119-153 | with a clock that never goes backwards, the log's stamps never go backwards and none is later than the last event |
| Detection.StepAsWrittenAgrees | watcher/watcher.py:119-160 | on any line that does not end the loop as written, a step of the loop as written is a step of the corrected loop |
| Detection.AsWrittenAgreesWithoutFatalLines | watcher/watcher.py:119-160 | `RunAsWritten`: on a stretch of the lines `Line` classifies, without a JSON non-object and without a line `json.loads` raises anything but `JSONDecodeError` on, the loop as written and the corrected loop reach the same state and emit the same alerts, and neither exits |
| Detection.AsWrittenStopsAtFirstFatalLine | watcher/watcher.py:119-160 | `RunAsWritten`: the loop as written exits with code 2 at the first such line, in the state, and with the alerts, that the lines before it give |
| Watching.Watcher.constructor | watcher/watcher.py:11-23 | the object starts in the initial state for the configured settings |
| Watching.Watcher.AlertErrorRate | watcher/watcher.py:94-98 | past the cooldown it sends the alert and records `now`; otherwise it sends nothing and changes nothing |
| Watching.Watcher.AlertFailover | watcher/watcher.py:75-79 | past the cooldown it sends the alert and records `now`; otherwise it sends nothing and changes nothing |
| Watching.Watcher.TrackErrorRate | watcher/watcher.py:136-140 | updates the window and the error-rate timestamp, and emits alerts, exactly as `ErrorRateStep` says |
| Watching.Watcher.DetectFailover | watcher/watcher.py:143-153 | updates the active pool and the failover timestamp, and emits alerts, exactly as `FailoverStep` says |
| Watching.Watcher.Observe | watcher/watcher.py:135-153 | the whole detection part of the loop body is `Detection.Observe` on the object's state |
| Watching.Watcher.Step | watcher/watcher.py:129-153 | one decoded record is `Detection.Next` on the object's state |
| Watching.Watcher.ProcessLine | watcher/watcher.py:120-153 | one log line is `Detection.React` on the object's state, following the corrected loop: skipped lines, JSON non-objects and undecodable lines included, change nothing |
| Watching.Watcher.Watch | watcher/watcher.py:119-153 | the corrected main loop over a finite stretch of the log ends in the state, with the stamped alerts, that `Detection.Run` gives; `Detection.AsWrittenStopsAtFirstFatalLine` says where the loop as written stops instead |

## Left out

- Detection.FatalLinesAsWritten: the lines the loop as written also dies on, with exit code 2, are not among those `Line` classifies. A field decoded from a `\ud800`-style escape holds a lone surrogate. Printing it to a UTF-8 standard output raises `UnicodeEncodeError`: this happens at watcher/watcher.py:153 for the pool in maintenance mode, and at watcher/watcher.py:30 for an alert text when no webhook is set. A line whose bytes are not valid in the file's encoding makes the `readline` of `tail_f` raise `UnicodeDecodeError`. Dafny's `char` has no surrogates, and text is not modelled as bytes.
- Detection.AsWrittenAgreesWithoutFatalLines: "neither exits" holds for the lines `Line` classifies. The failing prints and the undecodable bytes named in the previous line also end the loop as written, on what would otherwise be an object line.
- `tail_f` (following the file, sleeping on end of file, and the never-ending loop) is not modelled. `Watching.Watcher.Watch` processes a given finite sequence of lines, each with the clock reading at which it is handled.
- `post_slack` and the message texts and blocks are not modelled. This includes the webhook call, its timeout and error printing, and the `time`/`release`/`upstream_addr` fields read from the sample. An alert is the value `ErrorRateAlert(errors, total)` or `FailoverAlert(from, to)` handed to the sink; the percentage is carried as its exact fraction.
- `json.loads` and `raw.strip()` are not modelled as text processing. A line arrives already classified as blank, not JSON (`JSONDecodeError`), undecodable (any other exception of `json.loads`, such as `RecursionError` on deep nesting or `ValueError` on an integer literal past the digit limit), a JSON non-object, or an object with the three fields the detector reads.
- Only three kinds of JSON field value are modelled: absent or null, string, and integer. Floats, booleans, lists and nested objects are left out, so `str()` and `int()` of those values (for example `int(502.0)` or `str(["502"])`) are not modelled.
- PyText.Lower: case folding covers ASCII letters only, and `PyText.ParseInt` accepts ASCII digits only. Python's `lower()` and `int()` also handle non-ASCII letters and digits.
- StatusExtraction.ParseStatusCode: `\d` is modelled as the ASCII digits only. Python's `re` also matches other Unicode decimal digits (Arabic-Indic, fullwidth and so on), and `int()` accepts them, so an upstream status made of such digits gives a code in Python that the model does not give.
- PyText.ParseInt: the limit on the digits `int()` converts is CPython's default of 4300. The limit set through `PYTHONINTMAXSTRDIGITS` or `sys.set_int_max_str_digits`, and interpreters that predate the limit, are not modelled.
- PyText.DecimalString: `str(n)` is total, although CPython also refuses to render an integer of more than 4300 digits. Such an integer cannot reach it here: an integer field comes from `json.loads`, which refuses such a literal, so the line is undecodable.
- Floating-point arithmetic is not modelled. The threshold, the clock and the rate are exact reals. Rounding in `errors / total * 100.0`, in `now - last_ts`, and NaN or infinite thresholds are not captured.
- The clock is not modelled. `cooldown_ok` and the following timestamp assignment each call `time.time()`; the model uses one reading per record for both.
- Reading the configuration from the environment is not modelled. Neither is the start-up failure of `float()`/`int()` on malformed settings or of `deque` on a negative `WINDOW_SIZE`. The settings are the parameters of `Config`, with the window size a natural number.
- Start-up and progress printing are not modelled. Neither is the exit with code 1 when the log file is missing, since the file system is not part of this model.
- Watching.Watcher.Valid: does not carry the fact that the active pool is in normal form, which `Detection.Valid` states. For the model that fact follows from `Detection.StreamKeepsValid` applied to the state the object is proved to hold.

## Findings

| source | as written | input that shows it | evidently intended | confidence | as-written member | corrected member |
|---|---|---|---|---|---|---|
| watcher/watcher.py:123-160 | only `JSONDecodeError` is caught around `json.loads`; a line that decodes to a JSON number, string, array, boolean or null reaches `rec.get` and raises `AttributeError`, and a line on which `json.loads` raises another exception gets no further; in both cases the outer handler ends the watcher with exit code 2 | the log line `5` (or `"x"`, `[]`, `null`); a line of 100000 `[` followed by as many `]` | a line that is not a record object is skipped like a non-JSON line, and the watcher keeps running | not executed; follows from Python's `json.loads` returning a non-dict value, on which `.get` is undefined, and from the recursion limit of its decoder | Detection.FatalLinesAsWritten | Detection.DispositionOf |
