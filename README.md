# pingwatch monitor core in Dafny

This project models the measuring core of pingwatch, `src/pingwatch/monitor.py`.

- **Target loader (`load_targets`).** It turns the lines of a targets file into the list of hosts to probe.
- **Prober (`_ping_host`).** It asks the ping3 library for a round-trip time. On a permission failure it falls back to `_ping_via_subprocess`, which:
  - runs the operating system's `ping` with one echo request and a timeout;
  - reads the exit code;
  - searches the output with two case-insensitive regular expressions for a latency.
- **Round executor (`measure_once`).** It probes every target once, in order.
- **CSV writer (`append_csv`).** It creates the store with a header row when the file is missing, then appends one row per result.
- **Monitor loop (`run_monitor`).** It loads the targets, stops with SystemExit when there are none, and otherwise runs `count` rounds. Each round reads the clock, measures, appends to the store and sleeps between rounds.

The modules follow that structure:

- `Text`: Python's `str.strip()`, `str(int)`, and `float()` on the texts the latency group can capture.
- `Targets`: the loader.
- `PingOutput`: the two patterns. Each has a deterministic matcher and a declarative description of what the regular expression accepts. The two are proved to agree, and the search is proved leftmost.
- `Probe`: the fallback command line, the interpretation of the exit and the output, and the dispatch of `_ping_host`.
- `Round`: `measure_once`, as a loop proved against a specification function.
- `Store`: rows, the header, and the well-formedness of the CSV store.
- `Monitor`: a class whose fields are the store and a trace of clock readings and sleeps. Its methods are `append_csv` and the monitor loop.

The outside world is passed in as parameters:

- The `World` of a probe gives the outcome of the ping3 call, and the outcome `subprocess.run` would have for any command line.
- `world(k)(i)` answers the probe of target i in round k.
- `clock(k)` is the timestamp read at the start of round k.
- `windows` says whether the Windows flags are used.

The code differs from pingwatch's documented behaviour in four places, and the model follows the code:

- A `count` of zero or less runs no rounds. The loop is documented as requiring `count >= 1`.
- A negative interval is accepted until the first sleep. There `time.sleep` raises, so the run ends after one round (`SleepRejected`). The loop is documented as requiring `interval_s >= 0`.
- The comment test looks at the raw line, not the stripped one. So `"  # x"` is kept as a target `"# x"`.
- A host that answers can still be recorded as unreachable. This happens when the first "time" capture is not a number, such as `1.2.3`: `float()` raises, and the handler turns that into unreachable. A responding host is documented as never being recorded unreachable; `Probe.MalformedTimeExample` shows the input.

## Model

| member | source | states |
|---|---|---|
| Targets.LoadTargets | src/pingwatch/monitor.py:42-44 | every target is non-empty and carries no surrounding whitespace; there are never more targets than lines |
| Targets.Keeps | src/pingwatch/monitor.py:44 | the comprehension's filter: a line is kept iff strip() leaves something and the raw line does not start with '#' |
| Targets.KeptIndicesExact | src/pingwatch/monitor.py:44 | a line is selected iff it is not all whitespace and its raw text does not start with '#' |
| Targets.LoadTargetsSelects | src/pingwatch/monitor.py:44 | the k-th target is the stripped k-th selected line, so the targets are exactly the selected lines, in file order, duplicates kept |
| Targets.LoadTargetsAppend | src/pingwatch/monitor.py:44 | the loader works line by line: loading two runs of lines concatenates their targets |
| Targets.LoadTargetsCons | src/pingwatch/monitor.py:44 | the first line contributes its stripped text exactly when it is selected |
| Targets.LoadTargetsExample | src/pingwatch/monitor.py:44 | a host line, a blank line, a comment and another host line load as the two hosts |
| Targets.LoadTargetsKeepsIndentedHash | src/pingwatch/monitor.py:44 | a '#' after leading blanks is kept as a target, and duplicate hosts are both kept |
| Text.Strip | src/pingwatch/monitor.py:44 | strip() cuts off all leading and trailing whitespace, leaving a trimmed middle; the result is empty iff the line is all whitespace |
| Text.StripUnique | src/pingwatch/monitor.py:44 | any cut into whitespace, a trimmed middle and whitespace gives strip()'s result |
| Text.StripIdempotent | src/pingwatch/monitor.py:44 | stripping twice is stripping once |
| Text.IntToString | src/pingwatch/monitor.py:10 | str(int) is the shortest decimal numeral of the integer, with no leading zero and no "-0", with a minus sign exactly for negative values |
| Text.NumeralExact | src/pingwatch/monitor.py:10-13 | a run of digits without a leading zero is exactly the text str() writes for its value |
| Text.DenotesExact | src/pingwatch/monitor.py:10-13 | any text that is a shortest numeral for n equals str(n), so the rendering of an integer is unique |
| Text.PaddedNumerals | src/pingwatch/monitor.py:10-13 | "007", "-007" and "-0" are not numerals str() writes, while "7", "-7" and "0" are |
| Text.TruncDiv | src/pingwatch/monitor.py:13 | int() of a quotient truncates toward zero: the quotient has the dividend's sign and the absolute quotient times the divisor is at most the absolute dividend, and one more times the divisor exceeds it |
| Text.ParseDecimal | src/pingwatch/monitor.py:23 | float() of a run of digits and dots succeeds iff it has at most one dot and at least one digit, and gives a non-negative value |
| Text.DecimalValue | src/pingwatch/monitor.py:23 | a numeral "a.b" parses to the digits of a and b read together divided by 10 to the length of b, which lies between the integer a and the next integer |
| Text.IntegerValue | src/pingwatch/monitor.py:26 | float() of a run of digits is the integer those digits denote |
| Probe.FallbackCommand | src/pingwatch/monitor.py:7-13 | the command is ping, one echo request, a timeout flag, the timeout and the host last; -n/-w on Windows, -c/-W elsewhere |
| Probe.FallbackTimeout | src/pingwatch/monitor.py:10-13 | the timeout argument is the shortest decimal numeral, and so by DenotesExact exactly the text str() writes, of the timeout in milliseconds on Windows and of whole seconds truncated toward zero elsewhere |
| Probe.Interpret | src/pingwatch/monitor.py:15-28 | an exception or a non-zero exit is unreachable with no latency; a zero exit is read from stdout and stderr joined by a newline |
| Probe.ParseOutput | src/pingwatch/monitor.py:20-26 | every latency read is non-negative; the reading is unreachable only when a "time" capture was found |
| Probe.ReadingOf | src/pingwatch/monitor.py:23 | a capture is reachable iff float() accepts it, and its latency is float()'s value |
| Probe.ZeroExitReachable | src/pingwatch/monitor.py:18-26 | after a zero exit the host is unreachable iff the first "time" capture exists and is not a number |
| Probe.TimeTakesPrecedence | src/pingwatch/monitor.py:21-23 | the leftmost "time" match decides the reading, whatever "Average" matches follow |
| Probe.AverageWhenNoTime | src/pingwatch/monitor.py:25-26 | with no "time" match, the leftmost "Average" match gives a latency equal to its digits as an integer |
| Probe.NoLatencyText | src/pingwatch/monitor.py:26 | with neither pattern anywhere in the output, the host is reachable with no latency |
| Probe.ParseTimeExample | src/pingwatch/monitor.py:21-23 | "time=12.5 ms" after a zero exit reads as reachable at 12.5 ms |
| Probe.MalformedTimeExample | src/pingwatch/monitor.py:21-23 | "time=1.2.3 ms" after a zero exit reads as unreachable, because float() raises and the handler catches it |
| Probe.EmptyOutputExample | src/pingwatch/monitor.py:26 | empty output after a zero exit reads as reachable with no latency |
| Probe.PingViaSubprocess | src/pingwatch/monitor.py:6-28 | the fallback never reports a latency for an unreachable host |
| Probe.PingHost | src/pingwatch/monitor.py:30-39 | a returned round-trip time gives reachable with that latency; None and errors other than a permission failure give unreachable; a permission failure gives exactly the fallback's reading |
| Probe.FallbackOnlyOnPermission | src/pingwatch/monitor.py:34-39 | unless ping3 fails with a permission error, the reading does not depend on the subprocess at all |
| PingOutput.MatchAt | src/pingwatch/monitor.py:21-25 | a match's group lies after the start, inside the text, is non-empty and uses only the group's characters |
| PingOutput.Form | src/pingwatch/monitor.py:21-25 | the language of each pattern: case-insensitive "time" then '=' or '<', or "Average", blanks and '='; blanks; a non-empty group of [\d.] or \d; blanks; case-insensitive "ms" |
| PingOutput.MatchAtSound | src/pingwatch/monitor.py:21-25 | every match the matcher reports is accepted by the regular expression at that position, with that group |
| PingOutput.MatchAtComplete | src/pingwatch/monitor.py:21-25 | whatever the regular expression accepts at a position, the matcher finds there with the same group |
| PingOutput.SearchLeftmost | src/pingwatch/monitor.py:21-25 | no position before the one the search returns matches, and none at all when it fails |
| PingOutput.Search | src/pingwatch/monitor.py:21-25 | re.search: the position it returns lies in the text and the matcher accepts there |
| PingOutput.FirstGroup | src/pingwatch/monitor.py:21-26 | a capture is non-empty and consists of digits and dots for "time", of digits for "Average" |
| PingOutput.FirstGroupAt | src/pingwatch/monitor.py:21-26 | the search's group is that of the leftmost position where the regular expression accepts |
| PingOutput.FirstGroupNone | src/pingwatch/monitor.py:22-26 | the search fails when the regular expression accepts nowhere |
| Round.Check | src/pingwatch/monitor.py:52-53 | a result names its target, is the prober's reading, and has no latency when unreachable |
| Round.MeasureOnce | src/pingwatch/monitor.py:46-54 | the loop returns the probe of every target in order, the i-th answered by the i-th answer of the world |
| Round.ProbeAll | src/pingwatch/monitor.py:46-54 | the result of measure_once: one result per target, the probe of each target in order |
| Round.ProbeAllAt | src/pingwatch/monitor.py:51-53 | the i-th result is the probe of the i-th target |
| Round.ProbeAllTotal | src/pingwatch/monitor.py:46-54 | no probe aborts the round: one result per target, naming that target, with no latency when unreachable |
| Round.ProbeAllIsolated | src/pingwatch/monitor.py:51-53 | a target's result depends only on its own probe, not on the other targets' answers |
| Store.DecodeEncode | src/pingwatch/monitor.py:63 | every row written reads back as the timestamp and result it was written for |
| Store.EncodeDecode | src/pingwatch/monitor.py:63 | every readable row is the row written for what it reads as |
| Store.DecodeRow | src/pingwatch/monitor.py:63 | a readable row has four cells: a timestamp, a target and two more |
| Store.EncodeRow | src/pingwatch/monitor.py:63 | the row writerow writes for a result: the timestamp, the target, 1 or 0 for reachable, and the latency or the empty string |
| Store.HeaderIsNotData | src/pingwatch/monitor.py:61 | the header is never a data row |
| Store.Header | src/pingwatch/monitor.py:61 | the header row: timestamp, target, reachable, latency_ms |
| Store.Existing | src/pingwatch/monitor.py:57-61 | the file a round is appended to: the existing rows, or just the header when the file did not exist |
| Store.RoundRowsAt | src/pingwatch/monitor.py:62-63 | the k-th row of a round is the k-th result, stamped with the round's timestamp |
| Store.RoundRows | src/pingwatch/monitor.py:62-63 | the rows the loop writes for one round: one per result, in result order |
| Store.RoundRowsData | src/pingwatch/monitor.py:62-63 | every row of a round is a data row |
| Store.HeaderCountData | src/pingwatch/monitor.py:62-63 | appending data rows adds no header |
| Store.WellFormedOneHeader | src/pingwatch/monitor.py:60-63 | a file the monitor wrote holds exactly one header |
| Store.WellFormedAppend | src/pingwatch/monitor.py:56-63 | appending data rows to a well-formed file, or to a new file's header, leaves a well-formed file |
| Store.AppendKeepsWellFormed | src/pingwatch/monitor.py:56-63 | appending a round to a file the monitor wrote, or creating it, leaves a header followed only by data rows |
| Store.AppendHeaderCount | src/pingwatch/monitor.py:57-61 | the header is written exactly when the file did not exist: the count goes to one for a new file and is unchanged otherwise, even for an existing empty file |
| Monitor.Monitor.AppendCsv | src/pingwatch/monitor.py:56-63 | the store becomes the old file (or a new header) followed by one row per result in order; the trace is unchanged |
| Monitor.Monitor.Run | src/pingwatch/monitor.py:65-75 | with no target nothing changes and the run ends with SystemExit; otherwise the store and trace are those of `count` rounds, or of one round when a negative interval makes the first sleep raise |
| Monitor.Monitor.RunRounds | src/pingwatch/monitor.py:70-75 | after the loop the store holds every round's rows and the trace is every round's start with a sleep between two rounds, or the run stops after round one on a negative interval |
| Monitor.Monitor.RunRound | src/pingwatch/monitor.py:71-75 | one pass appends round i to the store and records its start, then a sleep unless it is the last round; the sleep is rejected iff the interval is negative |
| Monitor.Monitor.StartRound | src/pingwatch/monitor.py:71-73 | a round reads the clock once, records it, and appends that round's rows stamped with it |
| Monitor.Rounds | src/pingwatch/monitor.py:70 | the rounds run are numbered exactly by the indices range(count) yields, so there are none when count is zero or negative |
| Monitor.RoundRowsOf | src/pingwatch/monitor.py:72-73 | a round appends one row per target |
| Monitor.StoreAfterStep | src/pingwatch/monitor.py:70-73 | each round appends its rows to the store as it stands after the rounds before |
| Monitor.StoreAfterRows | src/pingwatch/monitor.py:70-73 | after at least one round the store is the old file (or a new header) followed by the rows of every round in order |
| Monitor.RunRowsData | src/pingwatch/monitor.py:70-73 | every row a run appends is a data row |
| Monitor.RunRowsLength | src/pingwatch/monitor.py:70-73 | a run of n rounds appends n times as many rows as there are targets |
| Monitor.RunRowsAt | src/pingwatch/monitor.py:70-73 | row i of round k follows the rows of all earlier rounds and is target i's probe in round k, stamped with round k's timestamp |
| Monitor.RunRowsRoundMajor | src/pingwatch/monitor.py:70-73 | new row number k times the number of targets plus i is target i's probe in round k, stamped with round k's timestamp |
| Monitor.RunHeaderCount | src/pingwatch/monitor.py:57-61 | a run writes a header only when it creates the file |
| Monitor.RunKeepsWellFormed | src/pingwatch/monitor.py:56-75 | a run keeps a file the monitor wrote: one header, then only data rows, as many rows as the file had (or one for a new file) plus rounds times targets |
| Monitor.StepsStep | src/pingwatch/monitor.py:74-75 | each round adds its start, then a sleep of the interval unless it is the last round |
| Monitor.StepsLength | src/pingwatch/monitor.py:74-75 | every round takes two trace events, except the last round of the run, which takes one |
| Monitor.StepsSleeps | src/pingwatch/monitor.py:74-75 | every round is followed by one sleep, except the last round of the run |
| Monitor.RunSleeps | src/pingwatch/monitor.py:74-75 | a run of n rounds sleeps n - 1 times and ends with a round, not a sleep |
| Monitor.StepsAt | src/pingwatch/monitor.py:71-75 | round k starts at trace position 2k with its own timestamp, and a sleep of the interval follows unless it is the last round |
| Monitor.SilentTargetExample | src/pingwatch/monitor.py:65-75 | three rounds over one target that never answers, into a new file, give the header and three unreachable rows, each stamped with its round's instant |
| Monitor.ThreeRoundTrace | src/pingwatch/monitor.py:70-75 | three rounds give measure, sleep, measure, sleep, measure |
| Monitor.SilentRound | src/pingwatch/monitor.py:71-73 | a round of one silent target appends exactly one unreachable row with no latency |

## Left out

- File access: opening, reading and encoding the targets file and the CSV store is not modelled. The targets file is given as its lines. The store is a value that is None while the file does not exist. An unreadable file and I/O errors are not modelled.
- The ping3 library, the network, `platform.system()` and `subprocess.run` are not modelled. They are parameters: a `World` per probe, and a `windows` flag.
  - The ping3 call's own `timeout=int(timeout_s)` argument has no effect in the model.
  - Only None and a returned number are distinguished among ping3's return values.
  - The subprocess's `timeout_s + 1` deadline is one of the causes folded into its `Raised` outcome.
- Floating point is not modelled. Latencies are exact reals, so binary rounding and infinities are left out. The timeout is an integer number of milliseconds standing for `int(timeout_s * 1000)`, without the float rounding of that product.
- The regular expressions' case folding and `\d` are ASCII only. Python's full Unicode case folding and Unicode digits are not modelled.
- Timestamps are opaque instants read from a clock parameter. `datetime.utcnow()` and `isoformat()` are not modelled. Nothing is proved about the order of successive timestamps.
- CSV cells are typed values. How `csv.writer` renders and quotes them as text is not modelled.
- `time.sleep` is recorded as a trace event, without real waiting.
- The text of the SystemExit message is not modelled, only that the run stops before writing.
- Concurrency and multiple writers are not modelled.
- src/pingwatch/visualize.py and src/pingwatch/__main__.py are not part of this model.
