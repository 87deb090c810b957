# redshift-scheduler, modelled in Dafny

redshift-scheduler keeps a daily schedule of colour temperatures: a list of
(time of day, temperature in kelvin) entries. A worker thread applies the
entry active at the current time through `redshift -P -O <temperature>`. It
then sleeps until the next transition, or until the editor sends it a new
schedule. The editor saves the schedule to a small text configuration file and
loads it back at start-up.

This project models the logic of `src/main.cpp` and proves properties of it:

- `Times`: `ScheduledTime` with its comparison operators (against itself and against the clock's `std::tm`), `inRange`, and the zero-padded `HH:MM` rendering of `toString`.
- `Parsing`: the validators `parseTime` and `parseTemperature`, with the accepted string shapes written out instead of the regular expressions, and every `runtime_error` they raise.
- `Resolver`: `updateRedshift`. `Resolve` is a function of the schedule and a clock reading. `UpdateRedshift` is a method with the program's `prev`/`it` loop, proved equal to `Resolve`. The `invokeRedshift` call becomes the returned temperature.
- `Communication`: `BasicCommunication` as a class whose `commands` field is a FIFO sequence.
- `WorkerLoop`: the `worker` loop as a method over the mailbox. It is proved equal to a function `Run` over the queued commands and a finite sequence of clock readings.
- `Config`: `trimString` as a method; `save` as a loop method proved equal to a function `SaveText`; the ordering check of `save`.
- `ConfigLoad`: the line loop of `loadConfigFile`, as a function `LoadFrom` over the file's lines and as a method `LoadConfigFile` proved equal to it; the round trip from what `save` writes to what the loop reads back.

`Wrappers` holds `Option` (for `std::optional`) and `Result`, a value or a thrown `std::runtime_error`. `Text` holds `std::to_string`, `std::stoi` on digit strings and `strchr`.

The tail case of `updateRedshift` (`src/main.cpp:481`) computes the delay from the last entry's hour instead of the current hour. `Resolve` keeps that arithmetic exactly as written, and the worker model uses `Resolve`. The intended delay (to the first entry's time on the next day) is the separate function `Resolver.ResolveIntended`, and the correctness properties are proved about it; see "## Findings". For entries 06:00 and 20:00 at 23:00 the next transition, 06:00, is 7 hours away, which is the delay `ResolveIntended` gives. The code gives 4 hours there, and the model follows the code. `Resolver.TwoEntryDay` proves both values.

## Model

| member | source | states |
|---|---|---|
| Text.NatToString | src/main.cpp:46 | `std::to_string` of a non-negative number is a non-empty digit string with no leading zero whose decimal value is the number; it is one digit exactly when the number is below 10 |
| Text.IntToString | src/main.cpp:340 | `std::to_string` of an int: the digits of a non-negative value, or '-' followed by the digits of the magnitude |
| Text.Utf8Length | src/main.cpp:410-412 | the number of bytes of a string's UTF-8 text: between one and four per character, and one per character for ASCII text |
| Text.Value | src/main.cpp:105-106 | `std::stoi` of a digit string: its decimal value, below 10 to the power of its length |
| Text.IndexOf | src/main.cpp:414 | `strchr`: the first position holding the character, or the end of the string when none does; no earlier position holds it |
| Times.InRange | src/main.cpp:96-99 | `inRange`: the value lies between the bounds, both included |
| Times.ToString | src/main.cpp:41-51 | for a valid time: five characters, two digits reading as the hours, ':', two digits reading as the minutes |
| Times.PaddedTwoDigits | src/main.cpp:43-50 | a value from 0 to 99 with a '0' before it when below 10 is exactly two digits reading back as the value |
| Times.OrderLaws | src/main.cpp:56-94 | `<` is a strict total order on (hours, minutes); `>`, `<=` and `>=` derive from it; the operators against `std::tm` agree with comparing against the clock's (hour, minute) |
| Times.OrderBySeconds | src/main.cpp:84-94 | on a valid time and clock reading, `>` and `<=` against the clock agree with comparing seconds since midnight |
| Parsing.ParseTime | src/main.cpp:101-120 | a parsed time has hours 0-23 and minutes 0-59; every failure is one of the three messages of `parseTime` |
| Parsing.ParseTimeSyntax | src/main.cpp:102-118 | "Failed to parse time" is raised exactly when the string is not digits, ':', digits |
| Parsing.ParseTimeFields | src/main.cpp:105-116 | on the digits:digits shape, parsing succeeds exactly when hours <= 23 and minutes <= 59, with those values; out-of-range hours are reported before minutes |
| Parsing.ParseTimeOfToString | src/main.cpp:228-233 | a valid time written by `setTime` (`toString`) reads back unchanged with `getTime` (`parseTime`) |
| Parsing.ParseTemperature | src/main.cpp:122-135 | a parsed temperature lies in 1000-25000; every failure is one of the two messages of `parseTemperature` |
| Parsing.ParseTemperatureSyntax | src/main.cpp:123-133 | "Failed to parse temperature" is raised exactly when the string is not digits, then spaces, then an optional 'K' |
| Parsing.ParseTemperatureFields | src/main.cpp:125-131 | on the temperature shape, the result is the number when it lies in 1000-25000 and the range error otherwise |
| Parsing.ParseTemperatureOfString | src/main.cpp:234-238 | a temperature in range written by `setTemperature` (to_string and "K") reads back unchanged with `getTemperature` |
| Resolver.SecondsUntil | src/main.cpp:471 | the delay expression is the seconds from the clock reading to the entry's time |
| Resolver.ScanPairs | src/main.cpp:474-493 | a resolution found by the scan belongs to an adjacent pair with prev <= now < it, with prev's temperature and the seconds until the time of `it`; when no pair is found and prev <= now held at the start, now is at or after the last entry |
| Resolver.Resolve | src/main.cpp:450-494 | the temperature applied is 6500 for an empty schedule and otherwise the temperature of one of the entries |
| Resolver.UpdateRedshift | src/main.cpp:450-494 | the method with the `prev`/`it` loop (invariant prev.time <= now) returns exactly `Resolve` |
| Resolver.ResolveShortLists | src/main.cpp:451-460 | an empty schedule applies 6500 K and a single entry applies its own temperature, both with a one-day delay |
| Resolver.ResolveWraparound | src/main.cpp:466-473 | before the first entry the last entry's temperature applies, and now plus the delay is exactly the first entry's time |
| Resolver.ResolveWithinPair | src/main.cpp:486-490 | on an increasing schedule, when prev <= now < next for adjacent entries, prev's temperature applies and now plus the delay is exactly next's time |
| Resolver.ResolveTail | src/main.cpp:479-483 | on an increasing schedule, at or after the last entry the last temperature applies with the tail-case delay as written |
| Resolver.TailCaseAfterLast | src/main.cpp:474-483 | on any schedule, the tail case is reached only at or after the last entry's time, and it applies the last temperature |
| Resolver.DelayInRange | src/main.cpp:450-494 | with valid entry times and a valid clock reading every delay, the tail case's included, lies between 1 second and 86400 seconds |
| Resolver.TailDelayBounds | src/main.cpp:481 | the tail-case delay as written lies between 1 second and one day |
| Resolver.SecondsUntilBounds | src/main.cpp:488 | from a valid clock reading to a later valid time the delay lies between 1 second and one day, and lands exactly on that time |
| Resolver.ResolveAppliesActive | src/main.cpp:450-494 | the temperature applied is that of an entry whose segment [its time, the next entry's time) contains now, the last segment wrapping past midnight |
| Resolver.ActiveUnique | src/main.cpp:474-490 | on an increasing schedule at most one entry's segment contains now |
| Resolver.TailDelayAsWritten | src/main.cpp:481 | the program's tail delay differs from the intended one by (now.hour - last.hours - first.hours) hours minus the first entry's minutes; outside the tail case both resolvers agree, and they always apply the same temperature |
| Resolver.TailDelayOversleeps | src/main.cpp:481 | for entries 00:30 and 20:00 at 23:00:00 the program sleeps 4 hours, past the transition 90 minutes away |
| Resolver.IntendedHitsNextBoundary | src/main.cpp:479-483 | with the corrected tail delay, on increasing valid schedules: the active entry applies, the delay lies in 1-86400 seconds, and now plus the delay lands, modulo a day, exactly on the next entry's time |
| Resolver.ResolveIntended | src/main.cpp:450-494 | `updateRedshift` with the tail-case delay corrected to run to the first entry's time on the next day; everything else as `Resolve` |
| Resolver.TwoEntryDay | src/main.cpp:450-494 | for entries 06:00 (6500 K) and 20:00 (3400 K): 3400 K for 1 h at 05:00, 6500 K for 14 h at 06:00, 6500 K for 30 s at 19:59:30; 3400 K for 4 h at 23:00 as written, 7 h when corrected |
| Communication.BasicCommunication.constructor | src/main.cpp:200-204 | the mailbox starts with no commands |
| Communication.BasicCommunication.ReadCommandTimeout | src/main.cpp:162-180 | an empty queue gives no command and stays empty; otherwise the oldest command is removed and returned |
| Communication.BasicCommunication.ReadCommand | src/main.cpp:181-194 | with a command queued, the oldest is removed and returned |
| Communication.BasicCommunication.WriteCommand | src/main.cpp:195-199 | the command is appended at the back |
| Communication.FifoOrder | src/main.cpp:160-204 | two commands written are read back in the order written, and a third read finds the queue empty |
| WorkerLoop.Run | src/main.cpp:496-512 | the worker loop as a function: one pass per clock reading, each taking the next command if any, stopping at TERMINATE, switching schedule on UPDATE and applying the resolver's temperature |
| WorkerLoop.Worker | src/main.cpp:496-512 | the loop over the mailbox, one pass per clock reading, ends exactly as `Run` from the empty schedule and a one-day wait, leaving the unread commands in the mailbox |
| WorkerLoop.RunWithoutTerminate | src/main.cpp:499-509 | without TERMINATE the worker makes one pass per clock reading, consumes commands in FIFO order one per pass, keeps its schedule on a timeout, and ends with the schedule of the last UPDATE read |
| WorkerLoop.RunAppliesEachPass | src/main.cpp:508 | every pass that does not stop applies one temperature; after the last pass nextUpdate is the resolver's delay and the last temperature applied is the resolver's, for the final schedule and clock reading |
| WorkerLoop.RunStopsAtTerminate | src/main.cpp:500-503 | at the first TERMINATE the worker stops after one pass per earlier command, with the schedule of the last earlier UPDATE, leaving every later command unread |
| WorkerLoop.RunKeepsStateValid | src/main.cpp:496-509 | with validated schedules and valid clock readings the wait stays within 1-86400 seconds and every temperature applied lies in 1000-25000 K |
| Config.IsSpace | src/main.cpp:138 | `std::isspace` in the "C" locale holds exactly for space, tab, newline, vertical tab, form feed and carriage return |
| Config.TokenStart | src/main.cpp:138-139 | the first loop of `trimString` stops at the first non-space, skipping only whitespace |
| Config.TokenEnd | src/main.cpp:141-143 | the second loop stops at the first whitespace or NUL, passing neither |
| Config.TrimString | src/main.cpp:137-147 | the token starts after leading whitespace only, holds no whitespace or NUL, and ends at whitespace, a NUL or the end of the buffer |
| Config.StripComment | src/main.cpp:414-417 | cutting at `strchr(buffer, '#')` leaves a prefix of the line with no '#', the whole line when it has none, and otherwise stops right before its first '#' |
| Config.LineTokenOfPlainWord | src/main.cpp:414-418 | a word without whitespace, NUL or '#' is left unchanged by cutting the comment and trimming |
| Config.ParseRow | src/main.cpp:334 | a row read by `getTime` and `getTemperature` gives a valid time and a temperature in 1000-25000 |
| Config.CheckRows | src/main.cpp:333-342 | the loop of `save` as a function: each row parsed in turn, failing at the first row that does not parse or is not after `prev` |
| Config.CheckRowsStorable | src/main.cpp:333-342 | when the loop of `save` succeeds it holds one storable entry per row |
| Config.SavedHeader | src/main.cpp:327-331 | the text starts with the header comment line, followed by a blank line and "disabled" when switched off |
| Config.EntryTextJoined | src/main.cpp:339-340 | the two appends for one entry add its blank, time and temperature lines, each ended by a newline |
| Config.SavedEntryAppends | src/main.cpp:339-340 | saving one more entry appends exactly that entry's three lines to the text |
| Config.SaveAppendsEntry | src/main.cpp:339-341 | after the two appends for the current entry the text is that of the entries so far and the current one |
| Config.SaveText | src/main.cpp:324-349 | the text `save` writes: the header, the switch and the lines of every entry, or the first error met |
| Config.Save | src/main.cpp:324-349 | the loop carrying `prev` returns exactly `SaveText`: the text of all rows, or the first error met |
| Config.ParsedRows | src/main.cpp:333-334 | when every row parses there is one entry per row |
| Config.CheckRowsOrdering | src/main.cpp:333-342 | from any prev: a row that does not parse fails the loop; when all parse, the loop succeeds exactly when the times are strictly increasing and after prev's (unless prev is the default 00:00/0 pair), returning the parsed entries, and otherwise fails with "Time entries must be ordered chronologically" |
| Config.SaveAccepts | src/main.cpp:324-349 | `save` writes exactly when every row parses and the times are strictly increasing, and then writes those entries; with every row parsing but out of order it reports "Time entries must be ordered chronologically" |
| ConfigLoad.LoadConfigFile | src/main.cpp:400-441 | the line loop over the file's lines returns exactly `LoadConfigLines` |
| ConfigLoad.Consume | src/main.cpp:422-435 | the try block: "disabled" switches the scheduler off; otherwise a time is parsed when none is pending, else a temperature that completes an entry with the pending time; a parse error is passed on |
| ConfigLoad.Step | src/main.cpp:413-438 | one pass of the loop body: count the line, cut the comment, trim, skip a blank token, and otherwise run the try block, reporting its error under the line's number |
| ConfigLoad.LoadFrom | src/main.cpp:412-440 | the loop from a given state: it stops without error at the end of the file or at a line that does not fit the buffer, stops with the error of the first refused line, and otherwise goes on with the next line |
| ConfigLoad.Fits | src/main.cpp:410-412 | a line fits the 64-byte buffer when its UTF-8 text is at most 63 bytes long |
| ConfigLoad.SplitLines | src/main.cpp:412 | the lines `getline` delivers hold no newline, and a text gives no line exactly when it is empty |
| ConfigLoad.LoadSkipsLine | src/main.cpp:418-420 | a line whose trimmed token is blank is counted and skipped |
| ConfigLoad.LoadConsumesToken | src/main.cpp:422-435 | a line whose token the try block accepts lets the loop go on from the state the try block leaves |
| ConfigLoad.LoadRefusesToken | src/main.cpp:436-438 | a line whose token the try block refuses ends the loop with that error under the line's number |
| ConfigLoad.StepSkips | src/main.cpp:419-420 | a blank token only counts the line |
| ConfigLoad.StepAccepts | src/main.cpp:422-435 | an accepted token leaves the state the try block produces |
| ConfigLoad.StepRefuses | src/main.cpp:436-437 | a refused token is reported under the number of its line |
| ConfigLoad.HeaderFits | src/main.cpp:327 | the header comment is ASCII, so its 39 characters take 39 bytes and fit the buffer |
| ConfigLoad.StepExtends | src/main.cpp:413-435 | a line advances the counter by one and adds at most one entry after the existing ones; a refused line is reported under its own number |
| ConfigLoad.LoadFailsAt | src/main.cpp:436-438 | a refused line ends the loop with its error, keeping the entries already added |
| ConfigLoad.LoadEndsAt | src/main.cpp:410-412 | the loop ends without error at the end of the file or at a line whose UTF-8 text takes more than 63 bytes, too long for the 64-byte buffer |
| ConfigLoad.LoadAdvances | src/main.cpp:412-440 | an accepted line of at most 63 UTF-8 bytes, so that it fits the buffer, is consumed and the loop goes on from the state it leads to |
| ConfigLoad.LoadAddsStorableEntries | src/main.cpp:422-435 | loading only appends entries, each with a valid time and a temperature in 1000-25000 |
| ConfigLoad.StepKeepsStorable | src/main.cpp:425-434 | one line keeps every entry storable and any pending time valid |
| ConfigLoad.LoadStopsAtError | src/main.cpp:436-438 | after an error no later line is read |
| ConfigLoad.LoadErrorLine | src/main.cpp:411-437 | the reported line number counts blank lines too; it names a line of the file that fits the buffer and holds a token |
| ConfigLoad.StepRefusesTokens | src/main.cpp:419-420 | only a line with a token can be refused |
| ConfigLoad.LongLineEndsLoad | src/main.cpp:410-412 | a line of 64 UTF-8 bytes or more ends loading: nothing from it on is read |
| ConfigLoad.SplitJoin | src/main.cpp:412 | reading newline-free lines joined with newlines gives the same lines back |
| ConfigLoad.StepBlank | src/main.cpp:419-420 | a line with no token only moves the line counter |
| ConfigLoad.StepDisabled | src/main.cpp:423-424 | a "disabled" line switches the scheduler off |
| ConfigLoad.StepTime | src/main.cpp:425-426 | with no pending time, a line written by `toString` becomes the pending time |
| ConfigLoad.StepTemperature | src/main.cpp:427-434 | with a pending time, a temperature line adds the entry and clears the pending time |
| ConfigLoad.LoadEntryText | src/main.cpp:425-434 | the three lines `save` writes for an entry add that entry when loaded |
| ConfigLoad.LoadEntryLines | src/main.cpp:412-440 | the entry lines `save` writes add exactly those entries, in order |
| ConfigLoad.LoadHeader | src/main.cpp:414-424 | the header comment, and the blank and "disabled" lines of a switched-off scheduler, add no entry and set the switch |
| ConfigLoad.LoadDisabledLines | src/main.cpp:423-424 | the blank line and "disabled" line set the flag |
| ConfigLoad.LoadSavedText | src/main.cpp:400-441 | the text `save` writes for storable entries loads back as those entries, the switch as it was, and no error |
| ConfigLoad.SaveThenLoad | src/main.cpp:324-441 | whatever `save` writes, `loadConfigFile` reads back as the rows' entries in order, with the switch as it was and no error |

## Left out

- The GTK interface (`RedshiftScheduler`'s constructor, widgets, CSS, the about and license windows, the `ScheduledTemperature` widget plumbing) and `main`. They are user interface, not logic. An editor row is modelled only as the text of its two fields (`Config.Row`).
- File I/O: `writeConfigFile`, the `std::filesystem` checks (including "Config file not found!") and the `ifstream`. `save` returns its text instead of writing it. `loadConfigFile` takes the file's lines, and `SplitLines` says how `getline` cuts a text into lines.
- `invokeRedshift` and `std::system`: the temperature is returned (`Resolution.temperature`) or recorded (`WorkerState.applied`).
- The clock (`system_clock::now`, `localtime`) is a parameter (`Clock`). A leap second (`tm_sec` of 60) is not considered valid.
- The mutex, the condition variable and the threads. The mailbox is sequential. A read that would time out is a read from an empty queue, so the timeout value is not used. `readCommand`'s blocking wait becomes the precondition that a command is queued.
- WorkerLoop.Worker: the `while(1)` loop is bounded by a finite sequence of clock readings, one per pass, so a worker that never stops is described by its finite prefixes.
- The `std::regex` engine: the accepted shapes are written out as predicates (`MatchesTimePattern`, `MatchesTemperaturePattern`).
- `std::stoi` overflow: numbers are unbounded. `std::out_of_range` on numbers beyond `int` is not caught as `runtime_error`, so the program would terminate there.
- `save`'s `std::make_pair(getTime(), getTemperature())` leaves the evaluation order unspecified in C++. The model parses the time first, which decides the error reported when both fields are wrong.
- `save`'s `sendUpdate`, `createScheduleList` and `setOutputLabel`. `SaveText` returns the text or the error message that the label would show. The worker accepts any schedule sent to it.
- `loadConfigFile`'s side effects: `setIsEnabled(false)` becomes the `disabled` flag, `addNewEntry`/`setTime`/`setTemperature` become appended entries, and the printed message becomes `LineError`. The switch's state before loading is not modelled.
- Config.TrimString: the in-place write of `'\0'` into the buffer is modelled as returning the token's start and length.
- The configuration file is read as UTF-8 text: a line's length against the 64-byte buffer is the byte count of its UTF-8 encoding (`Text.Utf8Length`). A file that is not valid UTF-8 is not modelled.
- Communication: `std::move` of the command is a plain copy of a value.

## Findings

| source | as written | input that shows it | evidently intended | confidence | as-written member | corrected member |
|---|---|---|---|---|---|---|
| src/main.cpp:481 | the tail-case delay is `(24 - prev.hours)*3600 - tm_min*60 - tm_sec`: hours to midnight counted from the last entry's hour instead of the current one, and the first entry's time is not added | entries 00:30 (3000 K) and 20:00 (4000 K), clock 23:00:00: delay 4 h, waking at 03:00, although the next transition (00:30) is 90 minutes away | the delay runs to the first entry's time on the next day, so that now plus the delay lands on the next transition | not executed | Resolver.TailDelayOversleeps | Resolver.IntendedHitsNextBoundary |
