# 145watch, modelled in Dafny

145watch re-runs a command at a fixed interval, like `watch`. Before each pass it prints a banner. It can beep when the command exits with a non-zero status. Its whole logic sits in `main.cpp`. This project models three parts of it:

- **Option scanner** (`options.dfy`, module `Options`). This is the `while` loop at the top of `main`. It walks the arguments after the program name and keeps three settings: beep, precise mode, and the interval in milliseconds (default 2000). It stops at the first argument that is empty or does not begin with `-`. It ends in one of six outcomes: help, version, missing interval value, error (exit 1), no command (exit 0), or a run that carries the settings and the index where the command starts. The method `ScanOptions` keeps the loop's shape and is proved equal to the recursive specification `Scan`. The lemmas about `Scan` are stated over argument vectors built from well-formed options (`Render`).
- **Command text** (`command_line.dfy`, module `CommandLine`). This is `joinArguments`. An argument is wrapped in double quotes when it contains a space. The arguments are then joined with single spaces. `SplitCommandLine` is a reference reader for that text. It is the partner in the round-trip lemma.
- **The loop body** (`watch.dfy`, module `Watch`). This covers `execute`, the beep rule, and the two ways of sleeping: until `start + interval * count` in precise mode, or for `interval` in accumulating mode. `WatchLoop` runs a finite number of passes over a plain integer clock, under the pass rule as written or corrected. The time each pass takes and the status `std::system` reports are inputs.

`std::stod` is the parameter `parse: string -> Option<real>`. `None` stands for the exception it throws. The argument vector is modelled without `argv[0]`, so the command starts at `args[commandStart]`, which is `argv[commandStart + 1]`.

Notes on the code:
- the interval is truncated by `static_cast<int>` (main.cpp:113-114), not rounded;
- only the space character causes quoting (main.cpp:60), not a tab or other whitespace;
- an interval option with no value after it prints usage and exits with status 0 (main.cpp:103-106), like help;
- the command is executed only when beep is enabled (main.cpp:147), although the usage text `145watch [options] (<command> | false)` with `-b` to "beep if command has a non-zero exit" (main.cpp:39-41) describes a command that runs on every pass (see Findings). The loop is modelled under both readings, chosen by `PassRule`.

## Model

| member | source | states |
|---|---|---|
| `CommandLine.QuoteOnlyOnSpace` | main.cpp:60-62 | An argument is left unchanged exactly when it has no space. Otherwise it gains one double quote at each end and the argument stands unchanged between them. |
| `CommandLine.TabIsNotQuoted` | main.cpp:60-62 | A tab does not cause quoting: `["a\tb", "c"]` joins to `a\tb c`. |
| `CommandLine.JoinArgumentsEmpty` | main.cpp:57-66 | No arguments give the empty command text. |
| `CommandLine.JoinArgumentsCons` | main.cpp:58-64 | The text of two or more arguments is the first argument, quoted as needed, then one space, then the text of the rest. |
| `CommandLine.JoinArgumentsAppend` | main.cpp:57-66 | Joining `a + b` is joining `a`, one space, then joining `b`, for non-empty `a` and `b`. Arguments keep their order with exactly one separator. |
| `CommandLine.NoOuterSeparator` | main.cpp:57-66 | When every argument is non-empty, the command text neither starts nor ends with a space. |
| `CommandLine.SplitJoinRoundTrip` | main.cpp:57-66 | Splitting the command text gives back the arguments, for a non-empty argument list in which no argument has a double quote. |
| `CommandLine.QuotedArgumentsCollide` | main.cpp:60-64 | Without that condition the text is ambiguous: `["a b"]` and `["\"a", "b\""]` both give `"a b"`. |
| `Options.ExitStatus` | main.cpp:95-130 | Status 1 exactly for a scanning error. Every other early end exits with 0. |
| `Options.IntervalMillis` | main.cpp:108-118 | A value is accepted exactly when `seconds*1000 >= 100`. The result is the truncated millisecond count, at least 100. A value `<= 0` is the non-positive error. Any other refusal is the too-small error, with fewer than 100 ms. |
| `Options.IntervalTruncates` | main.cpp:113-115 | Truncation, not rounding: 1.9999 s is 1999 ms, 0.0999 s is refused as 99 ms, and 0.1 s is 100 ms. |
| `Options.ScanOptions` | main.cpp:86-130 | The loop's outcome is `Scan`'s. On a run the command starts at an argument that is empty or lacks a leading `-`. Every earlier argument is a dash argument or an interval value. The interval is at least 100 ms. |
| `Options.SpellingKinds` | main.cpp:95-122 | Each of the ten spellings is recognised as the option of its own group. A dash argument that is none of them is an unknown option. |
| `Options.NoIntervalOption` | main.cpp:102-118 | A list of accepted options leaves the interval unset exactly when it has no interval option. |
| `Options.LastIntervalWins` | main.cpp:102-118 | The last interval option wins: the list's interval is that of an interval option with no interval option after it. |
| `Options.SettleMeaning` | main.cpp:86-125 | Applying a list of accepted options one by one turns beep and precise mode on exactly when their switch is in the list (or they were on). The interval becomes that of the last interval option, and is unchanged when there is none. |
| `Options.SkipOptions` | main.cpp:91-125 | The scan passes over a list of well-formed options. It continues after them with the settings that the list establishes. |
| `Options.ScanRunsCommand` | main.cpp:86-132 | After well-formed options, a non-dash argument starts the command at that index. Beep and precise mode are on exactly when their switch was given. The interval is that of the last interval option, or 2000 ms if there is none. |
| `Options.ScanStopsAtHelpOrVersion` | main.cpp:95-99 | The first help or version option ends the scan with status 0, whatever follows it. |
| `Options.ScanRejectsUnknownOption` | main.cpp:121-128 | A dash argument that is none of the ten spellings is an error with status 1. No command starts. |
| `Options.ScanRejectsIntervalValue` | main.cpp:108-128 | An interval value is an error with status 1 in three cases: `stod` refuses it, it is `<= 0`, or it truncates below 100 ms. |
| `Options.ScanMissingIntervalValue` | main.cpp:103-107 | An interval option that is the last argument ends with status 0, not 1. |
| `Options.ScanWithoutCommand` | main.cpp:130 | Options with nothing after them end with status 0. |
| `Options.ScanRunStartsInside` | main.cpp:91-132 | A run names an argument inside the vector, at or after where the scan began, that is empty or does not begin with `-`. So the command text of main.cpp:132 is never built from an empty list. |
| `Options.ScanIgnoresLaterArguments` | main.cpp:91-125 | Arguments after the point where the scan stops are never examined. Appending arguments changes no outcome except "no command" and "missing interval value". |
| `Watch.Execute` | main.cpp:68-73 | No process is started exactly when the command text is `false`, and then the status is 1. Otherwise the status is `std::system`'s. |
| `Watch.JoinIsFalseOnlyForFalse` | main.cpp:68-73 | The command text equals `false` exactly for the argument list `["false"]`. |
| `Watch.ExecuteSkipsProcessOnlyForFalse` | main.cpp:68-73 | `execute` on the joined command skips the process exactly for `["false"]`, and then returns 1. |
| `Watch.RunPassAsWritten` | main.cpp:147-149 | As written, the command is executed exactly when beep is enabled. A beep follows exactly when beep is enabled and the status is non-zero. |
| `Watch.RunPass` | main.cpp:147-149 | Corrected: the command is executed on every pass. A beep follows exactly when beep is enabled and the status is non-zero. |
| `Watch.NoCommandRunsWithoutBeep` | main.cpp:147 | Without beep, the pass as written executes nothing, while the corrected pass executes the command. |
| `Watch.PlainCommandNeverRuns` | main.cpp:130-149 | `145watch ls` end to end: the scan gives a run with default settings, the joined command text is `ls`, the loop as written never executes it, and the corrected loop executes it on every pass. |
| `Watch.BeepUnchangedByCorrection` | main.cpp:147-149 | Both rules beep on the same passes. With beep enabled they agree entirely. |
| `Watch.RunPassBy` | main.cpp:147-149 | Under either rule a beep follows exactly when beep is enabled and the status is non-zero. No execution happens exactly when the rule is as written and beep is off. |
| `Watch.WatchLoop` | main.cpp:145-155 | The loop's passes, under the rule as written or corrected, are the passes of the specification `Passes` under that rule, numbered from 1. |
| `Watch.PassAt` | main.cpp:145-155 | Pass k starts when pass k-1 woke and ends after its own duration. It wakes as its mode says and runs as the chosen rule says: as written (`RunPassAsWritten`) or corrected (`RunPass`). |
| `Watch.ScheduleIgnoresRule` | main.cpp:145-155 | The loop as written and the corrected loop start, end and wake every pass at the same times and beep on the same passes. |
| `Watch.AsWrittenExecutesOnlyWithBeep` | main.cpp:147 | As written, the loop executes the command on a pass exactly when beep is enabled. |
| `Watch.ScanThenWatch` | main.cpp:86-149 | After a scan that ends in a run, the command text is joined from the arguments from the command start on. On each pass that text is executed exactly when the rule is corrected or beep is enabled, with the status `execute` gives. |
| `Watch.OnePassAtATime` | main.cpp:150-154 | Passes never overlap: a pass never starts before the previous one has ended. |
| `Watch.CatchUpBackToBack` | main.cpp:150-151 | In precise mode a late schedule is caught up by back-to-back passes: when a pass ends at or after the next deadline, the next pass starts the moment it ends. |
| `Watch.BeepsCountFailures` | main.cpp:147-149 | Under either rule, over any number of passes with beep enabled, the beeps equal the non-zero exit statuses. Without beep there are none. |
| `Watch.FalseBeepsEveryPass` | main.cpp:69-70 | Under either rule, the command `false` with beep enabled beeps on every pass. |
| `Watch.DeadlinesIncrease` | main.cpp:151 | The precise deadlines `start + interval*k` grow strictly with k. |
| `Watch.PreciseWakesAtDeadline` | main.cpp:150-151 | In precise mode pass k never starts before `start + interval*k`. It wakes at the later of its own end and the next deadline. |
| `Watch.PreciseDoesNotDrift` | main.cpp:151 | In precise mode, when no pass is longer than the interval, pass k starts exactly at `start + interval*k`, whatever the pass durations. |
| `Watch.AccumulatingDrifts` | main.cpp:152-153 | In accumulating mode, pass k starts at `start` plus k intervals plus the durations of all earlier passes. |

## Findings

| source | as written | input that shows it | evidently intended | confidence | as-written member | corrected member |
|---|---|---|---|---|---|---|
| main.cpp:147 | `enableBeep && execute(command) != 0` short-circuits, so the command is executed only when beep is enabled | `145watch ls` (no `-b`): `ls` is never executed (`Watch.PlainCommandNeverRuns`) | execute the command on every pass; beep when beep is enabled and the status is non-zero | high, not executed | `Watch.RunPassAsWritten` | `Watch.RunPass` |

`Passes` and `WatchLoop` take the rule as a parameter, so the loop is modelled both as written and corrected. `Watch.ScheduleIgnoresRule` proves that the two loops share every start, end, wake-up time and beep. `Watch.BeepsCountFailures` and the timing lemmas are stated for either rule.

## Left out

- Process spawning through `std::system` (main.cpp:72): its status is an input per pass. Exit-status encoding and the inheritance of standard streams are not modelled.
- `beep()` (main.cpp:75-84): the terminal bell, the Win32 `Beep` call and its error report are platform output. The model records only that a beep happened.
- The SIGINT handler and process exit (main.cpp:144): signal behaviour.
- Real sleeping and the clocks (`steady_clock`, `system_clock`, `timeBeginPeriod`/`atexit`; main.cpp:136-143, 151-153): time is an integer count of milliseconds, and each pass's duration is an input.
- The endless loop: only a finite prefix of passes is modelled.
- `std::stod`'s grammar, including partial parses such as `0.5abc`: it is the abstract `parse` parameter.
- Floating point: `seconds * 1000` is computed exactly in reals. The model does not cover double rounding, or the undefined `static_cast<int>` of huge, infinite or NaN values (main.cpp:114-118).
- The text that is printed: usage text (`joinOptions`, `HELP_INFO`, main.cpp:33-50), the version line, error messages, and the banner with its `float` interval and locale timestamp (main.cpp:133-135, 146). Outcomes record the kind of error, not its wording.
- `argv[0]` and `argc == 0`: the model takes the arguments after the program name.
- `SplitCommandLine` is a simple reader that inverts the quoting. It is not a model of how a shell splits the command text.
