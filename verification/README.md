# Verification of the sitter's state machines

The sitter is a daemon that wakes up once a minute, runs a set of plugins, saves
what they measured and mails the administrator when something is wrong. This
project models the parts of it that carry state from one run to the next, and
proves what they guarantee over every run. `dafny verify dfyconfig.toml` checks
all of it.

| file | models |
|---|---|
| `Matching.dfy` | stable pairings of two ranked lists: the theory of the process check |
| `ProcessLoading.dfy` | process definition files, and the table loading them gives |
| `ProcessWatch.dfy` | the erase-in-place check of running processes, and its report |
| `WorkerProtocol.dfy` | worker thread and event loop as one interleaved transition system, with its inductive invariant |
| `WorkerStop.dfy` | what a stop request guarantees |
| `WorkerTicks.dfy` | tick accounting over the history of a run |
| `Settings.dfy` | the memoised getters of the server, and what clears them |
| `Statistics.dfy` | the ring of statistics files against the unbounded log of runs |
| `ErrorReport.dfy` | error counters and the email limiter |
| `RunPlugins.dfy` | the life of the service: runs, changing options and restarts, tying files and stamp to the whole history |
| `PackageText.dfy` | the text of the package cache, written and read back |
| `PackageReports.dfy` | what is reported about packages under one table, and what ends a watch |
| `PackageMemory.dfy` | the memo table in front of `dpkg-query` and its file, over watches, removals and restarts |
| `PackageWatch.dfy` | the packages plugin |
| `PackageLoading.dfy` | package files |
| `CpuLatch.dfy` | the high CPU alarm |
| `Certificates.dfy` | certificate delays, and the throttle on access failures |
| `LogMode.dfy` | the mode parameter of a log definition |

Operations that update state in place are methods on classes with the fields of
the source. Each is proved against a function of values, and the theorems about
whole runs are lemmas about those functions; ghost fields (`saved`, `attempts`,
`samples`, `failures`, `found`) hold the history the theorems speak of. The machine is a
parameter: the clock, `systemctl`, `dpkg-query`, regular expressions, the
library's number, duration and list readers. `dpkg-query` may answer differently
every time it is asked.

The worker is modelled at the level of single steps. Timer, SIGINT, STOP and
worker-done are all callbacks of the one event loop, so there are two threads;
`stop` may be called any number of times. The condition variable may wake the
worker spuriously and a plugin may throw. Three facts about libraries are taken
as given: stopping a thread makes `continue_running` answer false before the
wake-up callback runs and joins afterwards, waiting releases the mutex and
enters the wait set in one step, and the dispatcher does not call a connection
back once it was removed.

## What the code does differently

Where the code departs from its comments or documentation the model follows the
code, and a lemma says exactly when the two agree.

* A definition can be reported missing although a suitable process runs, even
  when the processes could serve every definition (`HalfIsTight`). For any
  processes, "missing" means that nothing suitable runs if and only if no process
  suits both a definition that should run and an earlier one
  (`MissingIsTrueExactly`).
* Each report setting is clamped on its own, which does not keep the classes in
  order; a worse error can then be held back where a milder one is mailed
  (`ClampedIsNotEnough`, `OptionsAreMonotoneExactly`).
* The first request for the critical priority answers 0 when its option has more
  than two parts (`AnswersAreFresh`, `FirstAnswerIsZero`). An invalid settle time
  stays at -1 (`InBoundsIsKept`).
* A package file may give any priority. One outside 0..100 makes the report on
  the package throw, which hides the packages after it and leaves the cache
  unsaved (`BadPriorityHidesTheRest`, `WatchThrowsExactly`). A list of packages
  can be watched on any machine if and only if no package something can be said
  about has such a priority (`NeverThrowsExactly`).
* A package's `installation` is read only when the file also has a parameter
  spelled `intallation` (`KindIsHonouredExactly`, `RequiredIsIgnored`).
* The comment on certificate access failures asks for repeated failures before
  an error; the code reports the first one at once (`FirstFailureIsReported`).
* In a symbolic log mode the permissions are multiplied by the sections, which
  gives the documented bits exactly when no `r`, `w` or `x` is named
  (`ExpansionIsDocumentedExactly`, `PlusIsDocumentedExactly`), and no `-` mode
  rejects exactly the files that have one of its bits
  (`MinusIsNeverAsDocumented`).
* The reader of numeric log modes takes `8` for an octal digit (`EightIsRead`). It
  agrees with octal on an accepted text exactly when the text has no `8`
  (`EightIsTheDifference`).
* The daily removal of the package cache is meant to have every package looked at
  afresh. A running service does not notice it (`RemovalIsNotNoticed`), and once it
  has made a query every watch that completes writes the old table back
  (`RemovalIsUndone`). The reset takes effect exactly when the service restarts
  before any watch saves (`ResetIsHonouredExactly`, `OldAnswersSurviveReset`).
* Reports are only held apart by stamps that were written (`StampIsWhatDelays`,
  `DueExactly`).

## Model

| member | source | states |
|---|---|---|
| Matching.StableIsUnique | plugins/sitter_processes/processes.cpp:852-928 | Among all pairings of processes and definitions, both ranked by list position, there is at most one without a blocking pair |
| Matching.UnservedExactly | plugins/sitter_processes/processes.cpp:932-938 | A definition stays unserved exactly when every process that suits it went to an earlier definition |
| Matching.UnservedWhenUnambiguous | plugins/sitter_processes/processes.cpp:932-938 | If no process suits two definitions, a definition stays unserved exactly when nothing suitable runs |
| Matching.StableServesHalf | plugins/sitter_processes/processes.cpp:853-928 | Any pairing at all serves at most twice as many definitions |
| ProcessLoading.LoadedExactly | plugins/sitter_processes/processes.cpp:734-788 | Loading throws exactly when two files share a name and one disallows duplicates; otherwise each entry is the first file of its name, mandatory when any file of the name is, in order of first appearance |
| ProcessLoading.LoadingThrowsExactly | plugins/sitter_processes/processes.cpp:734-764 | Read off the parameters: loading throws exactly when two files have the same name and not both allow duplicates |
| ProcessLoading.EntryIsFirstFile | plugins/sitter_processes/processes.cpp:734-788 | Read off the parameters: an entry is what the first file of its name declares, mandatory exactly when some file of the name is |
| ProcessLoading.FileHasEntry | plugins/sitter_processes/processes.cpp:734-788 | Every file with a name has an entry |
| ProcessLoading.AcceptsExactly | plugins/sitter_processes/processes.cpp:667-698 | Which base names and command lines a file accepts: by its name alone, by its command, by its pattern, or by both |
| ProcessLoading.ExpectedExactly | plugins/sitter_processes/processes.cpp:536-620 | When a file wants its process to run; for a service that is no backend, exactly when it is enabled |
| ProcessLoading.NamesAreUnique | plugins/sitter_processes/processes.cpp:734-764 | No two entries of a loaded table have the same name |
| ProcessLoading.LoadOrderIsIrrelevant | plugins/sitter_processes/processes.cpp:799-815 | Permuting the files changes neither whether loading throws, nor the names, nor which are mandatory |
| ProcessWatch.LastSlash | plugins/sitter_processes/processes.cpp:863-867 | The position found is the last slash, or none exists |
| ProcessWatch.BaseNameExactly | plugins/sitter_processes/processes.cpp:863-867 | The base name is what follows the one place after which there is no slash |
| ProcessWatch.CommandLineIsSpaced | plugins/sitter_processes/processes.cpp:857-886 | The command line is the path and the non-empty arguments, with one space before each |
| ProcessWatch.ServesExactly | plugins/sitter_processes/processes.cpp:667-698 | Which processes a file is about, from its parameters to the path and arguments of a process |
| ProcessWatch.OutcomeExists | plugins/sitter_processes/processes.cpp:842-986 | Whatever the definitions and the processes, there is a report that meets what a check promises |
| ProcessWatch.OutcomeIsUnique | plugins/sitter_processes/processes.cpp:842-986 | What a check promises determines its report completely |
| ProcessWatch.MissingExactly | plugins/sitter_processes/processes.cpp:930-985 | A missing error is reported for a definition exactly when it should run and every suitable process was spent on an earlier definition |
| ProcessWatch.MissingWhenUnambiguous | plugins/sitter_processes/processes.cpp:930-985 | If no listed process suits both a definition and an earlier one, a missing error means that the definition should run and nothing suitable does |
| ProcessWatch.MissingIsTrueExactly | plugins/sitter_processes/processes.cpp:842-986 | For the table of any definition files: whatever runs, a missing error means that nothing suitable does, if and only if no process suits both a definition that should run and an earlier one |
| ProcessWatch.FoundExactly | plugins/sitter_processes/processes.cpp:892-910 | Found running are exactly the processes that serve a definition, under its name |
| ProcessWatch.DisabledExactly | plugins/sitter_processes/processes.cpp:903-918 | Running when disabled is reported exactly for backends that serve though they should not run |
| ProcessWatch.LeftExactly | plugins/sitter_processes/processes.cpp:930-985 | The event of each definition left over, with its priority, and no other |
| ProcessWatch.MissingPriorityExactly | plugins/sitter_processes/processes.cpp:947-975 | Read off the parameters: 5 for a backend in maintenance, else 95 when some file of the name is mandatory, else 60 |
| ProcessWatch.NameAloneIsReported | plugins/sitter_processes/processes.cpp:842-986 | A file with no more than a name is reported missing exactly when no listed base name is that name, and else running at the first one |
| ProcessWatch.HalfIsTight | plugins/sitter_processes/processes.cpp:889-926 | Two definition files and two processes for which the factor two is met: one definition is reported missing although each could have a process of its own. The one pattern is the whole command line it matches |
| ProcessWatch.Plugin.IsProcessExpectedToRun | plugins/sitter_processes/processes.cpp:536-620 | The answer through the cached list of backends is the one the configuration gives |
| ProcessWatch.Plugin.LoadProcess | plugins/sitter_processes/processes.cpp:709-789 | The new table and the exception are those of adding one file |
| ProcessWatch.Plugin.LoadProcesses | plugins/sitter_processes/processes.cpp:799-815 | Succeeds exactly when no two files disagree, and then the table represents the files |
| ProcessWatch.Plugin.CommandLineOf | plugins/sitter_processes/processes.cpp:857-886 | The path followed by the non-empty arguments |
| ProcessWatch.Plugin.FindMatch | plugins/sitter_processes/processes.cpp:887-891 | The first definition left that accepts the process, if any |
| ProcessWatch.Plugin.CheckProcess | plugins/sitter_processes/processes.cpp:853-928 | One process more is dealt with, and the pairing so far stays stable |
| ProcessWatch.Plugin.MatchRunning | plugins/sitter_processes/processes.cpp:852-928 | The loop that erases in place computes the stable pairing and leaves the unserved definitions in order |
| ProcessWatch.Plugin.ReportMissing | plugins/sitter_processes/processes.cpp:930-985 | One event per definition left, with priority 95, 60 or 5, or not resident when it need not run |
| ProcessWatch.Plugin.OnProcessWatch | plugins/sitter_processes/processes.cpp:842-986 | Throws exactly on disagreeing files; otherwise the report is the one of the stable pairing |
| WorkerProtocol.InvStep | sitter/sitter_worker.cpp:115-205 | Every step of either thread keeps the mutex, waiting and stopping invariants |
| WorkerProtocol.NoLostWakeup | sitter/sitter_worker.cpp:190-205 | In every reachable state a worker asleep without a signal has no tick pending that is not about to be signalled, and no completed wake-up follows a stop request |
| WorkerProtocol.WorkerPointerIsValid | sitter/sitter.cpp:1043-1076 | No tick or wake-up reaches a reset worker, and however often stop is called the thread is joined at most once |
| WorkerProtocol.MutexIsReleased | sitter/sitter_worker.cpp:115-134 | The holder of the mutex can always step, and each step brings the release closer |
| WorkerProtocol.NoDeadlock | sitter/sitter_worker.cpp:176-205 | Some thread can step unless there is nothing to do |
| WorkerStop.StopProgress | sitter/sitter_worker.cpp:176-205 | After a stop request every step of either thread lowers the rank |
| WorkerStop.StopNeverStuck | sitter/sitter.cpp:1043-1076 | Until stop returns, some thread can step |
| WorkerStop.StopReturns | sitter/sitter.cpp:1043-1076 | Once the flag is set, whatever the schedule, stop returns within fifteen steps with the worker ended, joined once and unreachable |
| WorkerStop.StopRequestReturns | sitter/sitter.cpp:1043-1076 | From any call of stop, whatever the schedule and however often it was called before: it returns within thirty-five steps, and five more for each spurious wake-up, with the worker ended, the timer detached, and the thread joined unless it had ended when it was looked at |
| WorkerStop.StopNeverLeavesAWorker | sitter/sitter.cpp:1043-1076 | Whenever stop gets to the connections, the worker has ended |
| WorkerStop.CallNeverStuck | sitter/sitter.cpp:1043-1076 | Some thread can step in every state of a call of stop |
| WorkerStop.AtMostOneMoreRun | sitter/sitter_worker.cpp:176-187 | After the flag at most one run starts, and only if the worker was past its second test |
| WorkerStop.ThrowEndsTheWorker | sitter/sitter_worker.cpp:107-112 | After a plugin throws no run starts and no tick is handed over any more, whatever is posted |
| WorkerTicks.TickConservation | sitter/sitter_worker.cpp:115-122 | Before a stop wakes the worker, ticks posted are ticks handed over plus ticks pending |
| WorkerTicks.EveryFiringCounts | sitter/sitter_worker.cpp:115-122 | Ticks counted are the firings of the timer, but for one the event loop is still at |
| WorkerTicks.RunsNeverOutnumberTicks | sitter/sitter_worker.cpp:190-205 | Runs never outnumber hand-overs, nor hand-overs ticks |
| WorkerTicks.OneRunPerHandout | sitter/sitter_worker.cpp:176-205 | Between consecutive hand-overs exactly one run starts, and the second passes on exactly the ticks posted in between |
| WorkerTicks.NoHandoutInsideRun | sitter/sitter_worker.cpp:176-205 | The ticks that arrive during one run all go to the same later hand-over |
| WorkerTicks.PendingTickIsServed | sitter/sitter_worker.cpp:176-205 | A pending tick is handed to a run within eight steps of the worker, however the event loop interleaves, short of a stop or a throwing plugin |
| Settings.PeriodIsLeastCoveringHours | sitter/sitter.cpp:454-458 | The period is the least whole number of hours that covers the one asked for, at least one hour |
| Settings.ReportsAreClamped | sitter/sitter.cpp:591-907 | Priorities and spans of the three classes stay within the constants of the server, whatever the options |
| Settings.InBoundsIsKept | sitter/sitter.cpp:373-579 | A frequency, lasting TTL, settle time, priority or span within its bounds is used as given, a period exactly when it is whole hours; a TTL of zero means off; an invalid settle time is -1 |
| Settings.SettingsAreBounded | sitter/sitter.cpp:373-579 | No setting ever leaves its bounds, but for a TTL that is off and an invalid settle time |
| Settings.AnswersAreFresh | sitter/sitter.cpp:930-982 | Over any interleaving of calls and updates an answer is the value recomputed from the options of that moment, with exactly one kind of exception |
| Settings.FirstAnswerIsZero | sitter/sitter.cpp:810-829 | The exception occurs: any critical option with more than two parts is answered by 0, then by 90 |
| Settings.FrequencyIsAnswered | sitter/sitter.cpp:373-412 | After any requests and an update under its fluid-settings name: the frequency given, at least 60, and 60 when invalid |
| Settings.PeriodIsAnswered | sitter/sitter.cpp:422-462 | After any requests and an update: the whole hours that cover the period given, of a week when invalid or negative |
| Settings.TtlIsAnswered | sitter/sitter.cpp:481-529 | After any requests and an update: 0 for off, the period for use-period, otherwise the duration given, at least an hour, and a week when invalid or negative |
| Settings.SettleTimeIsAnswered | sitter/sitter.cpp:542-579 | After any requests and an update: the settle time given, at least 60, 300 when negative and -1 when invalid |
| Settings.LowReport | sitter/sitter.cpp:591-698 | The low priority and span an option stands for, with defaults and bounds |
| Settings.MediumReport | sitter/sitter.cpp:701-807 | The medium priority and span an option stands for, with defaults and bounds |
| Settings.CriticalReport | sitter/sitter.cpp:810-914 | The critical priority and span an option of at most two parts stands for, with defaults and bounds |
| Settings.ReportsAreAnswered | sitter/sitter.cpp:591-914 | After any requests and an update under its fluid-settings name each class answers with what its option stands for, a critical one with more than two parts with 0 and the default span |
| Settings.OthersAreKept | sitter/sitter.cpp:930-982 | An update changes no other setting, but for a TTL that follows the period |
| Settings.KnownExactly | sitter/sitter.cpp:930-982 | The critical class is remembered exactly when it was read since its option last changed |
| Settings.Server.GetStatisticsFrequency | sitter/sitter.cpp:373-412 | The memoised frequency is the recomputed one |
| Settings.Server.GetStatisticsPeriod | sitter/sitter.cpp:422-462 | The memoised period is the recomputed one |
| Settings.Server.GetStatisticsTtl | sitter/sitter.cpp:481-529 | The memoised TTL is the recomputed one, also when it follows the period |
| Settings.Server.GetErrorReportSettleTime | sitter/sitter.cpp:542-579 | The memoised settle time is the recomputed one |
| Settings.Server.ReadReport | sitter/sitter.cpp:595-687 | Priority and span are read out of one option with the bounds of its class |
| Settings.Server.GetErrorReportLowPriority | sitter/sitter.cpp:591-691 | Priority and span are remembered together and agree with the option |
| Settings.Server.GetErrorReportMediumPriority | sitter/sitter.cpp:701-800 | Priority and span are remembered together and agree with the option |
| Settings.Server.GetErrorReportCriticalPriority | sitter/sitter.cpp:810-907 | What is remembered agrees with the option; the answer does too, unless the option is first met with too many parts |
| Settings.Server.ClearCache | sitter/sitter.cpp:930-982 | Exactly the fields that depend on the named option are forgotten, the TTL with the period |
| Settings.Server.Change | sitter/messenger.cpp:103-110 | Changing an option and clearing its memory keeps every remembered value right |
| Settings.Server.FluidSettingsChanged | sitter/messenger.cpp:98-110 | Under its fluid-settings name, known or not, a new value keeps every remembered value right; any other message leaves the memory as it is, which stays right exactly when no remembered setting has another value under the new options |
| Settings.Server.Serve | sitter/sitter.cpp:373-982 | The answers to any sequence of calls and updates are those the options of each moment give |
| Statistics.KeptIsOnDisk | sitter/sitter_worker.cpp:249-257 | A run that was not saved over is on disk, under its slot |
| Statistics.OnDiskIsKept | sitter/sitter_worker.cpp:249-257 | Every file is a run that was not saved over, or an older file no run was saved over |
| Statistics.MinuteIsAMinute | sitter/sitter_worker.cpp:252 | The minute of a start is the last multiple of 60 up to it |
| Statistics.SlotExactly | sitter/sitter_worker.cpp:252-253 | The number of a file is the one below the period that is whole periods from the minute |
| Statistics.SharedFileExactly | sitter/sitter_worker.cpp:252-256 | Two runs of one period share a file exactly when their starts divided by 60 differ by a multiple of period / 60 |
| Statistics.RetentionExactly | sitter/sitter_worker.cpp:252-256 | While the period stays, a run survives exactly as long as no later one starts in its minute or a whole number of periods of minutes away from it |
| Statistics.RetainedForAPeriod | sitter/sitter_worker.cpp:252-256 | A run stays on disk until a later one has the same start / 60 or starts at least period - 59 seconds after it |
| Statistics.DirectoryIsBounded | sitter/sitter_worker.cpp:252-256 | However the period changes, there are at most as many files as minutes in the longest one |
| ErrorReport.WorstIsMaximum | sitter/sitter.cpp:1270-1280 | The priority kept is the maximum of those appended, or zero |
| ErrorReport.WorstIgnoresOrder | sitter/sitter.cpp:1244-1280 | Counter and maximum do not depend on the order in which plugins report |
| ErrorReport.MonotoneExactly | sitter/sitter_worker.cpp:298-345 | Raising a priority never turns a report into a suppression exactly when the spans do not grow from one reachable class to the next |
| ErrorReport.OrderedIsEnough | sitter/sitter.cpp:265-308 | The ordering checks that are commented out would be enough |
| ErrorReport.ReportsAreSpaced | sitter/sitter_worker.cpp:298-350 | Any two reports are at least the later one's span apart, and so 300 seconds, restarts included, if the earlier stamp was written |
| ErrorReport.OldStampDelays | sitter/sitter_worker.cpp:285-286 | A stamp left by an earlier process delays a report by its span |
| ErrorReport.DueExactly | sitter/sitter_worker.cpp:298-350 | An attempt is due exactly when its priority is worth a report and its span has passed since the stamp found at the start and since every earlier report whose stamp was written |
| ErrorReport.WindowIsBounded | sitter/sitter_worker.cpp:298-350 | A window of W seconds holds at most W / 300 + 1 reports |
| ErrorReport.StampIsWhatDelays | sitter/sitter_worker.cpp:350-358 | For any stamp and any report that is due: the same report is due again at once exactly when its stamp was not written |
| ErrorReport.UnwrittenStampDoesNotDelay | sitter/sitter_worker.cpp:350-358 | A witness: two reports in the same second under the default thresholds |
| RunPlugins.ThresholdsAreClamped | sitter/sitter.h:80-90 | The thresholds a run reads always have spans of at least a day, an hour and five minutes |
| RunPlugins.OptionsAreMonotoneExactly | sitter/sitter.cpp:591-907 | For all options: raising a priority never turns a report into a suppression exactly when the spans read do not grow from one reachable class to the next |
| RunPlugins.ClampedIsNotEnough | sitter/sitter.cpp:255-312 | Options the getters accept for which a worse error is suppressed |
| RunPlugins.DefaultsAreDocumented | sitter/sitter_worker.cpp:285-293 | Without options a report is due from priority 10 once a week, from 50 every three days, from 90 once a day |
| RunPlugins.MailsAreSpaced | sitter/sitter_worker.cpp:271-350 | Over any runs, under any options however they change and across restarts, two reports are at least the later one's span apart, and so 300 seconds, if the earlier stamp was written |
| RunPlugins.MailsAreDueExactly | sitter/sitter_worker.cpp:271-350 | Over any such life exactly these reports are due: those worth one whose span has passed since the stamp found at the start and since every earlier report whose stamp was written |
| RunPlugins.MailsAreFew | sitter/sitter_worker.cpp:271-350 | Over any such life a window of W seconds holds at most W / 300 + 1 reports |
| RunPlugins.DiskIsBounded | sitter/sitter_worker.cpp:249-257 | Over any such life the disk holds at most as many files as minutes in the longest period in use |
| RunPlugins.RunIsOnDisk | sitter/sitter_worker.cpp:229-257 | Over any such life a run with priorities in 0..100, data, a data path and a successful write is on disk with its text, under its start and the period of its moment, as long as no later such run has its slot |
| RunPlugins.FileIsOfRun | sitter/sitter_worker.cpp:229-257 | Over any such life every file that was not there at the start is the one of such a run |
| RunPlugins.AttemptsStep | sitter/sitter_worker.cpp:229-268 | The limiter is asked exactly by runs with priorities in 0..100, data and some error that took the settle time, with the highest priority and the thresholds of that moment |
| RunPlugins.Worker.AppendError | sitter/sitter.cpp:1270-1324 | Counts and keeps the maximum before a priority outside 0..100 throws |
| RunPlugins.Worker.ProcessWatch | sitter/sitter_worker.cpp:216-228 | After the plugins, count and maximum are those of all errors appended |
| RunPlugins.Worker.Save | sitter/sitter_worker.cpp:249-257 | The directory stays the ring view of every run saved under the period of its moment; a file that cannot be written stays as it was |
| RunPlugins.Worker.SpanFor | sitter/sitter_worker.cpp:298-313 | The getters, asked one after the other, give the span of the priority under the thresholds of that moment |
| RunPlugins.Worker.ReportError | sitter/sitter_worker.cpp:271-410 | The decision and the stamp are those of the limiter under the thresholds the getters give, stamped before sending and even without addresses |
| RunPlugins.Worker.Run | sitter/sitter_worker.cpp:207-268 | Exactly which runs are saved and judged, with directory and stamp following the whole history |
| RunPlugins.Worker.Live | sitter/sitter_worker.cpp:207-268 | Over any sequence of runs, option changes, getter calls and restarts, what is saved and decided is what the steps say |
| PackageText.RoundTripExactly | plugins/sitter_packages/packages.cpp:591-605 | Writing then reading gives a map back exactly when every name is non-empty and has neither `=` nor a newline |
| PackageText.ParseNormalises | plugins/sitter_packages/packages.cpp:416-442 | For every file content, reading, writing in any order and reading again changes nothing |
| PackageText.ParsedIsPrintable | plugins/sitter_packages/packages.cpp:432-440 | Only printable names are ever read |
| PackageText.LinesExactly | plugins/sitter_packages/packages.cpp:417-431 | The lines have no newline and join to the text |
| PackageText.ParsedExactly | plugins/sitter_packages/packages.cpp:432-440 | A name is recorded exactly when some line says it before the first `=`, as installed exactly when the last such line ends in `t` alone |
| PackageText.Load | plugins/sitter_packages/packages.cpp:416-442 | The position loop ends, stays within the text and records every line |
| PackageText.Save | plugins/sitter_packages/packages.cpp:591-605 | One line per package, whatever order the map is visited in |
| PackageReports.ReportsAreStable | plugins/sitter_packages/packages.cpp:648-734 | What a watch reported, and where it ended, is also what any later table says |
| PackageReports.ReportsExactly | plugins/sitter_packages/packages.cpp:648-734 | Over the packages dealt with, a report is made if and only if one deserves it: expected and missing, unwanted and present, or present with a declared conflict installed |
| PackageReports.WatchThrowsExactly | sitter/sitter.cpp:1317-1323 | A watch ends early exactly when a report some package deserves has a priority outside 0..100 |
| PackageReports.NeverThrowsExactly | plugins/sitter_packages/packages.cpp:648-734 | Under every table a watch ends early for no package, exactly when all packages something can be reported about have a priority within 0..100 |
| PackageLoading.BadPriorityHidesTheRest | plugins/sitter_packages/packages.cpp:803-835 | Two files of required packages, both missing: the first has priority 101, and the second is not reported |
| PackageMemory.QueriedAtMostOnce | plugins/sitter_packages/packages.cpp:446-494 | No name is queried twice, and none that the file had |
| PackageMemory.AnswerIsKept | plugins/sitter_packages/packages.cpp:488-493 | The one answer given to a name is the one the table keeps |
| PackageMemory.RemovalIsNotNoticed | plugins/sitter_packages/packages.cpp:404-497 | Over any sequence of watches and removals of the file, an answer stays as it is until the service restarts |
| PackageMemory.OldTableComesBack | plugins/sitter_packages/packages.cpp:591-605 | Whatever was removed, a watch that saves writes back every answer the process had |
| PackageMemory.RemovalIsUndone | plugins/sitter_packages/packages.cpp:591-605 | A process that made a query once writes its table again at the first watch after a removal that completes, even when nothing new is asked |
| PackageMemory.ResetIsHonouredExactly | debian/sitter.cron.daily:12-31 | After a removal and a restart the new process starts from an empty table exactly when no watch saved in between |
| PackageMemory.OldAnswersSurviveReset | debian/sitter.cron.daily:12-31 | Otherwise every answer given before the removal is also the new process's answer |
| PackageLoading.KindIsHonouredExactly | plugins/sitter_packages/packages.cpp:810-814 | The documented kind is honoured exactly next to the misspelled parameter or when it is optional |
| PackageLoading.RequiredIsIgnored | plugins/sitter_packages/packages.cpp:810-814 | A required package that is loaded as optional |
| PackageLoading.KindsAreNamed | plugins/sitter_packages/packages.cpp:554-574 | The names of the three kinds, an empty one for optional, and no other |
| PackageLoading.LoadedExactly | plugins/sitter_packages/packages.cpp:787-849 | What a file declares: name, kind, exactly the conflicts listed, the priority modulo 32 bits or 15; it fails exactly when it lists itself |
| PackageWatch.Plugin.Query | plugins/sitter_packages/packages.cpp:453-494 | One query is made for a name not known, and its answer remembered |
| PackageWatch.Plugin.IsPackageInstalled | plugins/sitter_packages/packages.cpp:404-497 | The answer is the table's, and the table only grows |
| PackageWatch.Plugin.IsInConflict | plugins/sitter_packages/packages.cpp:515-538 | The conflicts found are exactly the declared ones that are installed, none when the package is not |
| PackageWatch.Plugin.Check | plugins/sitter_packages/packages.cpp:661-733 | The report on one package is the one its table gives, or the exception its priority causes |
| PackageWatch.Plugin.OnProcessWatch | plugins/sitter_packages/packages.cpp:633-739 | All reports of a watch agree with one table, although the machine may answer differently every time; they are those of the packages before the first that throws. The table is saved when none throws and a query was made since the start |
| PackageWatch.Plugin.Live | plugins/sitter_packages/packages.cpp:404-605 | Over any sequence of watches, removals and restarts, memory and file take the steps the theorems are about |
| CpuLatch.ErrorExactly | plugins/sitter_cpu/cpu.cpp:134-209 | For every sequence of samples, every file left behind and every failure to create or remove it, the error is raised exactly at a high sample more than 900 seconds after the first one that could create the file since it was last removed |
| CpuLatch.ErrorWithoutFile | plugins/sitter_cpu/cpu.cpp:149-209 | Without a file at the start and without failures only the age of the unbroken run of high samples matters |
| CpuLatch.RunStart | plugins/sitter_cpu/cpu.cpp:204-209 | The start of the unbroken run of high samples |
| CpuLatch.HighExactly | plugins/sitter_cpu/cpu.cpp:134-149 | High is a load from 1.0 for one processor, 1.9 for two, 0.8 for each of more |
| CpuLatch.Plugin.OnProcessWatch | plugins/sitter_cpu/cpu.cpp:134-209 | Verdict and file follow the latch over all samples so far |
| Certificates.ChosenIsUnique | plugins/sitter_certificate/certificate.cpp:180-198 | The answer read off the configured list is unique |
| Certificates.LeastCoveringIsChosen | plugins/sitter_certificate/certificate.cpp:180-198 | The first row of the ordered table that covers the remaining days is the smallest valid delay listed, last entry winning |
| Certificates.ChoiceIgnoresOrder | plugins/sitter_certificate/certificate.cpp:263-307 | With distinct days the order of the list does not matter |
| Certificates.WarningExactly | plugins/sitter_certificate/certificate.cpp:272-306 | A warning is valid exactly with two numbers, days from 1 to 3660 and then a priority from 0 to 100 |
| Certificates.ReadAllExactly | plugins/sitter_certificate/certificate.cpp:263-307 | In force are exactly the valid warnings |
| Certificates.DefaultsAreChosen | plugins/sitter_certificate/certificate.cpp:330-341 | Without a valid warning the priority is 100 within 7 days, 85 within 14, 45 within 30, and none beyond |
| Certificates.ReportsAreRare | plugins/sitter_certificate/certificate.cpp:222-245 | Two reports on a domain are more than 18000 seconds apart, and the later has priority 100 |
| Certificates.FirstFailureIsReported | plugins/sitter_certificate/certificate.cpp:222-245 | The first failure of a domain is reported at once with priority 75 |
| Certificates.SilenceHasAReason | plugins/sitter_certificate/certificate.cpp:222-234 | A failure stays silent only within 18000 seconds of a report on the same domain |
| Certificates.DomainsAreIndependent | plugins/sitter_certificate/certificate.cpp:222-245 | The reports on a domain depend on its own failures alone |
| Certificates.Plugin.AddWarning | plugins/sitter_certificate/certificate.cpp:272-306 | A warning sets its row exactly when it is valid |
| Certificates.Plugin.ParseDelays | plugins/sitter_certificate/certificate.cpp:253-341 | The table is that of the valid entries, or of the defaults, and never empty |
| Certificates.Plugin.ChoosePriority | plugins/sitter_certificate/certificate.cpp:180-198 | The priority is the one the raw list gives |
| Certificates.Plugin.ReportFailure | plugins/sitter_certificate/certificate.cpp:213-246 | The throttle follows the history of failures |
| Certificates.Plugin.CheckDomain | plugins/sitter_certificate/certificate.cpp:158-246 | Expired gives 100, no date 90, otherwise the delay or the throttle decides |
| LogMode.NumericRoundTrip | plugins/sitter_log/definition.cpp:205-248 | A mode and a mask printed in octal are read back, a zero mask as 07777 |
| LogMode.NumericRoundTripWithoutMask | plugins/sitter_log/definition.cpp:205-248 | A mode printed alone is read back with mask 07777 |
| LogMode.NumericExactly | plugins/sitter_log/definition.cpp:205-248 | Exactly one number, or two with a slash between, are read, as their values; anything else fails by where it breaks this form |
| LogMode.EightIsTheDifference | plugins/sitter_log/definition.cpp:205-248 | For every text: it is accepted with octal digits alone exactly when it is accepted and has no `8`, and a text accepted means the same both ways exactly then |
| LogMode.EightIsRead | plugins/sitter_log/definition.cpp:206-220 | A witness: `8` is read, and `18` as `20` |
| LogMode.OctalGrows | plugins/sitter_log/definition.cpp:210-220 | No intermediate number exceeds the final one |
| LogMode.ReadDigits | plugins/sitter_log/definition.cpp:210-220 | The number is that of the longest run of digits |
| LogMode.ParseNumber | plugins/sitter_log/definition.cpp:205-248 | The numeric form and its two errors |
| LogMode.ParseWho | plugins/sitter_log/definition.cpp:267-330 | The letters before the one operator |
| LogMode.ParsePermissions | plugins/sitter_log/definition.cpp:334-367 | Succeeds exactly on permission letters to the end |
| LogMode.ShapeExactly | plugins/sitter_log/definition.cpp:249-367 | The letters of the form `[ugoa]*[-+=][rwxst]*` |
| LogMode.ParseSymbols | plugins/sitter_log/definition.cpp:249-416 | Accepts exactly `[ugoa]*[-+=][rwxst]*` and consumes the whole string; a refusal names a character of the string that is not allowed there, or that no operator was found |
| LogMode.ParseMode | plugins/sitter_log/definition.cpp:198-420 | The three branches, with the mask defaulting |
| LogMode.PlusAcceptsExactly | plugins/sitter_log/log.cpp:229-232 | A parsed `+` mode accepts a file exactly when every bit it computes is set |
| LogMode.EqualAcceptsExactly | plugins/sitter_log/log.cpp:229-232 | A parsed `=` mode accepts a file exactly when its bits are the ones computed, or these are none |
| LogMode.MinusAcceptsExactly | plugins/sitter_log/definition.cpp:397-403 | Exactly which files a parsed `-` mode accepts |
| LogMode.MinusIsNeverAsDocumented | plugins/sitter_log/definition.cpp:397-403 | For every parsed `-` mode, a regular file on which it does not do what its comment says, for the bits computed and for those documented |
| LogMode.DocumentedExactly | conf/log-definitions/README.md:115-134 | The documented bits, each by the letters that set it |
| LogMode.ComputedExactly | plugins/sitter_log/definition.cpp:369-384 | The bits computed: the sum of the permissions times the sum of the sections, with the special bits |
| LogMode.ExpansionIsDocumentedExactly | plugins/sitter_log/definition.cpp:369-384 | The bits of a symbolic mode are the documented ones exactly when its text names no r, w or x |
| LogMode.PlusIsDocumentedExactly | plugins/sitter_log/definition.cpp:390-395 | A `+` mode accepts just the regular files it is documented to accept, exactly when its text names no r, w or x |

## Left out

- Loading plugins, building and sending emails, JSON documents, logging, glob, `systemctl` and `dpkg-query` themselves: parameters or not modelled.
- The texts of error messages and the position of an error in the JSON document: only names, priorities and order are kept.
- Regular expressions: an arbitrary fixed relation between a command line and a pattern.
- The width of integers: `f_ticks` and the numbers of a log mode are `int`, times and spans `std::int64_t`; they are unbounded here. `OctalGrows` shows that a mode that fits does not overflow on the way.
- Times before 1970: start times of runs and the day count of certificates are natural numbers, so division and remainder need no sign.
- CpuLatch.Plugin.OnProcessWatch: creating the file succeeds or leaves none; a write that stops half-way is not modelled.
- RunPlugins.Worker.ReportError: writing the stamp succeeds or leaves it as it was; a write that stops half-way is not modelled.
- The settle time gate: kept as the comparison the code makes, with no claim about settling.
- WorkerProtocol.InvStep: the threads are a transition system on values rather than methods, because Dafny's methods are sequential; schedules are arbitrary, and bounds count steps rather than time.
- Settings.Server.Serve: getters and updates are atomic, the unlocked access from two threads is not modelled.
- Settings.Server.FluidSettingsChanged: the library's mapping between fluid-settings names and option names is taken to be the plain name, and whether it takes a value over is a parameter.
- Certificates.Plugin.ParseDelays: the once-a-day log message about invalid delays is left out, the invalid entries are returned.
- LogMode.ParseSymbols: which offending character an error names, when there are several, is not part of the contract.
- `definition::add_pattern`, sizes, owners and the other parameters of log definitions: single field updates.
- `reboot.cpp`: remembers in a file since when a reboot is due, created, read and removed like `high_cpu_usage.txt`; its priorities by days are not modelled.
- `network.cpp`, `disk.cpp`, `memory.cpp`, `apt.cpp`, `flags.cpp`, `firewall.cpp`, `scripts.cpp`, `find_process.cpp`, `sys_stats.cpp` and `meminfo.cpp`: they keep no state from one run to the next.
