# Verified models of the ns-3 tooling

The repository carries an ns-3 simulator tree. Around the simulator core stand a few self-contained algorithms:
a documentation generator that walks the type database, the library loader of the Python bindings, the parallel
test runner, the style fixers, a scheduler benchmark, a timeline viewer, and two TCP examples. This project models
eight of them and proves what they compute, for every input, every schedule or every run.

| file | what it models |
|---|---|
| `TypeGraph.dfy` | the search for configuration paths in `utils/print-introspected-doxygen.cc` |
| `PathRepetition.dfy` | when the list of gathered paths repeats an entry |
| `DependencyOrder.dfy` | the load order of the libraries in `bindings/python/ns__init__.py` |
| `TestRunner.dfy` | the worker pool, the two queues, the sentinels and the interrupt of `test.py`, as a transition system |
| `ResultCollector.dfy` | the tallies, the list of failed jobs and the exit code of `test.py` |
| `PythonText.dfy` | stripping, tab expansion and text files as lines, as the fixers use them |
| `StyleFixers.dfy` | the whitespace and tab fixers of `utils/check-style-clang-format.py`, and its check of a set of files |
| `BenchLoop.dfy` | the event loop of `utils/bench-scheduler.cc` |
| `Welford.dfy` | its one-pass statistics |
| `Timeline.dfy` | the range and event queries of `utils/grid.py` |
| `ChunkedWriter.dfy` | the resumable writer of `examples/tcp/tcp-large-transfer.cc` |
| `Fairness.dfy` | the counters, the throughputs and Jain's index of `examples/tcp/dctcp-example.cc` |
| `Collections.dfy` | facts about sequences without repetition and finite sets |

Run `dafny verify dfyconfig.toml` in this directory to check everything.

## Main results

- The type-graph search reports one entry for each simple path from the root (as a sequence of edges) and nothing else,
  in depth-first order, and leaves its stacks as it found them. With the names of a registry, two entries are equal
  exactly when, at the end of some simple path, two edges to a type off that path are equal.
- A library is put in step k exactly when its longest dependency chain has k dependencies. The sort finishes exactly when
  no library reaches a cycle or a missing library; otherwise exactly the libraries that do stay pending. A finished
  sort is a permutation of the keys with every dependency strictly first.
- Under every schedule and any number of interrupts, every job of the test runner is in exactly one place, no worker
  returns while a job is queued, every run is finite, and with at least one worker it ends only with all reports
  collected and all workers joined. After an interrupt exactly the jobs that a worker had started come back with a
  result. The tallies add up and count what each return code says, the exit code means what it should, and it is known
  how often each job is in the list of failed jobs.
- The style fixers accept exactly the files without trailing white space, and without tabs outside the regions that the
  guards switch off. Both are idempotent, although expanding a tab can create a guard that disables what follows; they
  commute, running both reaches a fixed point of both, and nothing but white space changes.
- The benchmark executes exactly one event more than asked, in time order, each at the time its delay says; its one-pass
  statistics are the two-pass mean and variance.
- The window queries of the timeline: for ordered ranges, touching ones included, exactly when the query drops an
  overlapping range and when it adds another; for sorted events, equal times included, exactly when it is the window
  and the next event.
- The bytes on the wire are always a prefix of the periodic stream, whatever the socket accepts, and each offer of room
  brings a byte or a failing Send until the socket is closed.
- Jain's index lies in [1/n, 1] with both bounds characterised. For all counters, the exact condition under which the
  index computed in 64 bits is Jain's index, and the one under which no value of the computation wraps at all.
  The printed averages are the mean throughputs exactly when the bytes of a group divide evenly.

Where the code and what is said about it differ, the model follows the code:

- `Gather` is documented to leave unique entries, but the helper takes its container by value, so the list keeps its
  order and repetitions. With the names of a registry, entries repeat exactly when there is a fork, two equal edges
  from the end of a simple path to a type off it (`EntriesDistinctIff`). The aggregation of `ns3::Node` with the ICMPv4
  protocol, recorded twice, is one, reached through the container of nodes (`TwiceAggregatedThroughContainer`).
- `GetNoTypeIds` is documented to give sorted unique names. It does exactly when each name noted follows those noted
  before it in string order (`NamesAreAsDocumentedIff`), and not when `ns3::Node` is unknown, as the two ICMPv4 calls
  then note it twice (`NodeNotedTwice`).
- The range query is not always the set of overlapping ranges (`SelectedIsExactIff` gives the condition, and
  `SelectedIsExactIffFits` gives it in terms of window and ranges alone; `QueryCanMissRange` and
  `QueryCanDropTouchingRange` give inputs).
- A suite that fails by its return code and by its XML result is listed twice among the failed jobs, and nothing else is
  listed twice (`FailedListDistinctIff`).
- With a negative limit on the number of jobs no worker starts, and then the collector waits for ever if there is a job
  (`LimitDeadlockFreeIff`).
- The fairness index is Jain's index exactly when the words that its products lose to 64 bits are in proportion
  (`IndexIsExactIff`). That holds for windows of one and two seconds (`MeasuredCountersFit`, `TwoSecondCountersFit` with
  `FittingIndexIsExact`). Three seconds are already too many: the index can exceed 1 (`ThreeSecondIndexCanExceedOne`).
- The aggregates are printed as throughputs but are not divided by the window, whose length is an option. They are the
  sum of the throughputs exactly for a window of one second, or without traffic (`AggregateIsThroughputIff`); over two
  seconds a full 10 Gbps link is printed as 20 Gbps (`TwoSecondAggregateIsDouble`).

## Model

| member | source | states |
|---|---|---|
| TypeGraph.EdgeKinds | utils/print-introspected-doxygen.cc:456-529 | the edges followed from a type are exactly its pointer attributes (never to the plain object type), container attributes, registered children and aggregations in either direction, with the path component of each |
| TypeGraph.EdgesInOrder | utils/print-introspected-doxygen.cc:457-529 | the edges are followed in the order of the attributes, then of the registered children, then of the aggregations, and each edge is that of one of them |
| TypeGraph.OneEdgeEach | utils/print-introspected-doxygen.cc:457-529 | an attribute, a registered type and an aggregation each give at most one edge of a type |
| TypeGraph.PathsAreSimplePaths | utils/print-introspected-doxygen.cc:451-530 | a path is searched from a type, under any stack, if and only if its edges exist and it visits no type twice and none on the stack |
| TypeGraph.PathsInOrder | utils/print-introspected-doxygen.cc:451-530 | the paths are found in strict depth-first (lexicographic) order, hence each once |
| TypeGraph.GatherReportsEverySimplePathOnce | utils/print-introspected-doxygen.cc:440-530 | gathering from an empty stack finds each simple path once, and reports a type with a text exactly when a route of edges that repeats no type leads to it and the text is a slash and the component for each edge of the route |
| TypeGraph.GetReturnsRenderedSimplePaths | utils/print-introspected-doxygen.cc:394-406 | reading back a type after gathering from any roots gives exactly the texts, a slash and the component for each edge, of the routes that lead from one of the roots to it |
| PathRepetition.EntriesDistinctIff | utils/print-introspected-doxygen.cc:423-445 | with the names of a registry, a gathering has no repeated entry if and only if the edges from the end of every simple path to types off it are pairwise different |
| PathRepetition.OutputDistinctIff | utils/print-introspected-doxygen.cc:423-445 | with the names of a registry, the output of gathering from several roots has no repeated entry if and only if no root has such a fork and no simple paths from two of the roots lead to the same type by the same components |
| PathRepetition.ForkRepeatsEntries | utils/print-introspected-doxygen.cc:423-445 | whatever the names, two equal edges at the end of a simple path, to a type off the path, give two equal entries: deduplication works on a copy |
| PathRepetition.RenderInjective | utils/print-introspected-doxygen.cc:361-370 | different lists of path components are rendered differently |
| PathRepetition.RepeatedAggregationRepeatsEntries | utils/print-introspected-doxygen.cc:510-529 | an aggregation recorded twice repeats entries wherever a simple path reaches its first type and not its second |
| PathRepetition.TwiceAggregatedThroughContainer | utils/print-introspected-doxygen.cc:563-590 | the same from a root namespace object whose container attribute leads to the aggregating type |
| PathRepetition.AggregatedChildRepeatsEntries | utils/print-introspected-doxygen.cc:497-529 | an aggregation recorded once repeats entries too when the other type is also a child |
| TypeGraph.StaticInformation.DoGather | utils/print-introspected-doxygen.cc:448-530 | both stacks are restored and the output grows by the entries of the searched paths, in order; it terminates because fewer types remain off the stack |
| TypeGraph.StaticInformation.GatherEdges | utils/print-introspected-doxygen.cc:457-529 | the three loops together append the entries below every edge of the type, in edge order |
| TypeGraph.StaticInformation.Descend | utils/print-introspected-doxygen.cc:477-482 | pushing an edge, searching and popping appends exactly the entries that begin with that edge |
| TypeGraph.StaticInformation.Gather | utils/print-introspected-doxygen.cc:440-445 | a gathering keeps earlier output and adds all paths from the root, with nothing removed |
| TypeGraph.StaticInformation.GatherAll | utils/print-introspected-doxygen.cc:586-590 | gathering from the root namespace objects in turn adds the paths from each, in order |
| TypeGraph.StaticInformation.HasAlreadyBeenProcessed | utils/print-introspected-doxygen.cc:380-391 | true exactly for the types on the stack |
| TypeGraph.StaticInformation.GetCurrentPath | utils/print-introspected-doxygen.cc:361-370 | the text falls into a slash and a component for each component of the current path, and is empty for none |
| TypeGraph.RenderingIff | utils/print-introspected-doxygen.cc:361-370 | there is exactly one text that falls into a slash and a component for each component of a path |
| TypeGraph.RenderConcat | utils/print-introspected-doxygen.cc:361-370 | the text of two paths after each other is that of the first and that of the second |
| TypeGraph.LeadsIff | utils/print-introspected-doxygen.cc:451-530 | the routes of edges are the simple paths that are searched |
| TypeGraph.StaticInformation.RecordOutput | utils/print-introspected-doxygen.cc:373-377 | appends the type with the rendering of the current path |
| TypeGraph.StaticInformation.Get | utils/print-introspected-doxygen.cc:394-406 | the texts recorded for the type, in order |
| TypeGraph.TextsConcat | utils/print-introspected-doxygen.cc:394-406 | what is read back keeps the order of the entries |
| TypeGraph.RecordAggregations | utils/print-introspected-doxygen.cc:329-348 | of a list of aggregations those between known types are recorded in order, and the names without a type are the first unknown name of each of the others, in order |
| TypeGraph.NamesAreAsDocumentedIff | utils/print-introspected-doxygen.cc:329-348 | these names are the documented list, sorted and each once, if and only if, of any two calls with an unknown name, the later one has the greater first unknown name |
| TypeGraph.SameNameNotedTwice | utils/print-introspected-doxygen.cc:423-437 | two calls with the same unknown first name leave a list that is not as documented |
| TypeGraph.NodeNotedTwice | utils/print-introspected-doxygen.cc:565-567 | the two calls of the source, with the node type unknown, note it twice, where the documented list has it once |
| TypeGraph.StaticInformation.RecordAggregationInfo | utils/print-introspected-doxygen.cc:329-348 | adds the pair when both names are registered, otherwise notes the first unknown name and nothing else |
| DependencyOrder.StepIsLongestChain | bindings/python/ns__init__.py:394-416 | with no missing libraries, step k holds exactly the libraries whose longest dependency chain has k dependencies |
| DependencyOrder.LoadsIffGrounded | bindings/python/ns__init__.py:394-416 | once a step loads nothing, the libraries loaded are exactly those that reach neither a cycle nor a missing library |
| DependencyOrder.StuckForever | bindings/python/ns__init__.py:407-416 | after a step that loads nothing, no later step loads anything: the recursion cannot end |
| DependencyOrder.StepShrinksPendingOrIsStuck | bindings/python/ns__init__.py:407-416 | every call strictly shrinks the pending list or the recursion is stuck for good |
| DependencyOrder.PendingIsUngrounded | bindings/python/ns__init__.py:407-416 | what stays pending is exactly what reaches a cycle or a missing library |
| DependencyOrder.DependenciesComeEarlier | bindings/python/ns__init__.py:407-421 | in the flattened steps each library comes strictly after all its dependencies |
| DependencyOrder.OrderIsTopological | bindings/python/ns__init__.py:418-421 | a finished sort is a permutation of the keys with dependencies first |
| DependencyOrder.OrderIsByChains | bindings/python/ns__init__.py:407-421 | of two libraries the one with the shorter longest chain comes first, and of two with equally long chains the earlier key |
| DependencyOrder.Loader.ModulesThatCanBeLoaded | bindings/python/ns__init__.py:394-405 | the pending libraries all of whose dependencies are loaded, in pending order |
| DependencyOrder.Loader.DependencyOrder | bindings/python/ns__init__.py:407-416 | the recursion keeps the three lists in step with the levels and ends with nothing pending or at a step that loads nothing |
| DependencyOrder.SortToDependencies | bindings/python/ns__init__.py:385-421 | the sort finishes if and only if no library reaches a cycle or a missing library, leaves exactly those that do, and a finished result is a permutation with dependencies first, ordered by the longest dependency chain and then by the order of the keys |
| TestRunner.RunInv | test.py:987-1055 | every action of dispatcher, workers and interrupt keeps queue order, job conservation, the sentinel count and the phases of the main thread, over whole runs |
| TestRunner.EveryJobInOnePlace | test.py:987-1055 | in every reachable state each job is unsent, queued, held by a worker, reported or collected, in exactly one of these and once |
| TestRunner.SentinelsLast | test.py:1744-1747 | sentinels are a suffix of the input queue, workers return only on sentinels, and none has returned while a job is queued or unsent |
| TestRunner.ResultOnItsWay | test.py:1767-1768 | while the collector waits, a report is queued, a job is in a worker's hands, or a job is queued and a worker is waiting |
| TestRunner.QuiescentIsDone | test.py:1767-1918 | with a worker, a reachable state in which nothing but an interrupt can happen is the end of the run |
| TestRunner.DeadlockFreeIff | test.py:1465-1469 | the pool is free of deadlock if and only if it has a worker or there are no jobs |
| TestRunner.LimitDeadlockFreeIff | test.py:1439-1469 | on a machine with a core, the pool that the job limit gives is free of deadlock if and only if the limit is not negative or there are no jobs |
| TestRunner.RunsAreFinite | test.py:987-1055 | no run takes more than 6N + 7P actions besides interrupts |
| TestRunner.EndOfRun | test.py:1912-1918 | at the end all workers have returned, the queues are empty, each job was collected once, and without an interrupt none as a break |
| TestRunner.InterruptBreaksTheRest | test.py:1001-1004 | after an interrupt in any reachable state, however the run goes on to its end, a job comes back with a result exactly when a worker had started it before, and every other job as a break |
| TestRunner.StartedStep | test.py:1001-1012 | with the flag set no action starts a job, and none loses one that was started |
| TestRunner.FlagOfRun | test.py:1001-1004 | the flag is set at the end of a run exactly when the run was interrupted |
| TestRunner.CollectedInOrder | test.py:1767-1770 | over any run the reports are collected in the order in which the workers put them |
| TestRunner.WorkersWithinLimit | test.py:1439-1469 | as many workers as cores, but at most a positive limit, and as many as both allow; none for a negative limit |
| ResultCollector.CollectReports | test.py:1757-1904 | the passed, failed, valgrind and crash counts are the numbers of reports, neither interrupted nor skipped, with return code 0, 1, 2 and any other; the skip count is that of the skipped jobs; and the loop builds the list of failed jobs |
| ResultCollector.RunTalliesAre | test.py:1767-1803 | after every run these counts are the numbers of jobs with these return codes among those that came back with a result |
| ResultCollector.Pop | test.py:1788-1904 | a pop removes the job just pushed and no other |
| ResultCollector.ReportsConserved | test.py:1767-1803 | every report is counted under exactly one status |
| ResultCollector.RunsConserveJobsAndExitCode | test.py:1767-2014 | after every run the tallies and the interrupted jobs add up to the total, and the exit code is 0 exactly when no job was interrupted and every job not skipped returned 0 |
| ResultCollector.InterruptedRunFailsIff | test.py:1001-2014 | after an interrupt the exit code is 0 exactly when every job had been started before it and every job not skipped returned 0 |
| ResultCollector.TalliesIgnoreSchedule | test.py:1767-1803 | without an interrupt the counts are those of the job list, whatever the schedule |
| ResultCollector.FailedJobsAre | test.py:1783-1904 | the failed jobs are exactly the collected jobs, neither skipped nor interrupted, with a non-zero return code or, for a suite, an XML result other than PASS and SKIP |
| ResultCollector.FailedListConcat | test.py:1783-1904 | the list of failed jobs follows the order of the reports |
| ResultCollector.ListedAsOften | test.py:1783-1904 | for every list of reports, a job is in the list of failed jobs as often as its reports list it |
| ResultCollector.FailedListDistinctIff | test.py:1783-1904 | after every run each collected job is listed as often as its one report says, and no job is listed twice if and only if no collected suite failed both by its return code and by its XML result |
| ResultCollector.SuitesCanBeListedTwice | test.py:1783-1904 | the smallest case: every run without an interrupt of one such suite ends with it listed twice |
| StyleFixers.CheckTabsFile | utils/check-style-clang-format.py:610-672 | the file is reported compliant exactly when no tab stands in a guard or in a line before which every off guard is followed by an on guard, in every mode; fix mode lays exactly these lines out with tab stops every four columns and keeps the others, and otherwise nothing is written |
| StyleFixers.CheckTrailingWhitespaceFile | utils/check-style-clang-format.py:558-607 | the file is reported compliant exactly when every line ends in a line feed with no white space before it, in every mode; fix mode cuts only white space from the end of each line, and otherwise nothing is written |
| StyleFixers.TrimLineTrims | utils/check-style-clang-format.py:579-582 | the fixed line is a beginning of the line without its white space at the end, and a line feed; it is the line itself exactly when the line had none |
| StyleFixers.EnabledIff | utils/check-style-clang-format.py:636-642 | the state of the guards at a line is on exactly when every off guard before it is followed, before it, by an on guard |
| StyleFixers.OnGuardEndsRegion | utils/check-style-clang-format.py:638-655 | between an off guard and an on guard a tab stays, and after the on guard it becomes four blanks |
| StyleFixers.ExpandKeepsGuard | utils/check-style-clang-format.py:640-648 | a guard stays the same guard when its tabs are expanded |
| StyleFixers.DisabledStaysDisabled | utils/check-style-clang-format.py:637-655 | lines disabled in the first pass are disabled in the second |
| StyleFixers.ExpansionCanMakeGuard | utils/check-style-clang-format.py:640-655 | expansion can make a line a guard, so that the second pass skips lines that the first looked at |
| StyleFixers.TabFixerIdempotent | utils/check-style-clang-format.py:610-672 | a second run reports any fixed file compliant and leaves it unchanged |
| StyleFixers.WhitespaceFixerIdempotent | utils/check-style-clang-format.py:558-607 | the same for the whitespace fixer |
| StyleFixers.FixersCommute | utils/check-style-clang-format.py:558-672 | both orders of the two fixers write the same file |
| StyleFixers.FixersReachCommonFixedPoint | utils/check-style-clang-format.py:558-672 | after the whitespace and then the tab fixer, both report the file compliant and change nothing |
| StyleFixers.FixersKeepText | utils/check-style-clang-format.py:558-672 | neither fixer changes, adds, drops or reorders a character that is not white space |
| PythonText.ExpandKeepsColumns | utils/check-style-clang-format.py:654 | what follows a piece of a line stands in the same column after its tabs are expanded |
| PythonText.ExpandedLayout | utils/check-style-clang-format.py:654 | in an expanded line every character but a tab is kept, and a tab becomes the one to four blanks that lead to the next multiple of four |
| PythonText.StripSplits | utils/check-style-clang-format.py:636 | stripping removes white space at both ends, all of it and nothing else |
| PythonText.ReadFirstLine | utils/check-style-clang-format.py:575-576 | a line feed, a carriage return, or both in this order end a line, which is read with a line feed |
| PythonText.ReadLastLine | utils/check-style-clang-format.py:575-576 | text without a line break is one line, or none when it is empty |
| StyleFixers.CheckStyleFile | utils/check-style-clang-format.py:359-420 | one check of a set of files succeeds exactly when fixing or when every file that asks for it passes; fix mode changes those files alone, check mode none |
| StyleFixers.CheckStyle | utils/check-style-clang-format.py:271-356 | the verdict over the four checks is success exactly when fixing or when every file passes each enabled check that it asks for; fix mode takes each file through the enabled fixers in order, check mode changes none |
| StyleFixers.FixersInOrder | utils/check-style-clang-format.py:300-349 | the include prefixes are fixed first, then the formatting, the white space and the tabs, each when it is enabled and asked for |
| StyleFixers.FixedIsCompliant | utils/check-style-clang-format.py:271-356 | a fixed file passes the enabled whitespace and tab checks that it asks for, whatever the other fixers made of it; with these two alone a second fix changes nothing |
| PythonText.ReadBackWritten | utils/check-style-clang-format.py:603-605 | writing well-formed lines and reading the file again gives the same lines |
| PythonText.ReadGivesLines | utils/check-style-clang-format.py:575-576 | reading a file gives non-empty lines whose only line break is a final line feed |
| BenchLoop.Bench.Run | utils/bench-scheduler.cc:133-161 | with a population, exactly total + 1 callbacks run, in order of time and scheduling, the k-th event at the k-th delay drawn after the start or after the callback that scheduled it; before each callback the whole population is pending, the count is the total and population - 1 events are left; with none nothing runs |
| BenchLoop.Bench.Populate | utils/bench-scheduler.cc:143-147 | the first population is scheduled with the next delays of the stream |
| BenchLoop.Bench.RunEvents | utils/bench-scheduler.cc:150-156 | before the i-th callback exactly the population is pending and i callbacks have been counted, and events are executed in order, each at its time |
| BenchLoop.Bench.Cb | utils/bench-scheduler.cc:163-176 | a callback schedules one successor, later by the next delay drawn, and counts; or it stops at the total and draws and schedules nothing |
| BenchLoop.RunNext | utils/bench-scheduler.cc:150-156 | running the earliest pending event keeps everything executed before everything pending |
| BenchLoop.ScheduleNext | utils/bench-scheduler.cc:173-174 | an event scheduled with a delay that is not negative never precedes an executed one |
| BenchLoop.RunSuite | utils/bench-scheduler.cc:267-308 | after the priming run each measured run starts afresh and executes the configured number of events |
| Welford.AccumulateRefines | utils/bench-scheduler.cc:358-362 | one accumulation takes the mean and squared deviations of k samples to those of k + 1 |
| Welford.AccumulateFirst | utils/bench-scheduler.cc:347-362 | seeding the average with sample 0 and accumulating it again is without effect |
| Welford.DeviationsNonNegative | utils/bench-scheduler.cc:374-381 | what the square root is taken of is never negative, and zero only for equal samples |
| Welford.Log | utils/bench-scheduler.cc:332-388 | for two results or more, the mean of all six fields and the square root of the mean squared deviation from it, by the two-pass definitions and never of a negative number; otherwise none |
| Timeline.TimelineDataRange.Search | utils/grid.py:99-116 | an index found holds the key, and in ordered ranges, which may touch, -1 means that no range holds it |
| Timeline.MiddleRangeFirst | utils/grid.py:105-110 | the middle range, the lower of two, is found whenever it holds the key, so of two ranges that touch the first |
| Timeline.HalvesRanges | utils/grid.py:105-116 | otherwise the range found is that of the half on the side of the key |
| Timeline.TimelineDataRange.GetRanges | utils/grid.py:130-146 | in ordered ranges the result is the overlapping ranges exactly when none of them touches the window beside the ranges found or lies in a window with both endpoints outside, and each other endpoint outside lies beyond all ranges |
| Timeline.TimelineDataRange.GetRangesBounds | utils/grid.py:147-163 | the bounds hold every overlapping range, and only such ranges, each exactly under its part of that condition |
| Timeline.DropsNothingIff | utils/grid.py:130-146 | in ordered ranges no overlapping range is dropped if and only if none touches the window beside the ranges found, or lies in a window with both endpoints outside |
| Timeline.AddsNothingIff | utils/grid.py:130-146 | in ordered ranges no other range is added if and only if, when one endpoint alone is in no range, it lies beyond them all |
| Timeline.SeparatedRangesAreCovered | utils/grid.py:130-146 | in strictly separated ranges, with an endpoint in some range no overlapping range is missed, and with both the query is exact |
| Timeline.SelectedIsExactIff | utils/grid.py:130-146 | in ordered ranges the query is exactly the overlapping ranges if and only if it drops none and adds none |
| Timeline.SelectedIsExactIffFits | utils/grid.py:130-146 | unless an endpoint lies where ranges touch, the query is exact if and only if an endpoint alone outside the ranges lies beyond them all, and with both outside no range overlaps the window |
| Timeline.SeparatedIsExactIffFits | utils/grid.py:130-146 | the same for every window over strictly separated ranges |
| Timeline.QueryCanMissRange | utils/grid.py:139-140 | any window around one range, with both endpoints outside, returns nothing |
| Timeline.QueryCanDropTouchingRange | utils/grid.py:145-146 | of three ranges that touch, a window from where the first ends returns the second alone |
| Timeline.TimelineEvent.Search | utils/grid.py:194-211 | in sorted events, an event at the key if there is one, otherwise the number of events before the key |
| Timeline.MiddleEventFirst | utils/grid.py:200-205 | the middle event, the lower of two, is found whenever it is at the key |
| Timeline.HalvesEvents | utils/grid.py:200-211 | otherwise the position found is that of the half on the side of the key |
| Timeline.TimelineEvent.GetEvents | utils/grid.py:219-228 | with distinct event times, the events of the window and the next one |
| Timeline.TimelineEvent.GetEventsBounds | utils/grid.py:229-238 | the bounds that delimit these events |
| Timeline.EventsInWindow | utils/grid.py:219-228 | with distinct event times the query is every event of the window in order, followed by the first later event exactly when there is one and none lies at the end |
| Timeline.EventsInWindowIff | utils/grid.py:219-228 | with equal times it is that list if and only if the search for the start lands on the first event at its time and the search for the end on the last |
| ChunkedWriter.SliceExtendsStream | examples/tcp/tcp-large-transfer.cc:226-234 | what is sent from the buffer at the current offset continues the stream |
| ChunkedWriter.AlphabetRepeats | examples/tcp/tcp-large-transfer.cc:105-110 | the stream is the alphabet over and over |
| ChunkedWriter.Sender.constructor | examples/tcp/tcp-large-transfer.cc:105-110 | the buffer holds the first 1040 bytes of the stream |
| ChunkedWriter.Sender.WriteUntilBufferFull | examples/tcp/tcp-large-transfer.cc:222-243 | the wire stays a prefix of the stream and only grows; each Send is offered as much as the buffer, the rest of the stream and the room allow; sending stops only when complete, out of room or failed, the socket is closed exactly when complete, and given room it sends a byte or fails until then |
| ChunkedWriter.Transfer | examples/tcp/tcp-large-transfer.cc:210-243 | over any sequence of callbacks the wire is a prefix of the stream, closed exactly when complete; each offer of room brings a byte or a failing Send until then, so enough callbacks with room close the socket |
| ChunkedWriter.LossIsDetectedIff | examples/tcp/tcp-large-transfer.cc:51-54 | bytes lost from the middle go unnoticed exactly when their number is a multiple of 26 |
| Fairness.CauchySchwarz | examples/tcp/dctcp-example.cc:191-197 | n times the sum of squares exceeds the squared sum by the squared differences of all pairs |
| Fairness.PairSpreadIsZeroIff | examples/tcp/dctcp-example.cc:191-197 | that excess vanishes exactly when all flows are equal |
| Fairness.SquareOfSum | examples/tcp/dctcp-example.cc:191-197 | the squared sum exceeds the sum of squares by the products of the pairs |
| Fairness.NothingWrapsIff | examples/tcp/dctcp-example.cc:191-197 | no value of the computation leaves 64 bits if and only if the last product does not |
| Fairness.MeasuredCountersFit | examples/tcp/dctcp-example.cc:191-211 | nothing wraps for at most 20 flows of at most 125000000 bytes |
| Fairness.SharedCountersFit | examples/tcp/dctcp-example.cc:205-211 | nothing wraps when the number of flows, the bound on one flow and the bound on all of them have a product below 2^64 |
| Fairness.TwoSecondCountersFit | examples/tcp/dctcp-example.cc:205-211 | nothing wraps for the counters of two seconds at 1 Gbps a flow over a shared link of 10 Gbps |
| Fairness.IndexIsExactIff | examples/tcp/dctcp-example.cc:191-211 | for all counters the computed index is Jain's index if and only if there is no traffic, or the wrapped divisor is not zero and the words lost from dividend and divisor are in the proportion of the two |
| Fairness.FittingIndexIsExact | examples/tcp/dctcp-example.cc:191-211 | the computed index is Jain's index when no value wraps |
| Fairness.LoneWrapIsWrong | examples/tcp/dctcp-example.cc:191-211 | the computed index is not Jain's index when the divisor wraps and the dividend does not |
| Fairness.EqualFlowsAreExactIff | examples/tcp/dctcp-example.cc:191-211 | for equal flows the computed index is right, wrapping or not, unless the divisor wraps to zero |
| Fairness.ThreeSecondIndexCanExceedOne | examples/tcp/dctcp-example.cc:205-211 | three seconds with ten of twenty flows at 1 Gbps and ten idle, which fill the shared link, give a computed index above 1.4 in place of 0.5 |
| Fairness.JainIndexBounds | examples/tcp/dctcp-example.cc:183-197 | for all counters Jain's index lies between 1/n and 1, is 1 exactly for equal flows and 1/n exactly for a single active flow; no traffic gives no number |
| Fairness.GroupFairness | examples/tcp/dctcp-example.cc:191-197 | the loop computes the sums and the quotient modulo 2^64 |
| Fairness.Counters.TraceS1R1Sink | examples/tcp/dctcp-example.cc:125-129 | adds the packet size to its own flow and to no other |
| Fairness.Counters.TraceS2R2Sink | examples/tcp/dctcp-example.cc:131-135 | the same for the second group |
| Fairness.Counters.TraceS3R1Sink | examples/tcp/dctcp-example.cc:137-141 | the same for the third group |
| Fairness.Counters.InitializeCounters | examples/tcp/dctcp-example.cc:143-158 | all counters of all groups are zero |
| Fairness.AverageIsMeanIff | examples/tcp/dctcp-example.cc:196-224 | the printed average is at most the mean of the flows' throughputs and less than one byte a window below it, and equal to it exactly when the bytes divide evenly |
| Fairness.AggregateScalesWithWindow | examples/tcp/dctcp-example.cc:229-250 | the printed aggregate is the sum of the flows' throughputs multiplied by the window |
| Fairness.AggregateIsThroughputIff | examples/tcp/dctcp-example.cc:229-250 | it is their sum if and only if the window is one second or nothing was received |
| Fairness.TwoSecondAggregateIsDouble | examples/tcp/dctcp-example.cc:229-250 | twenty flows that fill the link of 10 Gbps for two seconds are printed as 20 Gbps |
| Fairness.GroupsSum | examples/tcp/dctcp-example.cc:229-248 | the sum of the counters of two groups modulo 2^64 |
| Fairness.Counters.PrintFairness | examples/tcp/dctcp-example.cc:184-251 | average and index of each group depend on that group's counters alone, and each aggregate on the two groups that share its bottleneck |

## Left out

- The TypeId registry: types, attributes, parents and names are an arbitrary finite database in which every type referred to is registered; a type is identified by its name.
- The list of typical aggregations and the printing of the gathered paths.
- DependencyOrder.Loader.DependencyOrder: where the source would call itself for ever (in practice until the recursion limit) the model returns `Stuck`; the depth limit of Python on long finished sorts is not modelled.
- Finding the libraries, extracting versions and loading them: the dependencies are an arbitrary finite map.
- Launching processes: a job's return code and XML result are arbitrary inputs. An XML file that is missing or malformed, which raises an exception in the source, is not modelled.
- The choice of which tests and examples to run, and the text, HTML and XML reports.
- TestRunner.DeadlockFreeIff: a process that never ends is not modelled; running a job takes one step.
- The verbose messages of the style fixers, the choice of files by name and the process pool, whose workers treat distinct files.
- The include-prefix check, which depends on which files exist, and the formatting check, which calls an external program, are arbitrary functions of a file's name and text; whether a fixed file passes them again is not claimed.
- Decoding: files are sequences of characters after UTF-8 decoding, and written lines end in a line feed alone.
- Wall-clock timing in the benchmark: the timings that its statistics summarise are arbitrary real numbers, without rounding, and the square root is an arbitrary function. Simulation times are natural numbers.
- Sorting and the bounds of the whole timeline in `utils/grid.py`: the sort calls pass a comparison function in a form that Python 3 rejects. Ranges that overlap each other and events out of order are searched as in the source, but nothing is claimed about what is found.
- The socket beyond its answers: connecting, callbacks and the network. Send is assumed to accept at least one byte or to fail when it is offered no more than the socket has room for.
- Floating-point rounding of the index and the throughputs, and the throughput printed for each single flow, except as what the averages and aggregates are compared with.
- The simulator core, the radio simulations, the plotting and database scripts.
