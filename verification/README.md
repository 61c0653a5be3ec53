# procmon-4lang: a verified model

procmon is a process monitor written four times, in C, C++, Rust and C#. This project models its
sampling pipeline, its `/proc/<pid>/stat` readers, its name truncation, its command lines and its kill
command, and proves what they promise. The C program is modelled from `main` down to the records; the
other programs where they solve the same problem in another way.

Everything that changes state in the source changes state here: `ProcessList` is a class over a
`realloc`-grown array, the filter, the join and the truncation write into arrays, the parsers advance
indices in loops, and the monitor moves three buffers around. Each such method is proved against a
function of its inputs or of the old state; the theorems are about those functions and about whole runs.

## How to read it

- `Basics`, `Arithmetic`, `Numbers`: bytes, sequences, decimal numerals, `strtoul` and `strtol`.
- `ProcessModel`: the functions of one round (find, CPU join, filter, four orders). `Ordering`: the
  orders are total, sorting is deterministic. `CaseFolding`: what ignoring case means. `CpuShare`: percentages account for CPU time, over a
  round and over a run. `Joins`: the joins of C++ and C#. `CppOrder`: filter and sort of C++.
- `ProcessList`: the heap and the growable list. `Snapshot`: one scan of `/proc`. `Render`: the rows of a
  screen. `Monitor`: the refresh loop and its buffers. `MonitorTheorems`: what every run shows.
- `StatParser`, `CppStatReader`, `StatAgreement`, `StatBuffer`: the two readers of a stat line, and when
  they agree.
- `CppMonitor`: the snapshots and the refresh loop of C++, which show the same lists.
- `Utf8`: the two truncations. `Args`, `ArgsTheorems`: the three command-line parsers. `Kill`: the kill
  command. `Program`: `main`.

A `char` is one byte and a `string` is what comes before the terminating NUL. Percentages are exact
reals. The environment is explicit: what every snapshot finds (a `Scan`), which allocations fail, what
`qsort` does with equal elements, which processes exit between two signals, what the user answers.

## What the source does differently from what its README says

- README line 150 says that the name column is cut at 30 characters. Both programs count bytes, and C
  may pass the limit by up to three of them. `Utf8.CutsAtCharactersIff` states exactly when each keeps
  the first 30 characters; of a name of thirty letters with accents both show fifteen
  (`Utf8.FifteenOfThirty`).
- README line 31 calls the command line a contract shared by all four programs. C takes signs and
  leading white space before a number and refuses filters of 128 bytes or more; C++ and Rust do not.
  `ArgsTheorems.ParsersAgreeIff` gives the exact condition for every command line;
  `ArgsTheorems.NegativeTopIsAcceptedByC` and `ArgsTheorems.LongFilterAlone` are the witnesses.
- README line 39 gives exit code 3 to a missing target. `Kill.ExitThreeMeansMissingIff` states when that
  is so: if and only if /proc has no directory for the target, or the snapshot can be taken and the
  target's stat file read. A listed process that cannot be read (`Kill.UnreadableExitsThree`), an
  unlistable /proc and refused memory (`Kill.FailedSnapshotExitsThree`) give code 3 too, and so does a
  monitor whose snapshot fails (`MonitorTheorems.UnlistableCutsShort`). `Kill.ExitCodesMean` has all
  codes; `Program.Run` ties them to the program.
- A kill is reported as successful although the process is still there if and only if the probe after
  SIGTERM was refused, or SIGKILL was accepted and has not ended the process yet, for which the program
  does not wait (`Kill.SuccessMeansGoneIff`; a case of each in `Kill.SurvivorsOfSuccess`).
  `Kill.SteadyKill` shows that the first takes a change of permissions between the calls.
- README line 133 says that the CPU percentage is correct in every round after the first. It is right, in
  the sense that it stands for exactly the CPU time used, if and only if the process used none, or was
  listed in the round before too and used no more than the interval offers and not less than nothing
  (`MonitorTheorems.ShownShareIsRightIff`). A process that is new shows zero
  (`CpuShare.NewProcessIsNotRight`).
- The two stat readers differ on short lines, long names, fields that are no number, numbers out of
  range, and files whose field 24 is beyond C's buffer of 4095 bytes or cut by it
  (`StatBuffer.ReadersAgreeIff`, a case in `StatBuffer.ReadersDiffer`). C and C++ order names differently
  exactly when the first bytes that differ lie on two sides of 128 (`CppOrder.NameOrdersAgreeIff`,
  `CppOrder.AccentsAreOrderedDifferently`).
- The linear CPU join of C and the indexed joins of C++ and C# are different functions: they part when a
  pid is listed twice and only a later entry has a known CPU time (`Joins.JoinsAgreeIff`,
  `Joins.CsJoinAgreesIff`). On Linux that does not happen, with repeated pids or without:
  `CppMonitor.SnapshotsDecide`.

## Model

| member | source | states |
|---|---|---|
| MonitorTheorems.ScreenIgnoresListing | c/src/main.c:103-122 | two runs over the same processes, listed in any order in each round and sorted by any two qsorts, show equal frames in every round both reach |
| MonitorTheorems.DirectoriesArePidsDistinct | c/src/proc_linux.c:136-145 | what the theorem above asks of the pids holds whenever /proc lists printed pids and no name twice |
| MonitorTheorems.ColumnTelescopes | c/src/main.c:103-132 | for a process with a row in every frame of a run, the CPU column times wall time times cores sums to at most 100 times the CPU time it used from first to last round, and to exactly that if and only if no round was capped |
| MonitorTheorems.ColumnFits | c/src/proc_common.c:163-192 | in a round after the first in which the processes together used no more CPU time than the machine has, the CPU column of the frame adds up to at most 100 |
| MonitorTheorems.ShownShareIsRightIff | c/src/proc_common.c:175-191 | the percentage of a row stands for exactly the CPU time used since the round before if and only if that is zero, or the process was listed there and the time is not negative and fits the interval; a new process shows zero |
| MonitorTheorems.UnlistableCutsShort | c/src/main.c:104-108 | a run that meets an unlistable /proc shows fewer frames than it has rounds, so that it exits with code 3 |
| MonitorTheorems.FrameIsDetermined | c/src/main.c:111-122 | with distinct pids exactly one frame can follow from what a round measured, although qsort is not stable |
| MonitorTheorems.FrameShowsTopmost | c/src/render.c:54-82 | the rows are the first min(total, top) of a sorted list that holds the measured processes that match the filter, each as often as measured, with the pid, cut name, memory, threads and CPU usage of each; none left out belongs before one shown |
| MonitorTheorems.SortingFirstIsTheSame | c/src/main.c:116-117 | the frame would be the same had the list been sorted before it was filtered |
| MonitorTheorems.ShownPercentagesInRange | c/src/proc_common.c:187-190 | every percentage in every frame of every run lies in [0, 100] |
| MonitorTheorems.FirstFrameShowsZero | c/src/main.c:97-109 | the first frame of a run, which has no sample before it, shows zero percent everywhere |
| MonitorTheorems.PrintedProcessIsListed | c/src/proc_linux.c:136-157 | a process whose stat file fits the buffer contributes exactly the record its line spells, under the pid of its directory, and one with a short line nothing |
| MonitorTheorems.PrintedRecordIs | c/src/proc_linux.c:59-110 | a process whose line prints its numbers is listed with them: CPU time in nanoseconds, threads, memory as pages times the page size; 100 ticks and 4096 bytes where sysconf fails; no memory for a count that is not positive |
| MonitorTheorems.ShownNameIsWhole | c/src/render.c:66-70 | the name in a row is a prefix of the process name of at most 33 bytes and splits no character, even if the 255 bytes that parse_stat keeps do |
| Monitor.RunMonitor | c/src/main.c:90-138 | on every exit path the heap is as before the run and nothing rests on the contents of a released block; the frames are those of the rounds in order; with --once there is at most one frame and code 0 exactly if there is one, without it code 0 exactly if every round until the interruption gave a frame; otherwise the code is 3, and only for an unreadable /proc or memory refused in this run |
| Monitor.RunLoop | c/src/main.c:103-132 | from a loop head in which `current` owns nothing and the lists own disjoint live buffers that are all the run has allocated, the loop returns to one when no round fails, and keeps the ownership when one does; with --once it ends after one round |
| Monitor.RunRound | c/src/main.c:104-126 | one pass of the loop body: one more right frame and the loop head restored, or failure with ownership intact |
| Monitor.Measure | c/src/main.c:104-109 | snapshot and join leave in `current` what the round measures against the round before |
| Monitor.Arrange | c/src/main.c:111-122 | copy, filter, sort and render produce a frame that shows the measured list; failure means that memory was refused in this call |
| Monitor.HandOver | c/src/main.c:124-126 | `previous` gives up its buffer and takes the sample of `current`, which owns nothing afterwards |
| Monitor.Refresh | c/src/main.c:111-126 | the frame shows the measured list and the measured list becomes the previous one |
| Monitor.ReleaseAll | c/src/main.c:134-136 | the three releases leave live only what was live before the run, in whatever state the loop stopped |
| CpuShare.RunTelescopes | c/src/main.c:103-132 | over any run, percentage times wall time times cores of a tracked process sums to at most 100 times its CPU time from first to last snapshot, and to exactly that if and only if no round capped it |
| CpuShare.SharesAreConserved | c/src/proc_common.c:163-192 | when the CPU time used fits the machine nothing is capped and the percentages sum to at most 100; the sum always stands for at most the time used, exactly if nothing is capped |
| CpuShare.NewProcessIsNotRight | c/src/proc_common.c:180-182 | a process first listed with CPU time already used, shown with zero percent |
| CpuShare.MeasuredFromRaw | c/src/main.c:124-126 | joining against the already joined previous list gives what joining against its raw snapshot gives |
| CpuShare.MeasuredRearranged | c/src/main.c:103-126 | rearranging the snapshots of a run rearranges the measured lists and changes no percentage |
| CpuShare.JoinTouchesOnlyPercent | c/src/proc_common.c:175-191 | the join keeps order and every other field, and percentages stay in [0, 100], for any two samples |
| CpuShare.ApplyCpuPermutes | c/src/proc_common.c:175-191 | the joined list, as a multiset, does not depend on the order of either list |
| CpuShare.FindIgnoresArrangement | c/src/proc_common.c:152-161 | with distinct pids a lookup finds the same record in every arrangement |
| CpuShare.PercentAccounts | c/src/proc_common.c:186-190 | a percentage stands for the busy time exactly if that fits the interval, for less if not |
| CpuShare.ShareIs | c/src/proc_common.c:170-190 | the percentage of a matched process times wall time times the number of cores, one if unknown, is 100 times its CPU time, or the percentage is 100 if that is more |
| Ordering.CompareNamesMeans | c/src/proc_common.c:91-102 | the comparison loop decides the lexicographic order of case-folded names |
| Ordering.CompareIsAntisymmetric | c/src/proc_common.c:86-135 | for every sort key the comparator flips sign with its arguments and is zero only for equal pids |
| Ordering.CompareIsTransitive | c/src/proc_common.c:86-135 | for every sort key the comparator is transitive, strictly where one step is strict |
| Ordering.SortSorts | c/src/proc_common.c:147-149 | the contract of qsort can be met for every key and list |
| Ordering.SortedIsUnique | c/src/proc_common.c:137-150 | with distinct pids two sorted arrangements of the same records are equal |
| Ordering.QsortIsDeterministic | c/src/proc_common.c:137-150 | with distinct pids a list satisfies the contract of qsort if and only if it is the one result of insertion sort |
| Ordering.SortIgnoresArrangement | c/src/proc_common.c:137-150 | the sorted list does not depend on the arrangement before |
| Ordering.FilterKeepsMatches | c/src/proc_common.c:71-84 | the filter keeps exactly the matching records, each once, at increasing positions of the original |
| Ordering.FilterIsIdempotent | c/src/proc_common.c:71-84 | filtering again changes nothing |
| Ordering.FilterAndSortCommute | c/src/proc_common.c:71-150 | filtering then sorting equals sorting then filtering |
| CaseFolding.FoldIs | c/src/proc_common.c:58-59 | a capital letter is folded to its small one, every other character to itself |
| CaseFolding.FoldsAlikeIff | c/src/proc_common.c:58-60 | two characters compare equal exactly if they are the same or the two forms of one letter |
| CaseFolding.ContainsFoldMeans | c/src/proc_common.c:44-69 | a name matches exactly if some part of it is the filter up to case |
| CaseFolding.MatchIgnoresCase | c/src/proc_common.c:44-69 | the case of neither the name nor the filter decides |
| CaseFolding.FilterIgnoresCase | c/src/proc_common.c:71-84 | filters that differ only in case keep the same processes |
| CaseFolding.NamesEqualIff | c/src/proc_common.c:91-102 | names compare equal, up to the pid, exactly if they are the same up to case |
| ProcessModel.FindFrom | c/src/proc_common.c:152-161 | the result is the first entry with the pid, none only if there is none |
| ProcessLists.Heap.Realloc | c/src/proc_common.c:12-17 | refusal leaves the old block alone; success moves its contents to a new block, and the old one is released and may hold anything |
| ProcessLists.Heap.Free | c/src/proc_common.c:24 | only a live block can be freed, and then it is live no longer and may hold anything |
| ProcessLists.ProcessList.Grow | c/src/proc_common.c:10-18 | growth keeps the contents and makes room for as many more, or fails and leaves the list as it was |
| ProcessLists.ProcessList.Push | c/src/proc_common.c:9-21 | appends the record, or leaves the list as it was when growth is refused; capacity stays 0 or 128 times a power of two |
| ProcessLists.ProcessList.GrowthIsLinear | c/src/proc_common.c:10-18 | capacity is at most max(128, 2n) and all growths together copied fewer than 2n records, n being the most records held |
| ProcessLists.ProcessList.Free | c/src/proc_common.c:23-29 | the buffer is released once and the list is empty |
| ProcessLists.ProcessList.TakeOver | c/src/main.c:125-126 | the list takes the other's buffer, contents and clock, and the other owns nothing |
| ProcessLists.ProcessList.CopyFrom | c/src/proc_common.c:31-42 | on success the contents equal the source's, in the reused or a grown buffer; on failure memory was refused in this call |
| ProcessLists.ProcessList.FilterByName | c/src/proc_common.c:71-84 | the new contents are the filtered old contents, in the same buffer |
| ProcessLists.FilterBuffer | c/src/proc_common.c:78-83 | compacting in place leaves the filtered records at the front |
| ProcessLists.ProcessList.SortBy | c/src/proc_common.c:137-150 | the new contents are a sorted permutation of the old |
| ProcessLists.ProcessList.FindPid | c/src/proc_common.c:152-161 | the scan returns the position of the first entry with the pid |
| ProcessLists.ProcessList.JoinCpu | c/src/proc_common.c:163-192 | the new contents are the join of the old contents with the previous sample |
| ProcessLists.JoinBuffer | c/src/proc_common.c:175-191 | each of the first `count` records is joined, the rest of the buffer is untouched |
| ProcessLists.NameContains | c/src/proc_common.c:44-69 | true exactly if the folded needle occurs at some position of the folded name |
| ProcessLists.CompareName | c/src/proc_common.c:86-102 | returns the specified comparison of folded names, then pids |
| ProcessLists.Qsort | c/src/proc_common.c:148 | any sorted permutation of the first n records, the others untouched |
| Joins.CppSample.ApplyCpuPercent | cpp/src/ProcessModel.cpp:71-100 | the loops compute the indexed join of the old processes |
| Joins.IndexIsFirstKnown | cpp/src/ProcessModel.cpp:81-87 | the hash map holds for each pid the CPU time of its first entry that has one |
| Joins.JoinsAgreeIff | cpp/src/ProcessModel.cpp:71-100 | indexed and linear join agree on every list with zero percentages if and only if for each previous pid the first entry has a CPU time, or none has, or the first known one is the largest 64-bit value |
| Joins.ItemJoinsDiffer | cpp/src/ProcessModel.cpp:89-99 | where that fails, a fresh record one nanosecond busier is treated differently |
| Joins.DistinctPidsDecide | c/src/proc_common.c:152-161 | distinct pids meet the condition |
| Joins.KnownTimesDecide | c/src/proc_common.c:180-182 | so do lists in which every CPU time is known |
| Joins.ApplyJoinsAgree | c/src/proc_common.c:163-192 | the two functions as a whole, early returns included, agree under the condition |
| Joins.IndexOf | cpp/src/ProcessModel.cpp:81-87 | the first loop builds the index |
| Joins.CsJoinAgrees | csharp/src/ProcMon/ProcessSampler.cs:72-111 | the dictionary join, in 100-nanosecond ticks and milliseconds, agrees with the linear join where the first entry decides or no later CPU time fits, whatever the sign of the elapsed time |
| Joins.CsJoinAgreesIff | csharp/src/ProcMon/ProcessSampler.cs:72-111 | over a positive interval they agree on every list with zero percentages if and only if that holds |
| Joins.UnitsCancel | csharp/src/ProcMon/ProcessSampler.cs:106-107 | the ratio of milliseconds equals the ratio of nanoseconds |
| Joins.GroupFirstIsFirstKnown | csharp/src/ProcMon/ProcessSampler.cs:88-91 | the first member of a pid's group is its first entry with a known CPU time |
| CppOrder.NameOrdersAgreeIff | cpp/src/ProcessModel.cpp:11-26 | signed and unsigned comparison order two names alike if and only if the first bytes that differ are both ASCII or both not |
| CppOrder.AccentsAreOrderedDifferently | cpp/src/ProcessModel.cpp:22-26 | two names that C and C++ order differently |
| CppOrder.FiltersAgree | cpp/src/ProcessModel.cpp:30-38 | both filters keep the same processes in the same order, although the search of C++ finds an empty needle nowhere |
| CppOrder.SortsAgree | cpp/src/ProcessModel.cpp:40-69 | the one result that std::ranges::sort can have is the result of the C sort |
| CppOrder.PipelinesAgree | cpp/src/ProcessModel.cpp:30-69 | filter and sort together leave the list that C shows |
| CppMonitor.CppMeasuresTheSame | cpp/src/main.cpp:87-106 | from equal snapshots, each joining against the list it kept, C++ measures from round to round what C measures |
| CppMonitor.SampleEntries | cpp/src/LinuxProcessSource.cpp:95-105 | the loop collects the processes whose names and stat files can be read, unless a reader throws |
| CppMonitor.CppEntryIs | cpp/src/LinuxProcessSource.cpp:96-101 | C++ reads the entries whose names are 32-bit decimals, and no others |
| CppMonitor.SnapshotsAgree | cpp/src/LinuxProcessSource.cpp:85-108 | where /proc lists printed pids and both readers agree on every file, C++ takes the snapshot that C takes |
| CppMonitor.MonitorsAgree | cpp/src/main.cpp:84-115 | over any run of such snapshots, in a round without repeated directory names, and when sorting by name with names that both chars order alike, the frame of C shows the list that C++ has read, joined, filtered and sorted |
| CppMonitor.SnapshotsDecide | c/src/proc_linux.c:102-103 | every snapshot meets the condition of the joins, even with repeated pids |
| Snapshots.RecordsAreFresh | c/src/proc_linux.c:102-108 | every record of a snapshot has a known CPU time, the percentage zero, and zero for an unknown memory size |
| Snapshots.ProcSnapshot | c/src/proc_linux.c:123-162 | on success the list holds the records of the entries in order, with the clock; failure only if /proc does not open or memory is refused in this call |
| Snapshots.Collect | c/src/proc_linux.c:136-158 | the loop appends the record of each numeric entry that parses and nothing else |
| Snapshots.ReadEntry | c/src/proc_linux.c:141-153 | what one directory entry contributes |
| Snapshots.IsNumeric | c/src/proc_linux.c:112-121 | true exactly for non-empty texts of digits |
| Snapshots.SnapshotPermutes | c/src/proc_linux.c:136-158 | listing the entries in another order only rearranges the snapshot |
| Snapshots.PidOfDirectory | c/src/proc_linux.c:145 | reading a printed pid back from a directory name gives the pid |
| Snapshots.PidOfNumber | c/src/proc_linux.c:145 | any other number in a directory name is reduced to 32 bits |
| Snapshots.BufferEndsAtNul | c/src/proc_linux.c:46-57 | a file with a NUL is read up to it; an empty or unreadable one gives no text |
| Snapshots.RecordComesFromEntry | c/src/proc_linux.c:141-157 | every record bears the pid read from the name of some numeric entry |
| Snapshots.ListedPidsAreDistinct | c/src/proc_linux.c:136-157 | when /proc lists printed pids and no name twice, no pid is in a snapshot twice |
| Snapshots.FoundIffReadable | c/src/proc_linux.c:136-157 | when /proc lists printed pids, a snapshot finds a pid if and only if some directory of that name yields a record |
| Render.RenderTable | c/src/render.c:54-88 | the rows are those of the first min(count, top) records in order, the footer counts are right |
| Render.RenderRow | c/src/render.c:65-81 | unknown values become a dash, the name fits the row buffer and is cut |
| StatParser.ParseStat | c/src/proc_linux.c:59-110 | succeeds exactly when the name is delimited and field 24 exists; the record after success and after failure |
| StatParser.ParseFields | c/src/proc_linux.c:80-100 | the cursor loop finds the fields numbered 14, 15, 20 and 24, or reports that the line is short |
| StatParser.StatRoundTrip | c/src/proc_linux.c:59-110 | for every name, with parentheses and spaces too, printing a line and scanning it gives the name up to 255 bytes and the four fields in their roles, each converted as if it stood alone; with fewer than 24 fields it fails |
| Numbers.ConversionOfCopy | c/src/proc_linux.c:88-96 | a conversion that starts at a field does not see what follows the field |
| Numbers.PrintedNumberConverts | c/src/proc_linux.c:88-96 | a printed number converts to itself if the type can hold it |
| Numbers.SignedNumberConverts | c/src/proc_linux.c:92-96 | a printed signed number converts to itself, or to the end of the type it is beyond |
| Numbers.UnsignedNumberConverts | c/src/args.c:30 | an unsigned conversion stops at the largest value and takes a minus sign modulo 2^64 |
| Numbers.SpaceIsSkipped | c/src/args.c:30 | white space before a number is skipped |
| Numbers.CharactersAre | c/src/proc_linux.c:116 | the ten digits, and the six white-space characters of the C library |
| StatParser.ParenthesesAround | c/src/proc_linux.c:60-73 | the first opening and the last closing parenthesis enclose exactly the name |
| StatParser.ParenthesesMean | c/src/proc_linux.c:60-72 | in any text there is a name exactly if a '(' stands before a ')', and it reaches from the first to the last |
| StatParser.FieldIsFound | c/src/proc_linux.c:81-100 | the k-th printed field starts where the scan looks for it, and none is found past the last |
| StatParser.TickConversionIsExact | c/src/proc_linux.c:102 | the 64-bit conversion is the exact floor if and only if the nanosecond product is below 2^64 |
| StatParser.TickDeltas | c/src/proc_linux.c:102 | while products fit, readings are monotone and their difference is within one nanosecond of the true one |
| CppStatReader.ReadStat | cpp/src/LinuxProcessSource.cpp:38-81 | absent, thrown or read, as a function of the file's first line |
| CppStatReader.ExtractFields | cpp/src/LinuxProcessSource.cpp:56-80 | the stream loop extracts the numbered fields; missing ones stay zero, unreadable ones throw |
| CppStatReader.ConversionsAre | cpp/src/LinuxProcessSource.cpp:64-72 | which texts std::stoull and std::stol convert, and which make them throw |
| StatBuffer.ReadersAgreeIff | cpp/src/LinuxProcessSource.cpp:38-81 | on a printed file of any length C, reading through its buffer, and C++ give the same result if and only if the line has 24 fields, the name is under 256 bytes, the four fields convert in C++ without an exception, and field 24 starts in the first 4095 bytes and what is there of it stands for the same memory |
| StatBuffer.WholeFileSuffices | c/src/proc_linux.c:46-57 | the last condition holds of every file that fits the buffer |
| StatBuffer.BufferedScan | c/src/proc_linux.c:46-110 | what C scans of a printed file with a short name, whatever the length of the file |
| StatBuffer.LateFieldDiffers | c/src/proc_linux.c:82-87 | where field 24 starts beyond the buffer, C skips the process and the programs differ |
| StatBuffer.ReadersDiffer | c/src/proc_linux.c:46-57 | such a file, complete and with numbers in range |
| StatParser.FieldStartOfPrefix | c/src/proc_linux.c:81-100 | the scan of a prefix finds exactly the fields that start within it |
| StatAgreement.CReadsFile | c/src/proc_linux.c:59-110 | the newline at the end of the file changes nothing for C |
| StatAgreement.NamelessIsSkipped | cpp/src/LinuxProcessSource.cpp:46-50 | a line without a name is skipped by both programs |
| StatAgreement.CppReadsLine | cpp/src/LinuxProcessSource.cpp:44-80 | C++ reads a printed line, complete or short, with the full name and zeros for missing numbers, or throws when a number cannot be read or does not fit |
| Numbers.DecimalRoundTrip | c/src/args.c:30 | reading a printed decimal gives the number |
| Numbers.ReadPlainNumeral | c/src/proc_linux.c:88-96 | text that starts with a digit converts as its leading digits |
| Utf8.TruncateCpp | cpp/src/Renderer.cpp:44-57 | the loop returns the prefix up to the C++ cut |
| Utf8.TruncateC | c/src/render.c:29-52 | the loop copies the prefix up to the C cut, terminates it, and writes nothing beyond |
| Utf8.CppCutIsLastBoundary | cpp/src/Renderer.cpp:48-55 | C++ cuts at the last unit boundary within the limit |
| Utf8.CCutIsNextBoundary | c/src/render.c:33-50 | C cuts at the first boundary at or past the limit, at most three bytes past it, or at the last boundary there is |
| Utf8.CutsCompared | c/src/render.c:33-50 | the C result equals the C++ result, or is longer by exactly one unit, the one that straddles the limit |
| Utf8.CutsAgreeIff | cpp/src/Renderer.cpp:48-55 | they are equal if and only if the limit is a boundary or none lies beyond it |
| Utf8.CutsAtCharactersIff | c/src/render.c:33-50 | a cut at n bytes keeps the first n characters, in C if and only if every character starts before byte n or the first n - 1 bytes are single characters, in C++ if and only if every character ends within n bytes or the first n bytes are single characters |
| Utf8.FifteenOfThirty | cpp/src/Renderer.cpp:44-57 | thirty two-byte characters are cut to fifteen by both programs |
| Utf8.CuttingTwice | c/src/render.c:29-52 | both cuts are idempotent, and so is either followed by the other |
| Utf8.CutsGrowWithLimit | cpp/src/Renderer.cpp:44-57 | a larger limit only extends the result |
| Utf8.CutIgnoresFarTail | c/src/render.c:33-50 | the C cut depends only on the first limit + 4 bytes |
| Utf8.NoCharacterIsSplit | cpp/src/Renderer.cpp:44-57 | on valid UTF-8 both leave valid UTF-8; C++ the longest that fits, C the shortest that fills the limit |
| Utf8.ValidPrefixIffReached | cpp/src/Renderer.cpp:18-29 | in a valid text the cuts that leave valid UTF-8 are exactly the unit boundaries |
| Args.Options.ParseArgs | c/src/args.c:65-129 | the index loop has the specified outcome, and stores the specified fields even when it fails |
| Args.Options.StoreOperand | c/src/args.c:95-125 | an operand is checked and stored, or refused with nothing changed |
| Args.ParseArgsCpp | cpp/src/Args.cpp:48-108 | the span loop has the outcome specified for C++ |
| Args.StoreOperandCpp | cpp/src/Args.cpp:71-104 | an operand is checked and stored as specified for C++ |
| Args.ParseArgsRust | rust/src/cli.rs:49-108 | the iterator loop has the outcome specified for Rust |
| Args.StoreOperandRust | rust/src/cli.rs:78-104 | the second match checks and stores an operand as specified for Rust |
| ArgsTheorems.ArgsRoundTrip | c/src/args.c:65-129 | any valid settings, printed as flags in any order, parse back to themselves in all three programs |
| ArgsTheorems.FlagListParses | c/src/args.c:70-126 | any list of valid flags parses to the defaults updated from left to right |
| ArgsTheorems.DefaultsAre | c/src/args.c:53-58 | 1000 ms, no filter, CPU order, 25 rows, no pid, not once |
| ArgsTheorems.RangesAre | c/src/args.c:95-113 | for every number, in each program: --interval takes 50 to 60000, --top 1 to 500, --kill 32 bits, and all else is an error |
| ArgsTheorems.SortWordsAre | c/src/args.c:38-51 | the four sort words and the orders they name; every other word is an error |
| ArgsTheorems.FiltersAre | c/src/args.c:119-125 | every filter is taken, in C below 128 bytes |
| ArgsTheorems.WordEndsParse | c/src/args.c:78-92 | after any flags, help ends the parse, and an unknown word or a flag without operand is an error |
| ArgsTheorems.WordKeepsStored | c/src/args.c:78-92 | C has then stored the flags before that word |
| ArgsTheorems.NumberRoundTrip | cpp/src/Args.cpp:13-23 | each number reader inverts decimal printing on all 64-bit values |
| ArgsTheorems.CStaysInContract | c/src/args.c:65-129 | whatever the command line, accepted or not, the fields left behind are within the documented ranges |
| ArgsTheorems.ParsersAgreeIff | cpp/src/Args.cpp:48-108 | on every command line C++ (Rust) gives the outcome of C if and only if: with filters under 128 bytes, C does not take some operand or no numeric operand starts with white space, a minus or (C++ only) a plus; with a longer filter, C++ (Rust) does not take some operand |
| ArgsTheorems.RefusedIff | c/src/args.c:70-126 | a program refuses a command line exactly if, before any help flag, a flag is unknown, lacks its operand or does not take it |
| ArgsTheorems.ParsersAgree | rust/src/cli.rs:49-108 | all three agree when no numeric operand starts with a sign or white space and filters are under 128 bytes |
| ArgsTheorems.OperandReads | rust/src/cli.rs:110-114 | which operands C++ and Rust refuse although C may take them; all others the three read alike |
| ArgsTheorems.NumbersAgreeIff | c/src/args.c:22-36 | exactly which operands the number readers read differently |
| ArgsTheorems.NegativeTopIsAcceptedByC | c/src/args.c:30-33 | for every row count n, C accepts minus (2^64 - n) as n rows; C++ and Rust refuse it |
| ArgsTheorems.LongFilterIsRefusedByC | c/src/args.c:120-123 | C refuses every command line on which a filter of 128 bytes or more is met |
| ArgsTheorems.LongFilterAlone | rust/src/cli.rs:79 | such a filter alone is accepted by C++ and Rust |
| Kill.ProcKill | c/src/proc_linux.c:168-180 | the calls made are SIGTERM, probe, SIGKILL, each only after the one before succeeded, all to the one process; the report is a function of the replies; protected pids get no call |
| Kill.RunKill | c/src/main.c:43-88 | no call unless the pid is neither own nor 0 nor 1, was listed and was confirmed with y or Y; the course taken and the exit code in every case; the heap is as before |
| Kill.KillListed | c/src/main.c:64-87 | search, question and signals, from the snapshot on |
| Kill.ExitCodesMean | c/src/main.c:33-88 | when each exit code is returned: 2 exactly for the own pid, a protected pid or a refused signal; 3 exactly for another pid when the snapshot fails, or its record cannot be read, or it is not listed or gone at SIGTERM; 0 otherwise, and with no call for every answer but y and Y |
| Kill.ExitThreeMeansMissingIff | c/src/main.c:59-69 | code 3 stands exactly for a missing target if and only if it is not listed, or the snapshot is taken and a record of it can be read |
| Kill.FailedSnapshotExitsThree | c/src/main.c:59-63 | when the snapshot fails the code is 3, also for a target that is listed |
| Kill.UnreadableExitsThree | c/src/proc_linux.c:148-150 | process 500 is listed, its stat file cannot be read, and the code is 3 |
| Kill.SuccessMeansGoneIff | c/src/proc_linux.c:172-179 | after a reported success the process is still there if and only if the probe was refused, or SIGKILL was accepted and has not ended it |
| Kill.StatusMeans | c/src/proc_linux.c:172-179 | not found exactly if the process was gone at SIGTERM; denied exactly if SIGTERM or SIGKILL met it alive and without permission, and then it is still there |
| Kill.SteadyKill | c/src/proc_linux.c:172-179 | if permissions do not change between calls, success means gone unless SIGKILL was accepted and has not ended the process, and denial means refused at once |
| Kill.SurvivorsOfSuccess | c/src/proc_linux.c:176-179 | two traces that report success and leave the process there, one of each kind |
| Kill.ExitZeroIff | c/src/main.c:33-41 | after confirmation, exit code 0 exactly if SIGTERM met the process with permission and SIGKILL was not refused |
| Kill.FoundIsListed | c/src/main.c:64-76 | when /proc lists printed pids, the process that is signalled is the one whose directory was listed |
| Kill.PidTWraps | c/src/proc_linux.c:172 | the conversion to pid_t wraps into the signed 32-bit range |
| Program.Run | c/src/main.c:140-161 | help, usage error, kill command or monitor as the parser decides, with the exit code of each; signals only on the course of a kill command, frames only from the monitor; nothing stays allocated |

## Left out

- ProcessLists.Heap.Realloc: always moves the block; that realloc may grow it in place is not modelled. A released block is not made unreadable: it holds arbitrary records, so that no contract can depend on reading it.
- ProcessLists.Qsort: stands for the library function through its contract (section 7.22.5.2 of ISO/IEC 9899:2011); its algorithm is not modelled.
- CppOrder.SortsAgree: std::ranges::sort is its contract, a permutation in which nothing is less than what precedes it; std::ranges::search and std::erase_if are likewise what they compute. char is signed.
- ProcessLists.ProcessList.Push: capacities are unbounded; overflow of `capacity * 2 * sizeof` is not modelled.
- Joins.CsJoinAgrees: the elapsed time is passed in 100-nanosecond units; the Stopwatch frequency is not part of the model.
- StatParser.StatRoundTrip: a field holds anything but blanks and closing parentheses, and the four used ones are not white space only, behind which a conversion would read into the next field.
- StatBuffer.ReadersAgreeIff: the fields hold no white space and the file no NUL, as the kernel writes them.
- Kill.ProcKill: an id is not given to a new process between the calls, and the 200 ms wait is only a point where processes may exit. When a process that SIGKILL has not ended at once does end is not modelled.
- Program.Run: SIGINT is the end of the list of scans, so it is seen at the head of the loop as in the source.
- Floating-point rounding: percentages are exact reals.
- Text output: messages, column padding, `%.1f`, screen clearing, and the filter repeated in the footer.
- Systems other than 64-bit Linux: Toolhelp32, GetProcessTimes, 32-bit `unsigned long`.
- Opening, reading and listing files, clocks and sleeping: inputs.
- Rust sampling, rows and kill: the CPU computation is inside the sysinfo crate.
- C# Filter, Sort, Args and Renderer: the orders are OrdinalIgnoreCase and the text elements are .NET's; the parser repeats the other three.
- C++ drawing and kill: the same steps as in C through RAII types.
- Non-ASCII name order across languages, beyond the condition for C and C++.
- The texts of parse errors: an outcome is settings, help or a usage error.
