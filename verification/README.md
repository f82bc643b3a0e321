# nvsched and the unit-test harness, modelled and proved

Two components of the repository, and two small tools beside them.

**The scheduler core (`nvsched/`).** A scheduler owns a singly linked list of
domains (head, tail pointer, count), a circular event log that overwrites its
oldest entry when it is full, and the memory of both. Creating and destroying a
domain logs an event, so list, log and allocator move together.

- `EventLog` is the ring (`LogBuffer`, with its array and its `u32` indices)
  and the bounded queue it implements. Events that leave the queue are
  remembered as read or overwritten, which is what the loss theorems are about.
- `DomainLists` is the list, node by node, against a ghost sequence of nodes.
- `Sched` is create, close and everything between. A ghost set of live blocks
  follows every allocation and every free. `SchedSpec` is what a caller sees
  (live domains, log, everything ever logged) and what holds in every run.

The log size is a parameter of at least 1, since `NVS_LOG_ENTRIES` can be
overridden. The clock and the allocator answer arbitrarily at every call.

**The verdict of the test harness (`userspace/src/`).** Worker threads, gated
by a semaphore, run modules and record results under a mutex; an INI file names
the required tests; a destructive search cancels what passed against what was
required; `main` turns all of this into an exit code.

- `Results` is the result store: three linked record lists with tail pointers
  and the counters beside them.
- `ExecSpec` says what a module records, `Exec` is the state machine whose
  steps are those of the main thread and of the workers, and `ExecRun` is the
  code: one thread running the modules in order, or any interleaving. `Runs`
  builds runs: every run can be brought to an end.
- `IniFile`, `IniParser` and `IniRoundTrip` are the clean-up of a line in its
  buffer, the parser, and the way back from text to what was written; `IniLines`
  says in plain terms what the parser makes of any text.
- `RequiredTests` is the search, and the order-free count it computes.
  `SectionOrder` says for which sections the order of the passes cannot show,
  `OrderWitness` shows that it does for all others, and `FileOrders` finds, for
  whole files, passes that leave nothing missing in one order and something in
  another.
- `Verdict`, `Harness` and `ExitZero` are `main`, the independence of its exit
  code from the schedule, and what the exit code says about the tests; `Levels`
  shows that tests above the level make no difference to it. `AnyOrder`,
  `Settled` and `TwoOrders` have the runs in which the schedule does show, and
  say for which files there are such runs.

How a test function ends (success, failure, signal), whether a module's set-up
succeeds, and whether the memory for a record, and for the store should there be
none yet, can be had are given per module and test; how many nodes the parser
can allocate is given per run. A theorem that needs more of these choices says
so in its `requires`.

**`TestList`** is `testlist.py`: the last-wins index of results, the generated
list of required tests and the check against it. **`Falcon`** is the simulated
auto-incrementing memory port of the Falcon unit tests, with the register
offsets and fields of the gm20b header; `Bits` has the code's `&` and `|` as
operations on natural numbers.

`Sequences` and `Limits` hold the few definitions the modules share.

## Findings

Where the code does not do what its callers would expect, the model follows the
code. For each of these there is a lemma with an input, or one that covers every
input, and a lemma that says exactly when it happens.

- A domain whose name has 32 bytes or more can never be looked up by that name,
  because only 31 bytes are stored (`FoundAfterCreate`, `RunLongNames`).
- The harness can succeed with several threads where it fails with one: a test
  ends in a signal and the memory for its FAILED record is refused. The
  single-threaded handler then exits with -1 all the same; with more threads
  nothing is left to be noticed (`LostFault`, `ThreadCountMatters`).
- The handler of a single thread prints the results without looking whether
  there are any: it faults itself if and only if a test faults and no test
  reached so far, that one included, could allocate the store
  (`HandlerFaultsWhen`).
- With two sections of one name in the required-tests file, the number of
  missing tests can depend on the order in which tests passed, since the search
  stops at the first unit of that name (`DuplicateSectionsOrder`). Only names
  with a dot are ever cancelled, so a section lets the search past it once all
  its tests have passed, provided that it has tests and all their names have
  dots. At a given level the order shows if and only if, for some name, sections
  up to one of them (k) can be passed, two neighbours (i and i + 1, i < k) hold
  tests of different names that can be cancelled, and section k holds one up to
  the level that can be, of the second of these names when k is i + 1
  (`OrderMatters`).
- The exit code then can depend on the schedule (`AmbiguousVerdict`). File by
  file: the verdict is the same in all runs of several threads, whatever the
  modules, if and only if `main` does not get as far as matching the required
  tests, or no passes can meet them, or the order of the passes never shows
  (`SettlesIff`).
- A record is lost when its allocation succeeds but the store does not exist and
  cannot be allocated, so that the schedule can decide whether a failure counts
  (`RefusedStore`). No schedule of several threads loses a record if and only
  if, for each record that can be allocated, the store could be allocated for
  its test or for one before it in its module (`NothingLostIff`).
- A tab after a test level is a conversion error: spaces are trimmed there, tabs
  are not. A test line in an open section is accepted if and only if no tab
  stands between its level and the end of the line or a comment (`TrailingTab`).
- `testlist.py --check` lets a required test above the tested level be absent
  only if its unit has some other result: a unit without any result is an error
  at every level (`CheckPasses`).
- The port's address carries into bit 16 of the control register when a stream
  reaches the last word, and there it is ORed in; the remaining bits are kept
  exactly when that does not happen or the bit was set (`ControlAfterStream`).

## Model

| member | source | states |
|---|---|---|
| EventLog.LogInc | nvsched/src/logging.c:27-33 | on a u32 index below the size, the successor in the ring, with no 32-bit wrap-around on the way |
| EventLog.RetainedDrop | nvsched/src/logging.c:120-127 | when get and put differ there is a retained event, the slot at get is the oldest, and advancing get drops exactly that one, across the end of the array too |
| EventLog.RingEmit | nvsched/src/logging.c:35-106 | one slot always stays empty: the full test is true exactly when the bounded queue holds entries-1 events, and evict-write-advance turns the retained events into the last entries-1 of "retained, then the new one", for any size from 1 |
| EventLog.LogBuffer.Full | nvsched/src/logging.c:35-46 | full exactly when entries-1 events are retained |
| EventLog.LogBuffer.LogEvent | nvsched/src/logging.c:83-108 | the log becomes the bounded queue's: the event is in with its u64 time stamp, the oldest is recorded as overwritten iff the ring was full |
| EventLog.LogBuffer.LogGet | nvsched/src/logging.c:110-130 | hands out the oldest retained event and removes it; NO_EVENT, and nothing else changed, exactly when nothing is retained |
| EventLog.StampMeans | nvsched/src/logging.c:104-104 | the time stamp is the clock minus the offset, as a u64: exactly that where it fits, and modulo 2^64 otherwise |
| EventLog.HistorySplits | nvsched/src/logging.c:83-130 | log loss theorem: in every run of emits and reads the emitted history splits into read, overwritten and retained, counts add up, reads come in emission order, whatever left is older than whatever stayed |
| EventLog.LosslessIff | nvsched/src/logging.c:91-99 | a run overwrites nothing if and only if outstanding events never exceed entries-1 at any moment, and its reader then receives what an unbounded FIFO delivers |
| EventLog.OverflowLoses | nvsched/src/logging.c:96-99 | a run that ends with more than entries-1 events outstanding has overwritten one |
| DomainLists.ChainSkip | nvsched/src/domain.c:82-108 | redirecting one next pointer past a node leaves a chain of the other nodes, with the right head and last |
| DomainLists.DomainList.Append | nvsched/src/domain.c:52-68 | the new node comes last; the list stays acyclic, last is the final node, nr the length |
| DomainLists.DomainList.Unlink | nvsched/src/domain.c:75-110 | removes exactly the given node wherever it is, keeps the order of the rest, moves last back or clears it; any other domain leaves the list as it is |
| DomainLists.DomainList.Remove | nvsched/src/domain.c:112-123 | for a member, unlink, clear and count down together keep the list well formed with nr the length; for any other domain the list stays and nr is one less, modulo 2^32 |
| DomainLists.DomainList.ByName | nvsched/src/domain.c:139-150 | the node of the earliest live domain with that stored name, or NULL when there is none |
| DomainLists.FindNameFirst | nvsched/src/domain.c:143-149 | the lookup result has the name and no earlier domain has it; no result means no domain has it |
| DomainLists.FoundAfterCreate | nvsched/src/domain.c:45-65 | a domain is found under its own name right after its creation if and only if the name is shorter than 32 bytes and no live domain had it |
| DomainLists.FoundAsStored | nvsched/src/domain.c:45-65 | what a new domain is found under is its name, or the first 31 bytes of a longer one, if and only if no live domain had that |
| DomainLists.LongNameNeverFound | nvsched/src/domain.c:45-45 | a name of 32 bytes or more is never found |
| DomainLists.FindAfterDestroy | nvsched/src/domain.c:112-150 | destroying the found domain exposes the next one of that name; destroying any other changes no lookup |
| SchedSpec.RunConsistent | nvsched/src/domain.c:30-137 | in every reachable state the history begins with its only CREATE_SCHED, the domain count is CREATE_DOMAIN minus REMOVE_DOMAIN events, refused allocations included, and no event has data or is NO_EVENT |
| SchedSpec.RunParams | nvsched/src/domain.c:43-66 | in every reachable state the live domains are, in order, ones that granted calls made, each with the time slice, grace, priv and (31 byte) name of its call, whatever was destroyed since |
| SchedSpec.RunHistorySplits | nvsched/src/logging.c:83-130 | the log loss theorem for the scheduler's own log in every state of every run of create, destroy, clear and log reads |
| SchedSpec.ApplyConsistent | nvsched/src/domain.c:30-132 | each single operation keeps that invariant, from any consistent state |
| SchedSpec.DroppedStep | nvsched/src/domain.c:129-131 | one more turn of the clearing loop is a destroy of the head |
| SchedSpec.ClearLogs | nvsched/src/domain.c:125-132 | clearing leaves no domain and appends exactly one REMOVE_DOMAIN per domain and nothing else |
| SchedSpec.RunLongNames | nvsched/src/domain.c:45-45 | in no reachable state is a domain found under a name of 32 bytes or more |
| Sched.Scheduler.LogInit | nvsched/src/logging.c:48-74 | succeeds iff both allocations do, and then the offset is what the clock just showed; otherwise the live blocks are as before |
| Sched.Scheduler.AllocateParts | nvsched/src/sched.c:41-52 | domain list and log are both there or neither is, and nothing leaks |
| Sched.Scheduler.Create | nvsched/src/sched.c:27-57 | fails exactly when ops is NULL (-EINVAL, and nothing was touched) or an allocation is refused (-ENOMEM), and then keeps no block; otherwise the blocks are accounted for and CREATE_SCHED is the only event |
| Sched.Scheduler.NewDomain | nvsched/src/domain.c:35-48 | one block more with the time slice, the grace, priv and the first 31 bytes of the name, or none |
| Sched.Scheduler.DomainCreate | nvsched/src/domain.c:30-69 | appends a domain with just these parameters, logs one CREATE_DOMAIN at the time the clock shows, owns one block more; a refused allocation changes neither list, log nor live blocks |
| Sched.Scheduler.DomainDestroy | nvsched/src/domain.c:112-123 | removes that domain only, logs one REMOVE_DOMAIN, frees that block only |
| Sched.Scheduler.DomainClearAll | nvsched/src/domain.c:125-132 | ends (the list gets shorter), with head NULL, last NULL, nr 0 and one event per domain |
| Sched.Scheduler.DomainCount | nvsched/src/domain.c:134-137 | the number of live domains |
| Sched.Scheduler.DomainByName | nvsched/src/domain.c:139-150 | the earliest live domain of that name, on the open scheduler |
| Sched.Scheduler.LogGet | nvsched/src/logging.c:110-130 | reading the log changes neither domains, history nor allocation |
| Sched.Scheduler.FreeAll | nvsched/src/logging.c:76-81 | with no domain left, three frees of distinct live blocks give back all that was taken |
| Sched.Scheduler.Close | nvsched/src/sched.c:59-66 | every block is freed once and while live, the log outlives the last REMOVE_DOMAIN, and the live blocks are again those from before create |
| Results.RecordList.AddRecord | userspace/src/results.c:56-74 | the record comes last in a well-formed list, first entry or not |
| Results.UnitResults.Count | userspace/src/results.c:104-117 | the record joins the list of its result only, the right counters move, and the three lists stay well formed and disjoint |
| Results.UnitFw.InitResults | userspace/src/results.c:38-54 | an existing store is kept, a new one is empty, a refused allocation leaves none |
| Results.UnitFw.AddTestRecord | userspace/src/results.c:76-122 | each way through, error paths included: which store results, and -1 exactly when store or record could not be allocated |
| Results.RecordList.Walk | userspace/src/required_tests.c:272-272 | following head and next visits the records in the order in which they were added |
| ExecSpec.ReachedInIs | userspace/src/exec.c:103-126 | the recursion that counts recorded tests means: all of them, or those up to and including the first that faults |
| ExecSpec.ArrivesMeans | userspace/src/exec.c:70-126 | a test gets as far as a record iff container and probe succeed and no test before it that is not above the level faults |
| ExecSpec.RecordedExactly | userspace/src/exec.c:103-126 | record completeness: test i has a record iff it was reached and its record was allocated; SKIPPED iff its level is above the argument, else PASSED iff it returned success; once and in index order |
| ExecSpec.AttemptMatches | userspace/src/exec.c:108-125 | where no record can be lost for want of the store, one more record by whichever module keeps the store matching the per-module progress: its existence, all lists, all counters |
| ExecSpec.AttemptSane | userspace/src/results.c:84-117 | whatever can be allocated, one more attempt keeps the counters equal to the list lengths and every record one of an existing test |
| Exec.StepKeepsInv | userspace/src/exec.c:57-186 | every step of every thread keeps the semaphore equation, each worker's progress, main's view of its threads and the store |
| Exec.SomeEnabled | userspace/src/exec.c:144-157 | no deadlock: until main has finished some thread can step, since a permit main waits for is held by a worker that can |
| Exec.StepDecreases | userspace/src/exec.c:57-186 | no livelock: each step strictly uses up a bounded number of steps |
| Exec.RunProtocol | userspace/src/exec.c:133-157 | in every state of every run permits, main's permit and unposted workers add up to thread_count, so at most that many workers run; no run is stuck or longer than a bound |
| Exec.PostsOnce | userspace/src/exec.c:133-185 | in every run a thread posts the semaphore once by its end and never before: in the signal handler if and only if one of its tests faults, otherwise at thread_exit, failed set-ups included |
| Exec.RunTallies | userspace/src/results.c:104-117 | in every state of every run the counters are the list lengths, and the subtraction main uses is the length of the failing list |
| Exec.FinishedMatches | userspace/src/exec.c:258-264 | after the joins every permit is back and, where none can be lost, the store holds exactly every module's reached tests |
| ExecSpec.SameWorkSameRecords | userspace/src/results.c:104-117 | when the same tests have been recorded, in whatever order, the three lists are equal as multisets and the counters are equal |
| Exec.RunsRecordAlike | userspace/src/exec.c:144-264 | where none can be lost, any two finished runs over the same modules record the same multisets, whatever their schedules and thread counts |
| Runs.Finish | userspace/src/exec.c:144-264 | from every reachable state some schedule brings the threads to an end, and a record that is lost stays lost on the way |
| Runs.LosesOne | userspace/src/results.c:84-97 | an allocatable record whose module is refused the store up to that test is missing at the end of some run of several threads |
| Runs.NothingLostIff | userspace/src/results.c:84-97 | every finished run of several threads has every record that could be allocated, if and only if the store could be allocated for that test or an earlier one of its module |
| ExecRun.ExecModule | userspace/src/exec.c:57-139 | run in one thread, a module leaves what its reached tests record, allocation failures included, nothing at all if its set-up fails, and ends in the handler iff a test of its level faults |
| ExecRun.RunTest | userspace/src/exec.c:103-126 | one test: SKIPPED above the level, whatever it would do, else PASSED iff it returns success; FAILED by the handler iff it is run and faults |
| ExecRun.RunSequential | userspace/src/exec.c:144-151 | modules in order; the process exits at the first that faults, and only then |
| ExecRun.RunThreaded | userspace/src/exec.c:144-157 | under every scheduler the threads end; where no record can be lost the store holds the same records per module as in any other order, and the counters are right in any case |
| ExecRun.WorkerTurn | userspace/src/exec.c:57-139 | the code of each worker step, writing to the real store, is the state machine's step |
| ExecRun.Turn | userspace/src/exec.c:57-186 | one turn of whichever thread is scheduled, run on the real store, keeps the invariant of the threads and uses up one of the steps left |
| ExecRun.StoreAfterMatches | userspace/src/exec.c:148-150 | running the modules one after another is one of the orders in which the threads may record |
| RequiredTests.SurviveRemoved | userspace/src/required_tests.c:303-311 | deleting the first test of a name and then cancelling a multiset is cancelling that name once more |
| RequiredTests.SurviveTimes | userspace/src/required_tests.c:303-311 | a name required r times and passed p times keeps max(r - p, 0) nodes: it loses exactly min(p, r) |
| SectionOrder.SingleSection | userspace/src/required_tests.c:284-311 | one section's leftover depends on the multiset that passed only, also once the emptied section was unlinked |
| SectionOrder.MissingIsLeftover | userspace/src/required_tests.c:264-332 | with distinct section names the destructive search computes the multiset difference, for every passing list in every order |
| SectionOrder.MissingAgrees | userspace/src/required_tests.c:264-332 | two lists of passes give the same count at a level when, per unit, they hold the same tests, and where the order differs the sections of the unit are free of order at that level |
| SectionOrder.LeftIs | userspace/src/required_tests.c:276-311 | for sections free of order the search leaves, as far as the count shows, a function of the multiset that passed |
| OrderWitness.OrderShows | userspace/src/required_tests.c:246-311 | for sections that are not free of order there are two orders of the same passes, with names that tests can have, of which one leaves more missing at that level |
| OrderWitness.GoodAndBad | userspace/src/required_tests.c:276-311 | from the two neighbouring sections and the one at which it shows: two orders of the same passes, the first of which cancels every test of that name that shows there, and the second not |
| OrderWitness.OrderMatters | userspace/src/required_tests.c:246-332 | for every file and level: any two orders of the same passes of the form "function.case" give the same count if and only if the sections of every unit are free of order at that level |
| FileOrders.AlwaysMissing | userspace/src/required_tests.c:246-329 | a file with a test up to the level whose name has no dot, or behind a section that cannot be emptied, has something missing whatever passes |
| FileOrders.MetOrNot | userspace/src/required_tests.c:264-332 | any other file whose order shows can be met: some passes leave nothing missing in one order and something in another |
| SectionOrder.DuplicateSectionsOrder | userspace/src/required_tests.c:276-295 | with two sections of one name the same two passing tests leave one test missing or none, by order |
| RequiredTests.RequiredList.Find | userspace/src/required_tests.c:276-295 | the first unit of the name, and in it the first matching test; or why there is none |
| RequiredTests.RequiredList.Cancel | userspace/src/required_tests.c:273-311 | one passing record removes one test of the first unit of its name, and the unit with its last test |
| RequiredTests.RequiredList.CheckExecutedTests | userspace/src/required_tests.c:264-332 | returns the number of leftover tests at or below the level and leaves the cancelled list |
| IniFile.Sanitize | userspace/src/required_tests.c:114-145 | the copy and backtrack loops, in place in the buffer, leave the declarative form: no leading blank or tab, nothing from the first #, no trailing space, CR or LF |
| IniFile.Backtrack | userspace/src/required_tests.c:135-144 | the backtracking loop cuts exactly the trailing spaces, CRs and LFs, down to an empty buffer |
| IniFile.SanitizedIdempotent | userspace/src/required_tests.c:114-145 | a clean line stays as it is, and is never longer than the raw one |
| IniParser.Fgets | userspace/src/required_tests.c:184-184 | one buffer: up to and including the newline or 255 characters; nothing iff the file is at its end |
| IniParser.CleanLine | userspace/src/required_tests.c:185-188 | what the buffers hold after fgets and sanitize, NUL characters in the line included |
| IniParser.ParseOne | userspace/src/required_tests.c:191-227 | the list and the return value after each kind of line, a refused node allocation included, are those of the line read as a test, a section, crossed brackets or a syntax error |
| IniParser.ParseReqFile | userspace/src/required_tests.c:167-233 | the loop over the file is the parse function; -1 exactly for a missing file and where parsing stops, -ENOMEM exactly when the file makes more nodes than can be allocated |
| IniRoundTrip.ParseDecimal | userspace/src/required_tests.c:148-161 | a written decimal number is read back iff it fits a long, and is an error otherwise (section 7.22.1.4 of ISO/IEC 9899:2011) |
| IniRoundTrip.SanitizedRender | userspace/src/required_tests.c:114-145 | clean-up recovers the content under any indentation, padding and comment |
| IniRoundTrip.ClassifyCore | userspace/src/required_tests.c:191-220 | a written section or test line is recognised as that section, or that test with that level |
| IniRoundTrip.ParseText | userspace/src/required_tests.c:184-228 | any well-formed sequence of lines, fillers between them, is parsed to what it says, from any list |
| IniRoundTrip.FileRoundTrip | userspace/src/required_tests.c:167-233 | round trip: any sections and tests, written with any decoration and filler lines, are parsed back to the same units and tests |
| IniRoundTrip.ListedSameTests | userspace/src/required_tests.c:80-106 | per section the parsed tests are the written ones as a multiset, the list helper inserting at the head |
| IniRoundTrip.FinalNewline | userspace/src/required_tests.c:184-228 | a final newline makes no difference to any file at all, full buffers, NULs and errors included |
| IniRoundTrip.TrailingTab | userspace/src/required_tests.c:135-160 | in an open section a test line, however indented, padded and commented, is accepted if and only if no tab follows its level |
| IniLines.ChunksAre | userspace/src/required_tests.c:184-184 | for any file, the lines read are the whole file, once; each has 1 to 255 characters and its newline, if any, at its end, and ends early only there or with the file |
| IniLines.SanitizedIff | userspace/src/required_tests.c:114-145 | for any line, what is left is exactly the text without blanks and tabs in front, anything from the first # on, and spaces, CRs and LFs behind |
| IniLines.NumberIff | userspace/src/required_tests.c:148-161 | the text after = is accepted as a level iff it is white space, an optional sign, and decimal digits, leading zeros allowed, of a number that fits a long (section 7.22.1.4 of ISO/IEC 9899:2011) |
| IniLines.DigitsAre | userspace/src/required_tests.c:153-153 | the notation meant is the decimal one |
| IniLines.ActMeans | userspace/src/required_tests.c:191-227 | for any clean line, in terms of its first =, [ and ]: when it stops the parser, opens a section and of what name, adds a test and which, or does nothing |
| IniLines.FileReadable | userspace/src/required_tests.c:184-232 | for any text, parsing succeeds iff no line stops it: one without = that lacks a bracket, or one with = in an open section with no number after the first = |
| Verdict.SameWorkSameVerdict | userspace/src/unit_main.c:74-112 | two stores with the same records per module, in any orders, give the same verdict, unless modules share a name whose sections are ambiguous |
| Verdict.MissingSameWork | userspace/src/required_tests.c:264-332 | the same passing records per module in two orders give the same missing count, modules of one name included |
| Harness.ScheduleIndependence | userspace/src/unit_main.c:70-112 | schedule independence: every finished run of the threads, for every thread_count, gives the verdict of running the modules in order, where no record can be lost and no shared name has ambiguous sections |
| Harness.Judge | userspace/src/unit_main.c:74-112 | each of main's exits, taken on the real store, file and list |
| Harness.UnitMain | userspace/src/unit_main.c:70-112 | the whole of it, execution included, ends as modules and arguments say: always with one thread, and with more under the conditions of schedule independence, whatever the scheduler did |
| Harness.InOrderLists | userspace/src/unit_main.c:74-85 | there is a store iff some reached test could allocate it; the passing, failing and skipped lists hold just the records of reached tests that succeeded, that did not, and that are above the level; the subtraction is 0 iff no failure was recorded |
| Harness.StoreAfterPassing | userspace/src/exec.c:148-150 | in module order the passing list is the passed tests of the modules, in order |
| Harness.HandlerFaultsWhen | userspace/src/exec.c:167-184 | the single-threaded handler faults iff a test does and no test reached so far could allocate the store that it prints |
| Harness.SuccessMeans | userspace/src/unit_main.c:70-112 | for any file, 0 if and only if nothing ended the single thread, there is a store, no failure was recorded, no single unit was asked for and no required test is unmet |
| Harness.FailureMeans | userspace/src/unit_main.c:74-110 | -1 if and only if there is no store, a failure was recorded, or no single unit was asked for and required tests are unmet; or the only thread faults and the handler has a store to print |
| Harness.SubsetMeans | userspace/src/unit_main.c:87-93 | -2 if and only if a single unit was asked for, there is a store without a failure, and nothing ended the single thread |
| Levels.AboveIsSkipped | userspace/src/exec.c:108-113 | what tests above the level would do changes neither which modules fault, nor the store, nor how the process ends, whatever memory is refused |
| Harness.ThreadCountMatters | userspace/src/exec.c:167-186 | every finished run of the threads gives what one thread gives if and only if nothing faults, or the handler has a store to print and a failure was recorded or required tests are unmet |
| Harness.ThreadCountIrrelevant | userspace/src/exec.c:167-186 | every finished run gives what one thread gives if the records of faulting tests can be allocated |
| Harness.LostFault | userspace/src/exec.c:173-185 | a fault whose record cannot be allocated: -1 with one thread, 0 with two |
| TwoOrders.AmbiguousVerdict | userspace/src/required_tests.c:276-295 | two modules of one name whose one test passes, and a file with a section for each: one thread succeeds, and with two threads one run ends in 0 and another in -1 |
| TwoOrders.RefusedStore | userspace/src/results.c:84-97 | a failing test that is refused the store and a passing one that is not: with two threads one run ends in 0 and another in -1 |
| AnyOrder.RunInOrder | userspace/src/exec.c:144-157 | with a permit for each, threads of one test each record in any order under some schedule |
| Settled.BothEnd | userspace/src/unit_main.c:70-112 | for any two orders of the same passes there are modules, all of whose tests pass, with a run that ends with the verdict of the one and a run that ends with that of the other |
| Settled.SettlesIff | userspace/src/unit_main.c:70-112 | the converse of schedule independence, file by file: all runs of several threads end alike for all modules that can lose no record, if and only if main does not get as far as matching the required tests, no passes can meet them, or their order never shows |
| ExitZero.NothingSurvives | userspace/src/required_tests.c:318-329 | nothing at or below the level is left iff each such required test passed, every test being required once |
| ExitZero.RequiredMeans | userspace/src/required_tests.c:264-332 | nothing is missing from a list without duplicates iff every listed test up to the level passed in a module of its section's name |
| ExitZero.UnmetMeans | userspace/src/unit_main.c:95-110 | for a file that lists nothing twice, required tests are unmet iff a line of it stops the parser, it cannot be kept, or it lists a test up to the level that has not passed |
| ExitZero.ExitZeroMeans | userspace/src/unit_main.c:70-112 | from the text of the file to the exit code: 0 if and only if nothing ended the single thread, there is a store, no failure was recorded, no single unit was asked for, there was room for the list, and every listed test up to the level passed; no schedule can change that |
| TestList.IndexIsLast | userspace/testlist.py:77-88 | the index has exactly the keys that occur, each with its last result |
| TestList.BuildResultsDict | userspace/testlist.py:77-88 | the loop over the results builds that index |
| TestList.Sorted | userspace/testlist.py:102-103 | strictly ascending, the same keys |
| TestList.LessMeans | userspace/testlist.py:102-103 | the order is that of the first character that differs, a beginning of a string coming before it |
| TestList.RegenUnit | userspace/testlist.py:103-110 | one unit's entries, one for each case of it |
| TestList.Regen | userspace/testlist.py:90-115 | one entry per (unit, case) key with test, case and level of its last result, and its links iff it has a uid; by unit and then by case; and their count |
| TestList.Check | userspace/testlist.py:140-214 | the errors counted are those of the required entries, the keys looked up exist, and the code is 1 iff there are errors |
| TestList.LastIndexed | userspace/testlist.py:77-88 | a key is indexed iff it occurs, and what is indexed is the only last entry of that key |
| TestList.CheckPasses | userspace/testlist.py:156-214 | for any two lists, check finds no error iff each required key's unit has a result and its last result did not fail, or it has none and its last required level is above the tested one |
| TestList.ErrorsAre | userspace/testlist.py:156-176 | for any two lists, the errors are the required entries whose key is not so |
| TestList.ErrorsCountFailures | userspace/testlist.py:156-176 | over a list without duplicates each failed key costs one error |
| TestList.RegenThenCheck | userspace/testlist.py:90-214 | after regeneration, check counts as many errors as there are keys whose last result failed, at every level |
| TestList.RegenThenCheckOthers | userspace/testlist.py:90-214 | a list regenerated from one run and checked against another gives as many errors as keys of the first whose unit has no result, whose last result failed, or which have none and were last listed at a level up to the tested one |
| TestList.FailedIsLast | userspace/testlist.py:77-88 | no key failed iff no last result of a key failed, duplicates overwritten |
| TestList.RegenAndCheck | userspace/testlist.py:90-214 | regenerate and check return 0 iff the last result of every key did not fail |
| Falcon.AdvanceIs | userspace/units/falcon/falcon_utf.c:62-67 | one access moves the port one word on, keeps both increment flags, and touches the remaining bits only by a carry into a clear bit 16 |
| Falcon.PortBits | userspace/units/falcon/falcon_utf.c:58-67 | masking the control register with & gives the offset and the other bits, and | with the next offset gives the next register value, the carry included |
| Falcon.FlagBits | userspace/units/falcon/falcon_utf.c:58-58 | the & with an increment flag is nonzero iff that bit of the register is set |
| Falcon.RegisterWrite | userspace/units/falcon/falcon_utf.c:84-103 | any other register takes the value; the CPU control register takes its two commands as bits set, and starting clears the mailbox, halting does not |
| Falcon.RegisterRead | userspace/units/falcon/falcon_utf.c:148-161 | reading any other register changes nothing and gives its value; the DMEM control register gives the offset only, or 0 under fault injection |
| Falcon.WithoutIncrement | userspace/units/falcon/falcon_utf.c:54-147 | a data register holds what was last written; without the increment flag no word is stored or fetched and nothing moves |
| Falcon.WriteAllPort | userspace/units/falcon/falcon_utf.c:69-83 | after k writes the port is k words on, with the flags and the other bits accounted for |
| Falcon.WriteAllStores | userspace/units/falcon/falcon_utf.c:54-83 | a stream of writes stores its words one after another, around the end of the port's reach, and every other word is unchanged |
| Falcon.WriteAllSpares | userspace/units/falcon/falcon_utf.c:54-83 | the other memory and all registers but the port's two are unchanged |
| Falcon.ReadAllIs | userspace/units/falcon/falcon_utf.c:118-147 | a stream of reads returns the words of the memory from the port's position on |
| Falcon.StreamRoundTrip | userspace/units/falcon/falcon_utf.c:54-147 | writing k words and reading k back from the same place gives the same words, through either port, from every start |
| Falcon.ControlAfterStream | userspace/units/falcon/falcon_utf.c:148-158 | the control register reads back as the offset plus 4k in 64 KiB; the other bits are kept iff no carry leaves the address or bit 16 was set |
| Falcon.UtfFalcon.Write | userspace/units/falcon/falcon_utf.c:42-104 | the register write with its side effects, on the arrays and with the code's bit operations, is the write of the state function and changes nothing else |
| Falcon.UtfFalcon.Read | userspace/units/falcon/falcon_utf.c:106-162 | the register read, fault injection included, is the read of the state function |

## Left out

- Loading the driver and the modules (`userspace/src/nvgpu.c`, `userspace/src/module.c`): foreign calls. The modules come in any order; no order by priority is claimed.
- Argument parsing, printing, colours, log, JSON and HTML output: I/O. `args.c` rejects only 0 threads; a negative `thread_count` is not modelled.
- The nvtest prints of `core_exec` (`userspace/src/exec.c:237-240`, `266-273`), which read `fw->results` before `main` tests it for NULL.
- Debug mode, where no signal handler is installed, and a failure to install one.
- Signals outside a test function, and what a faulting test leaves behind (its driver instance and fault-injection container are not released).
- Harness.UnitMain: that the handler faults for want of a store is a result of its own; what the system makes of that is not modelled.
- Failures of `pthread_create`, `pthread_join` and the semaphore calls.
- Verdict.SameWorkSameVerdict: modules that share a name whose sections are not free of order are excluded; `SettlesIff` shows that this is needed.
- Exec.RunProtocol: takes each test function to end; a test that hangs keeps its worker, as in the original.
- ExecSpec.AttemptMatches: needs the condition of `NothingLostIff`, without which a record can be lost; `AttemptSane` holds without it.
- ExecRun.RunThreaded: the interleaving is by steps; a record is one step, because the mutex makes it so.
- Results.UnitFw.AddTestRecord: the counters are unbounded, where the original's are C integers.
- RequiredTests.RequiredList.Cancel: the units and tests are sequences, not nodes of the intrusive list of `list.h`, so its pointer updates are not modelled.
- RequiredTests.RequiredList.CheckExecutedTests: test names joined by `cmp_test_name` are taken to fit its 256 bytes; the count is unbounded.
- IniParser.ParseReqFile: a node is allocated whole or not at all, where the original allocates its name separately; `long` has 64 bits; a read error is the end of the file; which characters a locale adds to white space is not modelled.
- Sched.Scheduler.DomainCreate: fewer than 2^32 - 1 domains are live; the timestamp and `priv` are only stored.
- Sched.Scheduler.DomainDestroy: of a domain that is in the list, as its callers must see to; what the original does to the list for any other is in `DomainList.Remove`.
- SchedSpec.RunConsistent: one scheduler used by one thread; the code has no lock of its own.
- `ops`, `ctx_list`, `nvs_log` messages and `nvs_log_event_string`: not used or only printed by the modelled code.
- TestList.RegenAndCheck: reading and writing the two JSON files is left out, and every result is taken to have the fields the harness writes; the warnings for tests that are not required change no result and are left out.
- Falcon.UtfFalcon.Write: setting up and freeing the simulated Falcon, and addresses outside its register space, are left out.
- The other unit tests, the UAPI and trace headers, `rfr_addrbook.py` and `nvgpu_debug_hal.py` are not modelled.
