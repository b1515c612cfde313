# evQueue, modelled and proved in Dafny

This project models the engine of evQueue and proves what its parts are for. Each module follows one source file.

- **Cron schedules** (`Calendar`, `ScheduleLevels`, `Schedule`, `ScheduleEarliest`, `ScheduleParser`, `ScheduleObject`):
  the parser with its check for impossible descriptions, the greedy search with carries, the repair of dates that do
  not exist, and the search for the day of the week, over a proleptic Gregorian calendar. A time is a number of seconds
  of local time at a fixed offset, counted from the start of year 0 (the Unix epoch is day 719528).
- **Queues** (`StableOrder`, `NameOrder`, `Queue`, `QueueRuns`): two disciplines, cancellation, live migration.
- **The queue pool and its forker** (`QueuePoolSpec`, `QueuePool`, `QueuePoolRuns`, `QueuePoolLaws`, `QueuePoolLimits`,
  `QueuePoolSums`, `QueuePoolEnds`, `QueuePoolTraces`, `QueuePoolFaults`): the class over queue objects and the three
  tables of task ids, and the pool with one forker and any other threads as a state machine, from the constructed pool on. `QueuePoolSpec` is
  what the methods of the class compute and what the steps of the runs are made of. The forker dequeues a task, gives it
  an id, and then starts it or, if that fails, as it does for a task of a cancelled instance, ends its id. Tasks that run
  without an id are part of the state.
- **The event scheduler** (`Scheduler`, `SchedulerRuns`): the linked list on the heap, and its worker thread.
- **The workflow scheduler** (`WorkflowPlaces`, `WorkflowScheduler`, `WorkflowStops`): parallel arrays and a list of
  alarms, standing for a map from each active schedule to the one place where it is; and the instances of schedules that
  run on the node, whether started, resumed or migrated.
- **SHA-1** (`Sha1Spec`, `Sha1Laws`, `Sha1`): sections 4.1.1, 5.1.1, 6.1.2 and 6.1.3 of FIPS 180-4, laws of them in other
  forms, and the streaming code against them.
- **The election of a cluster node** (`Election`, `UniqueAction`): insert, select and delete as separate steps of any
  number of nodes, with the collector of old rows.
- **Codecs and framing** (`Decimal`, `Base64`, `DataSerializer`, `DataRoundTrips`, `DataPrefixes`, `TaskMessage`,
  `AgentMux`).

Methods that change state are classes here as they are there. Their contracts tie the new state to a function of the
old one, and the lemmas are about that function, over whole runs where a run is the point. What an operation does is also
told on the fields of the state, apart from the functions that compute it.

## What turned out false

Each is kept as the code has it, with the exact condition under which the code does what it is meant to do.

- The next time of a schedule is not always the earliest one. It is, if and only if no selected late day is carried from
  the end of February over a selected day at the start of March, and no time early in the minute after midnight is
  jumped by a kept second (`ScheduleEarliest.EarliestExactly`).
- The forker can be told that there is nothing to dequeue, and end, without a shutdown, because the wait is not repeated.
  In runs without reloads and spurious wake-ups it cannot, if and only if no queue is dynamic with a valid host name for
  which there is no queue yet (`QueuePoolFaults.EndsOnlyByShutdownExactly`). A reload of the same definitions ends it in
  any pool with a queue (`QueuePoolFaults.ReloadEndsForker`), and a spurious wake-up in any pool
  (`QueuePoolFaults.SpuriousWakeEndsForker`).
- The forker starts a task whether it got an id or not, and one without an id is counted nowhere. A task gets one if and
  only if its queue is still there and an id is free (`QueuePoolLimits.ExecuteRegistersExactly`). Call it a run that keeps
  the queues if it has no reload, no resumed task and no new host queue. In all such runs every task gets an id, if and
  only if the limits together are below `maxpid`; and under the same condition no queue ever runs more tasks than its
  limit (`QueuePoolFaults.RegistersExactly`, `LimitsHoldExactly`). If they are greater, any number of tasks of some queue
  can run at once (`IdsRunOut`). If they are equal, a cancelled task that finds no id is enough: the forker ends the id 0
  for it, and the task that has this id runs on uncounted (`WrongTaskEnds`, `GreatLimitsBreak`). Whatever `maxpid`, any
  number of tasks can run at once when a host queue with a limit of two or more goes while the forker holds its last task
  (`HostQueueRunsOver`).
- A cancelled task takes a queue above its limit in some run if and only if the limit is below `maxpid`; then by one, and
  only until the forker ends it (`QueuePoolFaults.CancelledPassLimitExactly`, `QueuePoolSums.RunKeepsWithin`). A reload
  can lower a limit below what runs (`QueuePoolFaults.ReloadPassesLimit`).
- Queues are deleted without a look at their cancelled tasks; tasks are dropped exactly then
  (`QueuePoolEnds.DropsOnlyCancelled`).
- The worker of the event scheduler oversleeps by the time between its two looks at the clock, and the part of a second
  that the first of them drops (`SchedulerRuns.SleeperDeadline`).
- An active schedule can be without an alarm and without an instance: because a reload did not know its workflow, because
  an instance failed, or because an instance died before it had its workflow and reported no stop
  (`WorkflowPlaces.IdleExactly` says exactly when, `StuckUntilReload` for how long).
- The stop of an instance can find its schedule active but not running, and the source then reads a null pointer; or
  running another instance, which is left without its slot. No state of a run is open to that if and only if no reload
  brings in a schedule of which an instance runs, and no instance of an active schedule joins, by being resumed or
  migrated, that the schedule is not marked as running (`WorkflowStops.StopsSafeExactly`). There is a run for each cause
  (`RestoredEnds`, `MigratedEnds`, `ResumedEndsAtOnce`, `ResumedWithoutRow`).
- Two elections of one name can overlap if the collector's retention is shorter than the period, or there is no period
  (`Election.SeparateExactly`), and a slow loser can leave a name without a winner
  (`Election.LoserBlocks`); with no attempt under way, a check loses exactly to a winner (`Election.LosesToWinner`).
- The encoder of base64 leaks bytes of its buffer into the unused bits of the last group (`Base64.StandardExactly`).

## Model

| member | source | states |
|---|---|---|
| `Calendar.LocalTime` | src/Schedule/Schedule.cpp:149-154 | the broken-down form of a time is valid and is the one whose `mktime` is that time |
| `Calendar.LocalTimeUnique` | src/Schedule/Schedule.cpp:206 | `mktime` and `localtime_r` are inverse on valid broken-down times, so a time has one such form |
| `Calendar.YearWithWeekDay` | src/Schedule/Schedule.cpp:214 | from any multiple of 400 years on, there is a year, leap or not as wanted, in which a given date, 29 February included, falls on a given day of the week |
| `Calendar.Epoch` | src/Schedule/Schedule.cpp:151 | the clock of the calendar is that of the system: the Unix epoch is the start of Thursday, 1 January 1970 |
| `ScheduleLevels.NextLevelsValid` | src/Schedule/Schedule.cpp:169-177 | the loop over the higher levels finds whether all their present values are selected |
| `ScheduleLevels.SearchLevel` | src/Schedule/Schedule.cpp:179-194 | the loop around one level finds the first selected value from a start on, or else the least selected one, and in that case it lies before the start |
| `ScheduleLevels.FirstDigits` | src/Schedule/Schedule.cpp:156-195 | the loop over the levels with its carry computes the recursive specification `First` and `Carry` |
| `ScheduleLevels.FirstIsLeast` | src/Schedule/Schedule.cpp:156-195 | for every selection without an empty level and every present time in range, the values found, with the carry as the year, are the lexicographically least selected tuple not before the present one |
| `Schedule.CandidateIsLeast` | src/Schedule/Schedule.cpp:156-206 | the broken-down time built from the values is not before the present and least among all selected ones, whatever the date is worth |
| `Schedule.OverflowIsNormal` | src/Schedule/Schedule.cpp:206-211 | when the day does not exist in its month, `mktime` gives the day as far into the following month |
| `Schedule.FoundIsEarliest` | src/Schedule/Schedule.cpp:208-226 | a time found without a further search matches all six levels and is the earliest such time |
| `Schedule.RetryIsLater` | src/Schedule/Schedule.cpp:208-223 | a search that goes on, goes on from a later time |
| `Schedule.RetryPasses` | src/Schedule/Schedule.cpp:208-223 | a matching time that a step jumps lies early in the month after a date that does not exist, or in the first minute after a day of the wrong weekday before the second that was kept |
| `Schedule.RetryKeepsTarget` | src/Schedule/Schedule.cpp:208-223 | no step jumps a time at the last selected second of the day and of no such early date |
| `Schedule.SafeTargetExists` | src/Schedule/Schedule.cpp:140-227 | every accepted schedule has such a time after any other, 29 February with any weekday included, so the recursion ends |
| `Schedule.NextTimeStep` | src/Schedule/Schedule.cpp:140-227 | the next time is what the recursion of the code defines: what is found, or the next time from where it goes on |
| `Schedule.NextTimeMatches` | src/Schedule/Schedule.cpp:140-227 | for every accepted schedule the recursion ends, and its result is not before the start and matches all six levels |
| `ScheduleEarliest.MarchIsPassed` | src/Schedule/Schedule.cpp:208-212 | a late day in February with an early day in March makes some search miss a time: 1 or 2 March |
| `ScheduleEarliest.MidnightIsPassed` | src/Schedule/Schedule.cpp:214-223 | two selected seconds, midnight, and a wrong weekday before a right one make some search miss a time |
| `ScheduleEarliest.EarliestExactly` | src/Schedule/Schedule.cpp:140-227 | an accepted schedule always yields the earliest matching time if and only if it has neither of the two constellations |
| `ScheduleEarliest.EarliestForOneSecond` | src/Schedule/Schedule.cpp:140-227 | it does so if one second is selected and, when February is, day 30 or 31 is not combined with day 1 or 2 |
| `ScheduleParser.TextFacts` | src/Schedule/Schedule.cpp:37-83 | a text that parses selects something on every level, and the least day is kept right |
| `ScheduleParser.SeemsPossibleIsHasDate` | src/Schedule/Schedule.cpp:85-89 | the check of the code with its table offsets holds exactly if some selected month has some selected day |
| `ScheduleParser.HasDateIsSatisfiable` | src/Schedule/Schedule.cpp:85-89 | such a date exists exactly if there is a time that matches all six levels, weekday included |
| `ScheduleParser.ImpossibleExactly` | src/Schedule/Schedule.cpp:30-90 | among texts that parse, exactly those are refused as impossible that no time satisfies |
| `ScheduleParser.ReadBack` | src/Schedule/Schedule.cpp:43-83 | six lists of integers, written, with an optional rest behind a semicolon: refused as out of range if and only if some value is, negative ones included; otherwise as garbage if and only if something follows the semicolon; otherwise read back as those lists, an empty list as the whole level |
| `ScheduleParser.RefuseLetter` | src/Schedule/Schedule.cpp:51-58 | a text that begins with neither a number nor the end of a level is refused as not numeric |
| `ScheduleObject.CronSchedule.Construct` | src/Schedule/Schedule.cpp:30-90 | the constructor with its loops and pointers does to the array what the parsing function says, error by error |
| `ScheduleObject.CronSchedule.ConstructLevel` | src/Schedule/Schedule.cpp:48-77 | the loop over the values of a level, and the level that is full because nothing is given |
| `ScheduleObject.CronSchedule.ConstructValue` | src/Schedule/Schedule.cpp:51-69 | one value: not a number, out of range, or marked, with the least day and the comma behind it |
| `ScheduleObject.CronSchedule.NextTimeFrom` | src/Schedule/Schedule.cpp:140-227 | the recursive method computes the next time of the specification |
| `ScheduleObject.CronSchedule.GetNextTime` | src/Schedule/Schedule.cpp:128-138 | the next time is later than now and matches, so the guard against the past never acts |
| `ScheduleObject.NormalisedDate` | src/Schedule/Schedule.cpp:206-211 | `mktime` leaves a date as it is exactly if it exists, and otherwise changes the month |
| `Sha1Spec.ZeroCountIsLeast` | src/Crypto/sha1.c:94-112 | the number of zeros in the padding of section 5.1.1 of FIPS 180-4 is the least that fills a block |
| `Sha1Spec.HashBlocksAppend` | src/Crypto/sha1.c:330-426 | hashing blocks one after the other is hashing their concatenation |
| `Sha1Laws.RotatesByOne` | src/Crypto/sha1.c:317-328 | a rotation by one on numbers: the double modulo two to the 32, plus the bit carried out |
| `Sha1Laws.RotatesByFive` | src/Crypto/sha1.c:317-328 | a rotation by five on numbers |
| `Sha1Laws.RotatesByThirty` | src/Crypto/sha1.c:317-328 | a rotation by thirty on numbers |
| `Sha1Laws.RoundConstantIsRoot` | src/Crypto/sha1.c:281-285 | each round constant is the whole part of a square root, of 2, 3, 5 or 10, in units of two to the minus thirty |
| `Sha1Laws.InitialCounts` | src/Crypto/sha1.c:57-64 | the initial hash value, byte by byte |
| `Sha1Laws.ChWhereOne` | src/Crypto/sha1.c:288 | the first logical function has the bits of its second argument where the first has ones |
| `Sha1Laws.ChWhereZero` | src/Crypto/sha1.c:288 | and those of the third elsewhere |
| `Sha1Laws.MajWhereEqual` | src/Crypto/sha1.c:290 | the third logical function has the bits in which its first two arguments agree |
| `Sha1Laws.MajSymmetric` | src/Crypto/sha1.c:290 | and depends on its arguments in any order alike |
| `Sha1Laws.ScheduleByTwo` | src/Crypto/sha1.c:319-321 | from word 32 on, each word of the schedule also comes of those twice as far back, rotated by two |
| `Sha1Laws.RoundsRecur` | src/Crypto/sha1.c:323-416 | the rounds are one recurrence, of the first working variable on its last five values, with the logical function of each twenty rounds |
| `Sha1Laws.TemporaryIs` | src/Crypto/sha1.c:323-328 | what a round adds up: the five terms, modulo two to the 32 |
| `Sha1Laws.BytesOfWord` | src/Crypto/sha1.c:73-92 | a word and its four bytes, the most significant first, determine each other |
| `Sha1Laws.PadForm` | src/Crypto/sha1.c:94-112 | a padded message is the message, the byte 0x80, fewer than 64 zeros, and the length in bits with its more significant word first |
| `Sha1Laws.DigestForm` | src/Crypto/sha1.c:73-92 | the digest holds the five words of the hash value in their order, each most significant byte first |
| `Sha1.SwapAfterLoad` | src/Crypto/sha1.c:334-338 | a swapped little-endian word is the big-endian word of its bytes |
| `Sha1.SwapBeforeStore` | src/Crypto/sha1.c:73-92 | a word swapped and stored little-endian gives its bytes in big-endian order |
| `Sha1.F1IsCh` | src/Crypto/sha1.c:288 | the first round function is Ch of section 4.1.1 |
| `Sha1.F3IsMaj` | src/Crypto/sha1.c:290 | the third round function is Maj of section 4.1.1 |
| `Sha1.FIsFt` | src/Crypto/sha1.c:288-291 | the functions are those of their rounds |
| `Sha1.StepIsRound` | src/Crypto/sha1.c:323-328 | one step with renamed registers is one round of section 6.1.2 |
| `Sha1.NextWord` | src/Crypto/sha1.c:319-321 | the circular array of sixteen words, updated in place, yields the word of the full schedule (section 6.1.3) |
| `Sha1.R` | src/Crypto/sha1.c:323-328 | one round over the circular array gives the registers of the specification, one place further |
| `Sha1.EightyRounds` | src/Crypto/sha1.c:332-419 | the unrolled rounds are the eighty rounds of section 6.1.2 |
| `Sha1.Context.ProcessBlock` | src/Crypto/sha1.c:298-427 | any number of blocks: what has been hashed is extended by exactly the data, and the count by its length as the code adds it |
| `Sha1.Context.Count` | src/Crypto/sha1.c:313-315 | the addition to the two words of the count |
| `Sha1.CountAddExact` | src/Crypto/sha1.c:310-315 | the addition is exact modulo two to the 64 if and only if no more than one is to be carried |
| `Sha1.Context.ProcessBytes` | src/Crypto/sha1.c:213-277 | the message is extended by exactly the data, for any length and either path; the count stays right below two to the 32 bytes, or on the unaligned path |
| `Sha1.Context.FillBuffer` | src/Crypto/sha1.c:217-238 | the buffer is filled up to 128 bytes and flushed when it holds more than 64; a rest is left only with an empty buffer |
| `Sha1.Context.WholeBlocks` | src/Crypto/sha1.c:241-260 | whole blocks are hashed; the unaligned path may leave a block over |
| `Sha1.Context.KeepRest` | src/Crypto/sha1.c:263-276 | the rest is kept, with the case of 64 bytes or more |
| `Sha1.LengthWords` | src/Crypto/sha1.c:109-110 | the two words written at the end are the length in bits of section 5.1.1 |
| `Sha1.LastBlocksArePadding` | src/Crypto/sha1.c:100-112 | what is written behind the kept bytes, in one block or two, also with 64 bytes kept, is the padding of section 5.1.1 |
| `Sha1.Context.PadBuffer` | src/Crypto/sha1.c:99-112 | the buffer holds the last blocks of the padded message |
| `Sha1.Context.Finish` | src/Crypto/sha1.c:97-118 | the digest is that of the standard for the whole message |
| `Sha1.Context.ReadDigest` | src/Crypto/sha1.c:82-92 | the registers in the order of bytes of the standard |
| `Sha1.DigestOfPieces` | src/Crypto/sha1.c:198-210 | for any split of a message into pieces, the digest is that of the concatenation |
| `StableOrder.InsertAllIsStableSort` | src/Queue/Queue.cpp:224-225 | insertion one by one into a multimap is a stable sort |
| `StableOrder.StableSortUnique` | src/Queue/Queue.cpp:224-225 | there is only one stable sort |
| `NameOrder.NameLeqExactly` | src/Queue/QueuePool.cpp:175-190 | queues are walked in the order of their names: one is before another if it is a front of it, or has the smaller character where they first differ |
| `Queue.Queue.EnqueueTask` | src/Queue/Queue.cpp:93-103 | the new state is the old one with the task behind all, or behind those of its instance and lower ones |
| `Queue.Queue.DequeueTask` | src/Queue/Queue.cpp:105-145 | the first cancelled task leaves; if there is none, the first waiting one, if fewer tasks run than may; otherwise the queue is unchanged |
| `Queue.Queue.TakeInstance` | src/Queue/Queue.cpp:160-194 | the walk with erasure splits the tasks into those of the instance and the others, in order |
| `Queue.Queue.CancelTasks` | src/Queue/Queue.cpp:160-194 | the tasks of the instance move behind the cancelled ones, the others stay, in order, and the size is right |
| `Queue.Queue.SetScheduler` | src/Queue/Queue.cpp:208-230 | the move to the other container, task by task |
| `QueueRuns.RunKeepsOrder` | src/Queue/Queue.cpp:93-230 | over every run, the tasks of each instance that left, are cancelled, and wait, in this order, are those that entered, in the order in which they entered |
| `QueueRuns.RunConserves` | src/Queue/Queue.cpp:93-230 | over every run, entered equals left, cancelled and waiting together, as multisets |
| `QueueRuns.RunServesAsCome` | src/Queue/Queue.cpp:93-145 | over every run of a first-come queue, the tasks of instances that nobody cancels leave in the order in which they came, whatever instances they are of |
| `QueueRuns.LowestLeaves` | src/Queue/Queue.cpp:105-145 | with priorities, and no cancelled tasks, a task of the lowest instance leaves |
| `QueueRuns.EnqueuePlaces` | src/Queue/Queue.cpp:93-103 | a task goes behind all, or behind exactly those of its instance and lower ones, and no other moves |
| `QueueRuns.CancelExactly` | src/Queue/Queue.cpp:160-194 | exactly the tasks of the instance leave the waiting ones, and go behind those cancelled before |
| `QueueRuns.MigrateCommutes` | src/Queue/Queue.cpp:208-230 | migrating to priorities after any number of tasks, or before them, gives the same queue |
| `QueueRuns.MigrateSorts` | src/Queue/Queue.cpp:222-227 | the migrated queue is the one stable sort of the tasks by instance |
| `QueueRuns.MigrateBack` | src/Queue/Queue.cpp:208-230 | migrating a queue by priorities to first-come and back changes nothing |
| `QueuePool.QueuePool.constructor` | src/Queue/QueuePool.cpp:54-99 | an empty pool with all ids free, into which the definitions are read: the state from which the runs start |
| `QueuePool.QueuePool.EnqueueTask` | src/Queue/QueuePool.cpp:114-146 | the new state of the specification, host queues included; a wake-up exactly if the forker waits and may fork |
| `QueuePool.QueuePool.BeginDequeue` | src/Queue/QueuePool.cpp:148-165 | the code before the wait |
| `QueuePool.QueuePool.FinishDequeue` | src/Queue/QueuePool.cpp:165-191 | the code behind the wait: fails on shutdown or if all queues are locked; otherwise the next task of the first unlocked queue in the order of names |
| `QueuePool.QueuePool.AskQueues` | src/Queue/QueuePool.cpp:175-190 | the walk over the queues finds the first unlocked one, and changes no other |
| `QueuePool.QueuePool.AllocateId` | src/Queue/QueuePool.cpp:202-216 | the search around the table computes the specification of the allocation |
| `QueuePool.QueuePool.ExecuteTask` | src/Queue/QueuePool.cpp:193-231 | the new state of the specification, with a new id or a given one |
| `QueuePool.QueuePool.TerminateTask` | src/Queue/QueuePool.cpp:233-269 | an unknown id is not found; otherwise the id is freed, the queue counts down, and goes if it is marked and idle |
| `QueuePool.QueuePool.CancelTasks` | src/Queue/QueuePool.cpp:287-300 | the cancellation in every queue |
| `QueuePool.QueuePool.Reload` | src/Queue/QueuePool.cpp:302-357 | idle queues go, others are marked, definitions are applied one by one; what that comes to is `QueuePoolLaws.ReloadExactly` |
| `QueuePoolLaws.ReloadExactly` | src/Queue/QueuePool.cpp:302-357 | with distinct names: each definition has a queue, unmarked, with its concurrency and discipline; one that was not idle keeps its cancelled tasks, its running count and its dynamic flag, and its waiting tasks as they were, or as their stable sort by instance if it turned to priorities; any other queue is there if and only if it was not idle, marked and otherwise unchanged |
| `QueuePoolLaws.ReloadRest` | src/Queue/QueuePool.cpp:302-357 | a reload changes nothing else, and the flag tells whether a task can leave some queue |
| `QueuePoolLaws.RunSentTo` | src/Queue/QueuePool.cpp:114-146 | over every run, a task waits, is cancelled, or is held for a queue only if it was sent there before: by its name, or by that of a dynamic queue and a host |
| `QueuePoolLaws.RefusedExactly` | src/Queue/QueuePool.cpp:114-146 | a task is refused exactly for a name without a queue, or a new host queue whose name is longer than 64 characters or has another than the allowed ones |
| `QueuePoolLaws.EnqueueExactly` | src/Queue/QueuePool.cpp:114-146 | a task that is not refused goes to the queue of the name, or of the name and the host, which is made after the queue of the name if it is not there, marked to go; all other queues stay |
| `QueuePoolLaws.DequeueExactly` | src/Queue/QueuePool.cpp:165-191 | the forker gets the first cancelled or else the first waiting task of the first queue by name that has one to give; all other queues stay |
| `QueuePoolLaws.AllocatesNext` | src/Queue/QueuePool.cpp:202-216 | the id that is allocated is the first free one behind the last, counted around |
| `QueuePool.QueuePool.IsLocked` | src/Queue/QueuePool.cpp:359-366 | the loop finds whether all queues are locked |
| `QueuePool.QueuePool.Shutdown` | src/Queue/QueuePool.cpp:368-376 | the flag, and a wake-up if the forker waits |
| `QueuePool.RunsAgree` | src/Queue/QueuePool.cpp:193-269 | in every state in which the tables agree, as in all runs, the methods may be called: running counts and ids are consistent |
| `QueuePoolRuns.RunKeepsInv` | src/Queue/QueuePool.cpp:114-376 | over every run: each queue counts exactly the ids that point to it, no id points to a queue that is gone, the flag tells whether some queue is not locked, and a forker that waits with no wake-up on its way has all queues locked and no shutdown to see |
| `QueuePoolTraces.FreshPool` | src/Queue/QueuePool.cpp:54-99 | all that holds of the pool before its first reload and after it, with every queue unused and unmarked |
| `QueuePoolTraces.FreshLimited` | src/Queue/QueuePool.cpp:54-99 | the constructed pool is within its limits, if these are at least one, as they are created |
| `QueuePoolRuns.TablesAfterTerminate` | src/Queue/QueuePool.cpp:233-260 | ending a task keeps the tables in agreement, also when it deletes the queue |
| `QueuePoolRuns.TablesAfterMark` | src/Queue/QueuePool.cpp:310-324 | deleting the idle queues leaves no id without its queue |
| `QueuePoolLimits.RunKeepsLimit` | src/Process/ProcessManager.cpp:122-147 | over every run without reloads in which each task gets an id, none runs without one, and the tasks of a queue that run and did not leave it as cancelled ones never exceed its concurrency, or the number of tasks that were resumed in it if that is greater |
| `QueuePoolFaults.LimitFromStart` | src/Process/ProcessManager.cpp:122-147 | the same for the runs from the constructed pool |
| `QueuePoolSums.RunKeepsWithin` | src/WorkflowInstance/job_task.cpp:206-263 | over every run that keeps the queues and in which each task gets an id, a queue counts no more tasks than its concurrency, or one more, and that only while the forker is at a cancelled task of it, whose id it is to end |
| `QueuePoolSums.RunRegisters` | src/Queue/QueuePool.cpp:193-231 | over every run that keeps the queues, each task gets an id if the limits together are below `maxpid` |
| `QueuePoolFaults.RegistersExactly` | src/Queue/QueuePool.cpp:193-231 | in all runs from the constructed pool that keep the queues every task gets an id, if and only if the limits together are below `maxpid` |
| `QueuePoolFaults.LimitsHoldExactly` | src/Process/ProcessManager.cpp:122-147 | in all those runs no more tasks of a queue run at once, counted or not, than its concurrency, those cancelled aside, if and only if the limits together are below `maxpid` |
| `QueuePoolFaults.WrongTaskEnds` | src/Process/ProcessManager.cpp:137-143 | with all ids taken and each queue at its limit, a cancelled task gets none; the forker ends the id 0 for it, and so another task in its place, which runs on uncounted while a further one of its queue starts |
| `QueuePoolFaults.GreatLimitsBreak` | src/Process/ProcessManager.cpp:122-147 | if the limits together are at least `maxpid`, there is a run from the constructed pool that passes one of them |
| `QueuePoolFaults.IdsRunOut` | src/Process/ProcessManager.cpp:133-135 | if the limits together are greater than `maxpid`, tasks that nobody cancels take all ids in a run from the constructed pool, and any number of tasks of some queue run at once |
| `QueuePoolFaults.HostQueueRunsOver` | src/Process/ProcessManager.cpp:133-135 | the run from the constructed pool in which any number of tasks of a host queue run at once, as the queue goes again and again while the forker holds its last task |
| `QueuePoolFaults.ReloadPassesLimit` | src/Queue/QueuePool.cpp:302-357 | the run in which a reload lowers a limit below the tasks that run |
| `QueuePoolFaults.CancelledPassLimitExactly` | src/WorkflowInstance/start_stop.cpp:216-224 | some run from the constructed pool that keeps the queues, with an id for every task, takes a queue above its limit if and only if the limit is below `maxpid`; it is by exactly one then, while the forker is at a cancelled task of the queue |
| `QueuePoolLimits.AllocationExactly` | src/Queue/QueuePool.cpp:202-216 | an id that is allocated was free, and the allocation fails if and only if all ids below `maxpid` are taken |
| `QueuePoolLimits.ExecuteRegistersExactly` | src/Queue/QueuePool.cpp:193-231 | the held task gets an id if its queue is still there and some id is free, and otherwise runs without one |
| `QueuePoolLimits.ResumeExactly` | src/Queue/QueuePool.cpp:202-222 | a given id keeps the tables in agreement if and only if it was free |
| `QueuePoolEnds.NoWaitReturnsTask` | src/Queue/QueuePool.cpp:148-191 | a dequeue that need not wait returns a task, of the first unlocked queue in the order of names |
| `QueuePoolFaults.WokenForNothing` | src/Queue/QueuePool.cpp:161-190 | the run from the constructed pool in which, while a task of a host queue runs, the forker is woken for a second one that is cancelled and goes with the queue, and ends without a shutdown |
| `QueuePoolFaults.EndsOnlyByShutdownExactly` | src/Queue/QueuePool.cpp:148-191 | in all runs from the constructed pool without reloads and spurious wake-ups the forker ends only on shutdown, if and only if no queue is dynamic with a valid host name that has no queue yet |
| `QueuePoolFaults.ReloadEndsForker` | src/Queue/QueuePool.cpp:302-357 | the run in which a reload of the same definitions drops a cancelled task and ends the forker |
| `QueuePoolFaults.SpuriousWakeEndsForker` | src/Queue/QueuePool.cpp:161-165 | the run in which a spurious wake-up ends the forker |
| `QueuePoolEnds.EndsOnlyOnShutdown` | src/Queue/QueuePool.cpp:148-191 | over every run without reloads and spurious wake-ups, from queues that are not marked and none of which would get a host queue, the forker ends only on shutdown |
| `QueuePoolFaults.HeldTaskLosesQueue` | src/Queue/QueuePool.cpp:253-260 | the run from the constructed pool in which the end of another task deletes a marked queue whose last waiting task the forker holds, and that task runs under no id |
| `QueuePoolEnds.DropsOnlyCancelled` | src/Queue/QueuePool.cpp:254-260 | a queue that is deleted has no waiting task; tasks are dropped exactly if it has cancelled ones |
| `QueuePoolEnds.StepAccounts` | src/Queue/QueuePool.cpp:114-357 | for every step: in the queues after, taken by the forker, and dropped, is in the queues before, and entered |
| `QueuePoolEnds.RunAccounts` | src/Queue/QueuePool.cpp:114-357 | the same over every run, as multisets of tasks |
| `Scheduler.Scheduler.InsertEvent` | src/Schedule/Scheduler.cpp:61-100 | the chain on the heap stays acyclic and becomes the old one with the event behind all that are not later; the worker is started for a first event and woken for an earlier one |
| `Scheduler.Scheduler.FindPlace` | src/Schedule/Scheduler.cpp:88-91 | the walk stops at the last event that is not later |
| `Scheduler.Scheduler.LinkBehind` | src/Schedule/Scheduler.cpp:92-93 | the links of an insertion inside the list |
| `Scheduler.Scheduler.Unlink` | src/Schedule/Scheduler.cpp:124-125 | the links of a removal, at the start or inside |
| `Scheduler.Scheduler.Flush` | src/Schedule/Scheduler.cpp:102-139 | exactly the matching events go, the others keep their order and the length is right; a wake-up exactly if the first event went |
| `Scheduler.Scheduler.RemoveMatching` | src/Schedule/Scheduler.cpp:114-133 | the walk with its pointer to a pointer |
| `Scheduler.Scheduler.ShiftEvent` | src/Schedule/Scheduler.cpp:224-239 | the first event if it is due |
| `Scheduler.Scheduler.Drain` | src/Schedule/Scheduler.cpp:171-174 | repeated to the end: exactly the events that are due, in order, and the others stay |
| `Scheduler.Scheduler.Shutdown` | src/Schedule/Scheduler.cpp:141-149 | the flag, and a wake-up if there are events |
| `SchedulerRuns.StepKeepsInv` | src/Schedule/Scheduler.cpp:61-217 | what every step of any thread keeps |
| `SchedulerRuns.EventsHaveWorker` | src/Schedule/Scheduler.cpp:61-217 | over all interleavings, a list that is not empty has a worker, unless a shutdown ended it |
| `SchedulerRuns.SleeperDeadline` | src/Schedule/Scheduler.cpp:169-196 | a worker asleep with no wake-up on its way has its deadline at the first event plus the time between its two looks at the clock plus the part of a second that the first look dropped; so it is no later than every event if and only if both looks were at one instant, and that a whole second |
| `SchedulerRuns.TakenWhenDue` | src/Schedule/Scheduler.cpp:224-239 | over all interleavings, the worker takes only the first event, and only when its time has come; when it takes none, none was due at its look at the clock |
| `SchedulerRuns.InsertInRun` | src/Schedule/Scheduler.cpp:61-100 | an insertion into the object in a state of a run is the step of the run |
| `SchedulerRuns.FlushInRun` | src/Schedule/Scheduler.cpp:102-139 | so is a flush |
| `SchedulerRuns.ShiftInRun` | src/Schedule/Scheduler.cpp:224-239 | so is taking a due event |
| `SchedulerRuns.ShutdownInRun` | src/Schedule/Scheduler.cpp:141-149 | so is a shutdown |
| `SchedulerRuns.InsertTimes` | src/Schedule/Scheduler.cpp:61-100 | an insertion into the list of the object is the insertion of the runs |
| `SchedulerRuns.FlushTimes` | src/Schedule/Scheduler.cpp:102-139 | a flush of the list of the object is the flush of the runs |
| `WorkflowScheduler.Lookup` | src/Schedule/WorkflowScheduler.cpp:413-433 | on ascending ids the binary search gives the place of the id, and -1 exactly if it is not there |
| `WorkflowScheduler.WorkflowScheduler.constructor` | src/Schedule/WorkflowScheduler.cpp:59-65 | arrays for the active schedules, and nothing placed yet |
| `WorkflowScheduler.WorkflowScheduler.Init` | src/Schedule/WorkflowScheduler.cpp:389-411 | new arrays with one free slot for each active schedule |
| `WorkflowScheduler.WorkflowScheduler.ScheduleWorkflow` | src/Schedule/WorkflowScheduler.cpp:118-147 | the schedule gets an alarm or a slot, a schedule with an instance that is not active nothing; one without a known workflow is an exception and gets nothing; arrays and list stay consistent |
| `WorkflowScheduler.WorkflowScheduler.ScheduledWorkflowInstanceStop` | src/Schedule/WorkflowScheduler.cpp:149-174 | an unknown schedule is ignored; a running one is scheduled again or suspended |
| `WorkflowScheduler.WorkflowScheduler.EventRemoved` | src/Schedule/WorkflowScheduler.cpp:176-272 | the earliest pending schedule is pending at its next time if its node is "any" and this node is not elected or it runs elsewhere, or if the start is refused; otherwise it is running the started instance, or nothing if the instance died before it had its workflow |
| `WorkflowScheduler.WorkflowScheduler.StartInstance` | src/Schedule/WorkflowScheduler.cpp:230-265 | the slot is filled first, and a constructor that fails with or without the workflow text ends in its own place |
| `WorkflowScheduler.WorkflowScheduler.Reload` | src/Schedule/WorkflowScheduler.cpp:274-316 | afterwards exactly the schedules of the new list have an entry, running ones under the instance they had, all others pending, or nowhere if their workflow is not known |
| `WorkflowScheduler.WorkflowScheduler.LoadState` | src/Schedule/WorkflowScheduler.cpp:100-115 | the rows of the start place each active schedule, except those whose workflow is not known |
| `WorkflowPlaces.ExactlyOnePlace` | src/Schedule/WorkflowScheduler.cpp:118-174 | the events and the slot in use of an active schedule are together exactly one if it is pending or running, and none otherwise |
| `WorkflowPlaces.RunKeepsPlaces` | src/Schedule/WorkflowScheduler.cpp:149-316 | over every run from placed schedules, those with an entry are those of the last reload, and each is pending or running an instance, unless it is idle for one of three reasons |
| `WorkflowPlaces.IdleExactly` | src/Schedule/WorkflowScheduler.cpp:149-316 | over every run: without a place if and only if the last reload did not know the workflow and carried no instance over; suspended if and only if an instance failed since; marked as running nothing if and only if an alarm has since gone on to an instance that died without its workflow, and no stop has come |
| `WorkflowPlaces.RunningSince` | src/Schedule/WorkflowScheduler.cpp:176-316 | over every run, through all reloads: a schedule that is marked as running has been so with the same instance since an alarm of it, and on node "any" that alarm came while the node was elected and the schedule ran nowhere else |
| `WorkflowPlaces.SkippedWhereNotElected` | src/Schedule/WorkflowScheduler.cpp:197-226 | over every run, an alarm marks its schedule as running if and only if the start is not refused and, on node "any", the node is elected and the schedule runs nowhere else; otherwise it is pending at its next time |
| `WorkflowPlaces.RunningUntilStopped` | src/Schedule/WorkflowScheduler.cpp:274-316 | over every run an instance keeps its schedule marked as running under its own id until it stops, through all reloads that keep the schedule, and the schedule does not ring meanwhile |
| `WorkflowPlaces.StuckUntilReload` | src/WorkflowInstance/WorkflowInstance.cpp:262-288 | over every run, a schedule marked as running nothing stays so and does not ring, until a reload, or a stop for it |
| `WorkflowStops.StopsSafeExactly` | src/Schedule/WorkflowScheduler.cpp:149-174 | over every run of scheduler and instances from the constructed scheduler, in every state a stop finds its schedule gone or marked as running that very instance, if and only if no reload brings in a schedule of which an instance runs, and no instance of an active schedule joins that the schedule is not marked as running |
| `WorkflowStops.RunKeepsOwnEntries` | src/Schedule/WorkflowScheduler.cpp:274-316 | until a step does one of these, every running instance of an active schedule is the one that its entry names |
| `WorkflowStops.GoneBefore` | src/Schedule/WorkflowScheduler.cpp:149-158 | over every run, an instance whose schedule is not active has run under it ever since a reload dropped the schedule, or since it joined when the schedule was not active |
| `WorkflowStops.StopIsFatal` | src/Schedule/WorkflowScheduler.cpp:155-160 | if the schedule is active and not running, no state follows the stop |
| `WorkflowStops.StopFreesOther` | src/Schedule/WorkflowScheduler.cpp:149-174 | if it is running another instance, that one is left without the entry |
| `WorkflowStops.LoadHealsExactly` | src/Schedule/WorkflowScheduler.cpp:100-115 | the load of the schedules at the start gives each running instance its own entry if and only if the database names it for its schedule |
| `WorkflowStops.ResumedEndsAtOnce` | src/evqueue.cpp:284-287 | the run in which an instance is resumed and ends before the schedules are loaded |
| `WorkflowStops.ResumedWithoutRow` | src/WorkflowInstance/WorkflowInstances.cpp:69-95 | the run in which the row of an instance is gone after it is resumed, so that its schedule is pending beside it |
| `WorkflowStops.MigratedEnds` | src/WorkflowInstance/WorkflowInstanceAPI.cpp:233-262 | the run in which an instance is migrated to a node on which its schedule is pending |
| `WorkflowStops.RestoredEnds` | src/Schedule/WorkflowScheduler.cpp:274-316 | the run in which a schedule is dropped while its instance runs, and comes back |
| `Election.StepKeepsInv` | src/Cluster/UniqueAction.cpp:32-62 | what every step of any node, of the clock and of the collector keeps |
| `Election.WinnersApart` | src/Cluster/UniqueAction.cpp:32-62 | over every interleaving, the younger of two winners checked no sooner than the older one's row time plus the period, or plus the retention if that is shorter or there is no period |
| `Election.FirstWins` | src/Cluster/UniqueAction.cpp:44-52 | over every interleaving, the first row of a name never loses |
| `Election.OneWinnerEver` | src/Cluster/UniqueAction.cpp:41-52 | with no period and no purge there is at most one winner ever |
| `Election.SeparateExactly` | src/DB/GarbageCollector.cpp:166-167 | the elections of a name are a period apart in every run if and only if the period is positive and rows are kept that long |
| `Election.PurgeBringsSecond` | src/DB/GarbageCollector.cpp:166-167 | the run in which a second node wins as soon as the winner's row is purged |
| `Election.LoserBlocks` | src/Cluster/UniqueAction.cpp:44-56 | the run in which a third node loses to a loser's row when the winner's time is over |
| `Election.LosesExactly` | src/Cluster/UniqueAction.cpp:39-52 | over every interleaving, a check loses if and only if an older attempt of the name has its row and is not a period old |
| `Election.WinsWhenOver` | src/Cluster/UniqueAction.cpp:39-52 | over every interleaving, a check wins if every older attempt of the name is a period old, whatever became of it |
| `Election.LosesToWinner` | src/Cluster/UniqueAction.cpp:44-52 | over every interleaving, when all older attempts of the name have won, or lost and gone, a check wins if and only if no older winner has its row and is not a period old |
| `UniqueAction.Database.Select` | src/Cluster/UniqueAction.cpp:39-42 | the selected ids are exactly those of the rows of the name that are not a period old |
| `UniqueAction.IsLeast` | src/Cluster/UniqueAction.cpp:44-52 | the loop with its break elects exactly the least id |
| `UniqueAction.UniqueAction.Check` | src/Cluster/UniqueAction.cpp:39-52 | elected if and only if every older row of the name is a period old |
| `UniqueAction.UniqueAction.Withdraw` | src/Cluster/UniqueAction.cpp:54-56 | a node that has lost takes exactly its own row away |
| `UniqueAction.UniqueAction.constructor` | src/Cluster/UniqueAction.cpp:32-62 | undisturbed: a node wins if and only if every row of the name is a period old, leaves its row then, and otherwise leaves the table as it was |
| `UniqueAction.CheckInRun` | src/Cluster/UniqueAction.cpp:39-52 | the check of the object against the table of a state of a run is the step of the state machine |
| `Base64.EncodeString` | src/Crypto/base64.cpp:164-197 | the loop with its buffer writes the specification, stale bytes included |
| `Base64.LettersAreAlphabet` | src/Crypto/base64.cpp:28-40 | the characters of the six-bit numbers are those of table 1 of RFC 4648 in its order, and no other character has a number |
| `Base64.Group` | src/Crypto/base64.cpp:173-195 | the characters of one group, from a word whose first byte is signed |
| `Base64.WordNumbers` | src/Crypto/base64.cpp:173-194 | the sign does not get into the four numbers of the word |
| `Base64.StandardExactly` | src/Crypto/base64.cpp:164-197 | the encoding is that of section 4 of RFC 4648 if and only if the leaked bits are zero |
| `Base64.DecodeString` | src/Crypto/base64.cpp:83-129 | the loop with its block computes the decoding function, refusals included |
| `Base64.RefusedExactly` | src/Crypto/base64.cpp:94-106 | unless a group of four pads is met, a text is refused exactly if it has a character that is neither of the alphabet, nor a pad, nor a blank |
| `Base64.BlanksIgnored` | src/Crypto/base64.cpp:103-104 | blanks anywhere make no difference |
| `Base64.DecodeConcat` | src/Crypto/base64.cpp:92-126 | decoding distributes over whole groups with anything behind them |
| `Base64.RoundTrip` | src/Crypto/base64.cpp:83-197 | every byte string comes back from its encoding, whatever was in the buffer |
| `Base64.RoundTripWithBlanks` | src/Crypto/base64.cpp:83-197 | also with blanks put anywhere into the encoding |
| `DataSerializer.Stream.ReadLen` | src/Process/DataSerializer.cpp:7-14 | for every pattern of short reads: the bytes asked for, or all up to the end |
| `DataSerializer.SerializeVector` | src/Process/DataSerializer.cpp:34-50 | three digits and the strings |
| `DataSerializer.SerializeMap` | src/Process/DataSerializer.cpp:16-32 | three digits and the entries in the order of their names |
| `DataSerializer.UnserializeString` | src/Process/DataSerializer.cpp:161-181 | what the parser of the specification gives and leaves, failures included |
| `DataSerializer.UnserializeInt` | src/Process/DataSerializer.cpp:183-198 | the same for integers, with those that `stoi` refuses |
| `DataSerializer.UnserializeVector` | src/Process/DataSerializer.cpp:124-159 | the same for vectors, with what had been read before a failure |
| `DataSerializer.UnserializeEntry` | src/Process/DataSerializer.cpp:88-118 | one entry: limits of 4096, C strings, and the default name |
| `DataSerializer.UnserializeMap` | src/Process/DataSerializer.cpp:73-122 | the same for maps |
| `DataRoundTrips.StringExactly` | src/Process/DataSerializer.cpp:52-63 | a string comes back with the rest of the stream untouched if and only if it is shorter than a billion bytes |
| `DataRoundTrips.StringForm` | src/Process/DataSerializer.cpp:52-63 | a string is written as nine digits of its length, and itself |
| `DataRoundTrips.EntryForm` | src/Process/DataSerializer.cpp:24-29 | an entry is written as nine digits for its name, nine for its value, and both |
| `DataRoundTrips.VectorForm` | src/Process/DataSerializer.cpp:34-50 | a vector is written as three digits of its count, and its strings |
| `DataPrefixes.CutString` | src/Process/DataSerializer.cpp:161-181 | no string is read from a proper front of its written form |
| `DataPrefixes.CutVector` | src/Process/DataSerializer.cpp:124-159 | nor a vector; the reader is at the end of the stream then |
| `DataPrefixes.CutMap` | src/Process/DataSerializer.cpp:73-122 | nor a map |
| `DataPrefixes.MessageMore` | src/Process/Monitor.cpp:91-134 | a message that can be read is read alike with more behind it |
| `DataPrefixes.CutMessage` | src/Process/Monitor.cpp:91-134 | the message of a task that is cut off anywhere is not read, although the reader ignores that the arguments fail |
| `DataRoundTrips.IntExactly` | src/Process/DataSerializer.cpp:183-198 | an integer comes back if and only if it is one of 32 bits |
| `DataRoundTrips.VectorExactly` | src/Process/DataSerializer.cpp:34-50 | a vector comes back if and only if it has at most 999 items, each of which would |
| `DataRoundTrips.MapExactly` | src/Process/DataSerializer.cpp:73-122 | a map comes back if and only if it has at most 999 entries, names and texts of at most 4096 bytes without NUL, and no empty name |
| `DataRoundTrips.ReadEntry` | src/Process/DataSerializer.cpp:88-118 | any entry within the limits comes back as C strings, under the default name if it had none |
| `DataRoundTrips.SerializedMapUnique` | src/Process/DataSerializer.cpp:24-29 | there is one way to write a map |
| `TaskMessage.ExecuteTask` | src/Process/ProcessManager.cpp:286-351 | the message of a task, or the exception for a remote script without the agent |
| `TaskMessage.Arguments` | src/Process/ProcessManager.cpp:302-317 | the static arguments, and the parameters behind them when they go on the command line |
| `TaskMessage.Env` | src/Process/ProcessManager.cpp:319-327 | the environment, with later parameters in place of earlier ones |
| `TaskMessage.ReadMessage` | src/Process/Monitor.cpp:91-134 | the reader: field by field, going on after arguments that fail, the script only if the configuration says so |
| `TaskMessage.MessageExactly` | src/Process/Monitor.cpp:91-134 | the monitor reads back exactly filename, id, arguments, configuration, environment, script and input, and leaves the rest of the stream, if and only if each of them fits |
| `TaskMessage.MonitorKnowsTask` | src/Process/Monitor.cpp:143-158 | of a message that fits the monitor reads each setting of the task under its own key; so it goes over ssh if and only if the task has a host, to the host, as the user if there is one; the file is the path alone if and only if that is absolute; the arguments and parameters are in order, and of parameters with one name the last is in the environment |
| `AgentMux.Agent.Multiplex` | src/evqueue_agent.cpp:103-150 | for every order and size of pieces, all that each pipe gives goes into frames of 1 to 4096 bytes, in order, until all pipes have ended |
| `AgentMux.Agent.Forward` | src/evqueue_agent.cpp:135-147 | one ready pipe: a frame, or the end |
| `AgentMux.Demultiplex` | src/Process/Monitor.cpp:226-307 | the loop computes the specification, with each kind of corruption |
| `AgentMux.MuxRoundTrip` | src/Process/Monitor.cpp:226-307 | for every interleaving of frames: no corruption, each descriptor gets the concatenation of its pipe, and no other descriptor anything |
| `AgentMux.BrokenOff` | src/Process/Monitor.cpp:234-269 | a stream that ends within a frame is noticed, and the frames before it have been delivered |
| `AgentMux.AcceptedExactly` | src/Process/Monitor.cpp:226-307 | a stream is taken for intact if and only if it consists of whole frames, each with a length of 0 to 4096 |
| `AgentMux.Relay` | src/evqueue_agent.cpp:103-150 | agent and monitor together: the three outputs arrive as they were |

## Left out

- Databases, clocks, the network, processes and XML: rows, times, answers of the cluster and outcomes of starting an
  instance are parameters; `UniqueAction` has its table.
- Time zones, daylight saving time and leap seconds; times before year 0.
- The eighty rounds are written as sixteen groups of five, the period of the renaming, in place of eighty lines.
- Long functions of the source are split into methods where a proof ends: `DequeueTask` of the pool at its wait,
  `ExecuteTask` and `Reload` of the pool into the parts named in the table.
- QueuePool.QueuePool.ExecuteTask: looks the queue up and takes the lock in one step, while the source looks it up before
  it has the lock, and might use a queue that has gone.
- QueuePool.QueuePool.Reload: takes definitions with valid names and known schedulers, as they are created; others would
  be exceptions in the middle of it.
- QueuePoolLimits.RunKeepsLimit: is about runs without reloads, which may take a queue above its limit
  (`QueuePoolFaults.ReloadPassesLimit`), and in which each task gets an id; `QueuePoolFaults.LimitsHoldExactly` says when
  each does in runs that keep the queues.
- Tasks resumed under the id 0, which are those that ran without an id before a restart, and under ids above `maxpid`.
- `queues_id`, notification of the cluster, and statistics.
- The workflow scheduler's list of alarms is a sequence here, kept in the way in which `Scheduler.Scheduler.InsertEvent`
  and `ShiftEvent` are proved to keep the linked list.
- The event scheduler's destructor, and `WaitForShutdown`.
- WorkflowScheduler.WorkflowScheduler.ScheduleWorkflow: is not called for a schedule that is pending or running already,
  which the source would place a second time; none of its callers here does.
- WorkflowScheduler.WorkflowScheduler.ScheduledWorkflowInstanceStop: is not called for an active schedule that is not
  running, where the source reads a null pointer; `WorkflowStops.StopsSafeExactly` says exactly in which runs that is so.
- WorkflowStops.StopsSafeExactly: has the schedules loaded once, while none is placed, and a started, resumed or migrated
  instance under an id that no other running instance has.
- WorkflowScheduler.WorkflowScheduler.EventRemoved: takes the workflow of the schedule as known; otherwise the exception
  leaves the worker thread, or the destructor of an instance, and ends the engine. The alarm is one step here, as the
  lock is not held throughout there.
- Scheduler.Scheduler.Drain: is the loop when no other thread comes between two shifts; `SchedulerRuns` is about all
  interleavings.
- Several executing instances of one schedule in the database at the start.
- Base64: characters from code 64 on that are no letters, for which the decoder's table is not set; bytes from 128 on; a
  group of four pads, whose length underflows; the variants on files, which repeat the code.
- A negative length in a message is a failed read here, and a negative length of a frame a corruption; neither is ever
  written.
- DataRoundTrips.StringExactly: has no bound on the memory of the reader, which puts the string into an array of that
  length on its stack (src/Process/DataSerializer.cpp:147 and 173), and fails for lengths beyond it.
- Errors of `read` and `select`.
- AgentMux.Demultiplex: keeps what comes for the log descriptor as bytes; the splitting into lines behind it, and what it
  does with `\close`, are left out.
- The constructor of `UniqueAction` that takes a name alone and compares the names of the nodes that answer.
- What the monitor does with a task beyond its target: the remote command line and its quoting, directories and pipes.
- HMAC, PBKDF2, the XPath evaluator, workflow instances, API handlers and configuration.
