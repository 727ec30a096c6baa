# SJF scheduling engine of sjf_tusur, modelled in Dafny

`sjf.py` simulates Shortest-Job-First scheduling of students (consumers) over
professors (capacity slots grouped by discipline). Two engines share one skeleton:

- the non-preemptive `SJFnp`;
- the preemptive `SJFp`, which may evict the occupant of a slot and push that
  student back onto the waiting queue.

This project models how the engines make decisions, with threads, locks and the
clock turned into plain data:

- a slot has a thread name, an `alive` flag, and the `[remaining, priority]`
  pair the source keeps in `now`;
- the held locks are a set of student names;
- the elapsed time is a parameter.

Modules:

- `Outcomes`: `Option`, `Result`, and the exceptions the source raises, as
  `Error` values.
- `Text`: `str.split` with a one-character separator, and `sep.join`.
  `str(int)` and `int(str)` for canonical decimals.
- `Students`: the student record and its text form `__str__`. The two thread-name
  formats the engines build. The parse `push_student` applies to an evicted
  thread's name.
- `Queue`: the stable sort by burst and the two filters of `prepare`.
- `Pools`: the slot record, the three slot searches (`find_alive`, `find_prior`,
  `find_burst`) as one "first slot matching a rule" function, and the slot table
  `__init__` builds.
- `Scheduling`: the scheduler's fields as a value (`Sched`), with every step as
  a function of it:
  - construction and `prepare`;
  - the arrival loop;
  - `find_alive`;
  - the inner and outer placement loops of both `exec` methods;
  - `push_student`;
  - the bookkeeping of `tick`.
- `QueueFacts`, `PlacementFacts`, `TickFacts`: what those steps promise, as
  lemmas.
- `Engine`: the class `Scheduler`, holding the same fields as the source object.
  - Each in-place step is a method with the source's loops.
  - Each method is proved to report the outcome the matching `Scheduling`
    function computes from the old fields, and, on success, to leave the
    fields exactly as that function computes them. After a failure (where
    the source raises), only `Prepare` and `PushStudent` describe the
    fields they leave; see Left out.
  - `NewScheduler` is `__init__` followed by its call of `prepare`.

Where the code and its docstrings disagree, the model follows the code.

- **Which priority may preempt.** The docstring of `find_prior` (sjf.py:270)
  promises a slot whose priority is lower than `p`, but its loop (sjf.py:273)
  stops at the first slot whose priority is at most `p`. The docstring of
  `find_burst` (sjf.py:281) promises equal priority and a longer burst, but its
  loop (sjf.py:284) stops at the first slot with remaining time at least `b`
  and priority at most `p`. The model follows the loops. With `<=`, two
  students of equal priority can evict each other in turn:
  `PlacementFacts.ContendedForever` proves that the preemptive pass over such
  a pair never finishes.
- **Which slots exist.** `__init__` builds `proc` by extending one list per
  discipline, but builds `now` with a dict comprehension. With that comprehension,
  a later professor of a discipline replaces the earlier one's row. The model
  keeps one record per thread; see Findings.

## Model

| member | source | states |
|---|---|---|
| Text.Split | sjf.py:295 | `split` returns at least one piece. There are two or more pieces exactly when the separator occurs. No piece contains the separator. Joining the pieces with it gives back the string. |
| Text.SplitJoin | sjf.py:295 | Splitting a join of separator-free pieces gives back exactly those pieces. |
| Text.IntToStringRoundTrip | sjf.py:298-299 | `int(str(n)) == n` for every integer, so the priority and arrival fields written by `__str__` parse back to the same numbers. |
| Text.IntToStringClean | sjf.py:71-72 | The decimal text of a number contains neither '_' nor a line break, so it cannot break the name's field structure. |
| Text.ParseInt | sjf.py:298-299 | `ParseInt` succeeds exactly on an optional '-' followed by at least one digit, and a negative result has the '-'. This covers every text `str(n)` produces: `Text.IntToStringRoundTrip` proves `int(str(n)) == n`. |
| Text.IntToString | sjf.py:72 | `str(n)` is a non-empty string of digits and '-'. Its partner is `Text.ParseInt`, through `Text.IntToStringRoundTrip`. |
| Students.NewStudent | sjf.py:58-64 | A new student's remaining time equals its burst. |
| Students.Encode | sjf.py:70-72 | `__str__` starts with the student's name followed by a line break. `Students.EncodeLines` gives all six lines. |
| Students.EncodeLines | sjf.py:70-72 | `__str__` of a clean student has exactly six lines: name, group, disciplines, burst*1000, priority, arrival*1000. It contains no '_'. |
| Students.PlainName | sjf.py:145 | The non-preemptive thread name starts with the professor and a '_'. `Students.PlainNameRoundTrip` proves that its fields give back professor and student. |
| Students.EncodedNameShape | sjf.py:262 | The preemptive thread name is `prof + '_' + name + '_' + str(student)`. |
| Students.EncodedName | sjf.py:262 | The preemptive thread name starts with the professor and a '_'. `Students.EncodedNameRoundTrip` proves its fields and its parse give back professor and student. |
| Students.EncodedNameRoundTrip | sjf.py:290-301 | From the preemptive thread name, `split('_')[0]` is the professor and `split('_')[1]` is the student. The `push_student` parse rebuilds a student with the same name, group and priority, discipline `[d]`, burst and remaining time equal to the slot's, and arrival time times 1000. This holds when no field contains '_' and name, group and disciplines contain no line break. |
| Students.Decode | sjf.py:295-301 | A successful parse needs at least three '_'-fields. It yields a student of discipline `[d]` whose burst and remaining time are the slot's `rem`. `Students.EncodedNameRoundTrip` proves it inverts the preemptive thread name. |
| Students.PlainNameRoundTrip | sjf.py:145 | The non-preemptive name `prof + '_' + student` yields the professor as field 0 and the student as field 1. |
| Queue.SortByBurst | sjf.py:178 | The sorted queue is ordered by burst and is a permutation of the old queue. |
| Queue.SortStable | sjf.py:178 | The sort is stable: for every burst value, the students with that burst keep their relative order. |
| Queue.NonEmpty | sjf.py:183 | Every student left after the filter still needs some discipline. |
| Queue.NonEmptyCount | sjf.py:183 | The filter keeps every copy of a student with disciplines left and drops every copy of one with none. |
| Queue.NonEmptyPermutation | sjf.py:183 | Filtering two permutations of one queue gives two permutations of one result. |
| Queue.NonEmptyWithBurst | sjf.py:183 | Filtering by remaining disciplines commutes with selecting one burst value. |
| Queue.NonEmptySorted | sjf.py:183 | Filtering a sorted queue keeps it sorted, and it adds no student. |
| Queue.Present | sjf.py:182 | After `[e for e in allstud if e is not None]` no entry is `None`, and exactly the same students are present. `Queue.PresentConcat` and `Queue.PresentCount` give order and multiplicity. |
| Queue.PresentConcat | sjf.py:182 | The filter distributes over concatenation, so it keeps the order of the entries it keeps. |
| Queue.PresentCount | sjf.py:182 | Each student entry is kept as often as it occurs, and no `None` is left: the result's multiset is the input's without `None`. |
| Pools.FirstMatch | sjf.py:221-225 | A slot index, when one is returned, is in range and satisfies the search rule. |
| Pools.FirstMatchLeast | sjf.py:268-288 | The index returned is the least one satisfying the rule. Nothing is returned exactly when no slot satisfies it. |
| Pools.BurstRuleAfterPrioRule | sjf.py:252-254 | Every slot `find_burst` accepts is accepted by `find_prior`, at the same or an earlier index. Once `find_prior` finds nothing, `find_burst` finds nothing too. |
| Pools.PoolOfSnoc | sjf.py:106-110 | Handling one more professor appends that professor's idle slots to the list of their discipline, and changes no other discipline. |
| Pools.PoolOfShape | sjf.py:104-110 | A discipline gets as many slots as its professors take students together. Each slot is an unstarted thread named `prof + '_ _ '` with `now` entry `[0, 0]`. |
| Pools.InitialPoolsShape | sjf.py:104-112 | The slot table has a key for exactly the offered disciplines. It has one idle slot, with one `[0, 0]` entry, per thread. |
| Pools.NowRowsTooFew | sjf.py:112 | With two one-slot professors for the same discipline, `proc` has two threads but `now` as written has only one row. |
| Scheduling.Initial | sjf.py:103-120 | Construction before `prepare`: every student is known and in state -1, no lock is held, `delta` is 0 and `q` is the quantum. `QueueFacts.InitialSpec` gives the queue and arrival lists. |
| Scheduling.Prepare | sjf.py:172-183 | On success, every queued student's disciplines are offered. Slots, states, locks, `delta` and `q` are unchanged. |
| Scheduling.Arrive | sjf.py:131-135 | The arrival loop only appends to `qbegin`, keeps the length of `allstud`, and leaves slots, locks, `delta` and `q` alone. `QueueFacts.ArriveSpec` says which students arrive and where they go. |
| Scheduling.FindAlive | sjf.py:216-229 | Only the state may change. A returned index is in range and its thread is dead. |
| Scheduling.PreemptTarget | sjf.py:252-254 | The `find_prior`-then-`find_burst` choice, when there is one, is a slot index in range. |
| Scheduling.Occupy | sjf.py:144-148 | Starting a student on slot `i` of `d`: the student is state 1 and its lock is added to the held ones. The slot is alive under the new name. The queue keeps its length, and the student loses one discipline. `Scheduling.OccupyReady` keeps the invariant. |
| Scheduling.OccupyReady | sjf.py:144-148 | Starting a student on a slot keeps every thread name well formed. Every queued discipline stays offered. Slot counts and queue length are unchanged. |
| Scheduling.NameHasSeparator | sjf.py:145 | Both thread-name formats contain '_', so `split('_')[1]` exists. |
| Scheduling.TryPlaceNP | sjf.py:141-149 | One student's non-preemptive turn keeps names well formed and disciplines offered. It keeps slot counts, queue length, arrivals, `delta` and `q`. |
| Scheduling.PassNP | sjf.py:138-149 | The same facts hold for the whole non-preemptive pass. |
| Scheduling.ExecNP | sjf.py:126-149 | A successful non-preemptive `exec` keeps names well formed, disciplines offered, slot counts, `delta` and `q`. `PlacementFacts.ExecNPEvictsNobody` proves it evicts nobody. |
| Scheduling.PushStudent | sjf.py:290-301 | On success exactly the occupant's lock is released, and one student of discipline `[d]` is appended. A failure means the occupant's name does not parse. `Scheduling.PushReady` and `PlacementFacts.PushRoundTrip` give the rest. |
| Scheduling.PushReady | sjf.py:290-301 | A successful `push_student` appends exactly one student and leaves the earlier queue, the slots and the states alone. |
| Scheduling.TryPlaceP | sjf.py:249-266 | One student's preemptive turn keeps names well formed and disciplines offered. It keeps slot counts and arrivals; the queue never shrinks. |
| Scheduling.TakeSlotP | sjf.py:255-265 | Taking a slot in the preemptive pass, with or without an eviction, keeps the same facts. |
| Scheduling.PassP | sjf.py:246-266 | The same facts hold for the whole preemptive pass over the growing queue. |
| Scheduling.ExecP | sjf.py:233-266 | A successful preemptive `exec` keeps names well formed, disciplines offered, slot counts, `delta` and `q`. `PlacementFacts.TryPlacePEffect` describes each turn of it. |
| Scheduling.Reconcile | sjf.py:192-201 | The first loop of `tick` changes only states, adds no student, and changes a state only to 2. `TickFacts.TickOnlyFinishes` and `TickFacts.TickFinishesCompleted` say exactly which. |
| Scheduling.Tick | sjf.py:185-214 | `tick` keeps the known students, the slot counts, the queue, arrivals, locks and `q`, and `delta` grows by at most 1. `TickFacts.TickTime` gives the exact update. |
| QueueFacts.SomeMissingPermutation | sjf.py:179 | Whether some queued student needs a discipline nobody offers does not depend on the queue's order. |
| QueueFacts.PrepareFailsIff | sjf.py:179-180 | `prepare` raises exactly when some student of `qbegin` needs a discipline that is not a key of the slot table. `allstud` is not consulted. |
| QueueFacts.PrepareOrders | sjf.py:178-183 | After `prepare`, the queue is sorted by burst. Within each burst the order is the old order, minus the students with no discipline. It holds exactly the old students that still need a discipline, each as often as before. `allstud` holds no `None`, and every student entry as often as before. Slots and states are unchanged. |
| QueueFacts.ArrivalsMembers | sjf.py:131-133 | The arrivals are exactly the students of `allstud` whose arrival time the elapsed time strictly exceeds. |
| QueueFacts.MarkWaitingSpec | sjf.py:134 | Marking the arrivals gives every arrival state 0. Every other student keeps its state, and no other student is added. |
| QueueFacts.ArriveSpec | sjf.py:131-135 | The arrivals are appended to `qbegin` in `allstud` order. Exactly their entries become `None`, and they are in state 0. Every other student, queue entry, slot and lock is unchanged. |
| QueueFacts.ArrivalLeavesIff | sjf.py:239-244 | After the arrival loop and `prepare`, a student is still awaited exactly when the elapsed time has not strictly passed its arrival time. |
| QueueFacts.StartingNowMembers | sjf.py:115-116 | `qbegin` holds exactly the students with arrival time 0. `allstud` holds exactly the others, with no `None`. |
| QueueFacts.SplitConcat | sjf.py:115-116 | Splitting the students by arrival time distributes over concatenation, so both lists keep the students' order. |
| QueueFacts.SplitCount | sjf.py:115-116 | Each student lands in exactly one list, as often as it is listed: in `qbegin` when its arrival time is 0, in `allstud` otherwise. The two lengths add up to the number of students. |
| QueueFacts.InitialSpec | sjf.py:114-120 | Construction puts the arrival-time-0 students in `qbegin` and the rest in `allstud`, both in the given order and each as often as listed. Every student starts in state -1, never 0. No lock is held, `delta` is 0, and every thread name has a '_'. |
| PlacementFacts.FindAliveSpec | sjf.py:216-229 | `find_alive` returns the least dead slot, or nothing exactly when all threads of the discipline are alive. On a hit whose former occupant is a known student, that student becomes state 2. Nothing else changes. |
| PlacementFacts.TryPlaceNPEffect | sjf.py:141-149 | In a non-preemptive turn no live thread is replaced and no lock is released. No other queue entry changes, and the student loses at most one discipline. |
| PlacementFacts.FirstFreeWins | sjf.py:141-149 | The first discipline with a dead slot wins, and all earlier ones are full. The student takes the first dead slot of that discipline and holds its lock. The slot records `[rem_time, prior]` under the name `prof + '_' + student`, and exactly that discipline leaves the list. The slot's former occupant, when a known student, is state 2, the student is state 1, and every other state stays. If the student is unchanged, every discipline was full and nothing changed. |
| PlacementFacts.PassNPEffect | sjf.py:138-149 | The non-preemptive pass replaces no live thread and releases no lock. It skips locked entries and keeps the queue's length. Every entry loses at most one discipline. |
| PlacementFacts.ExecNPEvictsNobody | sjf.py:126-149 | A whole non-preemptive `exec` evicts nobody and keeps the slot counts. |
| PlacementFacts.TakeDeadSlot | sjf.py:255-265 | `find_alive` choosing the first dead slot, followed by taking it, always succeeds and evicts nobody. The slot is alive with `[rem_time, prior]` under the name `prof + '_' + student + '_' + str(student)`. The former occupant, when a known student, is state 2, the student is state 1, and every other state stays. The student's lock is added to the held ones, and exactly that discipline leaves its list. No other slot or queue entry changes, and the queue keeps its length. |
| PlacementFacts.TakeLiveSlot | sjf.py:252-265 | In a full discipline, taking the slot `find_prior`/`find_burst` chose gives the student that slot under the preemptive name, and exactly that discipline leaves its list. The slot is the first that `find_prior` accepts; `find_burst` never decides. Its occupant is parsed and appended, and that occupant's lock is released. The student is state 1 and every other state stays. No other slot and no earlier queue entry changes. |
| PlacementFacts.TakeLiveUnfold | sjf.py:255-265 | Taking a live slot, step by step. The student takes the slot under the preemptive name, is state 1, and holds its lock; no other state changes. The occupant's parsed record is appended and the occupant's lock is released. Only that slot changes, and the other old queue entries stay. |
| PlacementFacts.TryPlacePSkip | sjf.py:249-254 | A discipline where every thread is alive and neither `find_prior` nor `find_burst` finds a slot is passed over, and nothing changes, not even a state. |
| PlacementFacts.TryPlacePTake | sjf.py:249-266 | Once a slot is chosen for discipline `j`, the turn ends there. The student holds that slot, its lock and state 1, and loses exactly discipline `j`. Either the slot was the first dead one: its former occupant is state 2 and nobody is evicted. Or the discipline was full, and exactly the chosen slot's occupant is evicted. Every other state stays. |
| PlacementFacts.TryPlacePEffect | sjf.py:249-266 | A successful preemptive turn ends one of two ways. Either every discipline was passed over (full, with no `find_prior`/`find_burst` match) and nothing changed. Or the student, after passing over only such disciplines, took slot `i` of discipline `j`: as in `TakeDeadSlot` when it was dead, and as in `TakeLiveSlot` when it was alive. No other slot, no earlier queue entry and no other student's state changes. |
| PlacementFacts.PushRoundTrip | sjf.py:290-301 | `push_student` on a name the preemptive pass built appends the evicted student. It keeps that student's name, group and priority; the discipline is `[d]`, burst and remaining time are the slot's, arrival time is times 1000. It releases that student's lock. |
| PlacementFacts.ContendedFromName | sjf.py:259-264 | A slot the preemptive pass filled for `x`, wanted by an unlocked `y` of equal priority, is a contended position. |
| PlacementFacts.ContendedStep | sjf.py:246-266 | In that position `y` evicts `x`, and `x` is pushed behind `y` with the roles exchanged. |
| PlacementFacts.ContendedForever | sjf.py:246-266 | Two equal-priority students contending for a one-slot discipline keep the preemptive pass going for ever: however many entries it may visit, it is not done. |
| TickFacts.TickOnlyFinishes | sjf.py:192-201 | `tick` adds no student. A changed state is 2, for a student named by a dead thread, not queued, and named by no live thread. |
| TickFacts.TickFinishesCompleted | sjf.py:192-201 | Conversely, a known student named by a dead thread, not queued and named by no live thread is state 2 after `tick`. |
| TickFacts.TickKeepsLive | sjf.py:192-201 | A student on a live thread keeps its state. |
| TickFacts.TickTime | sjf.py:203-214 | When the quantum has passed, `delta` grows by exactly 1. Every slot, alive or not, loses exactly `q` of remaining time, and keeps its occupant, liveness and priority. Otherwise slots and `delta` stay. Queue, arrivals, locks and `q` never change. |
| TickFacts.TickWellNamed | sjf.py:192-214 | `tick` keeps every thread name well formed. |
| Engine.ArrivingLaterPresent | sjf.py:115 | The initial `allstud` holds no `None`. |
| Engine.PoolsStep | sjf.py:106-110 | One iteration of the construction loop appends one professor's slots. |
| Engine.BuildPools | sjf.py:104-110 | The construction loop builds exactly the initial slot table. |
| Engine.InitialValid | sjf.py:104-116 | The initial table's thread names all contain '_', and the initial `allstud` holds no `None`. |
| Engine.ReconcileStep | sjf.py:194-201 | Visiting one more slot in `tick`'s first loop marks its dead thread's student, if that student is finished. |
| Engine.VisitRowMarks | sjf.py:194-201 | Visiting a discipline's slots in order marks exactly the students its dead threads name. |
| Engine.ReconciledAll | sjf.py:192-201 | Once every discipline is visited, the states are the ones `tick` promises. |
| Engine.Scheduler.constructor | sjf.py:103-120 | The fields are the initial state, and the invariant holds. |
| Engine.Scheduler.Prepare | sjf.py:172-183 | `prepare` on the fields. On failure the queue is already sorted and nothing else changed. |
| Engine.Scheduler.Arrive | sjf.py:131-135 | The arrival loop leaves the fields as the arrival step describes. |
| Engine.Scheduler.FindAlive | sjf.py:216-229 | The index counter loop returns `find_alive`'s result and makes its state update. |
| Engine.Scheduler.FindPrior | sjf.py:268-277 | The scan returns the least index with priority at most `p`, or `None` exactly when every priority exceeds `p`. |
| Engine.Scheduler.FindBurst | sjf.py:279-288 | The scan returns the least index with remaining time at least `b` and priority at most `p`, or `None` exactly when there is none. |
| Engine.Scheduler.PushStudent | sjf.py:290-301 | The occupant's lock is released first. A successful parse appends the student; on failure only the lock changed. |
| Engine.Scheduler.Occupy | sjf.py:144-148 | The student runs and holds its lock. The slot gets the new thread name and `[rem_time, prior]`, and the discipline leaves the list. |
| Engine.Scheduler.PlaceNP | sjf.py:141-149 | The inner loop of `SJFnp.exec` reports the outcome of one non-preemptive turn and, on success, leaves the fields as `Scheduling.TryPlaceNP` computes them. |
| Engine.Scheduler.PassNP | sjf.py:138-149 | The outer loop reports the outcome of the whole non-preemptive pass and, on success, leaves the fields as `Scheduling.PassNP` computes them. |
| Engine.Scheduler.ExecNP | sjf.py:126-149 | `SJFnp.exec` is arrivals, `prepare` and the pass. It reports their outcome and, on success, leaves the fields as `Scheduling.ExecNP` computes them, keeping the invariant. |
| Engine.Scheduler.PlaceP | sjf.py:249-266 | The inner loop of `SJFp.exec` reports the outcome of one preemptive turn and, on success, leaves the fields as `Scheduling.TryPlaceP` computes them. |
| Engine.Scheduler.TakeSlot | sjf.py:255-265 | Taking a slot, with an eviction when it is alive, reports the outcome and, on success, leaves the fields as `Scheduling.TakeSlotP` computes them. |
| Engine.Scheduler.PassP | sjf.py:246-266 | The outer loop over the growing queue reports the outcome of the preemptive pass within `fuel` entries and, on success, leaves the fields as `Scheduling.PassP` computes them. |
| Engine.Scheduler.ExecP | sjf.py:233-266 | `SJFp.exec` is arrivals, `prepare` and the pass. It reports their outcome and, on success, leaves the fields as `Scheduling.ExecP` computes them, keeping the invariant. |
| Engine.Scheduler.Reconcile | sjf.py:192-201 | The first loop of `tick` leaves the state as the reconciliation step describes. |
| Engine.Scheduler.Reconciled | sjf.py:192-201 | The nested loop over all disciplines and slots computes the reconciled state. |
| Engine.Scheduler.ReconcileSlots | sjf.py:194-201 | The inner loop over one discipline's slots adds that discipline to the visited ones. |
| Engine.Scheduler.Decrement | sjf.py:211-214 | The decrement loop takes `q` off every slot's remaining time and changes nothing else. |
| Engine.Scheduler.Tick | sjf.py:185-214 | `tick` at elapsed time `e` leaves the fields as the tick step describes, and it keeps the invariant. |
| Engine.NewScheduler | sjf.py:86-121 | Construction reports `prepare`'s outcome on the initial state. On success the fields are the prepared state. |

## Left out

- Threads, `MyThread`, `Student.process` and `time.sleep`. Concurrency is not
  modelled: a slot carries an `alive` flag, and a thread's ending is not a step
  of the model.
- Locks. They are a set of names. A lock is taken when a student starts on a
  slot, not when its thread first runs. The `RuntimeError` of releasing an
  unheld lock in `stop` is not modelled, and neither is the race between `stop`
  and a thread finishing on its own.
- The clock. `time.time() - starttime` is the parameter `e` of `Arrive`, the
  `exec` methods and `Tick`. The arrival loop reads the clock again for every
  `allstud` entry (sjf.py:132, sjf.py:240); the model uses one `e` for the
  whole loop, so an entry the clock passes during the loop is not taken. `main`'s polling loops are not modelled, because
  they end only when real threads finish.
- Printing. The snapshot `print` in `tick`, the `must` argument, `read_data`
  and the `__main__` block are I/O, randomness and a foreign library.
- Floating point. Times and priorities are integers. `float(args[5])` is an
  integer parse, and `ParseInt` accepts only an optional '-' followed by digits.
- Engine.Scheduler.PlaceNP: after a failure (an empty slot list) the fields
  are not described; the source raises and leaves the object part-way.
- Engine.Scheduler.PassNP: after a failure the fields are not described, as
  for `PlaceNP`.
- Engine.Scheduler.ExecNP: after a failure of `prepare` or of the pass the
  fields are not described; the source raises out of `exec`.
- Engine.Scheduler.PlaceP: after a failure (an empty slot list, or an
  occupant name that does not parse) the fields are not described.
- Engine.Scheduler.TakeSlot: after a failed parse of the evicted occupant the
  fields are not described.
- Engine.Scheduler.PassP: after a failure the fields are not described.
- Engine.Scheduler.ExecP: after a failure the fields are not described.
- Scheduling.Arrive: an `allstud` entry that is `None` is passed over. The source would
  raise `AttributeError` on it at sjf.py:132 and sjf.py:240, but entries are
  `None` only after a `prepare` that raised, which ends `main`.
- Engine.Scheduler.PassP: the pass visits at most `fuel` queue entries and
  reports `OutOfFuel` beyond that. The source has no bound, and the pass can run
  for ever (see `ContendedForever`).
- Engine.Scheduler.ExecP: the same `fuel` bound.
- Engine.Scheduler.FindAlive: an empty slot list is refused, because the source
  raises `IndexError` indexing its first slot. The placement turns model that
  case as the error `EmptyPool`.
- Engine.Scheduler.FindPrior: an empty slot list is refused, for the same
  reason.
- Engine.Scheduler.FindBurst: an empty slot list is refused, for the same reason.
- Slot tables are maps from discipline to a sequence of slot records, which the
  methods reassign. They are not arrays updated in place, so aliasing between
  `proc` entries and their threads is not captured.
- `Reconcile` and `Decrement` loop over local copies of the table.
- The order in which Python visits a dict's keys is left open. Both loops of
  `tick` give the same result in any order.
- `Student.__repr__`, `Professor.__repr__`/`__str__`, `get_classname` and
  `is_stopped` only print, or only report state that is not modelled.
- Fields that break the thread-name format: a professor name, student name,
  group or discipline containing '_', or a student name, group or discipline
  containing a line break (the predicate `Students.Clean`). For these the name
  round trip is not claimed: the parse returns another student or none.

## Findings

| source | as written | input that shows it | evidently intended | confidence | as-written member | corrected member |
|---|---|---|---|---|---|---|
| sjf.py:112 | `now` is a dict comprehension over professors. A later professor of a discipline replaces the earlier one's row of `[0, 0]` pairs, while `proc` extends one thread list per discipline. | Two professors `P1`, `P2` for `D1` with one student each. `proc["D1"]` has two threads but `now["D1"]` has one pair. When the first thread is alive and the second dead, `find_alive` returns 1, and `now["D1"][1]` raises `IndexError`. | One `[remaining, priority]` entry per thread. The model keeps one slot record per thread, so each discipline has as many entries as its professors take students together. | not executed | Pools.NowRowsTooFew | Pools.InitialPoolsShape |
