# Tick-driven coffee brew scheduler: a Dafny model

This project models the scheduler of a small FreeRTOS program for a coffee
machine with four coffee kinds (espresso, latte, mocha, black). The coffees
are periodic jobs kept in a four-entry job table, and a brew task is created
per entry. They compete for one LED/actuator channel. The source's own
initializer does not give the four kinds one entry each; see "Job table
layout" below. Once per tick, `vScheduler` in `Source/main.c` does the
following:

- releases the jobs whose period has come round;
- builds the list of jobs with releases outstanding;
- gives each of them a priority under one of three policies: fixed priority,
  earliest deadline first or least laxity first;
- resumes only the winner;
- advances the clock.

The running brew task counts its work down. When it finishes, `endBrew`
retires one release of that job and counts a missed deadline if the clock is
past the deadline. The project also models the coffee-selection module
`Source/coffee.c` and its older variant `coffee.c`: the cursor that a button
press advances, the LED lookup and the brew-time table.

Files and modules:

- `coffee_types.dfy`, module `CoffeeTypes`:
  - the enum `Coffee` and the board LEDs;
  - the enum's two numeric encodings. Under `Source/coffee.h` the enumerators
    are LED numbers. Under the older `coffee.h` they are 0 to 3.
- `coffee_menu.dfy`, module `CoffeeMenu`: `Source/coffee.c`.
  - Pure lookups become functions.
  - The static `selected` becomes the field of class `Menu`.
- `legacy_menu.dfy`, module `LegacyMenu`: `coffee.c`, built the same way.
- `brew_table.dfy`, module `BrewTable`: the job table as values (`Task`,
  `Catalog`, `Policy`). It also holds the specification functions of every
  scheduler step and the lemmas about them:
  - release (`Released`);
  - ready list (`ReadyOf`);
  - assigners (`Assigned`);
  - dispatcher (`Scan`, `HighestPriority`);
  - a whole cycle (`CycleTable`, `CycleWinner`);
  - the brew counter (`BrewIteration`).
- `brew_scheduler.dfy`, module `BrewScheduler`: class `Scheduler`, which holds
  the globals of `Source/main.c`:
  - `taskTable` as `array<Task>`;
  - `brewCounters` as `array<nat>`;
  - `ticks`;
  - `missedDeadlines`.

  Each procedure is a method that updates them in place with the source's
  loops.
  - The release, ready-list, assigner, dispatcher and cycle methods and
    `StartAllCoffees` are proved against the matching function of `BrewTable`.
  - `EndBrew`, `StartCoffeeType` and `BrewStep` state their new state
    directly. `BrewStep` does so through `BrewTable.BrewIteration`.
  - `SelectNextCoffee` states its result through `CoffeeMenu.NextN`.
- `brew_scenarios.dfy`, module `BrewScenarios`: a worked example. Four jobs
  are armed at tick 0, and the lemmas say which job each policy dispatches.

Modelling choices:

- **Job table layout.** The model assumes that entry `i` of `taskTable` holds
  kind `i` and that brew task `i` brews kind `i`. The table invariant
  `TableInvariant` (through `Indexed`) requires `taskTable[i].type == i`. It
  also requires:
  - `0 <= startTime <= ticks`;
  - an entry with releases outstanding is armed.

  The source's own initializer contradicts this layout. The initializers at
  `Source/main.c:54` and `:68` list `LATTE, ESPRESSO, MOCHA, CAPPUCCINO`.
  - `CAPPUCCINO` is defined by neither header.
  - Entry 0 holds `LATTE` and entry 1 holds `ESPRESSO`. So `type == i`
    already fails for the defined entries, under either header.
  - There is no `BLACK` job.

  With that layout several index expressions reach different entries or
  tasks. "## Left out" lists them. The model's constructor gives entry `i`
  type `i` instead.
- **Source/coffee.h encoding.** Its enumerators are `LED_*` values, and
  `discoveryf4utils.h` is not part of this model. The model takes the
  STM32F4-Discovery numbering: green 0, orange 1, red 2, blue 3
  (`CoffeeTypes.LedIndex`). So `ESPRESSO` = 0, `BLACK` = 1, `MOCHA` = 2 and
  `LATTE` = 3, and `changeSelected` walks espresso, black, mocha, latte. The
  older `coffee.h` walks espresso, latte, mocha, black (`LegacyMenu.SelectionOrder`).
- **Missing catalog functions.** `getCoffeePriority`, `getCoffeePeriod` and
  `getCoffeeDeadline` are called but not defined. They become a `Catalog`
  parameter of the scheduler: three tables indexed by enum value.
  - The priority table also has an entry for `DEFAULT_COFFEE`, which the
    dispatcher looks up.
  - Every period is required to be positive.
- **Policy.** The `#ifdef` choice of assigner becomes the constant
  `Scheduler.policy`.
- **Tasks and lock.** The RTOS calls become state changes:
  - `pauseAllBrews`, `brewCoffeeType` and the self-suspension in `endBrew`
    only set the ghost field `running`, the brew task the RTOS lets run. At
    most one task runs at a time because `running` is a single value.
  - The binary semaphore becomes the `lockAcquired` argument of
    `Scheduler.Cycle`. When the take fails, the pass changes nothing.
- **Dispatcher's starting maximum.** `0x80000000` read as `int32_t` is
  `BrewTable.Int32Min`. The comparison is strict, so a scheduled entry whose
  priority is exactly `INT32_MIN` can win only through the static-priority
  tie-break against `DEFAULT_COFFEE`. `HighestPrioritySpec` states exactly
  when the dispatcher idles, and that set includes this case.
- **Modulo in the release test.** C's `%` truncates toward zero and Dafny's
  is Euclidean. The return type of `getCoffeePeriod` is not part of this
  model. If it is unsigned, C converts the operand `ticks - startTime` to
  unsigned. `TableInvariant` keeps `0 <= startTime <= ticks`, so the operand
  is never negative. Then `(ticks - startTime) % period == 0` means the same
  in C, signed or unsigned, and in Dafny.

Three behaviours of the code worth knowing:

- `endBrew` does not clear `remainingWork`.
- A new release resets `remainingWork` even while the brew counter of an
  unfinished instance keeps counting.
- The brew task updates `taskTable` without taking the semaphore.

## Model

| member | source | states |
|---|---|---|
| CoffeeTypes.Code | Source/coffee.h:6-12 | the enumerator values are at most `DEFAULT_COFFEE` = 4, which only `DEFAULT_COFFEE` takes |
| CoffeeTypes.FromCode | Source/coffee.h:6-12 | decoding a value 0..4 gives the enumerator with that value |
| CoffeeTypes.LegacyCode | coffee.h:6-12 | the older enumerator values are at most 4, which only `DEFAULT_COFFEE` takes |
| CoffeeTypes.LegacyFromCode | coffee.h:6-12 | decoding a value 0..4 under the older header gives the enumerator with that value |
| CoffeeTypes.CodesRoundTrip | Source/coffee.h:6-12 | the encoding is one-to-one: decoding an enumerator's value gives it back |
| CoffeeTypes.LegacyCodesRoundTrip | coffee.h:6-12 | the older encoding is one-to-one: decoding an enumerator's value gives it back |
| CoffeeMenu.BrewDuration | Source/coffee.c:46-59 | a kind gets a positive brew time iff it is one of the four; every value is a multiple of 1000 ms and at most 10000 |
| CoffeeMenu.BrewDurationTable | Source/coffee.c:3-6 | espresso 3000, latte 5000, mocha 7000, black 10000 ms, in increasing order |
| CoffeeMenu.BrewTime | Source/coffee.c:42-44 | `getCoffeeBrewTime` is 1 for every kind |
| CoffeeMenu.CoffeeLed | Source/coffee.c:10-23 | each of the four kinds is shown on the LED numbered by its declaration position, anything else on green; only espresso and mocha are shown on the LED their enumerator is defined as |
| CoffeeMenu.CoffeeLedIsBijective | Source/coffee.c:10-23 | the four kinds get four distinct LEDs, covering every LED; `DEFAULT_COFFEE` gets green |
| CoffeeMenu.Next | Source/coffee.c:33-36 | the new selection's value is the old one plus 1 modulo 4, so it is never `DEFAULT_COFFEE` |
| CoffeeMenu.NextN | Source/coffee.c:33-36 | the selection after k `changeSelected` calls; its meaning is stated by `NextNCode`, `FourChangesRestore` and `NextNVisitsAll` |
| CoffeeMenu.NextNCode | Source/coffee.c:33-36 | after k calls the selection's value is the start value plus k modulo 4 |
| CoffeeMenu.FourChangesRestore | Source/coffee.c:33-36 | four `changeSelected` calls restore a selection that is one of the four kinds |
| CoffeeMenu.NextNVisitsAll | Source/coffee.c:33-36 | calls 1 to 4 visit every one of the four kinds from any selection |
| CoffeeMenu.Menu.constructor | Source/coffee.c:8 | the zero-initialised static `selected` is the enumerator with value 0 |
| CoffeeMenu.Menu.InitializeCoffee | Source/coffee.c:25-27 | stores the given kind as the selection |
| CoffeeMenu.Menu.GetSelected | Source/coffee.c:29-31 | returns the stored selection |
| CoffeeMenu.Menu.ChangeSelected | Source/coffee.c:33-36 | stores and returns the next selection, never `DEFAULT_COFFEE` |
| CoffeeMenu.Menu.GetLedForSelected | Source/coffee.c:38-40 | returns `getCoffeeLED` of the current selection |
| CoffeeMenu.SelectionCycle | Source/coffee.c:25-36 | `getSelected` after `initializeCoffee(t)` returns t, and four `changeSelected` calls come back to t |
| LegacyMenu.CoffeeLed | coffee.c:18-31 | each of the four kinds is shown on the LED whose number is its older enumerator value, anything else on green |
| LegacyMenu.CoffeeLedTable | coffee.c:18-31 | espresso green, latte orange, mocha red, black blue, anything else green; the same table as in Source/coffee.c |
| LegacyMenu.Next | coffee.c:13-16 | the new selection's older-header value is the old one plus 1 modulo 4, never `DEFAULT_COFFEE` |
| LegacyMenu.NextN | coffee.c:13-16 | the selection after k `changeSelected` calls; its meaning is stated by `NextNCode` and `SelectionOrder` |
| LegacyMenu.NextNCode | coffee.c:13-16 | after k calls the selection has advanced by k modulo 4 |
| LegacyMenu.SelectionOrder | coffee.c:13-16 | the older cursor walks espresso, latte, mocha, black and back, and four calls restore the selection; the newer module's order differs |
| LegacyMenu.Menu.constructor | coffee.c:3 | the zero-initialised static `selected` is `ESPRESSO` |
| LegacyMenu.Menu.InitializeCoffee | coffee.c:5-7 | stores the given kind as the selection |
| LegacyMenu.Menu.GetSelected | coffee.c:9-11 | returns the stored selection |
| LegacyMenu.Menu.ChangeSelected | coffee.c:13-16 | stores and returns the next selection, never `DEFAULT_COFFEE` |
| LegacyMenu.Menu.GetLedForSelected | coffee.c:33-35 | returns `getCoffeeLED` of the current selection |
| LegacyMenu.InitializeThenRead | coffee.c:5-11 | `getSelected` after `initializeCoffee(t)` returns t, and the LED shown is t's |
| BrewTable.Indexed | Source/main.c:124 | the layout the table's index expressions assume: four entries, entry i of type i |
| BrewTable.TableInvariant | Source/main.c:260-278 | what every cycle keeps: the table is indexed, no entry was armed after the current tick, and only armed entries have releases outstanding; kept by `ReleasedSpec`, `AssignedSpec` and `CycleSpec` |
| BrewTable.InitialTable | Source/main.c:68-69 | the fresh table satisfies the table invariant at tick 0, with nothing armed and nothing outstanding |
| BrewTable.InitialWork | Source/main.c:268 | a release's work budget is the kind's brew time in whole seconds, 3 to 10 units |
| BrewTable.Fires | Source/main.c:261-262 | the release test of one entry; `ReleasedSpec` proves it holds iff the entry is armed and a whole number of periods has passed since its start, and `ReleasesArePeriodic` that it recurs exactly every period |
| BrewTable.ReleaseEntry | Source/main.c:261-268 | one entry after the release step; `ReleasedSpec` states which fields change and how |
| BrewTable.Released | Source/main.c:260-269 | the table after the release loop; it has as many entries as before, and `ReleasedSpec` states it completely |
| BrewTable.ReleasedSpec | Source/main.c:260-269 | an entry fires iff it is armed and a whole number of periods has passed since its start; a firing entry gains exactly one release, deadline `ticks` + relative deadline and a full budget; other entries and fields are unchanged; the invariant is kept |
| BrewTable.ReleasesArePeriodic | Source/main.c:261-262 | an entry that fires at tick n fires again at n + period and at no tick in between |
| BrewTable.ReadyFrom | Source/main.c:272-278 | the ready list built from the first n entries; its meaning is stated by `ReadyFromSpec` |
| BrewTable.ReadyOf | Source/main.c:272-278 | the complete ready list; its meaning is stated by `ReadyOfSpec` |
| BrewTable.ReadyFromSpec | Source/main.c:272-278 | after i entries the list holds exactly the scheduled indices below i, strictly increasing, at most i of them |
| BrewTable.ReadyOfSpec | Source/main.c:272-278 | the ready list is exactly the entries with `scheduled > 0`, in increasing order, with count at most 4 |
| BrewTable.PolicyPriority | Source/main.c:124-150 | the priority each assigner writes; `PolicyOrder` states its ordering |
| BrewTable.Assigned | Source/main.c:120-152 | the table after an assigner ran over the ready list; it has as many entries as before, and `AssignedSpec` and `AssignedReady` state which entries and fields change |
| BrewTable.AssignedSpec | Source/main.c:120-152 | every assigner writes only `priority`, and only for the entries in the ready list; the table invariant is kept |
| BrewTable.PolicyOrder | Source/main.c:124-150 | fixed priority copies the static priority; under EDF an earlier deadline, and under LLF a smaller laxity, gives a strictly larger priority |
| BrewTable.Beats | Source/main.c:166-168 | the loop's take-over test; `ScanSpec` and `ScanDefaultIff` state its effect |
| BrewTable.Scan | Source/main.c:162-172 | the loop state after n entries; the choice is an enum value, at most `DEFAULT_COFFEE`; `ScanSpec` states the rest |
| BrewTable.HighestPriority | Source/main.c:160-175 | `getHighestPriorityTask`; its meaning is stated by `HighestPrioritySpec` |
| BrewTable.ScanSpec | Source/main.c:162-172 | after i entries of the loop the running maximum is at least `INT32_MIN`, bounds every scheduled priority seen, and belongs to the chosen entry, which has the largest static priority among equals and the lowest index on a full tie |
| BrewTable.ScanDefaultIff | Source/main.c:162-172 | the loop keeps `DEFAULT_COFFEE` iff every scheduled entry seen can never beat the initial choice |
| BrewTable.HighestPrioritySpec | Source/main.c:160-175 | the result is `DEFAULT_COFFEE` or a scheduled entry; it has the largest priority, then the largest static priority, then the lowest index; it is `DEFAULT_COFFEE` iff every scheduled entry is below, or at without a larger static priority than `DEFAULT_COFFEE`, `INT32_MIN` — in particular when nothing is scheduled |
| BrewTable.ScanIgnoresUnscheduled | Source/main.c:166-170 | the loop's state depends only on which entries are scheduled and on their priorities |
| BrewTable.HighestIgnoresUnscheduled | Source/main.c:160-175 | stale priorities of unscheduled entries never change the dispatcher's result |
| BrewTable.Winner | Source/main.c:280-288 | the entry a policy dispatches; stated by `FixedPriorityPicksLargestStatic`, `EdfPicksEarliestDeadline` and `LlfPicksLeastLaxity` |
| BrewTable.AssignedReady | Source/main.c:272-286 | after the ready list and the assigner, every scheduled entry carries its policy's priority and `scheduled` is unchanged |
| BrewTable.FixedPriorityPicksLargestStatic | Source/main.c:120-175 | under fixed priority the winner is scheduled and has the largest static priority, the lowest index among equals; it idles only when every scheduled static priority is hopeless |
| BrewTable.EdfPicksEarliestDeadline | Source/main.c:131-175 | under EDF the winner is scheduled and has the earliest deadline, and among equal deadlines the largest static priority; it dispatches someone whenever a scheduled deadline is below 2^31 |
| BrewTable.LlfPicksLeastLaxity | Source/main.c:144-175 | under LLF the winner is scheduled and has the least laxity, and among equal laxities the largest static priority; it dispatches someone whenever a scheduled laxity is below 2^31 |
| BrewTable.CycleTable | Source/main.c:256-293 | the table after one locked cycle; it has as many entries as before, and `CycleSpec` and `IdleCycle` state what it keeps |
| BrewTable.CycleWinner | Source/main.c:256-293 | what one locked cycle dispatches; `CycleSpec` proves it is `DEFAULT_COFFEE` or an entry with releases outstanding |
| BrewTable.CycleSpec | Source/main.c:256-306 | a cycle keeps the table invariant from tick n to n + 1, and what it dispatches is `DEFAULT_COFFEE` or an entry with a release outstanding |
| BrewTable.IdleCycle | Source/main.c:259-293 | with nothing armed a cycle leaves the table unchanged and dispatches nothing |
| BrewTable.Cycles | Source/main.c:255-309 | any number of consecutive locked cycles keep the table invariant |
| BrewTable.IdleCyclesChangeNothing | Source/main.c:255-309 | with nothing armed, any number of cycles leave the table unchanged |
| BrewTable.ArmedAll | Source/main.c:318-324 | after arming all, every entry is armed with the same start time |
| BrewTable.BrewIteration | Source/main.c:220-227 | one brew-loop iteration; stated by `BrewIterationsFromZero` and `BrewCompletesExactlyOnce` |
| BrewTable.BrewIterations | Source/main.c:220-227 | k brew-loop iterations; stated by `BrewIterationsFromZero` and `BrewCompletesExactlyOnce` |
| BrewTable.BrewIterationsFromZero | Source/main.c:220-227 | from a cleared counter, k iterations give counter 500·k and remove one work unit per full second, ⌊k/2⌋ |
| BrewTable.BrewCompletesExactlyOnce | Source/main.c:220-231 | an uninterrupted release first reaches its brew time after exactly twice its work units, and its remaining work is then exactly 0 |
| BrewScenarios.FirstRelease | Source/main.c:260-269 | with all four armed at tick 0 every job is released once, with deadlines 5, 10, 15, 20 and budgets 3, 10, 7, 5 |
| BrewScenarios.SameStartFixedPriority | Source/main.c:120-126 | fixed priority dispatches job 3, the largest static priority |
| BrewScenarios.SameStartEdf | Source/main.c:131-139 | EDF dispatches job 0, the earliest deadline |
| BrewScenarios.SameStartLlf | Source/main.c:144-152 | LLF dispatches job 1, laxity 0 |
| BrewScheduler.Scheduler.constructor | Source/main.c:52-69 | the zero-initialised globals: the initial table, cleared counters, tick 0, no misses, nothing running |
| BrewScheduler.Scheduler.ReleaseDue | Source/main.c:260-269 | the table becomes `Released` of the old table at the current tick |
| BrewScheduler.Scheduler.ReadyList | Source/main.c:272-278 | returns exactly the kinds with `scheduled > 0`, strictly increasing, at most 4 |
| BrewScheduler.Scheduler.AssignFixedPriority | Source/main.c:120-126 | the listed entries get their static priority; nothing else changes |
| BrewScheduler.Scheduler.AssignEarliestDeadlineFirst | Source/main.c:131-139 | the listed entries get the negated deadline; nothing else changes |
| BrewScheduler.Scheduler.AssignLeastLaxityFirst | Source/main.c:144-152 | the listed entries get the negated laxity; nothing else changes |
| BrewScheduler.Scheduler.Assign | Source/main.c:280-286 | runs the assigner the build selected |
| BrewScheduler.Scheduler.GetHighestPriorityTask | Source/main.c:160-175 | returns `HighestPriority` of the table, whose meaning `HighestPrioritySpec` states |
| BrewScheduler.Scheduler.Cycle | Source/main.c:255-309 | without the lock nothing changes; with it the table becomes `CycleTable`, the winner (if any) is the only running task and `ticks` grows by exactly 1; `missedDeadlines` never changes |
| BrewScheduler.Scheduler.EndBrew | Source/main.c:191-208 | clears the kind's counter, removes one outstanding release, adds exactly 1 to `missedDeadlines` iff `ticks` is past the deadline, suspends the kind's task; nothing else changes |
| BrewScheduler.Scheduler.BrewStep | Source/main.c:220-231 | adds 500 ms to the counter, takes one work unit per full second, and ends the brew exactly when the counter reaches the brew time |
| BrewScheduler.Scheduler.StartCoffeeType | Source/main.c:312-316 | sets only `started` and `startTime = ticks` of that entry |
| BrewScheduler.Scheduler.StartAllCoffees | Source/main.c:318-324 | arms all four entries with the same start time and changes nothing else |
| BrewScheduler.Scheduler.SelectNextCoffee | Source/main.c:329-340 | calls `changeSelected` 1 to 5 times and stops at the first kind not armed; it gives up after the fifth call only when all four are armed; the LED turned on is the selection's |

## Left out

- FreeRTOS task machinery (`Source/main.c:97-111`, `181-186`, `240`, `307`):
  - Task creation, the delays and real preemption are not modelled.
  - `vTaskSuspend` and `vTaskResume` only update the ghost `running`.
  - Each scheduler pass and each brew iteration is one atomic step. So the
    brew task's unlocked access to the table is not modelled as interleaving
    with the scheduler.
- The debugger trap in `vScheduler` (`Source/main.c:296-304`): the
  `ticksSinceStart > 100` halt and `missedDeadlinesCopy` exist only for a
  breakpoint.
- Peripheral output: `blinkLED`, `TM_DelayMillis`, `turnOffLED`, `turnOnLED`,
  `resetAllLEDs`, `prepareSound` and `playSound`. The LED that
  `selectNextCoffee` would light is returned instead.
- `getLEDForCoffeeType`: it is not defined in any file of the model and it
  only feeds LED output.
- `vButtonUpdate` and `main`: GPIO polling, debouncing and hardware
  start-up.
- `Source/sound.c`, `Source/delay.c`, `Source/led.c` and `led.c`:
  floating-point synthesis, audio codec I/O, cycle-count busy waits and board
  LED wrappers.
- Machine-width arithmetic: fields are unbounded integers.
  - The model does not include `int32_t` overflow of `ticks`, `deadline` and
    `priority`, nor the overflow of negating `INT32_MIN` under EDF or LLF.
  - The model does not include `uint32_t` wrap-around of `brewCounters` and
    `missedDeadlines`.
- BrewScheduler.Scheduler.EndBrew: it requires `scheduled > 0`. Decrementing
  the unsigned counter at 0 would wrap, and only the running task, which
  always has a release outstanding, calls it.
- The source's own job-table layout (`Source/main.c:54`, `:68`). Its
  initializer puts `LATTE` in entry 0 and `ESPRESSO` in entry 1, names the
  undefined `CAPPUCCINO` and has no `BLACK` job. The model replaces it with
  entry `i` of type `i` and brew task `i` brewing kind `i`. So it does not
  capture what these index expressions do when run on the source's layout:
  - The assigners write the entry indexed by the listed type,
    `taskTable[scheduled[i]]` (`:124`, `:137`, `:150`).
  - The ready list lists `taskTable[i].type` (`:275`).
  - The dispatcher reads the entry indexed by position, `taskTable[i].priority`
    (`:167`). That is a different entry from the one the assigners wrote.
  - Brew task `xBrewTasks[i]` brews `coffees[i]` (`:101-103`), but
    `brewCoffeeType` and `endBrew` index `xBrewTasks` by type (`:240`,
    `:207`). Resuming `ESPRESSO` therefore resumes the task that brews `LATTE`.
- BrewScheduler.Scheduler.StartAllCoffees: it arms the entries in index
  order instead of through the array `coffees[]` (`Source/main.c:54`). That
  array names the undefined `CAPPUCCINO`. Each entry is armed once with the
  same tick, so the order does not affect the result.
