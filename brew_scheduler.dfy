/** Source/main.c: the job table `taskTable`, the clock `ticks`, the counter
    `missedDeadlines` and the brew counters `brewCounters`, and the procedures
    that update them in place. The brew task that the RTOS currently lets run
    is the ghost field `running`; suspending and resuming tasks only changes it. */
module BrewScheduler {
  import opened CoffeeTypes
  import opened BrewTable
  import CoffeeMenu

  class Scheduler {
    /** `taskTable[LEDn]` */
    const table: array<Task>
    /** `brewCounters[LEDn]`: milliseconds brewed since the last completion. */
    const brewCounters: array<nat>
    /** The catalog functions the scheduler calls. */
    const catalog: Catalog
    /** Which of `FIXED_PRIORITY`, `EARLIEST_DEADLINE_FIRST` and
        `LEAST_LAXITY_FIRST` the build defines. */
    const policy: Policy
    var ticks: int
    var missedDeadlines: nat
    /** The enum value of the brew task last resumed, `DEFAULT_COFFEE` when none is. */
    ghost var running: nat

    ghost predicate Valid()
      reads this, table
    {
      && table.Length == NumCoffees
      && brewCounters.Length == NumCoffees
      && catalog.Valid()
      && TableInvariant(table[..], ticks)
      && (running == DefaultCode || (running < NumCoffees && table[running].scheduled > 0))
    }

    /** The zero-initialised globals: an idle table, cleared counters, tick 0. */
    constructor (catalog: Catalog, policy: Policy)
      requires catalog.Valid()
      ensures Valid() && fresh(table) && fresh(brewCounters)
      ensures this.catalog == catalog && this.policy == policy
      ensures table[..] == InitialTable()
      ensures forall i :: 0 <= i < NumCoffees ==> brewCounters[i] == 0
      ensures ticks == 0 && missedDeadlines == 0 && running == DefaultCode
    {
      this.catalog := catalog;
      this.policy := policy;
      table := new Task[NumCoffees](i requires 0 <= i < NumCoffees => Task(0, i, 0, 0, 0, false, 0));
      brewCounters := new nat[NumCoffees](i => 0);
      ticks := 0;
      missedDeadlines := 0;
      running := DefaultCode;
      new;
      assert table[..] == InitialTable();
    }

    /** The release loop of `vScheduler`. */
    method ReleaseDue()
      requires Valid()
      modifies table
      ensures Valid()
      ensures table[..] == Released(old(table[..]), ticks, catalog)
    {
      ghost var t0 := table[..];
      assert Indexed(t0);
      for i := 0 to NumCoffees
        invariant forall j :: 0 <= j < i ==> table[j] == ReleaseEntry(t0[j], ticks, catalog)
        invariant forall j :: i <= j < NumCoffees ==> table[j] == t0[j]
      {
        if table[i].started && (ticks - table[i].startTime) % catalog.periods[table[i].kind] == 0 {
          table[i] := table[i].(scheduled := table[i].scheduled + 1,
                                deadline := ticks + catalog.deadlines[table[i].kind],
                                remainingWork := CoffeeMenu.BrewDuration(FromCode(table[i].kind)) / 1000);
        }
      }
      assert table[..] == Released(t0, ticks, catalog);
      ReleasedSpec(t0, ticks, catalog);
    }

    /** The loop that fills `scheduled[]` and `scheduledCount`: the list holds
        exactly the kinds with releases outstanding, in increasing order. */
    method ReadyList() returns (ready: seq<nat>)
      requires Valid()
      ensures ready == ReadyOf(table[..])
      ensures |ready| <= NumCoffees
      ensures forall k :: 0 <= k < |ready| ==> ready[k] < NumCoffees && table[ready[k]].scheduled > 0
      ensures forall i :: 0 <= i < NumCoffees ==> (i in ready <==> table[i].scheduled > 0)
      ensures forall a, b :: 0 <= a < b < |ready| ==> ready[a] < ready[b]
    {
      ready := [];
      for i := 0 to NumCoffees
        invariant ready == ReadyFrom(table[..], i)
      {
        if table[i].scheduled > 0 {
          ready := ready + [table[i].kind];
        }
      }
      ReadyOfSpec(table[..]);
    }

    /** `schedule_FixedPriority` */
    method AssignFixedPriority(ready: seq<nat>)
      requires Valid() && forall k :: 0 <= k < |ready| ==> ready[k] < NumCoffees
      modifies table
      ensures Valid()
      ensures table[..] == Assigned(old(table[..]), ready, FixedPriority, catalog)
    {
      ghost var t0 := table[..];
      assert Indexed(t0);
      for k := 0 to |ready|
        invariant forall i :: 0 <= i < NumCoffees ==>
          table[i] == if i in ready[..k] then t0[i].(priority := PolicyPriority(FixedPriority, t0[i], catalog)) else t0[i]
      {
        var x := ready[k];
        assert forall i :: i in ready[..k + 1] <==> i in ready[..k] || i == x by {
          assert ready[..k + 1] == ready[..k] + [x];
        }
        table[x] := table[x].(priority := catalog.priorities[x]);
      }
      assert ready[..|ready|] == ready;
      assert table[..] == Assigned(t0, ready, FixedPriority, catalog);
      AssignedSpec(t0, ready, FixedPriority, catalog, ticks);
    }

    /** `schedule_EarliestDeadlineFirst` */
    method AssignEarliestDeadlineFirst(ready: seq<nat>)
      requires Valid() && forall k :: 0 <= k < |ready| ==> ready[k] < NumCoffees
      modifies table
      ensures Valid()
      ensures table[..] == Assigned(old(table[..]), ready, EarliestDeadlineFirst, catalog)
    {
      ghost var t0 := table[..];
      assert Indexed(t0);
      for k := 0 to |ready|
        invariant forall i :: 0 <= i < NumCoffees ==>
          table[i] == if i in ready[..k] then t0[i].(priority := PolicyPriority(EarliestDeadlineFirst, t0[i], catalog)) else t0[i]
      {
        var x := ready[k];
        assert forall i :: i in ready[..k + 1] <==> i in ready[..k] || i == x by {
          assert ready[..k + 1] == ready[..k] + [x];
        }
        table[x] := table[x].(priority := -(table[x].deadline));
      }
      assert ready[..|ready|] == ready;
      assert table[..] == Assigned(t0, ready, EarliestDeadlineFirst, catalog);
      AssignedSpec(t0, ready, EarliestDeadlineFirst, catalog, ticks);
    }

    /** `schedule_LeastLaxityFirst` */
    method AssignLeastLaxityFirst(ready: seq<nat>)
      requires Valid() && forall k :: 0 <= k < |ready| ==> ready[k] < NumCoffees
      modifies table
      ensures Valid()
      ensures table[..] == Assigned(old(table[..]), ready, LeastLaxityFirst, catalog)
    {
      ghost var t0 := table[..];
      assert Indexed(t0);
      for k := 0 to |ready|
        invariant forall i :: 0 <= i < NumCoffees ==>
          table[i] == if i in ready[..k] then t0[i].(priority := PolicyPriority(LeastLaxityFirst, t0[i], catalog)) else t0[i]
      {
        var x := ready[k];
        assert forall i :: i in ready[..k + 1] <==> i in ready[..k] || i == x by {
          assert ready[..k + 1] == ready[..k] + [x];
        }
        table[x] := table[x].(priority := -(table[x].deadline - table[x].remainingWork));
      }
      assert ready[..|ready|] == ready;
      assert table[..] == Assigned(t0, ready, LeastLaxityFirst, catalog);
      AssignedSpec(t0, ready, LeastLaxityFirst, catalog, ticks);
    }

    /** The `#ifdef` that calls the assigner the build selected. */
    method Assign(ready: seq<nat>)
      requires Valid() && forall k :: 0 <= k < |ready| ==> ready[k] < NumCoffees
      modifies table
      ensures Valid()
      ensures table[..] == Assigned(old(table[..]), ready, policy, catalog)
    {
      match policy
      case FixedPriority => AssignFixedPriority(ready);
      case EarliestDeadlineFirst => AssignEarliestDeadlineFirst(ready);
      case LeastLaxityFirst => AssignLeastLaxityFirst(ready);
    }

    /** `getHighestPriorityTask` */
    method GetHighestPriorityTask() returns (selectedTypeToBrew: nat)
      requires Valid()
      ensures selectedTypeToBrew == HighestPriority(table[..], catalog)
    {
      selectedTypeToBrew := DefaultCode;
      var maxPriority := Int32Min;
      for i := 0 to NumCoffees
        invariant (selectedTypeToBrew, maxPriority) == Scan(table[..], catalog, i)
      {
        if table[i].scheduled > 0
          && (table[i].priority > maxPriority
              || (table[i].priority == maxPriority
                  && catalog.priorities[table[i].kind] > catalog.priorities[selectedTypeToBrew]))
        {
          maxPriority := table[i].priority;
          selectedTypeToBrew := table[i].kind;
        }
      }
    }

    /** One pass of `vScheduler`'s loop. `lockAcquired` is the outcome of the
        non-blocking `xSemaphoreTake`; when it fails the pass changes nothing.
        Otherwise it releases, assigns priorities, dispatches the winner (if
        any) in place of every other brew task, and advances the clock by one. */
    method Cycle(lockAcquired: bool)
      requires Valid()
      modifies this, table
      ensures Valid()
      ensures missedDeadlines == old(missedDeadlines)
      ensures !lockAcquired ==> ticks == old(ticks) && table[..] == old(table[..]) && running == old(running)
      ensures lockAcquired ==>
        && ticks == old(ticks) + 1
        && table[..] == CycleTable(old(table[..]), old(ticks), policy, catalog)
        && running == (var w := CycleWinner(old(table[..]), old(ticks), policy, catalog);
                       if w == DefaultCode then old(running) else w)
    {
      if lockAcquired {
        ghost var t0 := table[..];
        CycleSpec(t0, ticks, policy, catalog);
        ReleaseDue();
        var ready := ReadyList();
        Assign(ready);
        var selectedCoffeeToBrew := GetHighestPriorityTask();
        if selectedCoffeeToBrew != DefaultCode {
          // pauseAllBrews(); brewCoffeeType(selectedCoffeeToBrew);
          running := selectedCoffeeToBrew;
        }
        ticks := ticks + 1;
      }
    }

    /** The bookkeeping of `endBrew`: clear the counter, retire one release,
        count a miss when the clock is past the deadline, and suspend the task. */
    method EndBrew(coffee: nat)
      requires Valid() && coffee < NumCoffees && table[coffee].scheduled > 0
      modifies this, table, brewCounters
      ensures Valid()
      ensures brewCounters[..] == old(brewCounters[..])[coffee := 0]
      ensures table[..] == old(table[..])[coffee := old(table[coffee]).(scheduled := old(table[coffee].scheduled) - 1)]
      ensures missedDeadlines == old(missedDeadlines) + (if ticks > old(table[coffee].deadline) then 1 else 0)
      ensures ticks == old(ticks)
      ensures running == (if old(running) == coffee then DefaultCode else old(running))
    {
      brewCounters[coffee] := 0;
      table[coffee] := table[coffee].(scheduled := table[coffee].scheduled - 1);
      if ticks > table[coffee].deadline {
        missedDeadlines := missedDeadlines + 1;
      }
      if running == coffee {
        // vTaskSuspend(xBrewTasks[coffee]);
        running := DefaultCode;
      }
    }

    /** One iteration of `vBrewCoffeeType` for the task that is running: add
        `BLINK_TOGGLE` to its counter, take one unit of work per full second,
        and end the brew once the counter reaches the brew time. */
    method BrewStep(coffee: nat)
      requires Valid() && coffee < NumCoffees && running == coffee
      modifies this, table, brewCounters
      ensures Valid()
      ensures
        var next := BrewIteration(Brew(old(brewCounters[coffee]), old(table[coffee].remainingWork)));
        var done := next.counter >= CoffeeMenu.BrewDuration(FromCode(coffee));
        && brewCounters[..] == old(brewCounters[..])[coffee := if done then 0 else next.counter]
        && table[..] == old(table[..])[coffee := old(table[coffee]).(
             remainingWork := next.work,
             scheduled := if done then old(table[coffee].scheduled) - 1 else old(table[coffee].scheduled))]
        && missedDeadlines == old(missedDeadlines) + (if done && ticks > old(table[coffee].deadline) then 1 else 0)
        && running == (if done then DefaultCode else coffee)
        && ticks == old(ticks)
    {
      brewCounters[coffee] := brewCounters[coffee] + BlinkToggle;
      if brewCounters[coffee] % (BlinkToggle * 2) == 0 {
        table[coffee] := table[coffee].(remainingWork := table[coffee].remainingWork - 1);
      }
      if brewCounters[coffee] >= CoffeeMenu.BrewDuration(FromCode(coffee)) {
        EndBrew(coffee);
      }
    }

    /** `startCoffeeType`: arm one kind for periodic release from now. */
    method StartCoffeeType(coffee: nat)
      requires Valid() && coffee < NumCoffees
      modifies table
      ensures Valid()
      ensures table[..] == old(table[..])[coffee := old(table[coffee]).(started := true, startTime := ticks)]
    {
      table[coffee] := table[coffee].(started := true, startTime := ticks);
    }

    /** `startAllCoffees`: arm every kind with the same start time. */
    method StartAllCoffees()
      requires Valid()
      modifies table
      ensures Valid()
      ensures table[..] == ArmedAll(old(table[..]), ticks)
      ensures forall i :: 0 <= i < NumCoffees ==> table[i] == old(table[i]).(started := true, startTime := ticks)
    {
      for i := 0 to NumCoffees
        invariant Valid()
        invariant forall j :: 0 <= j < i ==> table[j] == old(table[j]).(started := true, startTime := ticks)
        invariant forall j :: i <= j < NumCoffees ==> table[j] == old(table[j])
      {
        StartCoffeeType(i);
      }
      assert table[..] == ArmedAll(old(table[..]), ticks);
    }

    /** `selectNextCoffee`: advance the cursor past kinds already armed, giving
        up after the fifth `changeSelected`. `lit` is the LED turned on, `None`
        on the early return; `calls` counts the `changeSelected` calls. */
    method SelectNextCoffee(menu: CoffeeMenu.Menu) returns (lit: Option<Led>, ghost calls: nat)
      requires Valid()
      modifies menu
      ensures 1 <= calls <= 5
      ensures menu.selected == CoffeeMenu.NextN(old(menu.selected), calls)
      ensures forall k :: 1 <= k < calls ==> table[Code(CoffeeMenu.NextN(old(menu.selected), k))].started
      ensures lit.Some? ==> !table[Code(menu.selected)].started && lit.value == CoffeeMenu.CoffeeLed(menu.selected)
      ensures lit.None? ==> calls == 5 && forall i :: 0 <= i < NumCoffees ==> table[i].started
    {
      var count: nat := 0;
      var c := menu.ChangeSelected();
      calls := 1;
      while table[Code(c)].started
        invariant 1 <= calls <= 5 && count == calls - 1
        invariant c == menu.selected == CoffeeMenu.NextN(old(menu.selected), calls) && c != DefaultCoffee
        invariant forall k :: 1 <= k < calls ==> table[Code(CoffeeMenu.NextN(old(menu.selected), k))].started
        decreases 5 - calls
      {
        count := count + 1;
        if count > 4 {
          forall i | 0 <= i < NumCoffees
            ensures table[i].started
          {
            CoffeeMenu.NextNVisitsAll(old(menu.selected), FromCode(i));
          }
          lit := None;
          return;
        }
        c := menu.ChangeSelected();
        calls := calls + 1;
      }
      var selectedLed := menu.GetLedForSelected();
      lit := Some(selectedLed);
    }
  }
}
