/** The job table of Source/main.c as values, and the specification of every
    step the scheduler performs on it: release, ready list, the three priority
    assigners, the dispatcher's selection and the brew task's counter. The
    methods of BrewScheduler are proved against these functions. */
module BrewTable {
  import opened CoffeeTypes
  import CoffeeMenu

  /** `0x80000000` read as an `int32_t`: the dispatcher's starting maximum. */
  const Int32Min: int := -0x8000_0000

  /** `BLINK_TOGGLE`: milliseconds one brew iteration adds to its counter. */
  const BlinkToggle: nat := 500

  /** One `CoffeeTask` record. `kind` is the field `type`; `started` is the
      `int32_t` flag, which only ever holds 0 or 1. */
  datatype Task = Task(
    priority: int,
    kind: nat,
    scheduled: nat,
    deadline: int,
    remainingWork: int,
    started: bool,
    startTime: int)

  /** `getCoffeePriority`, `getCoffeePeriod` and `getCoffeeDeadline`, which are
      not part of this model, as tables indexed by enum value. The priority
      table also covers `DEFAULT_COFFEE`, which the dispatcher looks up. */
  datatype Catalog = Catalog(priorities: seq<int>, periods: seq<int>, deadlines: seq<int>)
  {
    predicate Valid()
    {
      && |priorities| == NumCoffees + 1
      && |periods| == NumCoffees
      && |deadlines| == NumCoffees
      && forall i :: 0 <= i < NumCoffees ==> periods[i] > 0
    }
  }

  /** The build-time choice among the three assigners. */
  datatype Policy = FixedPriority | EarliestDeadlineFirst | LeastLaxityFirst

  /** The table is indexed by enum value: `taskTable[i].type == i`. */
  predicate Indexed(t: seq<Task>)
  {
    |t| == NumCoffees && forall i :: 0 <= i < |t| ==> t[i].kind == i
  }

  /** The invariant every scheduler cycle keeps at tick `now`: the table is
      indexed by kind, no entry was armed in the future, and only an armed
      entry has releases outstanding. */
  predicate TableInvariant(t: seq<Task>, now: int)
  {
    && Indexed(t)
    && 0 <= now
    && forall i :: 0 <= i < |t| ==> 0 <= t[i].startTime <= now && (t[i].scheduled > 0 ==> t[i].started)
  }

  /** The zeroed table of a fresh start. */
  function InitialTable(): (t: seq<Task>)
    ensures TableInvariant(t, 0)
    ensures forall i :: 0 <= i < |t| ==> !t[i].started && t[i].scheduled == 0
  {
    seq(NumCoffees, i requires 0 <= i < NumCoffees => Task(0, i, 0, 0, 0, false, 0))
  }

  // ---------------------------------------------------------------- release

  /** Whether entry `e` is released at tick `now`. Under the table invariant
      `now - startTime` is never negative, so C's `%` and Dafny's agree here
      whether the period is a signed or an unsigned value. */
  predicate Fires(e: Task, now: int, cat: Catalog)
    requires cat.Valid() && e.kind < NumCoffees
  {
    e.started && (now - e.startTime) % cat.periods[e.kind] == 0
  }

  /** The work units of a fresh release: the brew time in seconds. */
  function InitialWork(kind: nat): (w: nat)
    requires kind < NumCoffees
    ensures 3 <= w <= 10
    ensures w * 1000 == CoffeeMenu.BrewDuration(FromCode(kind))
  {
    CoffeeMenu.BrewDuration(FromCode(kind)) / 1000
  }

  /** One entry after the release step at tick `now`. */
  function ReleaseEntry(e: Task, now: int, cat: Catalog): Task
    requires cat.Valid() && e.kind < NumCoffees
  {
    if Fires(e, now, cat) then
      e.(scheduled := e.scheduled + 1,
         deadline := now + cat.deadlines[e.kind],
         remainingWork := InitialWork(e.kind))
    else e
  }

  /** The table after the release loop at tick `now`. */
  function Released(t: seq<Task>, now: int, cat: Catalog): (r: seq<Task>)
    requires Indexed(t) && cat.Valid()
    ensures |r| == |t|
  {
    seq(|t|, i requires 0 <= i < |t| => ReleaseEntry(t[i], now, cat))
  }

  /** The release step, entry by entry: an entry fires iff it is armed and a
      whole number of periods has passed since its start; a firing entry gets
      exactly one more outstanding release, deadline `now` plus its relative
      deadline and a full work budget; every other field, and every entry that
      does not fire, is unchanged. The table invariant is kept. */
  lemma ReleasedSpec(t: seq<Task>, now: int, cat: Catalog)
    requires TableInvariant(t, now) && cat.Valid()
    ensures TableInvariant(Released(t, now, cat), now)
    ensures forall i :: 0 <= i < |t| ==>
      var e, r := t[i], Released(t, now, cat)[i];
      && (Fires(e, now, cat) <==> e.started && exists k: nat :: now == e.startTime + k * cat.periods[i])
      && (Fires(e, now, cat) ==>
            r.scheduled == e.scheduled + 1 && r.deadline == now + cat.deadlines[i]
            && r.remainingWork * 1000 == CoffeeMenu.BrewDuration(FromCode(i)))
      && (!Fires(e, now, cat) ==> r == e)
      && r.priority == e.priority && r.kind == e.kind && r.started == e.started && r.startTime == e.startTime
  {
    forall i | 0 <= i < |t|
      ensures Fires(t[i], now, cat) <==> t[i].started && exists k: nat :: now == t[i].startTime + k * cat.periods[i]
    {
      MultipleOfPeriod(now - t[i].startTime, cat.periods[i]);
    }
  }

  /** A non-negative `x` leaves remainder 0 modulo `p` iff it is a whole
      number of `p`s. */
  lemma MultipleOfPeriod(x: int, p: int)
    requires x >= 0 && p > 0
    ensures x % p == 0 <==> exists k: nat :: x == k * p
  {
    if x % p == 0 {
      var k: nat := x / p;
      assert x == k * p;
    }
    if exists k: nat :: x == k * p {
      var k: nat :| x == k * p;
      ModUnique(x, p, k, 0);
    }
  }

  /** An armed entry that fires at `now` fires again exactly one period later
      and at no tick in between. */
  lemma ReleasesArePeriodic(e: Task, now: int, d: int, cat: Catalog)
    requires cat.Valid() && e.kind < NumCoffees
    requires Fires(e, now, cat) && 0 < d <= cat.periods[e.kind]
    ensures Fires(e, now + d, cat) <==> d == cat.periods[e.kind]
  {
    var p, x := cat.periods[e.kind], now - e.startTime;
    var q := x / p;
    assert x == q * p;
    if d < p {
      ModUnique(x + d, p, q, d);
    } else {
      assert x + d == (q + 1) * p;
      ModUnique(x + d, p, q + 1, 0);
    }
  }

  /** Division with remainder is unique. */
  lemma ModUnique(x: int, p: int, q: int, d: int)
    requires p > 0 && 0 <= d < p && x == q * p + d
    ensures x % p == d && x / p == q
  {
    var q', r := x / p, x % p;
    assert x == q' * p + r;
    assert (q - q') * p == r - d;
    if q - q' >= 1 {
      AtLeastOnce(q - q', p);
    }
    if q' - q >= 1 {
      AtLeastOnce(q' - q, p);
    }
  }

  lemma {:induction false} AtLeastOnce(a: int, p: int)
    requires a >= 1 && p > 0
    ensures a * p >= p
  {
    if a > 1 {
      AtLeastOnce(a - 1, p);
      assert a * p == (a - 1) * p + p;
    }
  }

  // ------------------------------------------------------------- ready list

  /** The ready list the loop builds from the first `n` entries: the `type`
      of every entry with releases outstanding, in table order. */
  function ReadyFrom(t: seq<Task>, n: nat): seq<nat>
    requires n <= |t|
  {
    if n == 0 then []
    else ReadyFrom(t, n - 1) + (if t[n - 1].scheduled > 0 then [t[n - 1].kind] else [])
  }

  /** The complete ready list handed to the assigner. */
  function ReadyOf(t: seq<Task>): seq<nat>
  {
    ReadyFrom(t, |t|)
  }

  /** On an indexed table, the ready list holds exactly the indices below `n`
      whose entry has releases outstanding, strictly increasing, at most `n`
      of them. */
  lemma {:induction false} ReadyFromSpec(t: seq<Task>, n: nat)
    requires Indexed(t) && n <= |t|
    ensures |ReadyFrom(t, n)| <= n
    ensures forall k :: 0 <= k < |ReadyFrom(t, n)| ==> ReadyFrom(t, n)[k] < n && t[ReadyFrom(t, n)[k]].scheduled > 0
    ensures forall i :: 0 <= i < n ==> (i in ReadyFrom(t, n) <==> t[i].scheduled > 0)
    ensures forall a, b :: 0 <= a < b < |ReadyFrom(t, n)| ==> ReadyFrom(t, n)[a] < ReadyFrom(t, n)[b]
  {
    if n > 0 {
      ReadyFromSpec(t, n - 1);
    }
  }

  /** With nothing outstanding the ready list is empty. */
  lemma {:induction false} ReadyFromNone(t: seq<Task>, n: nat)
    requires n <= |t| && forall i :: 0 <= i < n ==> t[i].scheduled == 0
    ensures ReadyFrom(t, n) == []
  {
    if n > 0 {
      ReadyFromNone(t, n - 1);
    }
  }

  /** The whole ready list: exactly the scheduled entries, in increasing order. */
  lemma ReadyOfSpec(t: seq<Task>)
    requires Indexed(t)
    ensures |ReadyOf(t)| <= NumCoffees
    ensures forall i :: 0 <= i < |t| ==> (i in ReadyOf(t) <==> t[i].scheduled > 0)
    ensures forall x :: x in ReadyOf(t) ==> x < NumCoffees
    ensures forall k :: 0 <= k < |ReadyOf(t)| ==> ReadyOf(t)[k] < NumCoffees && t[ReadyOf(t)[k]].scheduled > 0
    ensures forall a, b :: 0 <= a < b < |ReadyOf(t)| ==> ReadyOf(t)[a] < ReadyOf(t)[b]
  {
    ReadyFromSpec(t, |t|);
  }

  // ------------------------------------------------------------- assigners

  /** The priority each policy gives entry `e`: its static priority, the
      negated deadline, or the negated laxity. */
  function PolicyPriority(p: Policy, e: Task, cat: Catalog): int
    requires cat.Valid() && e.kind < NumCoffees
  {
    match p
    case FixedPriority => cat.priorities[e.kind]
    case EarliestDeadlineFirst => -e.deadline
    case LeastLaxityFirst => -(e.deadline - e.remainingWork)
  }

  /** The table after an assigner ran over `ready`. */
  function Assigned(t: seq<Task>, ready: seq<nat>, p: Policy, cat: Catalog): (r: seq<Task>)
    requires Indexed(t) && cat.Valid()
    ensures |r| == |t|
  {
    seq(|t|, i requires 0 <= i < |t| =>
      if i in ready then t[i].(priority := PolicyPriority(p, t[i], cat)) else t[i])
  }

  /** Every assigner writes only the `priority` field, and only of the entries
      listed in `ready`; it keeps the table invariant. */
  lemma AssignedSpec(t: seq<Task>, ready: seq<nat>, p: Policy, cat: Catalog, now: int)
    requires TableInvariant(t, now) && cat.Valid()
    ensures TableInvariant(Assigned(t, ready, p, cat), now)
    ensures forall i :: 0 <= i < |t| ==> Assigned(t, ready, p, cat)[i] == t[i].(priority := Assigned(t, ready, p, cat)[i].priority)
    ensures forall i :: 0 <= i < |t| && i !in ready ==> Assigned(t, ready, p, cat)[i] == t[i]
  {
  }

  /** Earliest deadline first and least laxity first order the entries the
      way their names say: an earlier deadline, or a smaller laxity, gives a
      strictly larger priority. */
  lemma PolicyOrder(e: Task, f: Task, cat: Catalog)
    requires cat.Valid() && e.kind < NumCoffees && f.kind < NumCoffees
    ensures e.deadline < f.deadline <==>
      PolicyPriority(EarliestDeadlineFirst, e, cat) > PolicyPriority(EarliestDeadlineFirst, f, cat)
    ensures e.deadline - e.remainingWork < f.deadline - f.remainingWork <==>
      PolicyPriority(LeastLaxityFirst, e, cat) > PolicyPriority(LeastLaxityFirst, f, cat)
    ensures PolicyPriority(FixedPriority, e, cat) == cat.priorities[e.kind]
  {
  }

  // ------------------------------------------------------------- dispatcher

  /** The static priority of an enum value, `getCoffeePriority`. */
  function StaticPriority(cat: Catalog, c: nat): int
    requires cat.Valid() && c <= DefaultCode
  {
    cat.priorities[c]
  }

  /** Whether the dispatcher's loop takes entry `e` over the current choice
      `sel` with maximum `max`. */
  predicate Beats(e: Task, sel: nat, max: int, cat: Catalog)
    requires cat.Valid() && e.kind <= DefaultCode && sel <= DefaultCode
  {
    e.scheduled > 0 &&
    (e.priority > max || (e.priority == max && StaticPriority(cat, e.kind) > StaticPriority(cat, sel)))
  }

  /** The pair (`selectedTypeToBrew`, `maxPriority`) after the dispatcher's
      loop has looked at the first `n` entries. */
  function Scan(t: seq<Task>, cat: Catalog, n: nat): (r: (nat, int))
    requires Indexed(t) && cat.Valid() && n <= |t|
    ensures r.0 <= DefaultCode
  {
    if n == 0 then (DefaultCode, Int32Min)
    else
      var prev := Scan(t, cat, n - 1);
      if Beats(t[n - 1], prev.0, prev.1, cat) then (t[n - 1].kind, t[n - 1].priority) else prev
  }

  /** `getHighestPriorityTask`: the enum value it returns. */
  function HighestPriority(t: seq<Task>, cat: Catalog): nat
    requires Indexed(t) && cat.Valid()
  {
    Scan(t, cat, |t|).0
  }

  /** Entry `j` has releases outstanding. */
  predicate Ready(t: seq<Task>, j: int)
  {
    0 <= j < |t| && t[j].scheduled > 0
  }

  /** Entry `j` can never beat the initial choice: its priority is below the
      32-bit minimum, or equal to it without a larger static priority than
      `DEFAULT_COFFEE`'s. */
  predicate Hopeless(t: seq<Task>, j: int, cat: Catalog)
    requires cat.Valid() && 0 <= j < |t| && j <= DefaultCode
  {
    t[j].priority < Int32Min ||
    (t[j].priority == Int32Min && StaticPriority(cat, j) <= StaticPriority(cat, DefaultCode))
  }

  /** What holds of the loop's pair after `n` entries. */
  lemma {:induction false} ScanSpec(t: seq<Task>, cat: Catalog, n: nat)
    requires Indexed(t) && cat.Valid() && n <= |t|
    ensures var (s, m) := Scan(t, cat, n);
      && m >= Int32Min
      && (s == DefaultCode ==> m == Int32Min)
      && (s != DefaultCode ==> s < n && t[s].scheduled > 0 && t[s].priority == m)
      && (forall j :: 0 <= j < n && Ready(t, j) ==> t[j].priority <= m)
      && (forall j :: 0 <= j < n && Ready(t, j) && t[j].priority == m ==>
            StaticPriority(cat, j) <= StaticPriority(cat, s))
      && (s != DefaultCode ==> forall j ::
            (0 <= j < n && Ready(t, j) && t[j].priority == m && StaticPriority(cat, j) == StaticPriority(cat, s))
            ==> s <= j)
  {
    if n > 0 {
      ScanSpec(t, cat, n - 1);
    }
  }

  /** The loop keeps `DEFAULT_COFFEE` exactly when every scheduled entry seen
      so far is hopeless. */
  lemma {:induction false} ScanDefaultIff(t: seq<Task>, cat: Catalog, n: nat)
    requires Indexed(t) && cat.Valid() && n <= |t|
    ensures Scan(t, cat, n).0 == DefaultCode <==>
      forall j :: 0 <= j < n && Ready(t, j) ==> Hopeless(t, j, cat)
  {
    if n > 0 {
      ScanDefaultIff(t, cat, n - 1);
      ScanSpec(t, cat, n - 1);
      var prev := Scan(t, cat, n - 1);
      if prev.0 == DefaultCode {
        assert Beats(t[n - 1], prev.0, prev.1, cat) <==> Ready(t, n - 1) && !Hopeless(t, n - 1, cat);
      } else {
        var j :| 0 <= j < n - 1 && Ready(t, j) && !Hopeless(t, j, cat);
        assert Scan(t, cat, n).0 != DefaultCode;
      }
    }
  }

  /** The dispatcher's result is an arg-max with a static-priority tie-break:
      it is `DEFAULT_COFFEE` or a scheduled entry; no scheduled entry has a
      larger priority; among equal priorities its static priority is the
      largest; on a full tie the lowest index wins; and it is `DEFAULT_COFFEE`
      exactly when every scheduled entry is hopeless, in particular when none
      is scheduled. */
  lemma HighestPrioritySpec(t: seq<Task>, cat: Catalog)
    requires Indexed(t) && cat.Valid()
    ensures var r := HighestPriority(t, cat);
      && (r == DefaultCode || Ready(t, r))
      && (r != DefaultCode ==> forall j :: Ready(t, j) ==> t[j].priority <= t[r].priority)
      && (r != DefaultCode ==> forall j :: Ready(t, j) && t[j].priority == t[r].priority ==>
            StaticPriority(cat, j) <= StaticPriority(cat, r))
      && (r != DefaultCode ==> forall j ::
            (Ready(t, j) && t[j].priority == t[r].priority && StaticPriority(cat, j) == StaticPriority(cat, r))
            ==> r <= j)
      && (r == DefaultCode <==> forall j :: Ready(t, j) ==> Hopeless(t, j, cat))
      && ((forall j :: 0 <= j < |t| ==> t[j].scheduled == 0) ==> r == DefaultCode)
  {
    ScanSpec(t, cat, |t|);
    ScanDefaultIff(t, cat, |t|);
  }

  /** Stale priorities of entries with nothing outstanding never affect the
      dispatcher: two tables that agree on which entries are scheduled and on
      the priorities of those entries give the same result. */
  lemma {:induction false} ScanIgnoresUnscheduled(t: seq<Task>, u: seq<Task>, cat: Catalog, n: nat)
    requires Indexed(t) && Indexed(u) && cat.Valid() && n <= |t|
    requires forall i :: 0 <= i < n ==> (t[i].scheduled > 0 <==> u[i].scheduled > 0)
    requires forall i :: 0 <= i < n && t[i].scheduled > 0 ==> t[i].priority == u[i].priority
    ensures Scan(t, cat, n) == Scan(u, cat, n)
  {
    if n > 0 {
      ScanIgnoresUnscheduled(t, u, cat, n - 1);
    }
  }

  lemma HighestIgnoresUnscheduled(t: seq<Task>, u: seq<Task>, cat: Catalog)
    requires Indexed(t) && Indexed(u) && cat.Valid()
    requires forall i :: 0 <= i < |t| ==> (t[i].scheduled > 0 <==> u[i].scheduled > 0)
    requires forall i :: 0 <= i < |t| && t[i].scheduled > 0 ==> t[i].priority == u[i].priority
    ensures HighestPriority(t, cat) == HighestPriority(u, cat)
  {
    ScanIgnoresUnscheduled(t, u, cat, |t|);
  }

  // ------------------------------------------- assigner and dispatcher together

  /** The choice a policy leads to on table `t`. */
  function Winner(t: seq<Task>, p: Policy, cat: Catalog): nat
    requires Indexed(t) && cat.Valid()
  {
    HighestPriority(Assigned(t, ReadyOf(t), p, cat), cat)
  }

  /** The priorities a policy leaves on the scheduled entries of `t`. */
  lemma AssignedReady(t: seq<Task>, p: Policy, cat: Catalog)
    requires Indexed(t) && cat.Valid()
    ensures Indexed(Assigned(t, ReadyOf(t), p, cat))
    ensures forall j :: 0 <= j < |t| ==>
      var u := Assigned(t, ReadyOf(t), p, cat);
      u[j].scheduled == t[j].scheduled && (t[j].scheduled > 0 ==> u[j].priority == PolicyPriority(p, t[j], cat))
  {
    ReadyOfSpec(t);
  }

  /** Fixed priority runs the scheduled entry with the largest static
      priority, the lowest index among equals, and idles only when every
      scheduled entry is hopeless. */
  lemma FixedPriorityPicksLargestStatic(t: seq<Task>, cat: Catalog)
    requires Indexed(t) && cat.Valid()
    ensures var r := Winner(t, FixedPriority, cat);
      && (r == DefaultCode || Ready(t, r))
      && (r != DefaultCode ==> forall j :: Ready(t, j) ==> StaticPriority(cat, j) <= StaticPriority(cat, r))
      && (r != DefaultCode ==> forall j :: Ready(t, j) && StaticPriority(cat, j) == StaticPriority(cat, r) ==> r <= j)
      && (r == DefaultCode <==> forall j :: Ready(t, j) ==>
            (StaticPriority(cat, j) < Int32Min
             || (StaticPriority(cat, j) == Int32Min && StaticPriority(cat, j) <= StaticPriority(cat, DefaultCode))))
  {
    var u := Assigned(t, ReadyOf(t), FixedPriority, cat);
    AssignedReady(t, FixedPriority, cat);
    HighestPrioritySpec(u, cat);
    assert forall j :: Ready(t, j) <==> Ready(u, j);
    assert forall j :: Ready(t, j) ==> (Hopeless(u, j, cat) <==>
      (StaticPriority(cat, j) < Int32Min
       || (StaticPriority(cat, j) == Int32Min && StaticPriority(cat, j) <= StaticPriority(cat, DefaultCode))));
  }

  /** Earliest deadline first runs a scheduled entry whose deadline no other
      scheduled entry beats, breaking equal deadlines by static priority; it
      runs something whenever a scheduled deadline is below 2^31. */
  lemma EdfPicksEarliestDeadline(t: seq<Task>, cat: Catalog)
    requires Indexed(t) && cat.Valid()
    ensures var r := Winner(t, EarliestDeadlineFirst, cat);
      && (r == DefaultCode || Ready(t, r))
      && (r != DefaultCode ==> forall j :: Ready(t, j) ==> t[r].deadline <= t[j].deadline)
      && (r != DefaultCode ==> forall j :: Ready(t, j) && t[j].deadline == t[r].deadline ==>
            StaticPriority(cat, j) <= StaticPriority(cat, r))
      && ((exists j :: Ready(t, j) && t[j].deadline < -Int32Min) ==> r != DefaultCode)
  {
    var u := Assigned(t, ReadyOf(t), EarliestDeadlineFirst, cat);
    AssignedReady(t, EarliestDeadlineFirst, cat);
    HighestPrioritySpec(u, cat);
    assert forall j :: Ready(t, j) <==> Ready(u, j);
  }

  /** Least laxity first runs a scheduled entry whose laxity (deadline minus
      remaining work) no other scheduled entry beats, breaking equal laxities
      by static priority; it runs something whenever a scheduled laxity is
      below 2^31. */
  lemma LlfPicksLeastLaxity(t: seq<Task>, cat: Catalog)
    requires Indexed(t) && cat.Valid()
    ensures var r := Winner(t, LeastLaxityFirst, cat);
      && (r == DefaultCode || Ready(t, r))
      && (r != DefaultCode ==> forall j :: Ready(t, j) ==>
            t[r].deadline - t[r].remainingWork <= t[j].deadline - t[j].remainingWork)
      && (r != DefaultCode ==> forall j ::
            (Ready(t, j) && t[j].deadline - t[j].remainingWork == t[r].deadline - t[r].remainingWork)
            ==> StaticPriority(cat, j) <= StaticPriority(cat, r))
      && ((exists j :: Ready(t, j) && t[j].deadline - t[j].remainingWork < -Int32Min) ==> r != DefaultCode)
  {
    var u := Assigned(t, ReadyOf(t), LeastLaxityFirst, cat);
    AssignedReady(t, LeastLaxityFirst, cat);
    HighestPrioritySpec(u, cat);
    assert forall j :: Ready(t, j) <==> Ready(u, j);
  }

  // ------------------------------------------------------------------ cycle

  /** The table after one cycle that took the lock at tick `now`: release,
      then the assigner over the ready list. */
  function CycleTable(t: seq<Task>, now: int, p: Policy, cat: Catalog): (r: seq<Task>)
    requires Indexed(t) && cat.Valid()
    ensures |r| == |t|
  {
    var released := Released(t, now, cat);
    Assigned(released, ReadyOf(released), p, cat)
  }

  /** The entry the cycle at tick `now` dispatches, or `DEFAULT_COFFEE`. */
  function CycleWinner(t: seq<Task>, now: int, p: Policy, cat: Catalog): nat
    requires Indexed(t) && cat.Valid()
  {
    Winner(Released(t, now, cat), p, cat)
  }

  /** A cycle keeps the table invariant from one tick to the next, and what
      it dispatches is `DEFAULT_COFFEE` or an entry with releases outstanding. */
  lemma CycleSpec(t: seq<Task>, now: int, p: Policy, cat: Catalog)
    requires TableInvariant(t, now) && cat.Valid()
    ensures TableInvariant(CycleTable(t, now, p, cat), now + 1)
    ensures var w := CycleWinner(t, now, p, cat);
      w == DefaultCode || (w < NumCoffees && CycleTable(t, now, p, cat)[w].scheduled > 0)
  {
    var released := Released(t, now, cat);
    ReleasedSpec(t, now, cat);
    AssignedSpec(released, ReadyOf(released), p, cat, now);
    var u := Assigned(released, ReadyOf(released), p, cat);
    HighestPrioritySpec(u, cat);
  }

  /** With no entry armed, a cycle leaves the table as it was and dispatches
      nothing. */
  lemma IdleCycle(t: seq<Task>, now: int, p: Policy, cat: Catalog)
    requires TableInvariant(t, now) && cat.Valid()
    requires forall i :: 0 <= i < |t| ==> !t[i].started
    ensures CycleTable(t, now, p, cat) == t
    ensures CycleWinner(t, now, p, cat) == DefaultCode
  {
    var released := Released(t, now, cat);
    assert released == t;
    ReadyOfSpec(t);
    ReadyFromNone(t, |t|);
    assert Assigned(t, [], p, cat) == t;
    HighestPrioritySpec(t, cat);
  }

  /** The table after `n` cycles that each took the lock, starting at `now`. */
  function Cycles(t: seq<Task>, now: int, p: Policy, cat: Catalog, n: nat): (r: seq<Task>)
    requires TableInvariant(t, now) && cat.Valid()
    ensures TableInvariant(r, now + n)
    decreases n
  {
    if n == 0 then t
    else
      CycleSpec(t, now, p, cat);
      Cycles(CycleTable(t, now, p, cat), now + 1, p, cat, n - 1)
  }

  /** Idle cycles change nothing, however many of them run. */
  lemma {:induction false} IdleCyclesChangeNothing(t: seq<Task>, now: int, p: Policy, cat: Catalog, n: nat)
    requires TableInvariant(t, now) && cat.Valid()
    requires forall i :: 0 <= i < |t| ==> !t[i].started
    ensures Cycles(t, now, p, cat, n) == t
    decreases n
  {
    if n > 0 {
      IdleCycle(t, now, p, cat);
      assert TableInvariant(t, now + 1);
      IdleCyclesChangeNothing(t, now + 1, p, cat, n - 1);
    }
  }

  /** The table after `startAllCoffees` at tick `now`: every entry armed with
      the same start time. */
  function ArmedAll(t: seq<Task>, now: int): (r: seq<Task>)
    ensures |r| == |t|
    ensures forall i :: 0 <= i < |t| ==> r[i].started && r[i].startTime == now
  {
    seq(|t|, i requires 0 <= i < |t| => t[i].(started := true, startTime := now))
  }

  // -------------------------------------------------------------- brew task

  /** The brew task's counter and its entry's remaining work. */
  datatype Brew = Brew(counter: nat, work: int)

  /** One iteration of the brew loop: the counter grows by `BLINK_TOGGLE` and
      every full second costs one unit of work. */
  function BrewIteration(b: Brew): Brew
  {
    var counter := b.counter + BlinkToggle;
    Brew(counter, if counter % (2 * BlinkToggle) == 0 then b.work - 1 else b.work)
  }

  /** The state after `k` iterations starting from `b`. */
  function BrewIterations(b: Brew, k: nat): Brew
  {
    if k == 0 then b else BrewIteration(BrewIterations(b, k - 1))
  }

  /** From a cleared counter, `k` iterations have counted `k` half seconds and
      taken one unit of work per whole second. */
  lemma {:induction false} BrewIterationsFromZero(work: int, k: nat)
    ensures BrewIterations(Brew(0, work), k) == Brew(k * BlinkToggle, work - k / 2)
  {
    if k > 0 {
      BrewIterationsFromZero(work, k - 1);
      assert (k * BlinkToggle) % (2 * BlinkToggle) == 0 <==> k % 2 == 0;
    }
  }

  /** A release of a named kind, run without interruption from a cleared
      counter, reaches `counter >= getBrewDurations` first after exactly twice
      its work units, and at that iteration its remaining work is exactly 0. */
  lemma BrewCompletesExactlyOnce(c: Coffee)
    requires c != DefaultCoffee
    ensures var w := CoffeeMenu.BrewDuration(c) / 1000;
      && (forall k: nat :: k < 2 * w ==> BrewIterations(Brew(0, w), k).counter < CoffeeMenu.BrewDuration(c))
      && BrewIterations(Brew(0, w), 2 * w) == Brew(CoffeeMenu.BrewDuration(c), 0)
  {
    var w := CoffeeMenu.BrewDuration(c) / 1000;
    forall k: nat | k < 2 * w
      ensures BrewIterations(Brew(0, w), k).counter < CoffeeMenu.BrewDuration(c)
    {
      BrewIterationsFromZero(w, k);
    }
    BrewIterationsFromZero(w, 2 * w);
  }
}
