/** The four-job example: jobs 0 to 3 with periods 20, 30, 40, 40, relative
    deadlines 5, 10, 15, 20 and static priorities 3, 1, 2, 4, all armed at
    tick 0. Work budgets come from the brew-time table: 3, 10, 7 and 5 units. */
module BrewScenarios {
  import opened CoffeeTypes
  import opened BrewTable

  function ExampleCatalog(): (cat: Catalog)
    ensures cat.Valid()
  {
    Catalog([3, 1, 2, 4, 0], [20, 30, 40, 40], [5, 10, 15, 20])
  }

  /** The table after the first cycle's release step. */
  lemma FirstRelease()
    ensures var r := Released(ArmedAll(InitialTable(), 0), 0, ExampleCatalog());
      && (forall i :: 0 <= i < NumCoffees ==> r[i].scheduled == 1)
      && r[0].deadline == 5 && r[1].deadline == 10 && r[2].deadline == 15 && r[3].deadline == 20
      && r[0].remainingWork == 3 && r[1].remainingWork == 10 && r[2].remainingWork == 7 && r[3].remainingWork == 5
  {
  }

  /** Under fixed priority all four are released and job 3, the largest
      static priority, is dispatched. */
  lemma SameStartFixedPriority()
    ensures CycleWinner(ArmedAll(InitialTable(), 0), 0, FixedPriority, ExampleCatalog()) == 3
  {
    var r := Released(ArmedAll(InitialTable(), 0), 0, ExampleCatalog());
    FirstRelease();
    FixedPriorityPicksLargestStatic(r, ExampleCatalog());
  }

  /** Under earliest deadline first job 0, deadline 5, is dispatched. */
  lemma SameStartEdf()
    ensures CycleWinner(ArmedAll(InitialTable(), 0), 0, EarliestDeadlineFirst, ExampleCatalog()) == 0
  {
    var r := Released(ArmedAll(InitialTable(), 0), 0, ExampleCatalog());
    FirstRelease();
    EdfPicksEarliestDeadline(r, ExampleCatalog());
    assert Ready(r, 0);
  }

  /** Under least laxity first job 1, laxity 10 - 10 = 0, is dispatched. */
  lemma SameStartLlf()
    ensures CycleWinner(ArmedAll(InitialTable(), 0), 0, LeastLaxityFirst, ExampleCatalog()) == 1
  {
    var r := Released(ArmedAll(InitialTable(), 0), 0, ExampleCatalog());
    FirstRelease();
    LlfPicksLeastLaxity(r, ExampleCatalog());
    assert Ready(r, 1);
  }
}
