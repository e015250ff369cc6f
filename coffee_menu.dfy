/** Source/coffee.c: the brew-time table, the LED of each coffee kind, and the
    selection cursor `selected` that a short button press advances. */
module CoffeeMenu {
  import opened CoffeeTypes

  const BrewTimeEspresso: nat := 3000
  const BrewTimeLatte: nat := 5000
  const BrewTimeMocha: nat := 7000
  const BrewTimeBlack: nat := 10000

  /** `getBrewDurations`: the brew time of a kind in milliseconds; 0 for
      anything that is not one of the four kinds. */
  function BrewDuration(c: Coffee): (ms: nat)
    ensures c != DefaultCoffee <==> ms > 0
    ensures ms % 1000 == 0
    ensures ms <= BrewTimeBlack
  {
    match c
    case Espresso => BrewTimeEspresso
    case Latte => BrewTimeLatte
    case Mocha => BrewTimeMocha
    case Black => BrewTimeBlack
    case DefaultCoffee => 0
  }

  /** The table's four brew times, shortest first. */
  lemma BrewDurationTable()
    ensures BrewDuration(Espresso) == 3000 && BrewDuration(Latte) == 5000
    ensures BrewDuration(Mocha) == 7000 && BrewDuration(Black) == 10000
    ensures BrewDuration(Espresso) < BrewDuration(Latte) < BrewDuration(Mocha) < BrewDuration(Black)
  {
  }

  /** `getCoffeeBrewTime`: one time unit, whatever the kind. */
  function BrewTime(c: Coffee): (units: nat)
    ensures units == 1
  {
    1
  }

  /** `getCoffeeLED`: the LED that shows a kind. The four kinds are shown on
      the LEDs numbered by their declaration order, not on the LED their
      enumerator is defined as: `LATTE` is `LED_BLUE` but is shown orange. */
  function CoffeeLed(c: Coffee): (l: Led)
    ensures c != DefaultCoffee ==> LedIndex(l) == LegacyCode(c)
    ensures c == DefaultCoffee ==> l == LedGreen
    ensures c != DefaultCoffee ==> (LedIndex(l) == Code(c) <==> c == Espresso || c == Mocha)
  {
    match c
    case Espresso => LedGreen
    case Latte => LedOrange
    case Mocha => LedRed
    case Black => LedBlue
    case DefaultCoffee => LedGreen
  }

  /** Each of the four kinds has an LED of its own; every LED shows some kind;
      anything else is shown on the green LED. */
  lemma CoffeeLedIsBijective(c: Coffee, d: Coffee, l: Led)
    ensures c != DefaultCoffee && d != DefaultCoffee && c != d ==> CoffeeLed(c) != CoffeeLed(d)
    ensures exists k :: k != DefaultCoffee && CoffeeLed(k) == l
    ensures CoffeeLed(DefaultCoffee) == LedGreen
  {
    match l
    case LedGreen => assert CoffeeLed(Espresso) == l;
    case LedOrange => assert CoffeeLed(Latte) == l;
    case LedRed => assert CoffeeLed(Mocha) == l;
    case LedBlue => assert CoffeeLed(Black) == l;
  }

  /** The value `changeSelected` stores: the next kind in enum-value order,
      wrapping after the last of the four. */
  function Next(c: Coffee): (r: Coffee)
    ensures Code(r) == (Code(c) + 1) % NumCoffees
    ensures r != DefaultCoffee
  {
    FromCode((Code(c) + 1) % NumCoffees)
  }

  /** The selection after `k` calls of `changeSelected`. */
  function NextN(c: Coffee, k: nat): (r: Coffee)
  {
    if k == 0 then c else Next(NextN(c, k - 1))
  }

  /** After at least one step, or from a named kind, the selection has advanced
      by `k` modulo 4. */
  lemma {:induction false} NextNCode(c: Coffee, k: nat)
    requires c != DefaultCoffee || k > 0
    ensures Code(NextN(c, k)) == (Code(c) + k) % NumCoffees
  {
    if k > 1 {
      NextNCode(c, k - 1);
      ModSuccessor(Code(c) + k - 1);
    }
  }

  /** Four consecutive `changeSelected` calls restore a selection that was one
      of the four kinds. */
  lemma FourChangesRestore(c: Coffee)
    requires c != DefaultCoffee
    ensures NextN(c, 4) == c
  {
    NextNCode(c, 4);
    CodesRoundTrip(c);
    CodesRoundTrip(NextN(c, 4));
  }

  /** Calls 1 to 4 of `changeSelected` visit every one of the four kinds,
      whatever the selection was. */
  lemma NextNVisitsAll(c: Coffee, d: Coffee)
    requires d != DefaultCoffee
    ensures exists k :: 1 <= k <= 4 && NextN(c, k) == d
  {
    var a, b := Code(c), Code(d);
    var k: nat := (b + 7 - a) % 4 + 1;
    assert (a + k) % 4 == b by {
      assert a <= 4 && b < 4;
    }
    NextNCode(c, k);
    CodesRoundTrip(d);
    CodesRoundTrip(NextN(c, k));
  }

  /** The module's static `selected`. */
  class Menu {
    var selected: Coffee

    /** Static storage starts zeroed: the enumerator whose value is 0. */
    constructor ()
      ensures selected == FromCode(0)
    {
      selected := FromCode(0);
    }

    /** `initializeCoffee` */
    method InitializeCoffee(defaultType: Coffee)
      modifies this
      ensures selected == defaultType
    {
      selected := defaultType;
    }

    /** `getSelected` */
    method GetSelected() returns (c: Coffee)
      ensures c == selected
    {
      c := selected;
    }

    /** `changeSelected` */
    method ChangeSelected() returns (c: Coffee)
      modifies this
      ensures selected == Next(old(selected))
      ensures c == selected && c != DefaultCoffee
    {
      selected := FromCode((Code(selected) + 1) % NumCoffees);
      c := selected;
    }

    /** `getLEDForSelected` */
    method GetLedForSelected() returns (l: Led)
      ensures l == CoffeeLed(selected)
    {
      l := CoffeeLed(selected);
    }
  }

  /** What a caller of the menu can rely on: `getSelected` returns what
      `initializeCoffee` stored, and four `changeSelected` calls come back to it. */
  method SelectionCycle(m: Menu, t: Coffee) returns (first: Coffee, last: Coffee)
    requires t != DefaultCoffee
    modifies m
    ensures first == t && last == t && m.selected == t
  {
    m.InitializeCoffee(t);
    first := m.GetSelected();
    var c := m.ChangeSelected();
    c := m.ChangeSelected();
    c := m.ChangeSelected();
    c := m.ChangeSelected();
    FourChangesRestore(t);
    last := m.GetSelected();
  }
}
