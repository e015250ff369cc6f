/** coffee.c: the older selection module, whose enum (coffee.h) numbers the
    kinds 0 to 3 in declaration order. */
module LegacyMenu {
  import opened CoffeeTypes
  import CoffeeMenu

  /** `getCoffeeLED` of the older module: each of the four kinds is shown on
      the LED whose number is its enumerator value. */
  function CoffeeLed(c: Coffee): (l: Led)
    ensures c != DefaultCoffee ==> LedIndex(l) == LegacyCode(c)
    ensures c == DefaultCoffee ==> l == LedGreen
  {
    match c
    case Espresso => LedGreen
    case Latte => LedOrange
    case Mocha => LedRed
    case Black => LedBlue
    case DefaultCoffee => LedGreen
  }

  /** The older LED table: espresso green, latte orange, mocha red, black blue,
      anything else green; it is the same table as Source/coffee.c's. */
  lemma CoffeeLedTable(c: Coffee)
    ensures CoffeeLed(Espresso) == LedGreen && CoffeeLed(Latte) == LedOrange
    ensures CoffeeLed(Mocha) == LedRed && CoffeeLed(Black) == LedBlue
    ensures CoffeeLed(DefaultCoffee) == LedGreen
    ensures CoffeeLed(c) == CoffeeMenu.CoffeeLed(c)
  {
  }

  /** The value `changeSelected` stores under the older numbering. */
  function Next(c: Coffee): (r: Coffee)
    ensures LegacyCode(r) == (LegacyCode(c) + 1) % NumCoffees
    ensures r != DefaultCoffee
  {
    LegacyFromCode((LegacyCode(c) + 1) % NumCoffees)
  }

  /** The selection after `k` calls of `changeSelected`. */
  function NextN(c: Coffee, k: nat): (r: Coffee)
  {
    if k == 0 then c else Next(NextN(c, k - 1))
  }

  lemma {:induction false} NextNCode(c: Coffee, k: nat)
    requires c != DefaultCoffee || k > 0
    ensures LegacyCode(NextN(c, k)) == (LegacyCode(c) + k) % NumCoffees
  {
    if k > 1 {
      NextNCode(c, k - 1);
      ModSuccessor(LegacyCode(c) + k - 1);
    }
  }

  /** The older cursor walks the kinds in declaration order and four calls
      restore the selection; the newer one, numbered by LEDs, goes from
      espresso to black instead. */
  lemma SelectionOrder(c: Coffee)
    requires c != DefaultCoffee
    ensures Next(Espresso) == Latte && Next(Latte) == Mocha && Next(Mocha) == Black && Next(Black) == Espresso
    ensures Next(DefaultCoffee) == Latte
    ensures NextN(c, 4) == c
    ensures CoffeeMenu.Next(Espresso) == Black && Next(Espresso) != CoffeeMenu.Next(Espresso)
  {
    NextNCode(c, 4);
    LegacyCodesRoundTrip(c);
    LegacyCodesRoundTrip(NextN(c, 4));
  }

  /** The older module's static `selected`. */
  class Menu {
    var selected: Coffee

    /** Static storage starts zeroed: `ESPRESSO`, whose value is 0. */
    constructor ()
      ensures selected == Espresso
    {
      selected := LegacyFromCode(0);
    }

    /** `initializeCoffee` */
    method InitializeCoffee(defaultType: Coffee)
      modifies this
      ensures selected == defaultType
    {
      selected := defaultType;
    }

    /** `getSelected` */
    method GetSelected() returns (c: Coffee)
      ensures c == selected
    {
      c := selected;
    }

    /** `changeSelected` */
    method ChangeSelected() returns (c: Coffee)
      modifies this
      ensures selected == Next(old(selected))
      ensures c == selected && c != DefaultCoffee
    {
      selected := LegacyFromCode((LegacyCode(selected) + 1) % NumCoffees);
      c := selected;
    }

    /** `getLEDForSelected` */
    method GetLedForSelected() returns (l: Led)
      ensures l == CoffeeLed(selected)
    {
      l := CoffeeLed(selected);
    }
  }

  /** `initializeCoffee(t)` followed by `getSelected()` gives back `t`, and the
      LED then shown is `t`'s. */
  method InitializeThenRead(m: Menu, t: Coffee) returns (c: Coffee, l: Led)
    modifies m
    ensures c == t && l == CoffeeLed(t) && m.selected == t
  {
    m.InitializeCoffee(t);
    c := m.GetSelected();
    l := m.GetLedForSelected();
  }
}
