/** The coffee kinds and board LEDs shared by the brew scheduler and the
    selection menus, together with the two numeric encodings of the enum:
    the one of Source/coffee.h, whose enumerators are LED numbers, and the
    older one of coffee.h, which numbers the kinds 0 to 3. */
module CoffeeTypes {

  /** The enum `Coffee`; `DefaultCoffee` is the "no coffee" value. */
  datatype Coffee = Espresso | Latte | Mocha | Black | DefaultCoffee

  /** The four LEDs of the board (`Led_TypeDef`). */
  datatype Led = LedGreen | LedOrange | LedRed | LedBlue

  datatype Option<T> = None | Some(value: T)

  /** `LEDn`: the number of LEDs, of brew tasks and of job-table entries. */
  const NumCoffees: nat := 4

  /** The value of `DEFAULT_COFFEE` in both headers. */
  const DefaultCode: nat := 4

  /** The board's LED numbering: green 0, orange 1, red 2, blue 3. */
  function LedIndex(l: Led): (n: nat)
    ensures n < NumCoffees
  {
    match l
    case LedGreen => 0
    case LedOrange => 1
    case LedRed => 2
    case LedBlue => 3
  }

  /** Numeric value of an enumerator under Source/coffee.h, where each named
      coffee is given the number of an LED. */
  function Code(c: Coffee): (n: nat)
    ensures n <= DefaultCode
    ensures n == DefaultCode <==> c == DefaultCoffee
  {
    match c
    case Espresso => LedIndex(LedGreen)
    case Latte => LedIndex(LedBlue)
    case Mocha => LedIndex(LedRed)
    case Black => LedIndex(LedOrange)
    case DefaultCoffee => DefaultCode
  }

  /** The enumerator whose value under Source/coffee.h is `n`. */
  function FromCode(n: nat): (c: Coffee)
    requires n <= DefaultCode
    ensures Code(c) == n
  {
    if n == 0 then Espresso
    else if n == 1 then Black
    else if n == 2 then Mocha
    else if n == 3 then Latte
    else DefaultCoffee
  }

  /** Numeric value of an enumerator under the older coffee.h. */
  function LegacyCode(c: Coffee): (n: nat)
    ensures n <= DefaultCode
    ensures n == DefaultCode <==> c == DefaultCoffee
  {
    match c
    case Espresso => 0
    case Latte => 1
    case Mocha => 2
    case Black => 3
    case DefaultCoffee => DefaultCode
  }

  /** The enumerator whose value under the older coffee.h is `n`. */
  function LegacyFromCode(n: nat): (c: Coffee)
    requires n <= DefaultCode
    ensures LegacyCode(c) == n
  {
    if n == 0 then Espresso
    else if n == 1 then Latte
    else if n == 2 then Mocha
    else if n == 3 then Black
    else DefaultCoffee
  }

  /** The encoding of Source/coffee.h is one-to-one: decoding a kind's value
      gives back the kind. */
  lemma CodesRoundTrip(c: Coffee)
    ensures FromCode(Code(c)) == c
  {
  }

  /** The same for the older coffee.h. */
  lemma LegacyCodesRoundTrip(c: Coffee)
    ensures LegacyFromCode(LegacyCode(c)) == c
  {
  }

  /** Stepping a residue modulo 4 agrees with stepping the number itself. */
  lemma ModSuccessor(x: nat)
    ensures (x % NumCoffees + 1) % NumCoffees == (x + 1) % NumCoffees
  {
    var q, r := x / NumCoffees, x % NumCoffees;
    assert x == NumCoffees * q + r;
    if r == NumCoffees - 1 {
      assert x + 1 == NumCoffees * (q + 1);
    } else {
      assert x + 1 == NumCoffees * q + (r + 1);
    }
  }
}
