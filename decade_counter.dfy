/**
 * CD4026 decade counter (class Chip4026 of apple-juice.cpp and
 * testes/testes.cpp): a digit 0..9 and a carry flag that is raised only by
 * the add that rolls 9 over to 0. The units display (Unidade) is a plain
 * Chip4026; the tens display (Dezena) adds `addOnCarry`.
 */
module DecadeCounter {

  /** The observable state of one counter: `getOut()` and `getCarryOut()`. */
  datatype Decade = Decade(value: nat, carry: bool)

  /** A fresh or reset counter. */
  const Cleared := Decade(0, false)

  /** `add()`: 9 rolls over to 0 with carry, any other value goes up by one without carry. */
  function Next(d: Decade): (r: Decade)
    ensures d.value <= 9 ==> r.value == (d.value + 1) % 10 && r.value <= 9
    ensures d.value <= 9 ==> (r.carry <==> r.value == 0)
  {
    if d.value == 9 then Decade(0, true) else Decade(d.value + 1, false)
  }

  /** `addOnCarry(carryIn)`: an add when the carry arrives, nothing otherwise. */
  function NextOnCarry(d: Decade, carryIn: bool): Decade
  {
    if carryIn then Next(d) else d
  }

  /** The state after k adds from a cleared counter. */
  function AfterAdds(k: nat): Decade
  {
    if k == 0 then Cleared else Next(AfterAdds(k - 1))
  }

  /** k adds from cleared show k mod 10, with the carry up exactly when the last add rolled over. */
  lemma {:induction false} AfterAddsIs(k: nat)
    ensures AfterAdds(k) == Decade(k % 10, k > 0 && k % 10 == 0)
  {
    if k > 0 {
      AfterAddsIs(k - 1);
    }
  }

  /** An add from an in-range digit always changes the digit. */
  lemma NextMoves(d: Decade)
    requires d.value <= 9
    ensures Next(d).value != d.value
  {
  }

  class Chip4026 {
    var carryOut: bool
    var out: nat

    ghost predicate Valid()
      reads this
    {
      out <= 9
    }

    ghost function State(): Decade
      reads this
    {
      Decade(out, carryOut)
    }

    /** The field initialisers `carryOut = false`, `Out = 0`. */
    constructor ()
      ensures Valid() && State() == Cleared
    {
      carryOut := false;
      out := 0;
    }

    method Add()
      requires Valid()
      modifies this
      ensures Valid() && State() == Next(old(State()))
    {
      if out == 9 {
        out := 0;
        carryOut := true;
      } else {
        out := out + 1;
        carryOut := false;
      }
    }

    /** Clears the digit and the carry whatever the previous state. */
    method Reset()
      modifies this
      ensures Valid() && State() == Cleared
    {
      out := 0;
      carryOut := false;
    }

    method GetOut() returns (r: nat)
      requires Valid()
      ensures r == out && r <= 9
    {
      r := out;
    }

    method GetCarryOut() returns (r: bool)
      ensures r == carryOut
    {
      r := carryOut;
    }

    /** `Dezena::addOnCarry`: with no carry in, neither the digit nor the carry flag changes. */
    method AddOnCarry(carryIn: bool)
      requires Valid()
      modifies this
      ensures Valid() && State() == NextOnCarry(old(State()), carryIn)
      ensures !carryIn ==> out == old(out) && carryOut == old(carryOut)
    {
      if carryIn {
        Add();
      }
    }
  }
}
