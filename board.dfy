/**
 * The Apple Juice board of apple-juice.cpp (`BoardAppleJuice::run`): a
 * CD4017 driving the LEDs and two CD4026 displays (units and tens) advanced
 * together by the worker once per 555 period, plus the window's commands.
 * Only one pass of the worker loop and each command are modelled, as
 * sequential methods; the lock that makes each of them atomic is implicit.
 */
module AppleJuiceBoard {
  import opened Bits
  import opened Errors
  import opened DecadeCounter
  import RingCounter

  /** Everything the window can read: the LED word and the two displays. */
  datatype Snapshot = Snapshot(mask: nat, units: Decade, tens: Decade)

  /** The two displays read as one number 00..99. */
  function Count(s: Snapshot): nat
  {
    10 * s.tens.value + s.units.value
  }

  /** The states the chips' own invariants allow. */
  predicate Reachable(s: Snapshot, leds: nat)
  {
    OneHot(s.mask, leds) && s.units.value <= 9 && s.tens.value <= 9
  }

  /** One clock: `chip4017.shift(); unidade.add(); dezena.addOnCarry(unidade.getCarryOut());` */
  function AfterCycle(s: Snapshot, leds: nat): Snapshot
    requires leds >= 1
  {
    var units := Next(s.units);
    Snapshot(RingCounter.NextMask(s.mask, leds), units, NextOnCarry(s.tens, units.carry))
  }

  /** The state after n clocks. */
  function AfterCycles(s: Snapshot, leds: nat, n: nat): Snapshot
    requires leds >= 1
  {
    if n == 0 then s else AfterCycle(AfterCycles(s, leds, n - 1), leds)
  }

  /** The R key: every chip back to its initial state. */
  function FullReset(leds: nat): Snapshot
    requires leds >= 1
  {
    Snapshot(RingCounter.InitialMask(leds), Cleared, Cleared)
  }

  /** One clock keeps the chips' invariants and adds one to the displayed count, modulo 100. */
  lemma CycleCounts(s: Snapshot, leds: nat)
    requires leds >= 1 && Reachable(s, leds)
    ensures Reachable(AfterCycle(s, leds), leds)
    ensures Count(AfterCycle(s, leds)) == (Count(s) + 1) % 100
  {
    RingCounter.NextMaskOneHot(s.mask, leds);
  }

  /** The tens digit moves on exactly the clocks where the units digit rolls over from 9 to 0. */
  lemma TensFollowRollover(s: Snapshot, leds: nat)
    requires leds >= 1 && Reachable(s, leds)
    ensures AfterCycle(s, leds).tens.value != s.tens.value <==> s.units.value == 9
    ensures s.units.value == 9 <==> AfterCycle(s, leds).units.carry
  {
    if s.units.value == 9 {
      NextMoves(s.tens);
    }
  }

  /** n clocks from any reachable state add n to the displayed count, modulo 100. */
  lemma {:induction false} CountAfterCycles(s: Snapshot, leds: nat, n: nat)
    requires leds >= 1 && Reachable(s, leds)
    ensures Reachable(AfterCycles(s, leds, n), leds)
    ensures Count(AfterCycles(s, leds, n)) == (Count(s) + n) % 100
  {
    if n == 0 {
      ModUnique(Count(s), 0, Count(s), 100);
    } else {
      CountAfterCycles(s, leds, n - 1);
      var prev := AfterCycles(s, leds, n - 1);
      CycleCounts(prev, leds);
      ModSucc(Count(s) + n - 1, 100);
      ModSucc(Count(prev), 100);
      ModUnique(Count(prev), 0, Count(prev), 100);
    }
  }

  /**
   * After n clocks from a full reset, each chip is exactly where its own
   * count puts it: the LED word has been shifted n times, the units counter
   * has seen n adds and the tens counter n / 10.
   */
  lemma {:induction false} CyclesFromReset(leds: nat, n: nat)
    requires leds >= 1
    ensures AfterCycles(FullReset(leds), leds, n)
         == Snapshot(RingCounter.MaskAfter(RingCounter.InitialMask(leds), leds, n), AfterAdds(n), AfterAdds(n / 10))
  {
    if n > 0 {
      CyclesFromReset(leds, n - 1);
      var units := AfterAdds(n);
      assert units == Next(AfterAdds(n - 1));
      AfterAddsIs(n);
      if n % 10 == 0 {
        assert n / 10 == (n - 1) / 10 + 1;
        assert units.carry;
      } else {
        assert n / 10 == (n - 1) / 10;
        assert !units.carry;
      }
    }
  }

  /** From a full reset the displays show n mod 100 after n clocks, and the LED bit is in slot (leds - 1 - n) mod leds. */
  lemma CountFromReset(leds: nat, n: nat)
    requires leds >= 1
    ensures Count(AfterCycles(FullReset(leds), leds, n)) == n % 100
    ensures AfterCycles(FullReset(leds), leds, n).mask == Pow2((leds - 1 - n) % leds)
  {
    RingCounter.MaskAfterReset(leds, 0);
    CountAfterCycles(FullReset(leds), leds, n);
    CyclesFromReset(leds, n);
    RingCounter.MaskAfterReset(leds, n);
  }

  class Board {
    const ring: RingCounter.Chip4017
    const unidade: Chip4026
    const dezena: Chip4026
    var powered: bool

    ghost predicate Valid()
      reads this, ring, unidade, dezena
    {
      ring.Valid() && unidade.Valid() && dezena.Valid() && unidade != dezena
    }

    ghost function State(): Snapshot
      reads this, ring, unidade, dezena
    {
      Snapshot(ring.out, unidade.State(), dezena.State())
    }

    /** The chips as `run()` creates them, with the board switched off (`ligado{false}`). */
    constructor (leds: nat)
      requires RingCounter.ValidLimit(leds)
      ensures Valid() && !powered
      ensures ring.limitReset == leds && State() == FullReset(leds)
      ensures fresh(ring) && fresh(unidade) && fresh(dezena)
    {
      ring := new RingCounter.Chip4017(leds);
      unidade := new Chip4026();
      dezena := new Chip4026();
      powered := false;
    }

    /** The body of the worker loop once the 555 has pulsed. */
    method Cycle()
      requires Valid()
      modifies ring, unidade, dezena
      ensures Valid() && ring.limitReset == old(ring.limitReset)
      ensures State() == AfterCycle(old(State()), ring.limitReset)
    {
      ring.Shift();
      unidade.Add();
      var carry := unidade.GetCarryOut();
      dezena.AddOnCarry(carry);
    }

    /** One pass of the worker loop: a clock when switched on, nothing at all when off. */
    method Iterate()
      requires Valid()
      modifies ring, unidade, dezena
      ensures Valid() && ring.limitReset == old(ring.limitReset)
      ensures State() == if powered then AfterCycle(old(State()), ring.limitReset) else old(State())
      ensures !powered ==> unchanged(ring, unidade, dezena)
    {
      if !powered {
        return;
      }
      Cycle();
    }

    /**
     * n passes of the worker loop with no command in between: n clocks when
     * switched on, none when off.
     */
    method Run(n: nat)
      requires Valid()
      modifies ring, unidade, dezena
      ensures Valid() && ring.limitReset == old(ring.limitReset)
      ensures State() == if powered then AfterCycles(old(State()), ring.limitReset, n) else old(State())
    {
      var i := 0;
      while i < n
        invariant 0 <= i <= n
        invariant Valid() && ring.limitReset == old(ring.limitReset)
        invariant State() == if powered then AfterCycles(old(State()), ring.limitReset, i) else old(State())
      {
        Iterate();
        i := i + 1;
      }
    }

    /** The R key: the ring counter and both displays back to their initial state. */
    method ResetAll()
      requires Valid()
      modifies ring, unidade, dezena
      ensures Valid() && ring.limitReset == old(ring.limitReset)
      ensures State() == FullReset(ring.limitReset)
    {
      ring.Reset();
      unidade.Reset();
      dezena.Reset();
    }

    /** The "Reset Display" button: both displays cleared, the LED word untouched. */
    method ResetDisplay()
      requires Valid()
      modifies unidade, dezena
      ensures Valid()
      ensures State() == Snapshot(old(ring.out), Cleared, Cleared)
    {
      unidade.Reset();
      dezena.Reset();
    }

    /** The ENTER key: switches the board on or off and touches no chip. */
    method TogglePower()
      modifies this
      ensures powered == !old(powered)
    {
      powered := !powered;
    }

    /** The window's read of the LED word. */
    method ReadLeds() returns (bits: nat)
      requires Valid()
      ensures bits == ring.out && OneHot(bits, ring.limitReset)
    {
      bits := ring.GetOut();
    }
  }

  /** `run()` builds `Chip4017(qtLeds)` first, which throws unless 1 <= qtLeds <= 10. */
  method Build(leds: nat) returns (r: Result<Board>)
    ensures r.InvalidArgument? <==> !RingCounter.ValidLimit(leds)
    ensures r.Ok? ==> fresh(r.value) && r.value.Valid() && !r.value.powered
    ensures r.Ok? ==> r.value.ring.limitReset == leds && r.value.State() == FullReset(leds)
  {
    if leds < 1 || leds > 10 {
      return InvalidArgument;
    }
    var b := new Board(leds);
    return Ok(b);
  }
}
