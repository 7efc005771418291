/**
 * The unit tests of testes/testes.cpp, driving the chip models exactly as
 * `testarChip4026` and `testarChip4017` drive the C++ classes. Each method
 * returns the values the tests inspect, and its postcondition is what the
 * tests expect of them.
 */
module ChipTests {
  import opened Errors
  import opened DecadeCounter
  import RingCounter

  /** `testarChip4026`: the units counter through one rollover, a reset, and a tens counter fed by hand. */
  method TestChip4026() returns (initialOut: nat, initialCarry: bool, outAfterNine: nat, carryAfterNine: bool,
                                 outAfterTen: nat, carryAfterTen: bool, carryAfterEleven: bool,
                                 outAfterReset: nat, carryAfterReset: bool,
                                 tensWithoutCarry: nat, tensWithCarry: nat)
    ensures initialOut == 0 && !initialCarry
    ensures outAfterNine == 9 && !carryAfterNine
    ensures outAfterTen == 0 && carryAfterTen
    ensures !carryAfterEleven
    ensures outAfterReset == 0 && !carryAfterReset
    ensures tensWithoutCarry == 0 && tensWithCarry == 1
  {
    var u := new Chip4026();
    initialOut := u.GetOut();
    initialCarry := u.GetCarryOut();

    for i := 0 to 9
      invariant u.Valid() && u.out == i && !u.carryOut
    {
      u.Add();
    }
    outAfterNine := u.GetOut();
    carryAfterNine := u.GetCarryOut();

    u.Add();
    outAfterTen := u.GetOut();
    carryAfterTen := u.GetCarryOut();

    u.Add();
    carryAfterEleven := u.GetCarryOut();

    u.Reset();
    outAfterReset := u.GetOut();
    carryAfterReset := u.GetCarryOut();

    var d := new Chip4026();
    d.AddOnCarry(false);
    tensWithoutCarry := d.GetOut();
    d.AddOnCarry(true);
    tensWithCarry := d.GetOut();
  }

  /** `testarChip4017`: a four-slot counter through one full turn and a reset, then the constructor's limits. */
  method TestChip4017() returns (initial: nat, afterOne: nat, afterFour: nat, afterReset: nat,
                                 rejectsZero: bool, rejectsEleven: bool, smallest: nat, largest: nat)
    ensures initial == 0x8 && afterOne == 0x4 && afterFour == 0x8 && afterReset == 0x8
    ensures rejectsZero && rejectsEleven
    ensures smallest == 1 && largest == 0x200
  {
    var built := RingCounter.Build(4);
    var c := built.value;
    initial := c.GetOut();

    c.Shift();
    afterOne := c.GetOut();

    c.Shift();
    c.Shift();
    c.Shift();
    afterFour := c.GetOut();

    c.Shift();
    c.Reset();
    afterReset := c.GetOut();

    var zero := RingCounter.Build(0);
    rejectsZero := zero.InvalidArgument?;
    var eleven := RingCounter.Build(11);
    rejectsEleven := eleven.InvalidArgument?;

    var min := RingCounter.Build(1);
    smallest := min.value.GetOut();
    var max := RingCounter.Build(10);
    largest := max.value.GetOut();
  }
}
