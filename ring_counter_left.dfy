/**
 * CD4017 ring counter of appleJuice.cpp: the word starts at 1, every clock
 * shifts it one slot left, and once the bit has reached slot LimitReset-1
 * the next clock puts it back at 1.
 */
module RingCounterLeft {
  import opened Bits
  import opened Errors
  import RingCounter

  /** The field initialiser `Out = 1`, which is also what `reset()` stores. */
  const InitialMask: nat := 1

  /** `if (Out >= (1u << (LimitReset-1))) reset(); else Out = Out << 1;` */
  function NextMask(out: nat, limitReset: nat): nat
    requires limitReset >= 1
  {
    if out >= Pow2(limitReset - 1) then InitialMask else out * 2
  }

  /** The mask after k shifts. */
  function MaskAfter(out: nat, limitReset: nat, k: nat): nat
    requires limitReset >= 1
  {
    if k == 0 then out else NextMask(MaskAfter(out, limitReset, k - 1), limitReset)
  }

  /** One shift moves the active bit from slot j to slot j+1, and from the top slot back to slot 0. */
  lemma NextMaskAt(j: nat, limitReset: nat)
    requires j < limitReset
    ensures NextMask(Pow2(j), limitReset) == Pow2(if j == limitReset - 1 then 0 else j + 1)
  {
    Pow2Monotone(j, limitReset - 1);
  }

  /** A shift keeps exactly one bit set among bits 0 .. LimitReset-1, so `Out <= 1 << (LimitReset-1)` holds throughout. */
  lemma NextMaskOneHot(out: nat, limitReset: nat)
    requires limitReset >= 1 && OneHot(out, limitReset)
    ensures OneHot(NextMask(out, limitReset), limitReset)
    ensures NextMask(out, limitReset) <= Pow2(limitReset - 1)
  {
    OneHotIsPow2(out, limitReset);
    var j := Log2(out);
    NextMaskAt(j, limitReset);
    var j' := if j == limitReset - 1 then 0 else j + 1;
    Pow2IsOneHot(j', limitReset);
    Pow2Monotone(j', limitReset - 1);
  }

  /** After k shifts the bit that started in slot j sits in slot (j + k) mod LimitReset. */
  lemma {:induction false} MaskAfterAt(j: nat, limitReset: nat, k: nat)
    requires j < limitReset
    ensures MaskAfter(Pow2(j), limitReset, k) == Pow2((j + k) % limitReset)
  {
    if k == 0 {
      ModUnique(j, 0, j, limitReset);
    } else {
      MaskAfterAt(j, limitReset, k - 1);
      var x := j + (k - 1);
      var p := x % limitReset;
      assert MaskAfter(Pow2(j), limitReset, k) == NextMask(Pow2(p), limitReset);
      NextMaskAt(p, limitReset);
      ModSucc(x, limitReset);
      assert x + 1 == j + k;
    }
  }

  /** LimitReset shifts bring the mask back to where it started, and no fewer do. */
  lemma MaskReturns(out: nat, limitReset: nat, k: nat)
    requires limitReset >= 1 && OneHot(out, limitReset)
    ensures MaskAfter(out, limitReset, k) == out <==> k % limitReset == 0
  {
    OneHotIsPow2(out, limitReset);
    var j := Log2(out);
    MaskAfterAt(j, limitReset, k);
    var p := (j + k) % limitReset;
    if Pow2(p) == out {
      Pow2Injective(p, j);
    }
    ModForwardIsSelf(j, k, limitReset);
  }

  /** With a single slot the bit never moves: every shift leaves `Out == 1`. */
  lemma {:induction false} SingleSlot(k: nat)
    ensures MaskAfter(InitialMask, 1, k) == 1
  {
    if k > 0 {
      SingleSlot(k - 1);
    }
  }

  /**
   * The left-shifting counter visits the slots in the opposite order to the
   * shift-right counter: started in mirrored slots, the two active slots
   * always add up to LimitReset-1.
   */
  lemma MirrorOfShiftRight(j: nat, limitReset: nat, k: nat)
    requires j < limitReset
    ensures Log2(MaskAfter(Pow2(j), limitReset, k))
          + Log2(RingCounter.MaskAfter(Pow2(limitReset - 1 - j), limitReset, k)) == limitReset - 1
  {
    var r := (j + k) % limitReset;
    MaskAfterAt(j, limitReset, k);
    MirroredSlots(j, limitReset, k);
    RingCounter.MaskAfterAt(limitReset - 1 - j, limitReset, k);
    assert RingCounter.MaskAfter(Pow2(limitReset - 1 - j), limitReset, k) == Pow2(limitReset - 1 - r);
    LogsOfMirroredSlots(r, limitReset);
  }

  /** k slots back from the mirror of j is the mirror of k slots forward from j. */
  lemma MirroredSlots(j: nat, limitReset: nat, k: nat)
    requires j < limitReset
    ensures (limitReset - 1 - j - k) % limitReset == limitReset - 1 - (j + k) % limitReset
  {
    ModMirror(j + k, limitReset);
    assert limitReset - 1 - j - k == limitReset - 1 - (j + k);
  }

  lemma LogsOfMirroredSlots(r: nat, limitReset: nat)
    requires r < limitReset
    ensures Log2(Pow2(r)) + Log2(Pow2(limitReset - 1 - r)) == limitReset - 1
  {
    Pow2Bits(r);
    Pow2Bits(limitReset - 1 - r);
  }

  class Chip4017 {
    var out: nat
    var limitReset: nat

    ghost predicate Valid()
      reads this
    {
      RingCounter.ValidLimit(limitReset) && OneHot(out, limitReset)
    }

    /** The constructor once its range check has passed: only the field initialiser sets Out. */
    constructor (limitReset: nat)
      requires RingCounter.ValidLimit(limitReset)
      ensures Valid()
      ensures this.limitReset == limitReset && out == InitialMask
    {
      out := InitialMask;
      this.limitReset := limitReset;
      Pow2IsOneHot(0, limitReset);
    }

    method Shift()
      requires Valid()
      modifies this
      ensures Valid()
      ensures limitReset == old(limitReset)
      ensures out == NextMask(old(out), limitReset)
    {
      NextMaskOneHot(out, limitReset);
      if out >= Pow2(limitReset - 1) {
        Reset();
      } else {
        out := out * 2;
      }
    }

    method Reset()
      requires Valid()
      modifies this
      ensures Valid()
      ensures limitReset == old(limitReset)
      ensures out == InitialMask
    {
      Pow2IsOneHot(0, limitReset);
      out := InitialMask;
    }

    method GetOut() returns (r: nat)
      requires Valid()
      ensures r == out && OneHot(r, limitReset)
    {
      r := out;
    }
  }

  /** `Chip4017(limitReset)`: throws when `limitReset == 0 || limitReset > 10`. */
  method Build(limitReset: nat) returns (r: Result<Chip4017>)
    ensures r.InvalidArgument? <==> !RingCounter.ValidLimit(limitReset)
    ensures r.Ok? ==> fresh(r.value) && r.value.Valid()
    ensures r.Ok? ==> r.value.limitReset == limitReset && r.value.out == InitialMask
  {
    if limitReset == 0 || limitReset > 10 {
      return InvalidArgument;
    }
    var c := new Chip4017(limitReset);
    return Ok(c);
  }
}
