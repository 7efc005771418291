/**
 * CD4017 ring counter of testes/teste-appleJuice.cpp: same start as the
 * shift-right counter (bit LimitReset-1 set), but the wrap is taken when the
 * word is 1, before the shift would empty it.
 */
module RingCounterWrapOnOne {
  import opened Bits
  import opened Errors
  import RingCounter

  /** `if (Out == 1) reset(); else Out = Out >> 1;` */
  function NextMask(out: nat, limitReset: nat): nat
    requires limitReset >= 1
  {
    if out == 1 then RingCounter.InitialMask(limitReset) else out / 2
  }

  /** The mask after k shifts. */
  function MaskAfter(out: nat, limitReset: nat, k: nat): nat
    requires limitReset >= 1
  {
    if k == 0 then out else NextMask(MaskAfter(out, limitReset, k - 1), limitReset)
  }

  /**
   * Wrapping on 1 and wrapping on 0 give the same next mask for every word
   * except 0, which no counter ever holds.
   */
  lemma SameAsWrapOnZero(out: nat, limitReset: nat)
    requires limitReset >= 1
    ensures NextMask(out, limitReset) == RingCounter.NextMask(out, limitReset) <==> out != 0
  {
    if out == 0 {
      assert RingCounter.InitialMask(limitReset) >= 1;
    }
  }

  /** A shift keeps exactly one bit set among bits 0 .. LimitReset-1. */
  lemma NextMaskOneHot(out: nat, limitReset: nat)
    requires limitReset >= 1 && OneHot(out, limitReset)
    ensures OneHot(NextMask(out, limitReset), limitReset)
  {
    SameAsWrapOnZero(out, limitReset);
    RingCounter.NextMaskOneHot(out, limitReset);
  }

  /** On reachable masks the two conventions agree after any number of shifts. */
  lemma {:induction false} MaskAfterSame(out: nat, limitReset: nat, k: nat)
    requires limitReset >= 1 && OneHot(out, limitReset)
    ensures MaskAfter(out, limitReset, k) == RingCounter.MaskAfter(out, limitReset, k)
    ensures OneHot(MaskAfter(out, limitReset, k), limitReset)
  {
    if k > 0 {
      MaskAfterSame(out, limitReset, k - 1);
      var m := MaskAfter(out, limitReset, k - 1);
      SameAsWrapOnZero(m, limitReset);
      NextMaskOneHot(m, limitReset);
    }
  }

  /** LimitReset shifts bring the mask back to where it started, and no fewer do. */
  lemma MaskReturns(out: nat, limitReset: nat, k: nat)
    requires limitReset >= 1 && OneHot(out, limitReset)
    ensures MaskAfter(out, limitReset, k) == out <==> k % limitReset == 0
  {
    MaskAfterSame(out, limitReset, k);
    RingCounter.MaskReturns(out, limitReset, k);
  }

  class Chip4017 {
    var limitReset: nat
    var out: nat

    ghost predicate Valid()
      reads this
    {
      RingCounter.ValidLimit(limitReset) && OneHot(out, limitReset)
    }

    /** The constructor body once its range check has passed: `Out = 1u << (LimitReset - 1)`. */
    constructor (limitReset: nat)
      requires RingCounter.ValidLimit(limitReset)
      ensures Valid()
      ensures this.limitReset == limitReset && out == RingCounter.InitialMask(limitReset)
    {
      this.limitReset := limitReset;
      out := RingCounter.InitialMask(limitReset);
    }

    method Shift()
      requires Valid()
      modifies this
      ensures Valid()
      ensures limitReset == old(limitReset)
      ensures out == NextMask(old(out), limitReset)
    {
      NextMaskOneHot(out, limitReset);
      if out == 1 {
        Reset();
      } else {
        out := out / 2;
      }
    }

    method Reset()
      requires Valid()
      modifies this
      ensures Valid()
      ensures limitReset == old(limitReset)
      ensures out == RingCounter.InitialMask(limitReset)
    {
      out := RingCounter.InitialMask(limitReset);
    }

    method GetOut() returns (r: nat)
      requires Valid()
      ensures r == out && OneHot(r, limitReset)
    {
      r := out;
    }
  }

  /** `Chip4017(limitReset)`: throws when `limitReset == 0 || limitReset > 10`. */
  method Build(limitReset: nat) returns (r: Result<Chip4017>)
    ensures r.InvalidArgument? <==> !RingCounter.ValidLimit(limitReset)
    ensures r.Ok? ==> fresh(r.value) && r.value.Valid()
    ensures r.Ok? ==> r.value.limitReset == limitReset && r.value.out == RingCounter.InitialMask(limitReset)
  {
    if limitReset == 0 || limitReset > 10 {
      return InvalidArgument;
    }
    var c := new Chip4017(limitReset);
    return Ok(c);
  }
}
