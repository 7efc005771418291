/**
 * CD4017 ring counter, shift-right convention: the word starts with bit
 * LimitReset-1 set, every clock shifts it one slot right, and when the bit
 * falls off bit 0 (the word becomes 0) it is reloaded at the top.
 * This is the Chip4017 of apple-juice.cpp, janela.cpp, teste.cpp,
 * testes/teste.cpp and testes/testes.cpp, which carry the same text.
 */
module RingCounter {
  import opened Bits
  import opened Errors

  /** The constructor's range check: LimitReset must lie in 1..10. */
  predicate ValidLimit(limitReset: nat)
  {
    1 <= limitReset <= 10
  }

  /** `1u << (LimitReset - 1)`: the state after construction and after reset. */
  function InitialMask(limitReset: nat): (r: nat)
    requires limitReset >= 1
    ensures OneHot(r, limitReset) && Log2(r) == limitReset - 1
  {
    Pow2IsOneHot(limitReset - 1, limitReset);
    Pow2Bits(limitReset - 1);
    Pow2(limitReset - 1)
  }

  /** `Out >>= 1; if (Out == 0) Out = 1u << (LimitReset - 1);` */
  function NextMask(out: nat, limitReset: nat): nat
    requires limitReset >= 1
  {
    if out / 2 == 0 then InitialMask(limitReset) else out / 2
  }

  /** The mask after k shifts. */
  function MaskAfter(out: nat, limitReset: nat, k: nat): nat
    requires limitReset >= 1
  {
    if k == 0 then out else NextMask(MaskAfter(out, limitReset, k - 1), limitReset)
  }

  /** One shift moves the active bit from slot j to slot j-1, and from slot 0 to the top slot. */
  lemma NextMaskAt(j: nat, limitReset: nat)
    requires j < limitReset
    ensures NextMask(Pow2(j), limitReset) == Pow2(if j == 0 then limitReset - 1 else j - 1)
  {
    if j > 0 {
      assert Pow2(j) / 2 == Pow2(j - 1);
    }
  }

  /** A shift keeps exactly one bit set among bits 0 .. LimitReset-1. */
  lemma NextMaskOneHot(out: nat, limitReset: nat)
    requires limitReset >= 1 && OneHot(out, limitReset)
    ensures OneHot(NextMask(out, limitReset), limitReset)
  {
    OneHotIsPow2(out, limitReset);
    var j := Log2(out);
    NextMaskAt(j, limitReset);
    Pow2IsOneHot(if j == 0 then limitReset - 1 else j - 1, limitReset);
  }

  /** After k shifts the bit that started in slot j sits in slot (j - k) mod LimitReset. */
  lemma {:induction false} MaskAfterAt(j: nat, limitReset: nat, k: nat)
    requires j < limitReset
    ensures MaskAfter(Pow2(j), limitReset, k) == Pow2((j - k) % limitReset)
  {
    if k == 0 {
      ModUnique(j, 0, j, limitReset);
    } else {
      MaskAfterAt(j, limitReset, k - 1);
      var x := j - (k - 1);
      var p := x % limitReset;
      assert MaskAfter(Pow2(j), limitReset, k) == NextMask(Pow2(p), limitReset);
      NextMaskAt(p, limitReset);
      ModPred(x, limitReset);
      assert x - 1 == j - k;
    }
  }

  /** LimitReset consecutive shifts bring any reachable mask back to itself ... */
  lemma MaskPeriod(out: nat, limitReset: nat)
    requires limitReset >= 1 && OneHot(out, limitReset)
    ensures MaskAfter(out, limitReset, limitReset) == out
  {
    OneHotIsPow2(out, limitReset);
    MaskAfterAt(Log2(out), limitReset, limitReset);
    ModUnique(Log2(out) - limitReset, -1, Log2(out), limitReset);
  }

  /** ... and no smaller positive number of shifts does: the mask returns exactly when k is a multiple of LimitReset. */
  lemma MaskReturns(out: nat, limitReset: nat, k: nat)
    requires limitReset >= 1 && OneHot(out, limitReset)
    ensures MaskAfter(out, limitReset, k) == out <==> k % limitReset == 0
  {
    OneHotIsPow2(out, limitReset);
    var j := Log2(out);
    MaskAfterAt(j, limitReset, k);
    var p := (j - k) % limitReset;
    if Pow2(p) == out {
      Pow2Injective(p, j);
    }
    ModBackIsSelf(j, k, limitReset);
  }

  /** From the initial mask, k shifts leave the bit in slot (LimitReset - 1 - k) mod LimitReset. */
  lemma MaskAfterReset(limitReset: nat, k: nat)
    requires limitReset >= 1
    ensures MaskAfter(InitialMask(limitReset), limitReset, k) == Pow2((limitReset - 1 - k) % limitReset)
    ensures OneHot(MaskAfter(InitialMask(limitReset), limitReset, k), limitReset)
  {
    MaskAfterAt(limitReset - 1, limitReset, k);
    Pow2IsOneHot((limitReset - 1 - k) % limitReset, limitReset);
  }

  class Chip4017 {
    var limitReset: nat
    var out: nat

    ghost predicate Valid()
      reads this
    {
      ValidLimit(limitReset) && OneHot(out, limitReset)
    }

    /** The constructor body once its range check has passed: `reset()`. */
    constructor (limitReset: nat)
      requires ValidLimit(limitReset)
      ensures Valid()
      ensures this.limitReset == limitReset && out == InitialMask(limitReset)
    {
      this.limitReset := limitReset;
      out := InitialMask(limitReset);
    }

    method Shift()
      requires Valid()
      modifies this
      ensures Valid()
      ensures limitReset == old(limitReset)
      ensures out == NextMask(old(out), limitReset)
    {
      NextMaskOneHot(out, limitReset);
      out := out / 2;
      if out == 0 {
        out := InitialMask(limitReset);
      }
    }

    method Reset()
      requires Valid()
      modifies this
      ensures Valid()
      ensures limitReset == old(limitReset)
      ensures out == InitialMask(limitReset)
    {
      out := InitialMask(limitReset);
    }

    method GetOut() returns (r: nat)
      requires Valid()
      ensures r == out && OneHot(r, limitReset)
    {
      r := out;
    }

    method GetLimitReset() returns (r: nat)
      requires Valid()
      ensures r == limitReset && ValidLimit(r)
    {
      r := limitReset;
    }
  }

  /** `Chip4017(limitReset)`: throws unless 1 <= limitReset <= 10. */
  method Build(limitReset: nat) returns (r: Result<Chip4017>)
    ensures r.InvalidArgument? <==> !ValidLimit(limitReset)
    ensures r.Ok? ==> fresh(r.value) && r.value.Valid()
    ensures r.Ok? ==> r.value.limitReset == limitReset && r.value.out == InitialMask(limitReset)
  {
    if limitReset < 1 || limitReset > 10 {
      return InvalidArgument;
    }
    var c := new Chip4017(limitReset);
    return Ok(c);
  }
}
