/**
 * Powers of two, bit counts and one-hot masks: the arithmetic under the
 * CD4017 ring counters, whose output is a word with exactly one bit set.
 */
module Bits {

  /** 2^k, i.e. `1u << k` for the small shift amounts (at most 9) the counters use. */
  function Pow2(k: nat): (r: nat)
    ensures r >= 1
    ensures k > 0 ==> r % 2 == 0
  {
    if k == 0 then 1 else 2 * Pow2(k - 1)
  }

  /** Number of set bits of n. */
  function BitCount(n: nat): nat
  {
    if n == 0 then 0 else n % 2 + BitCount(n / 2)
  }

  /** Index of the highest set bit of n (0 for 0 and 1). */
  function Log2(n: nat): nat
  {
    if n <= 1 then 0 else 1 + Log2(n / 2)
  }

  /** Exactly one bit of m is set, and it is one of bits 0 .. width-1. */
  predicate OneHot(m: nat, width: nat)
  {
    BitCount(m) == 1 && m < Pow2(width)
  }

  lemma {:induction false} Pow2Less(i: nat, j: nat)
    requires i < j
    ensures Pow2(i) < Pow2(j)
  {
    if i + 1 < j {
      Pow2Less(i, j - 1);
    }
  }

  lemma Pow2Monotone(i: nat, j: nat)
    ensures i < j <==> Pow2(i) < Pow2(j)
  {
    if i < j {
      Pow2Less(i, j);
    } else if j < i {
      Pow2Less(j, i);
    }
  }

  lemma Pow2Injective(i: nat, j: nat)
    requires Pow2(i) == Pow2(j)
    ensures i == j
  {
    Pow2Monotone(i, j);
    Pow2Monotone(j, i);
  }

  lemma {:induction false} BitCountZero(n: nat)
    requires BitCount(n) == 0
    ensures n == 0
  {
    if n != 0 {
      BitCountZero(n / 2);
    }
  }

  lemma {:induction false} Pow2Bits(j: nat)
    ensures BitCount(Pow2(j)) == 1
    ensures Log2(Pow2(j)) == j
  {
    if j > 0 {
      Pow2Bits(j - 1);
      assert Pow2(j) / 2 == Pow2(j - 1);
    }
  }

  /** A word with a single set bit is the power of two of that bit's index. */
  lemma {:induction false} SingleBitIsPow2(m: nat)
    requires BitCount(m) == 1
    ensures m == Pow2(Log2(m))
  {
    if m % 2 == 1 {
      BitCountZero(m / 2);
    } else {
      SingleBitIsPow2(m / 2);
    }
  }

  /** The one-hot masks of width w are the powers 2^j with j < w ... */
  lemma OneHotIsPow2(m: nat, width: nat)
    requires OneHot(m, width)
    ensures Log2(m) < width && m == Pow2(Log2(m))
  {
    SingleBitIsPow2(m);
    Pow2Monotone(Log2(m), width);
  }

  /** ... and every such power is one-hot. */
  lemma Pow2IsOneHot(j: nat, width: nat)
    requires j < width
    ensures OneHot(Pow2(j), width)
  {
    Pow2Bits(j);
    Pow2Monotone(j, width);
  }

  /** Stepping a position one slot down a ring of `width` slots. */
  lemma ModPred(x: int, width: nat)
    requires width >= 1
    ensures (x - 1) % width == if x % width == 0 then width - 1 else x % width - 1
  {
    var q, r := x / width, x % width;
    if r == 0 {
      assert x - 1 == (q - 1) * width + (width - 1);
      ModUnique(x - 1, q - 1, width - 1, width);
    } else {
      assert x - 1 == q * width + (r - 1);
      ModUnique(x - 1, q, r - 1, width);
    }
  }

  /** Stepping a position one slot up a ring of `width` slots. */
  lemma ModSucc(x: int, width: nat)
    requires width >= 1
    ensures (x + 1) % width == if x % width == width - 1 then 0 else x % width + 1
  {
    var q, r := x / width, x % width;
    if r == width - 1 {
      assert x + 1 == (q + 1) * width + 0;
      ModUnique(x + 1, q + 1, 0, width);
    } else {
      assert x + 1 == q * width + (r + 1);
      ModUnique(x + 1, q, r + 1, width);
    }
  }

  /** Euclidean remainder is determined by any quotient/remainder decomposition. */
  lemma ModUnique(x: int, q: int, r: int, width: nat)
    requires width >= 1 && 0 <= r < width && x == q * width + r
    ensures x % width == r
  {
    var q', r' := x / width, x % width;
    assert x == q' * width + r';
    assert (q - q') * width == r' - r;
    if q > q' {
      MulAtLeast(q - q', width);
    } else if q < q' {
      MulAtLeast(q' - q, width);
    }
  }

  lemma {:induction false} MulAtLeast(d: nat, width: nat)
    requires d >= 1
    ensures d * width >= width
  {
    if d > 1 {
      MulAtLeast(d - 1, width);
      assert d * width == (d - 1) * width + width;
    }
  }

  /** Going back k slots on a ring of `width` slots lands on the start exactly when k is a multiple of width. */
  lemma ModBackIsSelf(j: nat, k: nat, width: nat)
    requires j < width
    ensures (j - k) % width == j <==> k % width == 0
  {
    if (j - k) % width == j {
      var q := (j - k) / width;
      assert j - k == q * width + j;
      assert k == (-q) * width + 0;
      ModUnique(k, -q, 0, width);
    }
    if k % width == 0 {
      var q := k / width;
      assert k == q * width;
      assert j - k == (-q) * width + j;
      ModUnique(j - k, -q, j, width);
    }
  }

  /** Going forward k slots on a ring of `width` slots lands on the start exactly when k is a multiple of width. */
  lemma ModForwardIsSelf(j: nat, k: nat, width: nat)
    requires j < width
    ensures (j + k) % width == j <==> k % width == 0
  {
    if (j + k) % width == j {
      var q := (j + k) / width;
      assert j + k == q * width + j;
      assert k == q * width + 0;
      ModUnique(k, q, 0, width);
    }
    if k % width == 0 {
      var q := k / width;
      assert k == q * width;
      assert j + k == q * width + j;
      ModUnique(j + k, q, j, width);
    }
  }

  /** Reflecting a slot of a ring of `width` slots commutes with reducing it. */
  lemma ModMirror(x: int, width: nat)
    requires width >= 1
    ensures (width - 1 - x) % width == width - 1 - x % width
  {
    var q, r := x / width, x % width;
    assert x == q * width + r;
    assert width - 1 - x == (-q) * width + (width - 1 - r);
    ModUnique(width - 1 - x, -q, width - 1 - r, width);
  }
}
