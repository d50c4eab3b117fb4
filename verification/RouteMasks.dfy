/**
  * The bit operations of the route code: masking an address with a shifted all-ones word, and setting the first
  * bit below a prefix. They are the arithmetic that `Routes` uses.
  */
module RouteMasks {
  import opened Wrappers
  import opened Numbers
  import opened Routes

  /** The bitwise conjunction of the low `width` bits. */
  function AndBits(a: nat, b: nat, width: nat): nat {
    if width == 0 then 0 else (if a % 2 == 1 && b % 2 == 1 then 1 else 0) + 2 * AndBits(a / 2, b / 2, width - 1)
  }

  /** The bitwise disjunction of the low `width` bits. */
  function OrBits(a: nat, b: nat, width: nat): nat {
    if width == 0 then 0 else (if a % 2 == 1 || b % 2 == 1 then 1 else 0) + 2 * OrBits(a / 2, b / 2, width - 1)
  }

  /** A word of `width` bits shifted left: each step doubles it and drops the bit that leaves the word. */
  function ShiftLeft(x: nat, n: nat, width: nat): nat {
    if n == 0 then x else
      var doubled := 2 * ShiftLeft(x, n - 1, width);
      if doubled >= Pow2(width) then doubled - Pow2(width) else doubled
  }

  /** All ones shifted left leave ones above the shift only. */
  lemma {:induction false} ShiftedOnes(n: nat, width: nat)
    requires n < width
    ensures ShiftLeft(Pow2(width) - 1, n, width) == Pow2(width) - Pow2(n)
  {
    if n > 0 {
      ShiftedOnes(n - 1, width);
      Pow2Monotone(n, width);
    }
  }

  lemma {:induction false} Pow2Monotone(m: nat, n: nat)
    requires m <= n
    ensures Pow2(m) <= Pow2(n)
  {
    if m < n {
      Pow2Monotone(m, n - 1);
    }
  }

  // ----- halving

  lemma {:induction false} FloorOfHalf(x: nat, size: nat)
    requires size > 0
    ensures 2 * Floor(x / 2, size) == Floor(x, 2 * size)
  {
    if x >= 2 * size {
      FloorOfHalf(x - 2 * size, size);
      assert (x - 2 * size) / 2 == x / 2 - size;
    }
  }

  lemma {:induction false} FloorOfOne(x: nat)
    ensures Floor(x, 1) == x
  {
    if x > 0 {
      FloorOfOne(x - 1);
    }
  }

  // ----- masking

  lemma {:induction false} AndOnes(x: nat, width: nat)
    requires x < Pow2(width)
    ensures AndBits(x, Pow2(width) - 1, width) == x
  {
    if width > 0 {
      AndOnes(x / 2, width - 1);
      OnesHalved(Pow2(width - 1));
    }
  }

  lemma OnesHalved(half: nat)
    requires half > 0
    ensures (2 * half - 1) % 2 == 1 && (2 * half - 1) / 2 == half - 1
  {
  }

  lemma AndEven(x: nat, half: nat, width: nat)
    requires width > 0
    ensures AndBits(x, 2 * half, width) == 2 * AndBits(x / 2, half, width - 1)
  {
    assert (2 * half) % 2 == 0 && (2 * half) / 2 == half;
  }

  lemma {:induction false} MaskIsFloor(x: nat, low: nat, width: nat)
    requires x < Pow2(width) && low <= width
    ensures Pow2(low) <= Pow2(width) && AndBits(x, Pow2(width) - Pow2(low), width) == Floor(x, Pow2(low))
  {
    Pow2Monotone(low, width);
    if low == 0 {
      AndOnes(x, width);
      FloorOfOne(x);
    } else {
      MaskIsFloor(x / 2, low - 1, width - 1);
      AndEven(x, Pow2(width - 1) - Pow2(low - 1), width);
      FloorOfHalf(x, Pow2(low - 1));
      assert Pow2(width) - Pow2(low) == 2 * (Pow2(width - 1) - Pow2(low - 1));
    }
  }

  lemma {:induction false} AndZero(x: nat, width: nat)
    ensures AndBits(x, 0, width) == 0
  {
    if width > 0 {
      AndZero(x / 2, width - 1);
    }
  }

  /** The word an address is masked with: none of its bits for prefix 0, else all ones shifted left. */
  function Mask(family: Family, prefix: nat): nat
    requires prefix <= Width(family)
  {
    if prefix == 0 then 0 else ShiftLeft(Size(family) - 1, Width(family) - prefix, Width(family))
  }

  /** The network address is the address masked bit by bit. */
  lemma NetworkAddressIsMasked(a: Address, prefix: nat)
    requires prefix <= Width(a.family)
    ensures NetworkAddress(a, prefix).bits == AndBits(a.bits, Mask(a.family, prefix), Width(a.family))
  {
    var width := Width(a.family);
    SizeIsPow2(a.family);
    MaskIsFloor(a.bits, width - prefix, width);
    if prefix == 0 {
      AndZero(a.bits, width);
    } else {
      ShiftedOnes(width - prefix, width);
    }
  }

  // ----- setting a bit

  lemma {:induction false} OrZero(x: nat, width: nat)
    requires x < Pow2(width)
    ensures OrBits(x, 0, width) == x
  {
    if width > 0 {
      OrZero(x / 2, width - 1);
    }
  }

  /** Setting a bit in a word that has none from there down adds its weight. */
  lemma {:induction false} OrIsSum(x: nat, bit: nat, width: nat)
    requires x < Pow2(width) && bit < width && Floor(x, Pow2(bit + 1)) == x
    ensures OrBits(x, Pow2(bit), width) == x + Pow2(bit)
  {
    FloorOfHalf(x, Pow2(bit));
    assert x == 2 * (x / 2);
    if bit == 0 {
      OrZero(x / 2, width - 1);
    } else {
      OrIsSum(x / 2, bit - 1, width - 1);
      OrEven(x / 2, Pow2(bit - 1), width);
    }
  }

  lemma OrEven(a: nat, b: nat, width: nat)
    requires width > 0
    ensures OrBits(2 * a, 2 * b, width) == 2 * OrBits(a, b, width - 1)
  {
    assert (2 * a) % 2 == 0 && (2 * a) / 2 == a && (2 * b) % 2 == 0 && (2 * b) / 2 == b;
  }

  /** The right half of a split starts at the parent's address with the first bit below its prefix set. */
  lemma SplitSetsBit(r: Route, left: Route, right: Route)
    requires Canonical(r) && Split(r) == Some((left, right))
    ensures right.network.bits == OrBits(r.network.bits, Pow2(right.HostBits()), Width(r.network.family))
  {
    SizeIsPow2(r.network.family);
    OrIsSum(r.network.bits, right.HostBits(), Width(r.network.family));
  }
}
