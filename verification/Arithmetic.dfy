/** Number facts shared by the modules: division, powers of two, bit masks. */
module Arithmetic {
  const TWO_64: nat := 0x1_0000_0000_0000_0000

  /** What 64-bit unsigned arithmetic keeps of a number. The modulus is spelled out so that the
      solver sees a constant. */
  function U64(n: nat): (w: nat)
    ensures w < TWO_64
  {
    n % 0x1_0000_0000_0000_0000
  }

  // ---------------------------------------------------------------- division

  lemma OnlyZeroMultipleIsSmall(q: int, d: int, r: int)
    requires 0 < d && -d < r < d && d * q == r
    ensures q == 0 && r == 0
  {
    assert q >= 1 ==> d * q >= d;
    assert q <= -1 ==> d * q <= -d;
  }

  lemma UniqueQuotient(n: int, d: nat, q: int, r: int)
    requires 0 < d && 0 <= r < d && n == d * q + r
    ensures n / d == q && n % d == r
  {
    var q', r' := n / d, n % d;
    assert d * (q - q') == r' - r;
    OnlyZeroMultipleIsSmall(q - q', d, r' - r);
  }

  lemma MultipleLeavesNoRemainder(q: int, d: nat)
    requires 0 < d
    ensures (d * q) % d == 0
  {
    UniqueQuotient(d * q, d, q, 0);
  }

  /** Whole laps of 2^64 make no difference. */
  lemma LapsWrapAway(laps: nat, n: nat)
    ensures U64(0x1_0000_0000_0000_0000 * laps + n) == U64(n)
  {
    var q, r := n / 0x1_0000_0000_0000_0000, n % 0x1_0000_0000_0000_0000;
    UniqueQuotient(0x1_0000_0000_0000_0000 * laps + n, 0x1_0000_0000_0000_0000, laps + q, r);
  }

  lemma SplitWord(n: nat)
    ensures n == 0x1_0000_0000_0000_0000 * (n / 0x1_0000_0000_0000_0000) + U64(n)
  {
  }

  // ---------------------------------------------------------------- powers of two

  function Pow2(n: nat): (p: nat)
    ensures 0 < p
  {
    if n == 0 then 1 else 2 * Pow2(n - 1)
  }

  ghost predicate PowerOfTwo(n: nat) {
    exists k: nat :: n == Pow2(k)
  }

  /** The program's doubling loop, from `result` on. */
  function NextPow2(value: nat, result: nat): nat
    requires 0 < result
    decreases value - result
  {
    if result < value then NextPow2(value, 2 * result) else result
  }

  /** It ends at the first power of two that is not below `value`. */
  lemma {:induction false} NextPow2IsTight(value: nat, k: nat)
    requires Pow2(k) == 1 || Pow2(k) < 2 * value
    ensures var p := NextPow2(value, Pow2(k));
            && value <= p && (p == 1 || p < 2 * value)
            && PowerOfTwo(p)
    decreases value - Pow2(k)
  {
    if Pow2(k) < value {
      assert 2 * Pow2(k) == Pow2(k + 1);
      NextPow2IsTight(value, k + 1);
    } else {
      assert NextPow2(value, Pow2(k)) == Pow2(k);
    }
  }

  method RoundUp(value: nat) returns (result: nat)
    ensures value <= result && (result == 1 || result < 2 * value) && PowerOfTwo(result)
  {
    result := 1;
    ghost var k := 0;
    while result < value
      invariant result == Pow2(k) && (result == 1 || result < 2 * value)
      decreases value - result
    {
      result := 2 * result;
      k := k + 1;
    }
  }

  // ---------------------------------------------------------------- masks

  /** Bitwise and, from the lowest bit. */
  function And(a: nat, b: nat): nat {
    if a == 0 || b == 0 then 0 else 2 * And(a / 2, b / 2) + if a % 2 == 1 && b % 2 == 1 then 1 else 0
  }

  /** Masking with a power of two less one is the remainder of a division by that power. */
  lemma {:induction false} MaskingIsRemainder(n: nat, bits: nat)
    ensures And(n, Pow2(bits) - 1) == n % Pow2(bits)
  {
    if bits == 0 {
      assert n % 1 == 0;
    } else if n == 0 {
      assert 0 % Pow2(bits) == 0 by {
        UniqueQuotient(0, Pow2(bits), 0, 0);
      }
    } else {
      var p := Pow2(bits - 1);
      MaskingIsRemainder(n / 2, bits - 1);
      assert (2 * p - 1) / 2 == p - 1 && (2 * p - 1) % 2 == 1;
      MaskOneBit(n, p);
    }
  }

  lemma MaskOneBit(n: nat, p: nat)
    requires 0 < p
    ensures 2 * ((n / 2) % p) + n % 2 == n % (2 * p)
  {
    var q, r := (n / 2) / p, (n / 2) % p;
    assert n / 2 == p * q + r;
    assert n == (2 * p) * q + (2 * r + n % 2);
    UniqueQuotient(n, 2 * p, q, 2 * r + n % 2);
  }
}
