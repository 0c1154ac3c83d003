/** The 64-bit mixing functions of the program. One value of each aside, nothing is proved about
    them on purpose: the tables that use them are verified for every hash function, and these are the
    ones they are instantiated with. Below them, how a hash selects a slot. */
module Hashing {
  import opened Arithmetic
  import opened Wrappers

  /** The finaliser of src/Core/BloomFilter.cpp. */
  function BloomMix(value: bv64): bv64 {
    var a := value ^ (value >> 30);
    var b := a * 0xBF58476D1CE4E5B9;
    var c := b ^ (b >> 27);
    var d := c * 0x94D049BB133111EB;
    d ^ (d >> 31)
  }

  /** The shard and slot hash of src/Core/ShadowLedger.cpp. */
  function LedgerMix(value: bv64): bv64 {
    var a := (value >> 4) * 0x9E3779B97F4A7C15;
    var b := a ^ (a >> 29);
    var c := b * 0xBF58476D1CE4E5B9;
    c ^ (c >> 32)
  }

  lemma BloomMixOfOne()
    ensures BloomMix(1) == 0x5692161D100B05E5
  {
  }

  lemma LedgerMixOfSixteen()
    ensures LedgerMix(0x10) == 0xCA009717F87D8879
  {
  }

  /** An address used as a key. */
  type Key = Word

  function FirstHash(key: Key): nat {
    BloomMix(key as bv64) as nat
  }

  /** With the lowest bit set; BloomFilter says what for. */
  function SecondHash(key: Key): (h: nat)
    ensures h % 2 == 1
  {
    WithLowestBit(BloomMix((key as bv64) ^ 0x9E3779B97F4A7C15) as nat)
  }

  function WithLowestBit(n: nat): (m: nat)
    ensures m % 2 == 1
  {
    2 * (n / 2) + 1
  }

  function LedgerHash(key: Key): nat {
    LedgerMix(key as bv64) as nat
  }

  /** The slot a hash or a cursor selects in a table: the remainder of a division by its size. */
  function Reduced(hash: nat, size: nat): (i: nat)
    requires 0 < size
    ensures i < size
  {
    if hash < size then hash else Reduced(hash - size, size)
  }

  lemma OneLapLess(hash: nat, size: nat)
    requires 0 < size <= hash
    ensures (hash - size) % size == hash % size
  {
    var q, r := (hash - size) / size, (hash - size) % size;
    assert hash - size == size * q + r;
    assert size * (q + 1) == size * q + size;
    UniqueQuotient(hash, size, q + 1, r);
  }

  lemma {:induction false} ReducedIsRemainder(hash: nat, size: nat)
    requires 0 < size
    ensures Reduced(hash, size) == hash % size
  {
    if hash < size {
      UniqueQuotient(hash, size, 0, hash);
    } else {
      ReducedIsRemainder(hash - size, size);
      OneLapLess(hash, size);
    }
  }

  /** Sizes are powers of two, and then the program's mask selects the same slot. */
  lemma MaskSelectsTheSlot(hash: nat, size: nat)
    requires PowerOfTwo(size)
    ensures And(hash, size - 1) == Reduced(hash, size)
  {
    var bits: nat :| size == Pow2(bits);
    MaskingIsRemainder(hash, bits);
    ReducedIsRemainder(hash, size);
  }

  /** Positions closer together than the size of the table select different slots. */
  lemma {:induction false} ReducedShift(n: nat, k: nat, size: nat)
    requires 0 < k < size
    ensures Reduced(n, size) != Reduced(n + k, size)
  {
    if size <= n {
      ReducedShift(n - size, k, size);
    } else if size <= n + k {
      assert Reduced(n + k, size) == n + k - size;
    }
  }
}
