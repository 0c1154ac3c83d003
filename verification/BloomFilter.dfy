/** The bloom pre-filter (src/Core/BloomFilter.cpp). Bit b of a half stands for bit b % 64 of
    its word b / 64. The two hash functions are parameters: no property here depends on how
    well they mix. */
module BloomFilter {
  import opened Arithmetic
  import opened Hashing

  const HASHES: nat := 7

  datatype HashPair = HashPair(h1: Key -> nat, h2: Key -> nat)

  /** The bit probed by hash `i`; the sum wraps like the program's 64-bit arithmetic. */
  function BitOf(h: HashPair, key: Key, i: nat, bits: nat): (b: nat)
    requires 0 < bits
    ensures b < bits
  {
    U64(h.h1(key) + i * h.h2(key)) % bits
  }

  /** All seven bits of `key` are set, among the first `n` probes. */
  ghost predicate SetUpTo(half: seq<bool>, h: HashPair, key: Key, n: nat)
    requires 0 < |half|
  {
    forall i :: 0 <= i < n ==> half[BitOf(h, key, i, |half|)]
  }

  ghost predicate Covers(half: seq<bool>, h: HashPair, key: Key)
    requires 0 < |half|
  {
    SetUpTo(half, h, key, HASHES)
  }

  /** Bit `b` is one of the first `n` probes of `key`. */
  ghost predicate ProbedBy(h: HashPair, key: Key, b: nat, n: nat, bits: nat)
    requires 0 < bits
  {
    exists i :: 0 <= i < n && BitOf(h, key, i, bits) == b
  }

  ghost predicate ProbedByAny(h: HashPair, keys: seq<Key>, b: nat, bits: nat)
    requires 0 < bits
  {
    exists k :: k in keys && ProbedBy(h, k, b, HASHES, bits)
  }

  /** A half holds exactly the bits of these keys. */
  ghost predicate HoldsExactly(half: seq<bool>, h: HashPair, keys: seq<Key>)
    requires 0 < |half|
  {
    forall b :: 0 <= b < |half| ==> (half[b] <==> ProbedByAny(h, keys, b, |half|))
  }

  /** Every probe of `key` is also a probe of one of these keys, of whichever. */
  ghost predicate Collides(h: HashPair, keys: seq<Key>, key: Key, bits: nat)
    requires 0 < bits
  {
    forall i :: 0 <= i < HASHES ==> ProbedByAny(h, keys, BitOf(h, key, i, bits), bits)
  }

  lemma HoldsOneMore(before: seq<bool>, after: seq<bool>, h: HashPair, keys: seq<Key>, key: Key)
    requires 0 < |before| == |after| && HoldsExactly(before, h, keys)
    requires forall b :: 0 <= b < |after| ==> (after[b] <==> before[b] || ProbedBy(h, key, b, HASHES, |after|))
    ensures HoldsExactly(after, h, keys + [key])
  {
    forall b | 0 <= b < |after|
      ensures after[b] <==> ProbedByAny(h, keys + [key], b, |after|)
    {
      if ProbedByAny(h, keys, b, |after|) {
        var k :| k in keys && ProbedBy(h, k, b, HASHES, |after|);
        assert k in keys + [key];
      }
      assert key in keys + [key];
    }
  }

  lemma KeysCollideWithThemselves(h: HashPair, keys: seq<Key>, key: Key, bits: nat)
    requires 0 < bits && key in keys
    ensures Collides(h, keys, key, bits)
  {
    forall i | 0 <= i < HASHES
      ensures ProbedByAny(h, keys, BitOf(h, key, i, bits), bits)
    {
      assert ProbedBy(h, key, BitOf(h, key, i, bits), HASHES, bits);
    }
  }

  lemma HalfAnswers(half: seq<bool>, h: HashPair, keys: seq<Key>, key: Key)
    requires 0 < |half| && HoldsExactly(half, h, keys)
    ensures Covers(half, h, key) <==> Collides(h, keys, key, |half|)
  {
    if Covers(half, h, key) {
      forall i | 0 <= i < HASHES
        ensures ProbedByAny(h, keys, BitOf(h, key, i, |half|), |half|)
      {
        assert half[BitOf(h, key, i, |half|)];
      }
    }
  }

  // ---------------------------------------------------------------- seven different bits

  lemma RemainderModulo64(n: nat, bits: nat)
    requires 0 < bits && bits % 64 == 0
    ensures n % bits % 64 == n % 64
  {
    var q, r, m := n / bits, n % bits, bits / 64;
    assert n == bits * q + r && bits * q == 64 * (m * q);
    UniqueQuotient(n, 64, m * q + r / 64, r % 64);
  }

  lemma NoMultipleOf64(step: nat, d: nat, t: int)
    requires step % 2 == 1 && 0 < d < HASHES
    ensures d * step != 64 * t
  {
    if d == 1 || d == 2 || d == 3 {
    } else if d == 4 || d == 5 {
    } else {
    }
  }

  lemma OddStepsDiffer(start: nat, step: nat, d: nat)
    requires step % 2 == 1 && 0 < d < HASHES
    ensures (start + d * step) % 64 != start % 64
  {
    NoMultipleOf64(step, d, (start + d * step) / 64 - start / 64);
  }

  /** The second hash is odd so that a key's seven probes are seven different bits, in every half
      of whole words. */
  lemma SevenProbesDiffer(h: HashPair, key: Key, i: nat, j: nat, bits: nat)
    requires h.h2(key) % 2 == 1 && 0 < bits && bits % 64 == 0 && i < j < HASHES
    ensures BitOf(h, key, i, bits) != BitOf(h, key, j, bits)
  {
    var a, b := h.h1(key) + i * h.h2(key), h.h1(key) + j * h.h2(key);
    RemainderModulo64(U64(a), bits);
    RemainderModulo64(U64(b), bits);
    RemainderModulo64(a, TWO_64);
    RemainderModulo64(b, TWO_64);
    assert b == a + (j - i) * h.h2(key);
    OddStepsDiffer(a, h.h2(key), j - i);
  }

  // ---------------------------------------------------------------- what aging retains

  /** The keys added before and since the last swap of the two halves. */
  datatype Retention<T> = Retention(previous: seq<T>, recent: seq<T>)

  /** One Add: the key joins the active half; a full active half becomes the old one. */
  function Retain<T>(r: Retention<T>, key: T, aging: bool, ageAt: nat): Retention<T> {
    var recent := r.recent + [key];
    if aging && |recent| >= ageAt then Retention(recent, []) else Retention(r.previous, recent)
  }

  function RetainAll<T>(keys: seq<T>, aging: bool, ageAt: nat): Retention<T> {
    if keys == [] then Retention([], [])
    else Retain(RetainAll(keys[..|keys| - 1], aging, ageAt), keys[|keys| - 1], aging, ageAt)
  }

  function Last<T>(keys: seq<T>, n: nat): seq<T> {
    if n < |keys| then keys[|keys| - n..] else keys
  }

  /** A suffix of the adds, cut in two anywhere, grows by each further add. */
  lemma SuffixGrows<T>(previous: seq<T>, recent: seq<T>, keys: seq<T>, key: T)
    requires |previous| + |recent| <= |keys| && previous + recent == Last(keys, |previous| + |recent|)
    ensures recent + [key] == Last(keys + [key], |recent| + 1)
    ensures previous + (recent + [key]) == Last(keys + [key], |previous| + |recent| + 1)
  {
    var older := keys[..|keys| - |previous| - |recent|];
    assert keys == older + previous + recent;
    assert keys + [key] == older + previous + (recent + [key]);
  }

  /** What is retained is a suffix of the adds, its older part a full half or nothing. */
  ghost predicate IsRecent<T>(r: Retention<T>, keys: seq<T>, aging: bool, ageAt: nat) {
    && |r.previous| + |r.recent| <= |keys|
    && r.previous + r.recent == Last(keys, |r.previous| + |r.recent|)
    && (!aging ==> r.previous == [])
    && (aging ==> |r.recent| < ageAt && (r.previous == [] || |r.previous| == ageAt))
    && (r.previous == [] ==> |r.recent| == |keys|)
  }

  lemma RecentAfterRetain<T>(r: Retention<T>, keys: seq<T>, key: T, aging: bool, ageAt: nat)
    requires 0 < ageAt && IsRecent(r, keys, aging, ageAt)
    ensures IsRecent(Retain(r, key, aging, ageAt), keys + [key], aging, ageAt)
  {
    SuffixGrows(r.previous, r.recent, keys, key);
    assert (r.recent + [key]) + [] == r.recent + [key];
  }

  lemma {:induction false} RetainedIsRecent<T>(keys: seq<T>, aging: bool, ageAt: nat)
    requires 0 < ageAt
    ensures IsRecent(RetainAll(keys, aging, ageAt), keys, aging, ageAt)
  {
    if keys == [] {
    } else {
      var shorter, key := keys[..|keys| - 1], keys[|keys| - 1];
      RetainedIsRecent(shorter, aging, ageAt);
      RecentAfterRetain(RetainAll(shorter, aging, ageAt), shorter, key, aging, ageAt);
      assert keys == shorter + [key];
    }
  }

  /** Whatever is added, in whatever order: a filter that does not age retains every key, and
      an aging one retains a suffix of the adds that includes the last `ageAt`. */
  lemma RetainsTheMostRecent<T>(keys: seq<T>, aging: bool, ageAt: nat)
    requires 0 < ageAt
    ensures var r := RetainAll(keys, aging, ageAt);
            && (forall k :: k in Last(keys, ageAt) ==> k in r.previous || k in r.recent)
            && (!aging ==> r == Retention([], keys))
            && (aging && |keys| < ageAt ==> r == Retention([], keys))
  {
    RetainedIsRecent(keys, aging, ageAt);
    var r := RetainAll(keys, aging, ageAt);
    var n := |r.previous| + |r.recent|;
    assert r.previous == [] ==> r.previous + r.recent == r.recent;
    forall k | k in Last(keys, ageAt)
      ensures k in r.previous || k in r.recent
    {
      assert k in r.previous + r.recent by {
        LastIsMonotone(keys, ageAt, n);
      }
    }
  }

  lemma LastIsMonotone<T>(keys: seq<T>, m: nat, n: nat)
    requires m <= n || n == |keys|
    ensures forall k :: k in Last(keys, m) ==> k in Last(keys, n)
  {
    if m <= n < |keys| {
      assert keys[|keys| - m..] == keys[|keys| - n..][n - m..];
    }
  }

  // ---------------------------------------------------------------- the filter

  /** The bits asked for, with the defaults for zero. */
  function WantedBits(expectedElements: nat, bitsPerElement: nat): nat {
    (if expectedElements == 0 then 1 else expectedElements) * (if bitsPerElement == 0 then 10 else bitsPerElement)
  }

  class BloomFilter {
    const hash: HashPair
    const half0: array<bool>
    const half1: array<bool>
    const aging: bool
    const ageAt: nat
    var active: nat
    var addsInActive: nat
    var swaps: nat
    var ready: bool
    ghost var retained: Retention<Key>

    ghost predicate Valid()
      reads this, half0, half1
    {
      && half0 != half1 && 0 < half0.Length && 0 < half1.Length && 0 < ageAt
      && active <= 1 && (!aging ==> active == 0)
      && half0.Length == half1.Length && (!aging ==> retained.previous == [])
      && HoldsExactly(if active == 0 then half0[..] else half1[..], hash, retained.recent)
      && HoldsExactly(if active == 0 then half1[..] else half0[..], hash, retained.previous)
      && (aging ==> addsInActive == |retained.recent|)
    }

    /** What a read of the filter answers: whether all bits of the key collide with the keys
        retained in one half. */
    ghost predicate Reports(key: Key)
      requires 0 < half0.Length
      reads this
    {
      || !ready
      || Collides(hash, retained.recent, key, half0.Length)
      || Collides(hash, retained.previous, key, half0.Length)
    }

    constructor Init(hash: HashPair, expectedElements: nat, bitsPerElement: nat, aging: bool)
      ensures Valid() && ready && fresh(half0) && fresh(half1)
      ensures this.hash == hash && this.aging == aging && ageAt == if expectedElements == 0 then 1 else expectedElements
      ensures retained == Retention([], [])
      ensures half0.Length == half1.Length && half0.Length % 64 == 0
      ensures var wanted := WantedBits(expectedElements, bitsPerElement);
              var given := if aging then 2 * half0.Length else half0.Length;
              wanted <= given < wanted + 128
      ensures forall b :: 0 <= b < half0.Length ==> !half0[b] && !half1[b]
    {
      var elements := if expectedElements == 0 then 1 else expectedElements;
      var total := WantedBits(expectedElements, bitsPerElement);
      var words := if (total + 63) / 64 == 0 then 1 else (total + 63) / 64;
      var wordsPerHalf := if aging then (words + 1) / 2 else words;
      this.hash := hash;
      this.aging := aging;
      ageAt := elements;
      half0 := new bool[wordsPerHalf * 64](b => false);
      half1 := new bool[wordsPerHalf * 64](b => false);
      active, addsInActive, swaps, ready := 0, 0, 0, true;
      retained := Retention([], []);
    }

    method Shutdown()
      requires Valid()
      modifies this`ready
      ensures Valid() && !ready
    {
      ready := false;
    }

    method SetIn(half: array<bool>, key: Key)
      requires 0 < half.Length
      modifies half
      ensures forall b :: 0 <= b < half.Length ==>
                (half[b] <==> old(half[b]) || ProbedBy(hash, key, b, HASHES, half.Length))
    {
      var i := 0;
      while i < HASHES
        invariant i <= HASHES
        invariant forall b :: 0 <= b < half.Length ==>
                    (half[b] <==> old(half[b]) || ProbedBy(hash, key, b, i, half.Length))
      {
        ghost var before := half[..];
        var bit := U64(hash.h1(key) + i * hash.h2(key)) % half.Length;
        half[bit] := true;
        assert bit == BitOf(hash, key, i, half.Length);
        forall b | 0 <= b < half.Length
          ensures half[b] <==> before[b] || b == BitOf(hash, key, i, half.Length)
        {
        }
        i := i + 1;
      }
    }

    method TestIn(half: array<bool>, key: Key) returns (hit: bool)
      requires 0 < half.Length
      ensures hit <==> Covers(half[..], hash, key)
    {
      var i := 0;
      while i < HASHES
        invariant i <= HASHES && SetUpTo(half[..], hash, key, i)
      {
        var bit := U64(hash.h1(key) + i * hash.h2(key)) % half.Length;
        if !half[bit] {
          assert !half[BitOf(hash, key, i, half.Length)];
          return false;
        }
        i := i + 1;
      }
      return true;
    }

    /** Clears the older half and makes it the active one. */
    method ForceAge()
      requires Valid()
      modifies this, half0, half1
      ensures Valid() && ready == old(ready)
      ensures retained == if ready && aging then Retention(old(retained.recent), []) else old(retained)
    {
      if !ready || !aging {
        return;
      }
      var next := 1 - active;
      var stale := if next == 0 then half0 else half1;
      ghost var kept := if next == 0 then half1 else half0;
      ghost var bits := kept[..];
      var w := 0;
      while w < stale.Length
        invariant w <= stale.Length && kept[..] == bits
        invariant forall b :: 0 <= b < w ==> !stale[b]
        modifies stale
      {
        stale[w] := false;
        w := w + 1;
      }
      active := next;
      addsInActive := 0;
      swaps := swaps + 1;
      retained := Retention(retained.recent, []);
    }

    /** Reading the bits of a half answers for its keys. */
    lemma AnswersAgree(key: Key)
      requires Valid()
      ensures ready ==> (Reports(key) <==> Covers(half0[..], hash, key) || Covers(half1[..], hash, key))
      ensures !aging ==> !Covers(half1[..], hash, key)
      ensures key in retained.previous || key in retained.recent ==> Reports(key)
    {
      if key in retained.recent {
        KeysCollideWithThemselves(hash, retained.recent, key, half0.Length);
      }
      if key in retained.previous {
        KeysCollideWithThemselves(hash, retained.previous, key, half0.Length);
      }
      HalfAnswers(if active == 0 then half0[..] else half1[..], hash, retained.recent, key);
      HalfAnswers(if active == 0 then half1[..] else half0[..], hash, retained.previous, key);
      assert !aging ==> !ProbedByAny(hash, retained.previous, BitOf(hash, key, 0, half0.Length), half0.Length);
    }

    method Add(key: Key)
      requires Valid()
      modifies this, half0, half1
      ensures Valid() && ready == old(ready)
      ensures retained == if ready then Retain(old(retained), key, aging, ageAt) else old(retained)
    {
      if !ready {
        return;
      }
      var half := if active == 0 then half0 else half1;
      ghost var before := half[..];
      SetIn(half, key);
      HoldsOneMore(before, half[..], hash, retained.recent, key);
      retained := retained.(recent := retained.recent + [key]);
      if aging {
        addsInActive := addsInActive + 1;
        if addsInActive >= ageAt {
          ForceAge();
        }
      }
    }

    /** A key is reported exactly when its bits collide with those of one half's keys; so there is
        no false negative, and no false positive without such a collision. */
    method MightContain(key: Key) returns (maybe: bool)
      requires Valid()
      ensures maybe <==> Reports(key)
      ensures key in retained.previous || key in retained.recent ==> maybe
    {
      if !ready {
        return true;
      }
      AnswersAgree(key);
      maybe := TestIn(half0, key);
      if !maybe && aging {
        maybe := TestIn(half1, key);
      }
    }
  }

  /** Any sequence of adds to a fresh filter, then one query. */
  method QueryAfterAdds(filter: BloomFilter, keys: seq<Key>, key: Key) returns (maybe: bool)
    requires filter.Valid() && filter.ready && filter.retained == Retention([], [])
    modifies filter, filter.half0, filter.half1
    ensures key in Last(keys, filter.ageAt) ==> maybe
    ensures !filter.aging && key in keys ==> maybe
    ensures !filter.aging ==> (maybe <==> Collides(filter.hash, keys, key, filter.half0.Length))
  {
    var i := 0;
    while i < |keys|
      invariant i <= |keys| && filter.Valid() && filter.ready
      invariant filter.retained == RetainAll(keys[..i], filter.aging, filter.ageAt)
    {
      assert keys[..i + 1][..i] == keys[..i];
      filter.Add(keys[i]);
      i := i + 1;
    }
    assert keys[..i] == keys;
    RetainsTheMostRecent(keys, filter.aging, filter.ageAt);
    maybe := filter.MightContain(key);
  }
}
