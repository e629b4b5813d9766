/**
 * The two test hashing strategies of the harness: ModHasher and ConstHasher.
 * A hasher maps a 64-bit unsigned key and a bucket count n to a bucket index.
 */
module Hashers {
  import opened Wrappers

  const TWO_63: int := 0x8000_0000_0000_0000
  const TWO_64: int := 0x1_0000_0000_0000_0000

  /** Go's uint64. */
  type Uint64 = k: int | 0 <= k < 0x1_0000_0000_0000_0000

  function Abs(x: int): nat
  {
    if x < 0 then -x else x
  }

  /**
   * Go's conversion int(key) on a 64-bit platform: the unique 64-bit signed
   * integer congruent to key modulo 2^64 (keys from 2^63 up wrap negative).
   */
  function ToInt64(key: Uint64): (r: int)
    ensures -TWO_63 <= r < TWO_63
    ensures (key - r) % TWO_64 == 0
    ensures key < TWO_63 <==> r == key
  {
    if key < TWO_63 then key else key - TWO_64
  }

  /** Go's quotient operator on signed integers: division truncates toward zero. */
  function TruncQuot(a: int, b: int): int
    requires b != 0
  {
    var q := if a < 0 then -((-a) / Abs(b)) else a / Abs(b);
    if b < 0 then -q else q
  }

  /**
   * Go's remainder operator on signed integers: the remainder of the
   * truncating division, smaller than the divisor in magnitude and taking
   * the sign of the dividend.
   */
  function TruncRem(a: int, b: int): (r: int)
    requires b != 0
    ensures Abs(r) < Abs(b)
    ensures r == 0 || (r < 0 <==> a < 0)
    ensures a == TruncQuot(a, b) * b + r
  {
    var d := Abs(b);
    if a < 0 then
      assert -a == ((-a) / d) * d + (-a) % d;
      -((-a) % d)
    else
      a % d
  }

  /**
   * ModHasher.Hash: int(key) % n. None stands for the run-time panic Go
   * raises on an integer division by zero (n == 0).
   */
  function ModHash(key: Uint64, n: int): (r: Option<int>)
    ensures r.None? <==> n == 0
    ensures r.Some? ==> Abs(r.value) < Abs(n)
    ensures r.Some? ==> (r.value == 0 || (r.value < 0 <==> TWO_63 <= key))
  {
    if n == 0 then None else Some(TruncRem(ToInt64(key), n))
  }

  /** ConstHasher.Hash: the configured index i, whatever the key and n. */
  function ConstHash(i: int, key: Uint64, n: int): (r: Option<int>)
  {
    Some(i)
  }

  /** The hashing strategy a cluster is configured with. */
  datatype Hasher = ModHasher | ConstHasher(i: int)

  /** Dispatch on the configured strategy, as Go's Hasher interface does. */
  function Hash(h: Hasher, key: Uint64, n: int): (r: Option<int>)
  {
    match h
    case ModHasher => ModHash(key, n)
    case ConstHasher(i) => ConstHash(i, key, n)
  }

  /**
   * For keys below 2^63 and at least one bucket, ModHasher is the
   * mathematical key mod n, a bucket in [0, n).
   */
  lemma ModHashOfSmallKey(key: Uint64, n: int)
    requires n >= 1 && key < TWO_63
    ensures ModHash(key, n) == Some(key % n)
    ensures 0 <= key % n < n
  {
  }

  /**
   * Keys from 2^63 up are negative after int(key), so ModHasher returns a
   * value in (-n, 0]: minus the remainder of 2^64 - key.
   */
  lemma ModHashOfLargeKey(key: Uint64, n: int)
    requires n >= 1 && key >= TWO_63
    ensures ModHash(key, n) == Some(-((TWO_64 - key) % n))
    ensures -n < -((TWO_64 - key) % n) <= 0
  {
  }

  /** A witness that the wrap-around happens: the largest key into 2 buckets gives -1. */
  lemma ModHashLargestKeyIsNegative()
    ensures ModHash(TWO_64 - 1, 2) == Some(-1)
  {
  }

  /** ConstHasher returns its index for every key and bucket count, unclamped even when i >= n. */
  lemma ConstHashIgnoresKeyAndBuckets(i: int, k1: Uint64, n1: int, k2: Uint64, n2: int)
    ensures Hash(ConstHasher(i), k1, n1) == Hash(ConstHasher(i), k2, n2) == Some(i)
    ensures n1 <= i ==> Hash(ConstHasher(i), k1, n1).value >= n1
  {
  }
}
