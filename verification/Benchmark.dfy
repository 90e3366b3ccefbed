/** The load test's partition of work and the seeds it derives: no two operations ever share a key. */
module Benchmark {
  import opened Basics
  import Header

  /** Operations each worker runs; the range is empty when there are no workers. */
  function SplitWork(operations: nat, workers: nat): (loads: seq<nat>)
    ensures |loads| == workers
  {
    if workers == 0 then []
    else seq(workers, w => operations / workers + (if w < operations % workers then 1 else 0))
  }

  function Sum(s: seq<nat>): nat {
    if s == [] then 0 else s[|s| - 1] + Sum(s[..|s| - 1])
  }

  /** `n` loads of `q`, the first `r` of them one larger. */
  function Ramp(q: nat, r: nat, n: nat): seq<nat> {
    seq(n, w => q + (if w < r then 1 else 0))
  }

  lemma {:induction false} SumOfRamp(q: nat, r: nat, n: nat)
    ensures Sum(Ramp(q, r, n)) == n * q + Min(n, r)
  {
    if n > 0 {
      SumOfRamp(q, r, n - 1);
      assert Ramp(q, r, n)[..n - 1] == Ramp(q, r, n - 1);
      assert n * q == (n - 1) * q + q;
    }
  }

  /** The loads add up to the operation count, differ by at most one, and no worker has more than an earlier one. */
  lemma WorkPartitioned(operations: nat, workers: nat)
    requires 0 < workers
    ensures Sum(SplitWork(operations, workers)) == operations
    ensures forall i, j :: 0 <= i < workers && 0 <= j < workers ==>
              SplitWork(operations, workers)[i] <= SplitWork(operations, workers)[j] + 1
    ensures forall i, j :: 0 <= i <= j < workers ==>
              SplitWork(operations, workers)[j] <= SplitWork(operations, workers)[i]
  {
    var q, r := operations / workers, operations % workers;
    assert SplitWork(operations, workers) == Ramp(q, r, workers);
    SumOfRamp(q, r, workers);
  }

  /** Bitwise or of two naturals. */
  function Or(x: nat, y: nat): nat
    decreases x + y
  {
    if x == 0 then y else if y == 0 then x
    else (if x % 2 == 1 || y % 2 == 1 then 1 else 0) + 2 * Or(x / 2, y / 2)
  }

  function Pow2(n: nat): (p: nat)
    ensures p > 0
  {
    if n == 0 then 1 else 2 * Pow2(n - 1)
  }

  /** Or-ing in bits below a shift is adding them. */
  lemma {:induction false} OrBelowShift(x: nat, y: nat, n: nat)
    requires y < Pow2(n)
    ensures Or(x * Pow2(n), y) == x * Pow2(n) + y
    decreases n
  {
    if n > 0 && x > 0 && y > 0 {
      var z := x * Pow2(n - 1);
      assert x * Pow2(n) == 2 * z;
      assert z > 0;
      OrBelowShift(x, y / 2, n - 1);
    }
  }

  lemma Pow2Of32()
    ensures Pow2(32) == 0x1_0000_0000
  {
    assert Pow2(8) == 256;
    assert Pow2(16) == 65536 by { assert Pow2(12) == 4096; }
    assert Pow2(24) == 16777216 by { assert Pow2(20) == 1048576; }
    assert Pow2(28) == 268435456;
  }

  /** `(worker as u64) << 32 | operation as u64`. */
  function Sequence(worker: u64, operation: u64): nat {
    Or(WrapU64((worker as int) * 0x1_0000_0000), operation)
  }

  function DeviceSeed(sequence: nat): u64 {
    WrapU64(sequence * 2)
  }

  function AccountSeed(sequence: nat): u64 {
    WrapU64(WrapU64(sequence * 2) as int + 1)
  }

  lemma SequenceExact(worker: u64, operation: u64)
    requires worker < 0x8000_0000 && operation < 0x1_0000_0000
    ensures Sequence(worker, operation) == (worker as int) * 0x1_0000_0000 + operation
    ensures DeviceSeed(Sequence(worker, operation)) == 2 * ((worker as int) * 0x1_0000_0000 + operation)
    ensures AccountSeed(Sequence(worker, operation)) == 2 * ((worker as int) * 0x1_0000_0000 + operation) + 1
  {
    Pow2Of32();
    var w: nat := worker;
    assert w * 0x1_0000_0000 < TWO63;
    OrBelowShift(w, operation, 32);
  }

  /** With at most 2^31 workers and fewer than 2^32 operations each, all device and account seeds are distinct. */
  lemma SeedsDistinct(w1: u64, o1: u64, w2: u64, o2: u64)
    requires w1 < 0x8000_0000 && w2 < 0x8000_0000 && o1 < 0x1_0000_0000 && o2 < 0x1_0000_0000
    ensures DeviceSeed(Sequence(w1, o1)) != AccountSeed(Sequence(w2, o2))
    ensures DeviceSeed(Sequence(w1, o1)) == DeviceSeed(Sequence(w2, o2)) <==> w1 == w2 && o1 == o2
    ensures AccountSeed(Sequence(w1, o1)) == AccountSeed(Sequence(w2, o2)) <==> w1 == w2 && o1 == o2
  {
    SequenceExact(w1, o1);
    SequenceExact(w2, o2);
  }

  /** One worker more than the limit and the doubled sequence wraps onto the first worker's. */
  lemma SeedsCollideBeyond(operation: u64)
    requires operation < 0x1_0000_0000
    ensures DeviceSeed(Sequence(0x8000_0000, operation)) == DeviceSeed(Sequence(0, operation))
  {
    Pow2Of32();
    OrBelowShift(0x8000_0000, operation, 32);
    OrBelowShift(0, operation, 32);
  }

  /** The wrapping byte arithmetic that fills the tail of a seed. */
  function Filler(index: nat): uint8 {
    ((index * 37 + 11) % 256) as uint8
  }

  /** The 32 seed bytes of a signing key: the number, then a fixed filler. */
  function SeedBytes(number: u64): (b: Bytes)
    ensures |b| == 32
  {
    Header.Le64(number) + seq(24, i requires 0 <= i => Filler(i))
  }

  /** The number is read back from the first eight bytes; the rest is the same in every seed. */
  lemma SeedByByte(number: u64)
    ensures Header.FromLe(SeedBytes(number)[..8]) == number
    ensures forall i :: 8 <= i < 32 ==> SeedBytes(number)[i] as int == ((i - 8) * 37 + 11) % 256
  {
    Header.Base8();
    Header.FromToLe(number, 8);
    assert SeedBytes(number)[..8] == Header.Le64(number);
  }

  method FillSeed(number: u64) returns (seed: array<uint8>)
    ensures fresh(seed) && seed[..] == SeedBytes(number)
    ensures Header.FromLe(seed[..8]) == number
    ensures forall i :: 8 <= i < 32 ==> seed[i] as int == ((i - 8) * 37 + 11) % 256
  {
    seed := new uint8[32];
    var le := Header.Le64(number);
    for i := 0 to 8
      invariant forall k :: 0 <= k < i ==> seed[k] == le[k]
    {
      seed[i] := le[i];
    }
    for i := 8 to 32
      invariant forall k :: 0 <= k < 8 ==> seed[k] == le[k]
      invariant forall k :: 8 <= k < i ==> seed[k] == SeedBytes(number)[k]
    {
      seed[i] := Filler(i - 8);
    }
    assert seed[..] == SeedBytes(number);
    SeedByByte(number);
    assert seed[..8] == seed[..][..8];
  }

  /** Distinct numbers give distinct signing keys' seeds. */
  lemma SeedBytesInjective(m: u64, n: u64)
    requires SeedBytes(m) == SeedBytes(n)
    ensures m == n
  {
    SeedByByte(m);
    SeedByByte(n);
  }
}
