/**
 * The sample indices of S1/pi.cpp. The integral of 4/(1+x^2) over [0, 1] is
 * approximated by the mean of f at the midpoints (j + 0.5)/m of m = 2^30
 * sub-intervals; n = 4 threads share the m samples, either in contiguous
 * blocks or interleaved. Each thread function is modelled by the sequence of
 * sample indices its loop visits; the floating-point sums are not modelled.
 *
 * The loop variables are C++ `int`s while m and n are `long`s: the bounds are
 * computed in 64 bits and truncated to 32 bits on assignment. The model
 * performs that truncation (`ToInt32`) and proves that it never changes a
 * value.
 */
module PiPartition {

  const M: int := 1024 * 1024 * 1024   // m: number of samples
  const N: int := 4                    // n: number of threads

  // ---------------------------------------------------------------------
  // 32-bit int
  // ---------------------------------------------------------------------

  const Int32Min: int := -0x8000_0000
  const Int32Max: int := 0x7fff_ffff

  predicate InInt32(x: int)
  {
    Int32Min <= x <= Int32Max
  }

  /** Conversion of a 64-bit value to `int`: two's-complement wrap-around. */
  function ToInt32(x: int): (r: int)
    ensures InInt32(r)
    ensures InInt32(x) ==> r == x
  {
    (x - Int32Min) % 0x1_0000_0000 + Int32Min
  }

  /** Every value the loop variables take, from the first to the one that ends
      the loop, fits in an `int`: the largest is m - 1 + n. */
  lemma LoopBoundsFitInt32(i: int)
    requires 0 <= i <= N
    ensures InInt32((i - 1) * (M / N)) && InInt32(i * (M / N))
    ensures InInt32(i) && InInt32(M - 1 + N)
  {
  }

  // ---------------------------------------------------------------------
  // Sequential
  // ---------------------------------------------------------------------

  /** `calcular_integral_secuencial`: the indices its loop visits. */
  method CalcularIntegralSecuencial() returns (visited: seq<int>)
    ensures |visited| == M
    ensures forall k :: 0 <= k < M ==> visited[k] == k
  {
    visited := [];
    var i := 0;
    while i < M
      invariant 0 <= i <= M
      invariant visited == seq(i, k => k)
    {
      visited := visited + [i];
      i := i + 1;
    }
  }

  // ---------------------------------------------------------------------
  // Contiguous blocks
  // ---------------------------------------------------------------------

  /** The block of thread argument `i`: m/n consecutive indices from (i-1)*(m/n). */
  function ContiguousBlock(i: int): (block: seq<int>)
    ensures |block| == M / N
    ensures forall k :: 0 <= k < |block| ==> (i - 1) * (M / N) <= block[k] < i * (M / N)
  {
    seq(M / N, k => (i - 1) * (M / N) + k)
  }

  /** `funcion_hebra_contigua(i)`: the indices its loop visits. */
  method FuncionHebraContigua(i: int) returns (visited: seq<int>)
    requires 0 <= i <= N
    ensures visited == ContiguousBlock(i)
  {
    var lo, hi := (i - 1) * (M / N), i * (M / N);
    LoopBoundsFitInt32(i);
    visited := [];
    var j := ToInt32(lo);
    while j < hi
      invariant lo <= j <= hi
      invariant visited == seq(j - lo, k => lo + k)
      decreases hi - j
    {
      visited := visited + [j];
      j := ToInt32(j + 1);
    }
  }

  /** Thread `i`'s block is exactly [(i-1)*(m/n), i*(m/n)). */
  lemma ContiguousMembership(i: int, x: int)
    ensures x in ContiguousBlock(i) <==> (i - 1) * (M / N) <= x < i * (M / N)
  {
    if (i - 1) * (M / N) <= x < i * (M / N) {
      assert ContiguousBlock(i)[x - (i - 1) * (M / N)] == x;
    }
  }

  /** The blocks of threads 1 .. n, the arguments the source passes, cover
      [0, m) and no index lies in two of them. */
  lemma ContiguousPartition(x: int)
    ensures 0 <= x < M <==> exists i :: 1 <= i <= N && x in ContiguousBlock(i)
    ensures forall i1, i2 :: 1 <= i1 < i2 <= N ==> !(x in ContiguousBlock(i1) && x in ContiguousBlock(i2))
  {
    forall i | 1 <= i <= N
      ensures x in ContiguousBlock(i) <==> (i - 1) * (M / N) <= x < i * (M / N)
    {
      ContiguousMembership(i, x);
    }
    var b := M / N;
    assert b == 0x1000_0000;
    if 0 <= x < M {
      var i := if x < b then 1 else if x < 2 * b then 2 else if x < 3 * b then 3 else 4;
      assert 1 <= i <= N && x in ContiguousBlock(i);
    }
  }

  /** In thread order the blocks are the sequential loop's indices: the
      contiguous version adds up the same samples. */
  lemma ContiguousConcatenation()
    ensures ContiguousBlock(1) + ContiguousBlock(2) + ContiguousBlock(3) + ContiguousBlock(4) == seq(M, k => k)
  {
    var b := M / N;
    var all := ContiguousBlock(1) + ContiguousBlock(2) + ContiguousBlock(3) + ContiguousBlock(4);
    forall k | 0 <= k < M
      ensures all[k] == k
    {
      if k < b {
      } else if k < 2 * b {
        assert all[k] == ContiguousBlock(2)[k - b];
      } else if k < 3 * b {
        assert all[k] == ContiguousBlock(3)[k - 2 * b];
      } else {
        assert all[k] == ContiguousBlock(4)[k - 3 * b];
      }
    }
  }

  // ---------------------------------------------------------------------
  // Interleaved
  // ---------------------------------------------------------------------

  /** How many indices i, i + n, i + 2n, ... lie below m. */
  function InterleavedCount(i: int): nat
    requires 0 <= i <= N
  {
    (M - i + N - 1) / N
  }

  /** The indices of thread argument `i`: i, i + n, i + 2n, ... below m. */
  function InterleavedIndices(i: int): (js: seq<int>)
    requires 0 <= i <= N
    ensures |js| == InterleavedCount(i)
    ensures forall k :: 0 <= k < |js| ==> i <= js[k] < M
  {
    seq(InterleavedCount(i), k => i + N * k)
  }

  /** `funcion_hebra_entrelazada(i)`: the indices its loop visits. */
  method FuncionHebraEntrelazada(i: int) returns (visited: seq<int>)
    requires 0 <= i <= N
    ensures visited == InterleavedIndices(i)
  {
    LoopBoundsFitInt32(i);
    visited := [];
    var j := ToInt32(i);
    while j < M
      invariant i <= j < M + N && (j - i) % N == 0
      invariant visited == seq((j - i) / N, k => i + N * k)
      decreases M - j
    {
      visited := visited + [j];
      j := ToInt32(j + N);
    }
  }

  /** Thread `i` visits exactly the indices below m that are congruent to i mod n. */
  lemma InterleavedMembership(i: int, x: int)
    requires 0 <= i <= N
    ensures x in InterleavedIndices(i) <==> i <= x < M && (x - i) % N == 0
  {
    if i <= x < M && (x - i) % N == 0 {
      assert InterleavedIndices(i)[(x - i) / N] == x;
    }
  }

  /** `calcular_integral_concurrente(contigua)`: the indices of the n threads,
      started with arguments 1 .. n. */
  method CalcularIntegralConcurrente(contigua: bool) returns (threads: seq<seq<int>>)
    ensures |threads| == N
    ensures forall t :: 0 <= t < N ==>
      threads[t] == if contigua then ContiguousBlock(t + 1) else InterleavedIndices(t + 1)
  {
    threads := [];
    for i := 0 to N
      invariant |threads| == i
      invariant forall t :: 0 <= t < i ==>
        threads[t] == if contigua then ContiguousBlock(t + 1) else InterleavedIndices(t + 1)
    {
      var visited;
      if contigua {
        visited := FuncionHebraContigua(i + 1);
      } else {
        visited := FuncionHebraEntrelazada(i + 1);
      }
      threads := threads + [visited];
    }
  }

  /** As written, the interleaved threads 1 .. n visit every sample except 0:
      the concurrent result leaves out f(0.5/m). */
  lemma InterleavedAsWrittenMissesZero(x: int)
    ensures 1 <= x < M <==> exists i :: 1 <= i <= N && x in InterleavedIndices(i)
    ensures forall i :: 1 <= i <= N ==> 0 !in InterleavedIndices(i)
  {
    InterleavedMembership(1, x);
    InterleavedMembership(2, x);
    InterleavedMembership(3, x);
    InterleavedMembership(4, x);
    InterleavedMembership(1, 0);
    InterleavedMembership(2, 0);
    InterleavedMembership(3, 0);
    InterleavedMembership(4, 0);
    if 1 <= x < M {
      var i := if x % N == 0 then N else x % N;
      assert 1 <= i <= N && x in InterleavedIndices(i);
    }
  }

  /** No sample is visited by two of the interleaved threads 1 .. n. */
  lemma InterleavedAsWrittenDisjoint(x: int)
    ensures forall i1, i2 :: 1 <= i1 < i2 <= N ==> !(x in InterleavedIndices(i1) && x in InterleavedIndices(i2))
  {
    InterleavedMembership(1, x);
    InterleavedMembership(2, x);
    InterleavedMembership(3, x);
    InterleavedMembership(4, x);
  }

  /** The launch the doc-comment describes, sample j to thread j mod n: the
      interleaved threads get arguments 0 .. n-1. */
  method CalcularIntegralEntrelazadaCorregida() returns (threads: seq<seq<int>>)
    ensures |threads| == N
    ensures forall t :: 0 <= t < N ==> threads[t] == InterleavedIndices(t)
  {
    threads := [];
    for i := 0 to N
      invariant |threads| == i
      invariant forall t :: 0 <= t < i ==> threads[t] == InterleavedIndices(t)
    {
      var visited := FuncionHebraEntrelazada(i);
      threads := threads + [visited];
    }
  }

  /** With arguments 0 .. n-1 every sample in [0, m) is visited, by the thread
      numbered by its residue mod n... */
  lemma InterleavedCorrectedPartition(x: int)
    ensures 0 <= x < M <==> exists i :: 0 <= i < N && x in InterleavedIndices(i)
    ensures 0 <= x < M ==> x in InterleavedIndices(x % N)
  {
    InterleavedMembership(0, x);
    InterleavedMembership(1, x);
    InterleavedMembership(2, x);
    InterleavedMembership(3, x);
    if 0 <= x < M {
      assert 0 <= x % N < N;
      assert x in InterleavedIndices(x % N);
    }
  }

  /** ... and by no other thread. */
  lemma InterleavedCorrectedDisjoint(x: int)
    ensures forall i1, i2 :: 0 <= i1 < i2 < N ==> !(x in InterleavedIndices(i1) && x in InterleavedIndices(i2))
  {
    InterleavedMembership(0, x);
    InterleavedMembership(1, x);
    InterleavedMembership(2, x);
    InterleavedMembership(3, x);
  }
}
