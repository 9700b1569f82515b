/**
 * Index arithmetic shared by the two ring buffers of the source: the FIFO
 * variant of the Hoare monitor (S2/prodcons_varios_SU.cpp) and the buffer
 * process of the message-passing producer/consumer (P3/prodcons_varios.cpp).
 *
 * Both keep an array of `size` cells, the index `first` of the oldest item,
 * the index `free` of the first free cell and a count of occupied cells;
 * writing stores at `free` and advances it modulo `size`, reading takes the
 * cell at `first` and advances it modulo `size`.
 */
module RingIndex {

  /** The relation between the three indices that both ring buffers keep. */
  predicate RingInvariant(size: nat, first: int, free: int, count: int)
    ensures RingInvariant(size, first, free, count) ==> 0 <= free < size
    ensures RingInvariant(size, first, free, count) ==> (free == first <==> count == 0 || count == size)
  {
    0 < size && 0 <= first < size && 0 <= count <= size && free == (first + count) % size
  }

  /** The items held, oldest first: `count` cells starting at `first`, wrapping around. */
  function RingContents(buf: seq<int>, first: nat, count: nat): (c: seq<int>)
    requires first < |buf| && count <= |buf|
    ensures |c| == count
    ensures count > 0 ==> c[0] == buf[first]
  {
    ModBelowTwice(first, |buf|);
    seq(count, k requires 0 <= k < count => buf[(first + k) % |buf|])
  }

  /** Below twice the modulus, the remainder is at most one subtraction away. */
  lemma ModBelowTwice(x: int, n: int)
    requires 0 < n && 0 <= x < 2 * n
    ensures x % n == if x < n then x else x - n
  {
  }

  /** Two offsets from a cell, less than `n` apart, land on different cells. */
  lemma ModShiftDistinct(a: nat, k: nat, c: nat, n: nat)
    requires a < n && k < c < n
    ensures (a + k) % n != (a + c) % n
  {
    ModBelowTwice(a + k, n);
    ModBelowTwice(a + c, n);
  }

  /** Storing at the free cell keeps the index relation, one more item held. */
  lemma WriteKeepsInvariant(size: nat, first: int, free: int, count: int)
    requires RingInvariant(size, first, free, count) && count < size
    ensures RingInvariant(size, first, (free + 1) % size, count + 1)
  {
    ModBelowTwice(first + count, size);
    ModBelowTwice(free + 1, size);
    ModBelowTwice(first + count + 1, size);
  }

  /** Taking the oldest cell keeps the index relation, one item fewer held. */
  lemma ReadKeepsInvariant(size: nat, first: int, free: int, count: int)
    requires RingInvariant(size, first, free, count) && 0 < count
    ensures RingInvariant(size, (first + 1) % size, free, count - 1)
  {
    ModBelowTwice(first + 1, size);
    ModBelowTwice((first + 1) % size + count - 1, size);
    ModBelowTwice(first + count, size);
  }

  /** Storing `x` at the free cell appends `x` to the held items. */
  lemma RingWrite(buf: seq<int>, first: nat, count: nat, x: int)
    requires first < |buf| && count < |buf|
    ensures RingContents(buf[(first + count) % |buf| := x], first, count + 1)
         == RingContents(buf, first, count) + [x]
  {
    var n := |buf|;
    var after := RingContents(buf[(first + count) % n := x], first, count + 1);
    var before := RingContents(buf, first, count);
    forall k | 0 <= k < count
      ensures after[k] == before[k]
    {
      ModShiftDistinct(first, k, count, n);
    }
  }

  /** Advancing `first` past the oldest cell drops the oldest item. */
  lemma RingRead(buf: seq<int>, first: nat, count: nat)
    requires first < |buf| && 0 < count <= |buf|
    ensures RingContents(buf, (first + 1) % |buf|, count - 1) == RingContents(buf, first, count)[1..]
  {
    var n := |buf|;
    var after := RingContents(buf, (first + 1) % n, count - 1);
    var before := RingContents(buf, first, count);
    forall k | 0 <= k < count - 1
      ensures after[k] == before[k + 1]
    {
      ModBelowTwice(first + 1, n);
      ModBelowTwice((first + 1) % n + k, n);
      ModBelowTwice(first + 1 + k, n);
    }
  }

  /** The oldest item is the cell at `first`. */
  lemma RingHead(buf: seq<int>, first: nat, count: nat)
    requires first < |buf| && 0 < count <= |buf|
    ensures RingContents(buf, first, count)[0] == buf[first]
  {
    ModBelowTwice(first, |buf|);
  }

  /** A write on the whole ring: the index relation is kept and `x` is appended. */
  lemma RingPush(buf: seq<int>, first: int, free: int, count: int, x: int)
    requires RingInvariant(|buf|, first, free, count) && count < |buf|
    ensures RingInvariant(|buf|, first, (free + 1) % |buf|, count + 1)
    ensures RingContents(buf[free := x], first, count + 1) == RingContents(buf, first, count) + [x]
  {
    WriteKeepsInvariant(|buf|, first, free, count);
    RingWrite(buf, first, count, x);
  }

  /** A read on the whole ring: the index relation is kept, the cell at `first`
      is the oldest item and it is dropped. */
  lemma RingPop(buf: seq<int>, first: int, free: int, count: int)
    requires RingInvariant(|buf|, first, free, count) && 0 < count
    ensures RingInvariant(|buf|, (first + 1) % |buf|, free, count - 1)
    ensures buf[first] == RingContents(buf, first, count)[0]
    ensures RingContents(buf, (first + 1) % |buf|, count - 1) == RingContents(buf, first, count)[1..]
  {
    ReadKeepsInvariant(|buf|, first, free, count);
    RingHead(buf, first, count);
    RingRead(buf, first, count);
  }
}
