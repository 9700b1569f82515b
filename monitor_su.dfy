/**
 * The Hoare monitor (signal-and-urgent-wait semantics) of the multiple
 * producer/consumer exercise, S2/prodcons_varios_SU.cpp.
 *
 * The monitor keeps a shared buffer of TAM_BUFFER cells in one of two
 * disciplines chosen at compile time: a FIFO ring buffer (FifoMonitor) or a
 * LIFO stack (LifoMonitor). The producer threads number their items with
 * `producir_dato`, and the global verification counters `cont_prod` and
 * `cont_cons` are checked at the end by `test_contadores` (Counters).
 *
 * A call that would wait on a condition variable (`ocupadas.wait()` in
 * `leer`, `libres.wait()` in `escribir`) is modelled by a precondition: the
 * operation body only runs once the condition holds, which is exactly what
 * the `assert` after each wait states.
 */
module MonitorSU {
  import opened RingIndex

  const NumItems := 90
  const NumProds := 3
  const ItemsProd := NumItems / NumProds
  const TamBuffer := 10

  // ---------------------------------------------------------------------
  // FIFO variant
  // ---------------------------------------------------------------------

  class FifoMonitor {
    const buffer: array<int>
    var primeraLibre: int
    var primeraOcupada: int
    var n: int

    /** The ring-buffer relation between the three indices. */
    ghost predicate Valid()
      reads this
    {
      buffer.Length == TamBuffer && RingInvariant(TamBuffer, primeraOcupada, primeraLibre, n)
    }

    /** The values held, oldest first. */
    ghost function Contents(): seq<int>
      reads this, buffer
      requires Valid()
    {
      RingContents(buffer[..], primeraOcupada, n)
    }

    constructor ()
      ensures Valid() && fresh(buffer)
      ensures primeraLibre == 0 && primeraOcupada == 0 && n == 0
      ensures Contents() == []
    {
      buffer := new int[TamBuffer];
      primeraLibre, primeraOcupada, n := 0, 0, 0;
    }

    /** `leer`: take the oldest value. The wait on `ocupadas` guarantees `0 < n`. */
    method Leer() returns (dato: int)
      requires Valid() && 0 < n
      modifies this
      ensures Valid()
      ensures dato == old(Contents())[0] && Contents() == old(Contents())[1..]
      ensures primeraOcupada == (old(primeraOcupada) + 1) % TamBuffer
      ensures n == old(n) - 1 && primeraLibre == old(primeraLibre)
    {
      RingHead(buffer[..], primeraOcupada, n);
      RingRead(buffer[..], primeraOcupada, n);
      ReadKeepsInvariant(TamBuffer, primeraOcupada, primeraLibre, n);
      dato := buffer[primeraOcupada];
      primeraOcupada := (primeraOcupada + 1) % TamBuffer;
      n := n - 1;
    }

    /** `escribir`: append a value. The wait on `libres` guarantees `n < TAM_BUFFER`. */
    method Escribir(dato: int)
      requires Valid() && n < TamBuffer
      modifies this, buffer
      ensures Valid()
      ensures Contents() == old(Contents()) + [dato]
      ensures buffer[..] == old(buffer[..])[old(primeraLibre) := dato]
      ensures primeraLibre == (old(primeraLibre) + 1) % TamBuffer
      ensures n == old(n) + 1 && primeraOcupada == old(primeraOcupada)
    {
      RingWrite(buffer[..], primeraOcupada, n, dato);
      WriteKeepsInvariant(TamBuffer, primeraOcupada, primeraLibre, n);
      buffer[primeraLibre] := dato;
      primeraLibre := (primeraLibre + 1) % TamBuffer;
      n := n + 1;
    }
  }

  // ---------------------------------------------------------------------
  // LIFO variant
  // ---------------------------------------------------------------------

  class LifoMonitor {
    const buffer: array<int>
    var primeraLibre: int

    ghost predicate Valid()
      reads this
    {
      buffer.Length == TamBuffer && 0 <= primeraLibre <= TamBuffer
    }

    /** The values held, bottom of the stack first. */
    ghost function Contents(): seq<int>
      reads this, buffer
      requires Valid()
    {
      buffer[..primeraLibre]
    }

    constructor ()
      ensures Valid() && fresh(buffer)
      ensures primeraLibre == 0 && Contents() == []
    {
      buffer := new int[TamBuffer];
      primeraLibre := 0;
    }

    /** `leer`: pop the most recently written value. The wait guarantees `0 < primera_libre`. */
    method Leer() returns (dato: int)
      requires Valid() && 0 < primeraLibre
      modifies this
      ensures Valid()
      ensures primeraLibre == old(primeraLibre) - 1
      ensures dato == old(Contents())[|old(Contents())| - 1]
      ensures Contents() == old(Contents())[..|old(Contents())| - 1]
    {
      primeraLibre := primeraLibre - 1;
      dato := buffer[primeraLibre];
    }

    /** `escribir`: push a value. The wait guarantees `primera_libre < TAM_BUFFER`. */
    method Escribir(dato: int)
      requires Valid() && primeraLibre < TamBuffer
      modifies this, buffer
      ensures Valid()
      ensures primeraLibre == old(primeraLibre) + 1
      ensures buffer[..] == old(buffer[..])[old(primeraLibre) := dato]
      ensures Contents() == old(Contents()) + [dato]
    {
      buffer[primeraLibre] := dato;
      primeraLibre := primeraLibre + 1;
    }
  }

  // ---------------------------------------------------------------------
  // Sequences of completed monitor calls
  // ---------------------------------------------------------------------

  /** One completed monitor call, in the order the monitor ran them. */
  datatype Op = Write(value: int) | Read

  /** The values written, in order. */
  function Writes(ops: seq<Op>): (r: seq<int>)
    ensures |r| <= |ops|
  {
    if ops == [] then []
    else Writes(ops[..|ops| - 1]) + (if ops[|ops| - 1].Write? then [ops[|ops| - 1].value] else [])
  }

  /** How many reads there are. */
  function NumReads(ops: seq<Op>): (r: nat)
    ensures r <= |ops|
  {
    if ops == [] then 0
    else NumReads(ops[..|ops| - 1]) + (if ops[|ops| - 1].Read? then 1 else 0)
  }

  /** Items in the buffer after `ops`, whatever the discipline. */
  function Occupied(ops: seq<Op>): int
  {
    |Writes(ops)| - NumReads(ops)
  }

  /** A call can complete only when its wait condition holds. */
  predicate Allowed(before: seq<Op>, op: Op)
  {
    if op.Read? then 0 < Occupied(before) else Occupied(before) < TamBuffer
  }

  /** Every call in `ops` found the buffer non-empty (read) or non-full (write). */
  predicate Feasible(ops: seq<Op>)
  {
    ops == [] || (Feasible(ops[..|ops| - 1]) && Allowed(ops[..|ops| - 1], ops[|ops| - 1]))
  }

  /** A prefix of a feasible sequence is feasible, and the call after it was allowed. */
  lemma {:induction false} FeasiblePrefix(ops: seq<Op>, i: nat)
    requires Feasible(ops) && i <= |ops|
    ensures Feasible(ops[..i])
    ensures i < |ops| ==> Allowed(ops[..i], ops[i])
  {
    if i == |ops| {
      assert ops[..i] == ops;
    } else {
      var init := ops[..|ops| - 1];
      if i < |init| {
        FeasiblePrefix(init, i);
        assert init[..i] == ops[..i];
      } else {
        assert init == ops[..i];
      }
    }
  }

  /** The fill level of a feasible sequence stays within the buffer. */
  lemma {:induction false} FeasibleBounds(ops: seq<Op>)
    requires Feasible(ops)
    ensures 0 <= Occupied(ops) <= TamBuffer
  {
    if ops != [] {
      FeasibleBounds(ops[..|ops| - 1]);
    }
  }

  /** FIFO reference: the values read so far are the oldest writes, in order... */
  function Delivered(ops: seq<Op>): (r: seq<int>)
    requires Feasible(ops)
    ensures |r| == NumReads(ops)
  {
    FeasibleBounds(ops);
    Writes(ops)[..NumReads(ops)]
  }

  /** ... and the values still held are the remaining writes, oldest first. */
  function Pending(ops: seq<Op>): (r: seq<int>)
    requires Feasible(ops)
    ensures |r| == Occupied(ops) <= TamBuffer
    ensures Delivered(ops) + r == Writes(ops)
  {
    FeasibleBounds(ops);
    Writes(ops)[NumReads(ops)..]
  }

  /** One more completed call on the FIFO discipline: a write appends its value
      to the held values, a read found them non-empty and delivers the oldest. */
  lemma FifoStep(ops: seq<Op>, i: nat)
    requires Feasible(ops) && i < |ops|
    ensures Feasible(ops[..i]) && Feasible(ops[..i + 1])
    ensures ops[i].Write? ==>
      && |Pending(ops[..i])| < TamBuffer
      && Pending(ops[..i + 1]) == Pending(ops[..i]) + [ops[i].value]
      && Delivered(ops[..i + 1]) == Delivered(ops[..i])
    ensures ops[i].Read? ==>
      && Pending(ops[..i]) != []
      && Pending(ops[..i + 1]) == Pending(ops[..i])[1..]
      && Delivered(ops[..i + 1]) == Delivered(ops[..i]) + [Pending(ops[..i])[0]]
  {
    FeasiblePrefix(ops, i);
    FeasiblePrefix(ops, i + 1);
    assert ops[..i + 1][..i] == ops[..i];
    var w, r := Writes(ops[..i]), NumReads(ops[..i]);
    FeasibleBounds(ops[..i]);
    FeasibleBounds(ops[..i + 1]);
    if ops[i].Write? {
      assert (w + [ops[i].value])[..r] == w[..r];
      assert (w + [ops[i].value])[r..] == w[r..] + [ops[i].value];
    } else {
      assert w[..r + 1] == w[..r] + [w[r]];
    }
  }

  /** Running a feasible sequence on the FIFO monitor: reads return the values
      in the order they were written. */
  method RunFifo(ops: seq<Op>) returns (outs: seq<int>)
    requires Feasible(ops)
    ensures NumReads(ops) <= |Writes(ops)|
    ensures outs == Writes(ops)[..NumReads(ops)]
  {
    var m := new FifoMonitor();
    outs := [];
    for i := 0 to |ops|
      invariant m.Valid() && fresh(m.buffer)
      invariant Feasible(ops[..i])
      invariant outs == Delivered(ops[..i])
      invariant m.Contents() == Pending(ops[..i])
    {
      FifoStep(ops, i);
      match ops[i] {
        case Write(v) =>
          m.Escribir(v);
        case Read =>
          var d := m.Leer();
          outs := outs + [d];
      }
    }
    assert ops[..|ops|] == ops;
    FeasibleBounds(ops);
  }

  /** A stack as a value: the reference for the LIFO discipline. Gives the
      values still held (bottom first) and the values read, in order. */
  function LifoReference(ops: seq<Op>): (seq<int>, seq<int>)
  {
    if ops == [] then ([], [])
    else
      var (stack, outs) := LifoReference(ops[..|ops| - 1]);
      match ops[|ops| - 1]
      case Write(v) => (stack + [v], outs)
      case Read => if stack == [] then (stack, outs) else (stack[..|stack| - 1], outs + [stack[|stack| - 1]])
  }

  /** What the stack discipline keeps through one more call: the held values
      number the fill level, and read plus held values are the written ones. */
  predicate LifoBalanced(ops: seq<Op>)
  {
    && |LifoReference(ops).0| == Occupied(ops)
    && multiset(LifoReference(ops).1) + multiset(LifoReference(ops).0) == multiset(Writes(ops))
  }

  lemma LifoStep(init: seq<Op>, op: Op)
    requires LifoBalanced(init) && Allowed(init, op)
    ensures LifoBalanced(init + [op])
  {
    var ops := init + [op];
    assert ops[..|ops| - 1] == init;
    var stack, outs := LifoReference(init).0, LifoReference(init).1;
    match op
    case Write(v) =>
      assert Writes(ops) == Writes(init) + [v] && NumReads(ops) == NumReads(init);
      assert LifoReference(ops) == (stack + [v], outs);
      assert multiset(stack + [v]) == multiset(stack) + multiset{v};
    case Read =>
      var top, rest := stack[|stack| - 1], stack[..|stack| - 1];
      assert stack == rest + [top];
      assert Writes(ops) == Writes(init) && NumReads(ops) == NumReads(init) + 1;
      assert LifoReference(ops) == (rest, outs + [top]);
      assert multiset(stack) == multiset(rest) + multiset{top};
      assert multiset(outs + [top]) == multiset(outs) + multiset{top};
  }

  /** Nothing is lost or duplicated by the stack discipline: what was read plus
      what is still held is exactly what was written. */
  lemma {:induction false} LifoConserves(ops: seq<Op>)
    requires Feasible(ops)
    ensures |LifoReference(ops).0| == Occupied(ops)
    ensures multiset(LifoReference(ops).1) + multiset(LifoReference(ops).0) == multiset(Writes(ops))
  {
    if ops != [] {
      var init, op := ops[..|ops| - 1], ops[|ops| - 1];
      LifoConserves(init);
      LifoStep(init, op);
      assert init + [op] == ops;
    }
  }

  /** Once as many reads as writes have completed, the stack is empty and the
      reads returned every written value exactly once (in some order). */
  lemma LifoCompleteRun(ops: seq<Op>)
    requires Feasible(ops) && NumReads(ops) == |Writes(ops)|
    ensures LifoReference(ops).0 == []
    ensures multiset(LifoReference(ops).1) == multiset(Writes(ops))
  {
    LifoConserves(ops);
  }

  /** Running a feasible sequence on the LIFO monitor behaves as the stack reference. */
  method RunLifo(ops: seq<Op>) returns (outs: seq<int>)
    requires Feasible(ops)
    ensures outs == LifoReference(ops).1
  {
    var m := new LifoMonitor();
    outs := [];
    for i := 0 to |ops|
      invariant m.Valid() && fresh(m.buffer)
      invariant m.Contents() == LifoReference(ops[..i]).0
      invariant outs == LifoReference(ops[..i]).1
    {
      var before := ops[..i];
      assert ops[..i + 1][..i] == before;
      FeasiblePrefix(ops, i);
      LifoConserves(before);
      assert Allowed(before, ops[i]);
      ghost var stack, done := LifoReference(before).0, LifoReference(before).1;
      match ops[i] {
        case Write(v) =>
          assert LifoReference(ops[..i + 1]) == (stack + [v], done);
          m.Escribir(v);
        case Read =>
          assert LifoReference(ops[..i + 1]) == (stack[..|stack| - 1], done + [stack[|stack| - 1]]);
          var d := m.Leer();
          outs := outs + [d];
      }
    }
    assert ops[..|ops|] == ops;
  }

  // ---------------------------------------------------------------------
  // Item numbering and the verification counters
  // ---------------------------------------------------------------------

  /** The value producer `h` gives its `k`-th item (numbering from 0). */
  function ProducedValue(h: int, k: int): int
  {
    h * ItemsProd + k
  }

  /** Every producer/item pair gets its own value in `[0, num_items)`, and
      every value in that range is produced by exactly one pair. */
  lemma ProducedValuesPartition(h: int, k: int, v: int)
    requires 0 <= h < NumProds && 0 <= k < ItemsProd
    ensures 0 <= ProducedValue(h, k) < NumItems
    ensures ProducedValue(h, k) == v <==> h == v / ItemsProd && k == v % ItemsProd && 0 <= v
  {
    assert ItemsProd == 30;
    if ProducedValue(h, k) == v {
      if h == 0 {
        assert v == k;
      } else if h == 1 {
        assert v == 30 + k;
      } else {
        assert v == 60 + k;
      }
    }
  }

  /** The global arrays `producidos`, `cont_prod` and `cont_cons`. */
  class Counters {
    const producidos: array<nat>
    const contProd: array<nat>
    const contCons: array<nat>

    ghost predicate Valid()
      reads this
    {
      producidos.Length == NumProds && contProd.Length == NumItems && contCons.Length == NumItems
      && producidos != contProd && producidos != contCons && contProd != contCons
    }

    constructor ()
      ensures Valid() && fresh(producidos) && fresh(contProd) && fresh(contCons)
      ensures forall h :: 0 <= h < NumProds ==> producidos[h] == 0
      ensures forall v :: 0 <= v < NumItems ==> contProd[v] == 0 && contCons[v] == 0
    {
      producidos := new nat[NumProds](_ => 0);
      contProd := new nat[NumItems](_ => 0);
      contCons := new nat[NumItems](_ => 0);
    }

    /** `producir_dato(h)`: the next value of producer `h`, counted in `cont_prod`.
        Producer `h` calls it `items_prod` times, so `producidos[h] < items_prod`. */
    method ProducirDato(h: int) returns (dato: int)
      requires Valid() && 0 <= h < NumProds && producidos[h] < ItemsProd
      modifies producidos, contProd
      ensures dato == ProducedValue(h, old(producidos[h])) && 0 <= dato < NumItems
      ensures producidos[..] == old(producidos[..])[h := old(producidos[h]) + 1]
      ensures contProd[..] == old(contProd[..])[dato := old(contProd[dato]) + 1]
    {
      ProducedValuesPartition(h, producidos[h], 0);
      dato := h * ItemsProd + producidos[h];
      producidos[h] := producidos[h] + 1;
      contProd[dato] := contProd[dato] + 1;
    }

    /** `consumir_dato`: counts the value in `cont_cons`; the source asserts `dato < num_items`. */
    method ConsumirDato(dato: int)
      requires Valid() && 0 <= dato < NumItems
      modifies contCons
      ensures contCons[..] == old(contCons[..])[dato := old(contCons[dato]) + 1]
    {
      contCons[dato] := contCons[dato] + 1;
    }

    /** `test_contadores`: true exactly when every value was produced once and consumed once. */
    method TestContadores() returns (ok: bool)
      requires Valid()
      ensures ok <==> forall i :: 0 <= i < NumItems ==> contProd[i] == 1 && contCons[i] == 1
    {
      ok := true;
      for i := 0 to NumItems
        invariant ok <==> forall j :: 0 <= j < i ==> contProd[j] == 1 && contCons[j] == 1
      {
        if contProd[i] != 1 {
          ok := false;
        }
        if contCons[i] != 1 {
          ok := false;
        }
      }
    }
  }
}
