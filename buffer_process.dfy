/**
 * The producer/consumer of P3/prodcons_varios.cpp: np producer processes, nc
 * consumer processes and one buffer process with a ring buffer of
 * `tam_vector` cells between them.
 *
 * Each turn of the buffer's loop receives one message, from any source, whose
 * tag is acceptable at the current fill level: only producers when the buffer
 * is empty, only consumers when it is full, anyone otherwise. A producer
 * message carries a value to store; a consumer message is a request, answered
 * with the oldest stored value. The messages the buffer receives, in order,
 * are the input of the model; the blocking receive becomes the requirement
 * that each of them carries an acceptable tag.
 */
module BufferProcess {
  import opened RingIndex

  const Np := 4
  const Nc := 5
  const NumItems := 100
  const TamVector := 40
  const ItemsPorProductor := NumItems / Np
  const ItemsPorConsumidor := NumItems / Nc

  const EtiqProductor := 0
  const EtiqConsumidor := 1

  /** A message as the buffer receives it: who sent it, its tag and its integer. */
  datatype Message = Message(source: int, tag: int, value: int)

  /** The tags a receive accepts: one tag, or `MPI_ANY_TAG`. */
  datatype TagFilter = Only(tag: int) | AnyTag

  predicate Matches(f: TagFilter, tag: int)
  {
    f.AnyTag? || f.tag == tag
  }

  /** Step 1 of the buffer's loop: which senders may be served at this fill level. */
  function EtiquetaAceptable(numCeldasOcupadas: int): (f: TagFilter)
    ensures Matches(f, EtiqProductor) <==> numCeldasOcupadas != TamVector
    ensures Matches(f, EtiqConsumidor) <==> numCeldasOcupadas != 0
  {
    if numCeldasOcupadas == 0 then Only(EtiqProductor)
    else if numCeldasOcupadas == TamVector then Only(EtiqConsumidor)
    else AnyTag
  }

  /** A producer's or consumer's message is accepted exactly when the buffer can
      serve it: a value needs a free cell, a request needs a stored value. */
  lemma AcceptableTagRule(numCeldasOcupadas: int, tag: int)
    requires 0 <= numCeldasOcupadas <= TamVector
    requires tag == EtiqProductor || tag == EtiqConsumidor
    ensures Matches(EtiquetaAceptable(numCeldasOcupadas), tag) <==>
      if tag == EtiqProductor then numCeldasOcupadas < TamVector else 0 < numCeldasOcupadas
  {
  }

  // ---------------------------------------------------------------------
  // What a sequence of received messages means
  // ---------------------------------------------------------------------

  /** The values producers delivered, in order of receipt. */
  function Produced(msgs: seq<Message>): seq<int>
  {
    if msgs == [] then []
    else Produced(msgs[..|msgs| - 1]) + (if msgs[|msgs| - 1].tag == EtiqProductor then [msgs[|msgs| - 1].value] else [])
  }

  /** The senders of consumer requests, in order of receipt. */
  function Requesters(msgs: seq<Message>): seq<int>
  {
    if msgs == [] then []
    else Requesters(msgs[..|msgs| - 1]) + (if msgs[|msgs| - 1].tag == EtiqConsumidor then [msgs[|msgs| - 1].source] else [])
  }

  /** The number of occupied cells after these messages. */
  function Balance(msgs: seq<Message>): int
  {
    |Produced(msgs)| - |Requesters(msgs)|
  }

  /** Every message carried a tag acceptable at the moment it was received. */
  predicate Feasible(msgs: seq<Message>)
  {
    msgs == [] ||
    (Feasible(msgs[..|msgs| - 1]) && Matches(EtiquetaAceptable(Balance(msgs[..|msgs| - 1])), msgs[|msgs| - 1].tag))
  }

  /** A prefix of an acceptable run is acceptable, and the message after it was accepted. */
  lemma {:induction false} FeasiblePrefix(msgs: seq<Message>, n: nat)
    requires Feasible(msgs) && n <= |msgs|
    ensures Feasible(msgs[..n])
    ensures n < |msgs| ==> Matches(EtiquetaAceptable(Balance(msgs[..n])), msgs[n].tag)
  {
    if n == |msgs| {
      assert msgs[..n] == msgs;
    } else {
      var init := msgs[..|msgs| - 1];
      if n < |init| {
        FeasiblePrefix(init, n);
        assert init[..n] == msgs[..n];
      } else {
        assert init == msgs[..n];
      }
    }
  }

  /** Under the acceptance rule the fill level never leaves [0, tam_vector]. */
  lemma {:induction false} FeasibleBounds(msgs: seq<Message>)
    requires Feasible(msgs)
    ensures 0 <= Balance(msgs) <= TamVector
  {
    if msgs != [] {
      FeasibleBounds(msgs[..|msgs| - 1]);
    }
  }

  /** The reply the buffer sends: back to the requester, with `etiq_productor`. */
  datatype Reply = Reply(dest: int, tag: int, value: int)

  /** The buffer as a queue value: the values it holds, oldest first, and the
      replies it has sent. A producer's value joins the back of the queue, a
      consumer's request is answered from the front; any other tag is ignored,
      as the source's `switch` has no case for it. */
  function BufferReference(msgs: seq<Message>): (r: (seq<int>, seq<Reply>))
    ensures |r.0| + |r.1| == |Produced(msgs)|
    ensures forall k :: 0 <= k < |r.1| ==> r.1[k].tag == EtiqProductor
  {
    if msgs == [] then ([], [])
    else
      var (queue, replies) := BufferReference(msgs[..|msgs| - 1]);
      var m := msgs[|msgs| - 1];
      if m.tag == EtiqProductor then (queue + [m.value], replies)
      else if m.tag == EtiqConsumidor && queue != [] then
        (queue[1..], replies + [Reply(m.source, EtiqProductor, queue[0])])
      else (queue, replies)
  }

  /** One more message, in the three cases of the queue reference. */
  lemma ReferenceStep(msgs: seq<Message>, i: nat)
    requires i < |msgs|
    ensures var m, queue, replies := msgs[i], BufferReference(msgs[..i]).0, BufferReference(msgs[..i]).1;
      && (m.tag == EtiqProductor ==> BufferReference(msgs[..i + 1]) == (queue + [m.value], replies))
      && (m.tag == EtiqConsumidor && queue != [] ==>
            BufferReference(msgs[..i + 1]) == (queue[1..], replies + [Reply(m.source, EtiqProductor, queue[0])]))
      && (m.tag != EtiqProductor && (m.tag != EtiqConsumidor || queue == []) ==>
            BufferReference(msgs[..i + 1]) == (queue, replies))
  {
    assert msgs[..i + 1][..i] == msgs[..i];
  }

  function Values(rs: seq<Reply>): seq<int>
  {
    seq(|rs|, k requires 0 <= k < |rs| => rs[k].value)
  }

  function Dests(rs: seq<Reply>): seq<int>
  {
    seq(|rs|, k requires 0 <= k < |rs| => rs[k].dest)
  }

  lemma ValuesSnoc(rs: seq<Reply>, r: Reply)
    ensures Values(rs + [r]) == Values(rs) + [r.value]
    ensures Dests(rs + [r]) == Dests(rs) + [r.dest]
  {
  }

  /** The accounts the queue reference keeps: its length is the fill level,
      every request was answered with `etiq_productor`, and the values handed
      out followed by the values held are the values delivered, in order. */
  predicate QueueAccounts(msgs: seq<Message>)
  {
    var (queue, replies) := BufferReference(msgs);
    && |queue| == Balance(msgs)
    && Dests(replies) == Requesters(msgs)
    && Values(replies) + queue == Produced(msgs)
    && forall k :: 0 <= k < |replies| ==> replies[k].tag == EtiqProductor
  }

  /** An accepted message keeps the accounts. */
  lemma AccountsStep(msgs: seq<Message>)
    requires msgs != [] && QueueAccounts(msgs[..|msgs| - 1]) && 0 <= Balance(msgs[..|msgs| - 1])
    requires Matches(EtiquetaAceptable(Balance(msgs[..|msgs| - 1])), msgs[|msgs| - 1].tag)
    ensures QueueAccounts(msgs)
  {
    var init, m := msgs[..|msgs| - 1], msgs[|msgs| - 1];
    var queue, replies := BufferReference(init).0, BufferReference(init).1;
    if m.tag == EtiqProductor {
      assert Values(replies) + (queue + [m.value]) == (Values(replies) + queue) + [m.value];
    } else if m.tag == EtiqConsumidor {
      assert queue != [];
      var r := Reply(m.source, EtiqProductor, queue[0]);
      ValuesSnoc(replies, r);
      assert queue == [queue[0]] + queue[1..];
      assert Values(replies + [r]) + queue[1..] == Values(replies) + queue;
    }
  }

  /** Under the acceptance rule the queue never runs dry and nothing is lost:
      its accounts hold after every acceptable run. */
  lemma {:induction false} ReferenceConserves(msgs: seq<Message>)
    requires Feasible(msgs)
    ensures |BufferReference(msgs).0| == Balance(msgs)
    ensures Dests(BufferReference(msgs).1) == Requesters(msgs)
    ensures Values(BufferReference(msgs).1) + BufferReference(msgs).0 == Produced(msgs)
    ensures forall k :: 0 <= k < |BufferReference(msgs).1| ==> BufferReference(msgs).1[k].tag == EtiqProductor
  {
    if msgs != [] {
      ReferenceConserves(msgs[..|msgs| - 1]);
      FeasibleBounds(msgs[..|msgs| - 1]);
      AccountsStep(msgs);
    }
  }

  /** Consumers are served in FIFO order: the k-th reply goes to the k-th
      requester and carries the k-th delivered value; no request goes unanswered
      and no more requests are answered than values were delivered. */
  lemma ServedInOrder(msgs: seq<Message>)
    requires Feasible(msgs)
    ensures |BufferReference(msgs).1| == |Requesters(msgs)| <= |Produced(msgs)|
    ensures forall k :: 0 <= k < |Requesters(msgs)| ==>
      BufferReference(msgs).1[k] == Reply(Requesters(msgs)[k], EtiqProductor, Produced(msgs)[k])
  {
    ReferenceConserves(msgs);
    var replies := BufferReference(msgs).1;
    forall k | 0 <= k < |Requesters(msgs)|
      ensures replies[k] == Reply(Requesters(msgs)[k], EtiqProductor, Produced(msgs)[k])
    {
      assert Dests(replies)[k] == replies[k].dest;
      assert (Values(replies) + BufferReference(msgs).0)[k] == Values(replies)[k] == replies[k].value;
    }
  }

  // ---------------------------------------------------------------------
  // The buffer process
  // ---------------------------------------------------------------------

  /** One turn of the buffer's loop on a ring that holds the queue reference
      of the messages so far: storing a producer's value or answering a
      consumer from the oldest cell keeps the ring equal to the reference. */
  lemma BufferTurn(msgs: seq<Message>, i: nat, buf: seq<int>, first: int, free: int, count: int)
    requires Feasible(msgs) && i < |msgs|
    requires |buf| == TamVector && RingInvariant(|buf|, first, free, count)
    requires RingContents(buf, first, count) == BufferReference(msgs[..i]).0
    ensures Feasible(msgs[..i + 1])
    ensures var m, pre, post := msgs[i], BufferReference(msgs[..i]), BufferReference(msgs[..i + 1]);
      && (m.tag == EtiqProductor ==>
            && count < |buf|
            && RingInvariant(|buf|, first, (free + 1) % |buf|, count + 1)
            && RingContents(buf[free := m.value], first, count + 1) == post.0
            && post.1 == pre.1)
      && (m.tag == EtiqConsumidor ==>
            && 0 < count
            && RingInvariant(|buf|, (first + 1) % |buf|, free, count - 1)
            && RingContents(buf, (first + 1) % |buf|, count - 1) == post.0
            && post.1 == pre.1 + [Reply(m.source, EtiqProductor, buf[first])])
      && (m.tag != EtiqProductor && m.tag != EtiqConsumidor ==> post == pre)
  {
    FeasiblePrefix(msgs, i);
    FeasiblePrefix(msgs, i + 1);
    ReferenceConserves(msgs[..i]);
    ReferenceStep(msgs, i);
    if msgs[i].tag == EtiqProductor {
      RingPush(buf, first, free, count, msgs[i].value);
    } else if msgs[i].tag == EtiqConsumidor {
      RingPop(buf, first, free, count);
    }
  }

  /** `funcion_buffer`: 2 * num_items turns of receive, store or serve. Returns
      the replies sent to consumers, in order: those of the queue reference. */
  method FuncionBuffer(msgs: seq<Message>) returns (replies: seq<Reply>)
    requires |msgs| == NumItems * 2 && Feasible(msgs)
    ensures replies == BufferReference(msgs).1
  {
    var buffer := new int[TamVector];
    var primeraLibre, primeraOcupada, numCeldasOcupadas := 0, 0, 0;
    replies := [];
    var i := 0;
    while i < NumItems * 2
      invariant 0 <= i <= |msgs| && Feasible(msgs[..i])
      invariant RingInvariant(buffer.Length, primeraOcupada, primeraLibre, numCeldasOcupadas)
      invariant replies == BufferReference(msgs[..i]).1
      invariant RingContents(buffer[..], primeraOcupada, numCeldasOcupadas) == BufferReference(msgs[..i]).0
    {
      var m := msgs[i];
      BufferTurn(msgs, i, buffer[..], primeraOcupada, primeraLibre, numCeldasOcupadas);
      if m.tag == EtiqProductor {
        buffer[primeraLibre] := m.value;
        primeraLibre := (primeraLibre + 1) % TamVector;
        numCeldasOcupadas := numCeldasOcupadas + 1;
      } else if m.tag == EtiqConsumidor {
        var valor := buffer[primeraOcupada];
        primeraOcupada := (primeraOcupada + 1) % TamVector;
        numCeldasOcupadas := numCeldasOcupadas - 1;
        replies := replies + [Reply(m.source, EtiqProductor, valor)];
      }
      i := i + 1;
    }
    assert msgs[..i] == msgs;
  }

  /** In a run where producers delivered all num_items values and every other
      message was a request, every value reaches exactly one consumer, in the
      order it was delivered. */
  lemma CompleteRunDeliversAll(msgs: seq<Message>)
    requires |msgs| == NumItems * 2 && Feasible(msgs)
    requires forall k :: 0 <= k < |msgs| ==> msgs[k].tag == EtiqProductor || msgs[k].tag == EtiqConsumidor
    requires |Produced(msgs)| == NumItems
    ensures |BufferReference(msgs).1| == NumItems
    ensures BufferReference(msgs).0 == []
    ensures forall k :: 0 <= k < NumItems ==> BufferReference(msgs).1[k].value == Produced(msgs)[k]
  {
    TaggedCount(msgs);
    ServedInOrder(msgs);
    ReferenceConserves(msgs);
  }

  /** With only producer and consumer messages, each counts once. */
  lemma {:induction false} TaggedCount(msgs: seq<Message>)
    requires forall k :: 0 <= k < |msgs| ==> msgs[k].tag == EtiqProductor || msgs[k].tag == EtiqConsumidor
    ensures |Produced(msgs)| + |Requesters(msgs)| == |msgs|
  {
    if msgs != [] {
      TaggedCount(msgs[..|msgs| - 1]);
    }
  }

  // ---------------------------------------------------------------------
  // Producers
  // ---------------------------------------------------------------------

  /** The values producer `p` sends: p*items_por_productor + 1, + 2, and so on. */
  function ProducerRange(p: int): (vs: seq<int>)
    ensures |vs| == ItemsPorProductor
    ensures forall k :: 0 <= k < |vs| ==> p * ItemsPorProductor < vs[k] <= (p + 1) * ItemsPorProductor
  {
    seq(ItemsPorProductor, k => p * ItemsPorProductor + k + 1)
  }

  /** `producir`'s counter, one per producer process; it starts at
      num_productor * items_por_productor on the first call. */
  class Producer {
    const numProductor: int
    var contador: int

    constructor (p: int)
      ensures numProductor == p && contador == p * ItemsPorProductor
    {
      numProductor := p;
      contador := p * ItemsPorProductor;
    }

    /** `producir`: advance the counter and return it. */
    method Producir() returns (valor: int)
      modifies this
      ensures contador == old(contador) + 1 && valor == contador
    {
      contador := contador + 1;
      valor := contador;
    }
  }

  /** `funcion_productor`: the values producer `p` sends to the buffer, in order. */
  method FuncionProductor(p: int) returns (sent: seq<int>)
    ensures sent == ProducerRange(p)
  {
    var productor := new Producer(p);
    sent := [];
    for i := 0 to ItemsPorProductor
      invariant productor.contador == p * ItemsPorProductor + i
      invariant sent == ProducerRange(p)[..i]
    {
      var valorProd := productor.Producir();
      sent := sent + [valorProd];
    }
  }

  /** Together the np producers send exactly the values 1 .. num_items. */
  lemma ProducerRangesCover(v: int)
    ensures 1 <= v <= NumItems <==> exists p, k :: 0 <= p < Np && 0 <= k < ItemsPorProductor && ProducerRange(p)[k] == v
  {
    if 1 <= v <= NumItems {
      var p, k := (v - 1) / ItemsPorProductor, (v - 1) % ItemsPorProductor;
      assert ProducerRange(p)[k] == v;
    }
  }

  /** No value is sent twice, by one producer or by two. */
  lemma ProducerRangesDisjoint(p1: int, k1: int, p2: int, k2: int)
    requires 0 <= p1 < Np && 0 <= k1 < ItemsPorProductor
    requires 0 <= p2 < Np && 0 <= k2 < ItemsPorProductor
    requires ProducerRange(p1)[k1] == ProducerRange(p2)[k2]
    ensures p1 == p2 && k1 == k2
  {
  }

  // ---------------------------------------------------------------------
  // The start-up check in main
  // ---------------------------------------------------------------------

  datatype Launch = Refused | Runs

  /** `main` refuses to start unless num_items is a multiple of nc and of np;
      that is, unless the integer divisions giving each producer's and each
      consumer's share lose no item. */
  function LaunchCheck(numItems: int, np: int, nc: int): (r: Launch)
    requires np > 0 && nc > 0
    ensures r == Runs <==> np * (numItems / np) == numItems && nc * (numItems / nc) == numItems
  {
    if numItems % nc != 0 || numItems % np != 0 then Refused else Runs
  }

  /** The configured constants pass the check, so the producers deliver and the
      consumers request exactly num_items values each way. */
  lemma ConfiguredLaunch()
    ensures LaunchCheck(NumItems, Np, Nc) == Runs
    ensures Np * ItemsPorProductor == NumItems && Nc * ItemsPorConsumidor == NumItems
  {
  }
}
