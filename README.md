# Verified models of the sequential kernels of practicas-scd

The repository is a set of exercises in concurrent and distributed programming:
MPI processes, threads, and Hoare monitors. Each exercise has a small
sequential kernel whose behaviour can be stated. This project models five of
those kernels in Dafny and proves what they promise. Sends, receives, waits
and signals become inputs or preconditions.

- **Mandelbrot master/slave** (`escape_time.dfy`, `row_scheduler.dfy`, `row_protocol.dfy`)
  - The escape-time loop and the "inside the set ⇒ colour 0" sentinel of `calculate_colors`.
  - The master's row dispatcher as a state machine over the cursor `i`, `colored_rows` and the image.
  - The slave loop, which stops on `tag_end`.
  - The master and its slaves as one closed system. The only choice is which holding slave the master hears from next. For every such schedule:
    - the run cannot get stuck;
    - after W results the image equals the row-by-row sequential evaluation;
    - every row was received exactly once;
    - every slave got exactly one `tag_end` message.
- **Hoare monitor, S2** (`ring_index.dfy`, `monitor_su.dfy`)
  - The FIFO ring buffer and the LIFO stack of `MonitorProdCons`, as classes over an array.
  - Runs of completed calls proved against a queue and a stack reference.
  - `producir_dato` numbering and the `test_contadores` check.
- **Buffer process, P3** (`buffer_process.dfy`)
  - The acceptable-tag rule and ring buffer of `funcion_buffer`, run over the messages it receives. Consumers are served the delivered values in FIFO order.
  - Producers' disjoint value ranges and the divisibility check in `main`.
- **Dining philosophers, P3** (`philosophers.dfy`)
  - Parity roles and fork arithmetic.
  - The request/release order of each turn, and the fork as a two-state machine.
  - The asymmetric order's freedom from deadlock, with the symmetric order's deadlock for contrast.
- **Integration indices, S1** (`pi_partition.dfy`)
  - The sample indices each thread's loop visits, with the `int` loop variable truncated to 32 bits explicitly.
  - Contiguous blocks partition [0, m).
  - The interleaved launch as written misses sample 0. The corrected launch partitions [0, m).

Modelling choices:

- W and H are parameters. The source computes them from floats.
- The orbit of a pixel is an uninterpreted escape predicate.
- A colour (`Shade`) records only the iteration count its formula is evaluated at. The value of |z| that the continuous formula also uses is dropped.
- The master requires `1 <= num_slaves <= W`, because its initial phase indexes `img[i]` for every slave.
- `option.dfy` holds the `Option` type shared by the protocol model and the fork model.

## Model

| member | source | states |
|---|---|---|
| `EscapeTime.EscapeIterations` | Mandelbrot/mandelbrot.cpp:117-121 | The value of `n_iterations` when the escape loop ends: between its start and `limit`, and an iteration at which the orbit has escaped whenever it is below `limit` |
| `EscapeTime.PixelShade` | Mandelbrot/mandelbrot.cpp:117-139 | The colour of one pixel: in linear mode a factor in [0, limit]; in continuous mode either the sentinel 0 or the formula at a count in [3, limit + 3) |
| `EscapeTime.EscapeIterationsMeaning` | Mandelbrot/mandelbrot.cpp:117-121 | The escape loop stops at the first iteration where the orbit has escaped, or at `limit` if there is none below it; so `n_iterations <= limit` |
| `EscapeTime.LinearSentinel` | Mandelbrot/mandelbrot.cpp:123-126 | Linear colour factor `limit - n` lies in [0, limit] and is 0 exactly when the orbit did not escape below `limit` |
| `EscapeTime.ContinuousSentinel` | Mandelbrot/mandelbrot.cpp:128-139 | Continuous mode: the pixel is 0 exactly when the counter reaches `limit + 3`, i.e. the orbit never escaped; otherwise n+3 in [3, limit+3) with the escape at n |
| `EscapeTime.ColorPixel` | Mandelbrot/mandelbrot.cpp:117-139 | The loops of one pixel: `n_iterations` ends at the escape count, plus 3 in continuous mode; linear mode ends with `n <= limit`; continuous mode with `3 <= n <= limit + 3` and colour 0 iff `n == limit + 3`; the colour is `PixelShade` of the orbit |
| `EscapeTime.RowColors` | Mandelbrot/mandelbrot.cpp:111 | A row has one colour per pixel, H in all |
| `EscapeTime.CalculateColors` | Mandelbrot/mandelbrot.cpp:107-142 | Writes into `img[j]`, for every j < H, the colour of pixel (i, j) |
| `RowScheduler.Start` | Mandelbrot/mandelbrot.cpp:160-170 | The master after the initial phase and `i--`: W rows allocated, none coloured, the cursor at row K-1, the last row handed out |
| `RowScheduler.InitialDispatches` | Mandelbrot/mandelbrot.cpp:165-168 | The initial phase sends K messages, row s with `tag_send` to slave s+1 |
| `RowScheduler.Step` | Mandelbrot/mandelbrot.cpp:173-189 | One turn of the receive loop: the result is stored at its row id, `colored_rows` grows by one, and the answer goes to the sender; it is `tag_send` of the next row exactly when the cursor was below W-1, and otherwise `tag_end` with the cursor unchanged; the row sent is the new cursor |
| `RowScheduler.StepStoresAtRowId` | Mandelbrot/mandelbrot.cpp:173-177 | A result is stored at the row id it carries, every other image row is unchanged, `colored_rows` grows by one, and the answer goes to the sender |
| `RowScheduler.Loop` | Mandelbrot/mandelbrot.cpp:173-190 | One dispatch per received result; the image keeps W rows |
| `RowScheduler.MasterRun` | Mandelbrot/mandelbrot.cpp:164-190 | The whole master: the final image has W rows, and the log holds K + W dispatches, the first K being the initial phase |
| `RowScheduler.LoopClosedForm` | Mandelbrot/mandelbrot.cpp:170-190 | After n results: `colored_rows == n`, cursor `== min(W-1, K-1+n)`, and the j-th answer goes to the j-th sender with row K+j (`tag_send`) or W-1 (`tag_end`) |
| `RowScheduler.MasterRunLog` | Mandelbrot/mandelbrot.cpp:164-190 | A whole run makes W+K dispatches: rows 0..K-1 to slaves 1..K, then rows K..W-1 with `tag_send`, then K times row W-1 with `tag_end`; the loop stops at `colored_rows == W` |
| `RowScheduler.SendRowsIncrease` | Mandelbrot/mandelbrot.cpp:180-183 | The cursor never exceeds W-1 and `tag_send` dispatches carry strictly increasing row ids |
| `RowScheduler.EveryRowSentOnce` | Mandelbrot/mandelbrot.cpp:165-190 | Every row in [0, W) is dispatched with `tag_send` exactly once |
| `RowScheduler.EndIsFinal` | Mandelbrot/mandelbrot.cpp:180-189 | After the first `tag_end` dispatch, every later dispatch is `tag_end` with row W-1 |
| `RowScheduler.MessageCounts` | Mandelbrot/mandelbrot.cpp:165-189 | Exactly W `tag_send` and exactly `num_slaves` `tag_end` dispatches |
| `RowScheduler.Master` | Mandelbrot/mandelbrot.cpp:148-190 | The imperative master (initial loop, `i--`, receive loop) builds exactly the image and the dispatch log of the state machine |
| `RowScheduler.FirstEnd` | Mandelbrot/mandelbrot.cpp:219 | Position of the first `tag_end` assignment: all before it are `tag_send` |
| `RowScheduler.Slave` | Mandelbrot/mandelbrot.cpp:205-233 | A slave answers every assignment before the first `tag_end` with the same row id and that row's colours, and stops there |
| `RowProtocol.Init` | Mandelbrot/mandelbrot.cpp:165-168 | After the initial phase no result has been received and slave s+1 holds the row the master sent it |
| `RowProtocol.Next` | Mandelbrot/mandelbrot.cpp:173-189 | The master receives slave s's row, computed as every slave computes it (lines 205-233); the result joins the log, no other slave changes, and slave s then holds the next row or, once the cursor is at W-1, is stopped |
| `RowProtocol.Run` | Mandelbrot/mandelbrot.cpp:173-190 | A schedule the master can follow ends with K slaves and one received result per entry of the schedule, the k-th from the k-th slave named |
| `RowProtocol.InitInv` | Mandelbrot/mandelbrot.cpp:164-170 | After the initial phase every slave holds the row it was sent and the system invariant holds |
| `RowProtocol.NextInv` | Mandelbrot/mandelbrot.cpp:173-189 | Receiving from any holding slave and answering it preserves the invariant: received rows distinct and stored correctly, held rows distinct and unreceived, every handed-out row received or held, slave stopped iff it got one `tag_end` |
| `RowProtocol.RunInv` | Mandelbrot/mandelbrot.cpp:173-190 | Every state reachable by some arrival order satisfies the invariant, with one result per step |
| `RowProtocol.Progress` | Mandelbrot/mandelbrot.cpp:173-174 | While fewer than W rows are coloured, some slave holds a result the master can receive: no deadlock |
| `RowProtocol.Completion` | Mandelbrot/mandelbrot.cpp:173-229 | After W results, whatever the arrival order: the loop stops, the image equals the sequential row-by-row image, each row was received once, every slave stopped after exactly one `tag_end` |
| `RingIndex.RingInvariant` | S2/prodcons_varios_SU.cpp:126-133 | The index relation of the FIFO monitor, shared by the buffer process of P3/prodcons_varios.cpp lines 134-136: indices in range, count within the size, free cell = first + count mod size; so the free index is a valid cell, equal to the first occupied one exactly when the ring is empty or full |
| `RingIndex.RingContents` | P3/prodcons_varios.cpp:134-168 | The items a ring holds, oldest first, `count` of them: the cells from `first` onwards, wrapping around, with the oldest at `first` |
| `RingIndex.WriteKeepsInvariant` | S2/prodcons_varios_SU.cpp:193-196 | Storing at the free cell keeps `0 <= n <= TAM` and `primera_libre == (primera_ocupada + n) % TAM` |
| `RingIndex.ReadKeepsInvariant` | S2/prodcons_varios_SU.cpp:167-170 | Taking the oldest cell keeps the same relation with one item fewer |
| `RingIndex.RingWrite` | S2/prodcons_varios_SU.cpp:194-195 | Storing x at `primera_libre` appends x to the held items |
| `RingIndex.RingRead` | S2/prodcons_varios_SU.cpp:168-169 | Advancing `primera_ocupada` drops the oldest held item |
| `RingIndex.RingHead` | S2/prodcons_varios_SU.cpp:168 | The oldest held item is the cell at `primera_ocupada` |
| `RingIndex.RingPush` | P3/prodcons_varios.cpp:159-161 | Storing at `primera_libre` and advancing it keeps the index relation and appends the value |
| `RingIndex.RingPop` | P3/prodcons_varios.cpp:166-168 | Taking the cell at `primera_ocupada` and advancing it keeps the index relation and removes the oldest value, which is that cell |
| `MonitorSU.FifoMonitor.constructor` | S2/prodcons_varios_SU.cpp:147-157 | Empty buffer, all indices 0, the ring relation holds |
| `MonitorSU.FifoMonitor.Leer` | S2/prodcons_varios_SU.cpp:159-170 | On a non-empty buffer, returns the oldest value and removes it; indices advance mod TAM_BUFFER |
| `MonitorSU.FifoMonitor.Escribir` | S2/prodcons_varios_SU.cpp:187-196 | On a non-full buffer, appends the value; only `buffer[primera_libre]` and the indices change |
| `MonitorSU.LifoMonitor.constructor` | S2/prodcons_varios_SU.cpp:147-150 | Empty stack, `primera_libre == 0` |
| `MonitorSU.LifoMonitor.Leer` | S2/prodcons_varios_SU.cpp:172-178 | On a non-empty stack, returns the most recently written unread value; `primera_libre` falls by one |
| `MonitorSU.LifoMonitor.Escribir` | S2/prodcons_varios_SU.cpp:198-202 | On a non-full stack, pushes the value; only `buffer[primera_libre]` changes and `primera_libre` rises by one, staying within [0, TAM_BUFFER] |
| `MonitorSU.FeasibleBounds` | S2/prodcons_varios_SU.cpp:159-207 | When every call completes only once its wait condition holds, the fill level stays within [0, TAM_BUFFER] |
| `MonitorSU.FeasiblePrefix` | S2/prodcons_varios_SU.cpp:159-207 | Every prefix of a run of completed calls is itself such a run, and the next call found its wait condition true |
| `MonitorSU.Pending` | S2/prodcons_varios_SU.cpp:159-196 | FIFO reference: the values still held number the fill level, at most TAM_BUFFER, and the values read followed by those held are the values written |
| `MonitorSU.FifoStep` | S2/prodcons_varios_SU.cpp:159-196 | One more call: a write found room and appends its value to the held values; a read found a held value and delivers the oldest |
| `MonitorSU.RunFifo` | S2/prodcons_varios_SU.cpp:159-207 | FIFO monitor: the reads return the written values in the order written (queue semantics) |
| `MonitorSU.LifoStep` | S2/prodcons_varios_SU.cpp:172-202 | A call allowed by its wait condition keeps the stack's accounts: held values number the fill level, read plus held values are the written ones |
| `MonitorSU.LifoConserves` | S2/prodcons_varios_SU.cpp:172-202 | Stack discipline: values read plus values held are exactly the values written |
| `MonitorSU.LifoCompleteRun` | S2/prodcons_varios_SU.cpp:172-202 | Once reads equal writes, the stack is empty and every written value was read exactly once |
| `MonitorSU.RunLifo` | S2/prodcons_varios_SU.cpp:172-202 | LIFO monitor: the reads return what a stack returns for the same calls |
| `MonitorSU.ProducedValuesPartition` | S2/prodcons_varios_SU.cpp:66-69 | `h*items_prod + k` lies in [0, num_items) and each value has exactly one producer/item pair |
| `MonitorSU.Counters.constructor` | S2/prodcons_varios_SU.cpp:41-46 | `producidos`, `cont_prod`, `cont_cons` start at zero |
| `MonitorSU.Counters.ProducirDato` | S2/prodcons_varios_SU.cpp:66-76 | Returns `h*items_prod + producidos[h]`, increments `producidos[h]` and `cont_prod[dato]` only |
| `MonitorSU.Counters.ConsumirDato` | S2/prodcons_varios_SU.cpp:80-91 | Requires `dato < num_items` (the source's assert) and increments `cont_cons[dato]` only |
| `MonitorSU.Counters.TestContadores` | S2/prodcons_varios_SU.cpp:95-116 | Returns true iff every `cont_prod[i]` and `cont_cons[i]` equals 1 for i < num_items |
| `BufferProcess.EtiquetaAceptable` | P3/prodcons_varios.cpp:144-149 | The tag filter of the receive: a producer's message matches exactly when the buffer is not full, a consumer's exactly when it is not empty |
| `BufferProcess.AcceptableTagRule` | P3/prodcons_varios.cpp:144-149 | A producer message is acceptable iff the buffer is not full, a consumer message iff it is not empty |
| `BufferProcess.FeasibleBounds` | P3/prodcons_varios.cpp:144-169 | Under the acceptance rule `num_celdas_ocupadas` stays in [0, tam_vector] |
| `BufferProcess.FeasiblePrefix` | P3/prodcons_varios.cpp:140-153 | Every prefix of an acceptable message sequence is acceptable, and the message after it carried an acceptable tag |
| `BufferProcess.BufferReference` | P3/prodcons_varios.cpp:130-175 | The buffer as a FIFO queue: the values queued and the replies sent together number the values produced, and every reply carries `etiq_productor`; which values they are is stated by `ReferenceConserves` and `ServedInOrder` |
| `BufferProcess.ReferenceStep` | P3/prodcons_varios.cpp:157-172 | The queue reference after one more message: a producer's value joins the back, a consumer is answered from the front, other tags change nothing |
| `BufferProcess.AccountsStep` | P3/prodcons_varios.cpp:144-172 | An accepted message keeps the queue's accounts: length equals fill level, replies go to the requesters, handed-out then held values are the delivered ones |
| `BufferProcess.ReferenceConserves` | P3/prodcons_varios.cpp:140-172 | Under the acceptance rule the queue never runs dry and loses nothing: those accounts hold after every acceptable run |
| `BufferProcess.ServedInOrder` | P3/prodcons_varios.cpp:166-171 | FIFO service: the k-th reply goes to the k-th requester with `etiq_productor` and the k-th delivered value; never more requests than deliveries |
| `BufferProcess.BufferTurn` | P3/prodcons_varios.cpp:153-172 | One loop turn on a ring holding the reference: storing at `primera_libre` or answering from `primera_ocupada` keeps the ring equal to the reference and its index relation |
| `BufferProcess.FuncionBuffer` | P3/prodcons_varios.cpp:130-175 | The ring-buffer loop over 2*num_items acceptable messages sends exactly the replies of the queue reference |
| `BufferProcess.TaggedCount` | P3/prodcons_varios.cpp:157-172 | Given that every message carries one of the two tags (which the accepted tags guarantee), the deliveries and the requests together number the messages received |
| `BufferProcess.CompleteRunDeliversAll` | P3/prodcons_varios.cpp:140-172 | In a run of num_items deliveries and num_items requests, the buffer ends empty and every delivered value reaches exactly one consumer, in order |
| `BufferProcess.Producer.constructor` | P3/prodcons_varios.cpp:70 | The counter starts at `num_productor * items_por_productor` |
| `BufferProcess.Producer.Producir` | P3/prodcons_varios.cpp:68-76 | Increments the counter and returns it |
| `BufferProcess.FuncionProductor` | P3/prodcons_varios.cpp:95-106 | Producer p sends `p*items_por_productor + 1, + 2, ...`, items_por_productor values |
| `BufferProcess.ProducerRange` | P3/prodcons_varios.cpp:68-75 | Producer p sends `items_por_productor` values, all in (p * items_por_productor, (p+1) * items_por_productor] |
| `BufferProcess.ProducerRangesCover` | P3/prodcons_varios.cpp:68-75 | Together the np producers send exactly the values 1 .. num_items |
| `BufferProcess.ProducerRangesDisjoint` | P3/prodcons_varios.cpp:68-75 | No value is sent twice, by one producer or by two |
| `BufferProcess.LaunchCheck` | P3/prodcons_varios.cpp:186-190 | `main` runs iff num_items is divisible by nc and np, i.e. the integer shares lose no item |
| `BufferProcess.ConfiguredLaunch` | P3/prodcons_varios.cpp:34-41 | The configured constants pass the check: np*items_por_productor == nc*items_por_consumidor == num_items |
| `Philosophers.RoleOf` | P3/filosofos.cpp:133-136 | Even ranks run a philosopher, odd ranks a fork |
| `Philosophers.RolesAlternate` | P3/filosofos.cpp:133-136 | Even ranks 0..8 are philosophers, odd ranks 1..9 are forks |
| `Philosophers.LeftFork` | P3/filosofos.cpp:63 | `id_ten_izq` is a rank, the next one round the ring of ten |
| `Philosophers.RightFork` | P3/filosofos.cpp:64 | `id_ten_der` is a rank, the previous one round the ring; its left neighbour is `id` again |
| `Philosophers.ForksOfPhilosopher` | P3/filosofos.cpp:63-64 | A philosopher's left and right forks are two distinct fork ranks, `id+1` and `id-1` (9 for philosopher 0) |
| `Philosophers.NeighboursShareOneFork` | P3/filosofos.cpp:63-64 | Philosophers id and id+2 share exactly one fork: the left of id is the right of id+2 |
| `Philosophers.EachForkHasTwoUsers` | P3/filosofos.cpp:63-64 | A fork is used by exactly the two philosophers next to it |
| `Philosophers.RoundSends` | P3/filosofos.cpp:69-92 | One turn sends four messages, the last two releasing the left fork, then the right |
| `Philosophers.FirstFork` | P3/filosofos.cpp:69-84 | The first request goes to one of the philosopher's two forks, the right one exactly for philosopher 0 |
| `Philosophers.SecondFork` | P3/filosofos.cpp:69-84 | The second request goes to the other one of the two forks |
| `Philosophers.RoundOrder` | P3/filosofos.cpp:69-92 | Philosopher 0 requests right then left, the others left then right; all release left then right |
| `Philosophers.RoundPerFork` | P3/filosofos.cpp:69-92 | Per turn the requests and the releases each go once to the left and once to the right fork; the turn's messages are those two forks twice each and nothing else |
| `Philosophers.RoundsSends` | P3/filosofos.cpp:67-95 | n turns send 4n messages |
| `Philosophers.RoundsSendsAt` | P3/filosofos.cpp:67-95 | The k-th message of the loop is the (k mod 4)-th of a turn |
| `Philosophers.FuncionFilosofos` | P3/filosofos.cpp:61-96 | The philosopher loop sends, for any number of turns, the request/release sequence of each turn in order |
| `Philosophers.ForkStep` | P3/filosofos.cpp:106-116 | A fork receives a message when it is free, or from its holder; it then changes between free and held, and a taken fork is held by the sender |
| `Philosophers.ForkRun` | P3/filosofos.cpp:106-116 | After a sequence of accepted messages a held fork is held by the last sender |
| `Philosophers.ForkRunMeaning` | P3/filosofos.cpp:106-116 | A fork accepts a message sequence iff it alternates request and release by the same philosopher; it is free after each release and held by the requester otherwise |
| `Philosophers.FuncionTenedores` | P3/filosofos.cpp:100-117 | The fork loop is taken in turn by the sender of each request, which is also the sender of the next release; the fork ends free |
| `Philosophers.FirstForkNotInjective` | P3/filosofos.cpp:63-84 | Philosophers 0 and 8 both request fork 9 first, so not all five can hold their first fork at once |
| `Philosophers.NoDeadlock` | P3/filosofos.cpp:69-84 | Under the asymmetric order no consistent assignment of forks leaves every philosopher blocked |
| `Philosophers.PhilosopherTwoCanMove` | P3/filosofos.cpp:79-84 | With nobody eating, the philosopher of rank 2 (index 1 of the stages) always gets the fork it waits for |
| `Philosophers.SymmetricOrderDeadlocks` | P3/filosofos.cpp:9-11 | Had philosopher 0 also taken left first, "everyone holds the left fork" would be a deadlock |
| `PiPartition.ToInt32` | S1/pi.cpp:47 | Conversion to `int` yields a 32-bit value and leaves values that fit unchanged |
| `PiPartition.LoopBoundsFitInt32` | S1/pi.cpp:44-61 | Every bound and loop-variable value, up to m-1+n, fits in an `int` |
| `PiPartition.CalcularIntegralSecuencial` | S1/pi.cpp:32-38 | The sequential loop visits 0, 1, ..., m-1, each once |
| `PiPartition.ContiguousBlock` | S1/pi.cpp:47 | Thread i's block has m/n indices, all in [(i-1)(m/n), i(m/n)) |
| `PiPartition.FuncionHebraContigua` | S1/pi.cpp:44-50 | Contiguous thread i visits (i-1)*(m/n) .. i*(m/n)-1 in order, the `int` truncation never changing a value |
| `PiPartition.ContiguousMembership` | S1/pi.cpp:47 | Thread i's block is exactly [(i-1)*(m/n), i*(m/n)) |
| `PiPartition.ContiguousPartition` | S1/pi.cpp:73-74 | The blocks of threads 1..n cover [0, m) and are pairwise disjoint |
| `PiPartition.ContiguousConcatenation` | S1/pi.cpp:32-50 | The four blocks, in thread order, are exactly the sequential loop's indices |
| `PiPartition.InterleavedIndices` | S1/pi.cpp:59 | Thread i visits `InterleavedCount(i)` indices, all in [i, m) |
| `PiPartition.FuncionHebraEntrelazada` | S1/pi.cpp:56-62 | Interleaved thread i visits i, i+n, ... below m in order, the `int` truncation never changing a value |
| `PiPartition.InterleavedMembership` | S1/pi.cpp:59 | Thread i visits exactly the indices in [i, m) congruent to i mod n |
| `PiPartition.CalcularIntegralConcurrente` | S1/pi.cpp:66-83 | The n threads are started with arguments 1..n in both modes |
| `PiPartition.InterleavedAsWrittenMissesZero` | S1/pi.cpp:76-77 | As written the interleaved threads together visit exactly [1, m): sample 0 is never visited |
| `PiPartition.InterleavedAsWrittenDisjoint` | S1/pi.cpp:76-77 | As written no sample is visited by two interleaved threads |
| `PiPartition.CalcularIntegralEntrelazadaCorregida` | S1/pi.cpp:53-55 | Interleaved threads started with arguments 0..n-1, as the doc-comment describes |
| `PiPartition.InterleavedCorrectedPartition` | S1/pi.cpp:53-59 | With arguments 0..n-1 the threads together visit exactly [0, m), sample j by thread j mod n |
| `PiPartition.InterleavedCorrectedDisjoint` | S1/pi.cpp:53-59 | With arguments 0..n-1 no sample is visited by two threads |

## Left out

- MPI, threads, futures, the Hoare monitor's condition variables and mutexes are not modelled as runtime mechanisms.
  - A receive becomes an input: the results the master gets, or the messages the buffer or a fork receives, in order.
  - A blocking wait becomes a precondition, or a feasibility predicate over the sequence of completed calls.
- Floating-point work is not modelled: complex arithmetic, `pixelToComplex`, `width`/`height`, the colour formulas (including the operator precedence of mandelbrot.cpp line 139), `f` and every sum in pi.cpp. A colour records only the iteration count its formula is evaluated at; |z| is dropped.
- `visualize`, png output, console output, random delays and timing are side effects only and are not modelled.
- The `SampledPlane` getters compute floats and are not modelled.
- P1/fumadores.cpp is not part of this model: semaphores and endless thread loops, with no sequential kernel.
- The process-count checks in every `main` only gate whether the roles run, and are not modelled. So is the P3 role dispatch by rank.
- `funcion_consumidor` is not modelled as a process. Its requests appear as the consumer messages the buffer receives, and the buffer's replies, which the consumer receives (prodcons_varios.cpp line 121), are the buffer's output. Its printing and `consumir` are side effects only.
- Message payloads:
  - The row buffer the master sends with every row index is left out, because the slave never uses what it carries. With `tag_send` it is a row not yet received, which `calculate_colors` overwrites. With `tag_end` it is `img[W-1]`, which may already hold a received row, and the slave exits without reading it.
  - The master's dispatch records the tag of the row message. The index message before it always carries `tag_send`.
  - The consumer's request payload, also uninitialised, is left out.
  - The buffer replies with tag `etiq_productor`, and this is recorded as is.
- Uninitialised C arrays: the `img` rows start as `Zero` in the model (`Blank`). The `buffer` arrays of the two monitors and of the buffer process are allocated without initial values, so their cells start arbitrary, as C leaves them. No proof reads a cell before writing it.
- The endless `while (true)` loops of the philosopher and fork processes are modelled for a given number of turns.
- `BufferProcess.Producer.constructor`: `producir`'s counter is a function-local `static` initialised at the first call. It is modelled as a per-producer object initialised at creation, which is equivalent because each producer is its own process.
- `RowScheduler.Master`: a slave never returns a row id it was not given, so the master's precondition requires every received row id to be below W (the source would index `img` out of bounds otherwise).
- `RowScheduler.Slave`: the model requires that a `tag_end` assignment eventually arrives, which the master guarantees (`RowProtocol.Completion`). A slave that is never stopped runs for ever and is not modelled.
- An orbit that first exceeds the radius exactly at iteration `limit` also ends with `n_iterations == limit` and is coloured 0. This follows from the loop condition and is modelled as written.

## Findings

| source | as written | input that shows it | evidently intended | confidence | as-written member | corrected member |
|---|---|---|---|---|---|---|
| S1/pi.cpp:76-77 | `calcular_integral_concurrente(false)` starts `funcion_hebra_entrelazada` with arguments `i+1`, i.e. 1..n, so the threads visit j = 1..n, 1+n.. ; no thread visits j = 0 | sample index 0: `0 % n == 0` but thread 0 is never started, and thread n starts at j = n | sample j computed by thread `j mod n` (doc-comment at lines 53-55): arguments 0..n-1, covering every sample in [0, m) exactly once | not executed | `PiPartition.InterleavedAsWrittenMissesZero` (about `PiPartition.CalcularIntegralConcurrente`) | `PiPartition.InterleavedCorrectedPartition`, `PiPartition.InterleavedCorrectedDisjoint` (about `PiPartition.CalcularIntegralEntrelazadaCorregida`) |
