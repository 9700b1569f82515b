/**
 * The master and slave processes of Mandelbrot/mandelbrot.cpp.
 *
 * The master hands row indices to `num_slaves` slaves (process ids 1..K),
 * first rows 0..K-1, then, for every row that comes back, the next row of
 * the cursor `i` or, once the cursor is at W-1, a message tagged `tag_end`.
 * It stores every row that comes back at the index the message carries, and
 * stops after W results. A slave computes the rows it is given until it
 * receives a message tagged `tag_end`.
 *
 * Message passing is modelled by values: the results the master receives,
 * in arrival order, are an input (`inbox`), which also fixes which slave
 * answered each time; a dispatch is a value recording the destination, the
 * row index and the tag of the message that carries the row.
 */
module RowScheduler {
  import opened EscapeTime

  /** The tag of the row message: `tag_send` (compute this row) or `tag_end` (stop). */
  datatype Tag = Send | End

  /** What a slave receives: a row index and a directive. */
  datatype Assignment = Assignment(rowId: int, tag: Tag)

  /** A message from the master to slave `slave`. */
  datatype Dispatch = Dispatch(slave: int, work: Assignment)

  /** A result from slave `slave`: the row index it was given and the colours it computed. */
  datatype Report = Report(slave: int, rowId: int, row: seq<Shade>)

  /** The master's variables: the cursor `i`, `colored_rows` and the image `img`. */
  datatype MasterState = MasterState(cursor: int, colored: nat, img: seq<seq<Shade>>)

  /** The content of a freshly allocated row. The source leaves it uninitialised. */
  function Blank(height: nat): seq<Shade>
  {
    seq(height, _ => Zero)
  }

  /** The master after its initial phase: the cursor at the last row handed out. */
  function Start(width: nat, height: nat, numSlaves: nat): (st: MasterState)
    ensures |st.img| == width && st.colored == 0
    ensures st.cursor == numSlaves - 1
    ensures forall r :: 0 <= r < width ==> st.img[r] == Blank(height)
  {
    MasterState(numSlaves - 1, 0, seq(width, _ => Blank(height)))
  }

  /** The initial phase: row `s` to slave `s + 1`, for every slave. */
  function InitialDispatches(numSlaves: nat): (ds: seq<Dispatch>)
    ensures |ds| == numSlaves
    ensures forall s :: 0 <= s < numSlaves ==> ds[s].slave == s + 1 && ds[s].work == Assignment(s, Send)
  {
    seq(numSlaves, s => Dispatch(s + 1, Assignment(s, Send)))
  }

  /** All row indices of `reps` can index an image of `n` rows. */
  predicate InRange(reps: seq<Report>, n: int)
  {
    forall k :: 0 <= k < |reps| ==> 0 <= reps[k].rowId < n
  }

  /** One turn of the master's loop: record the result, then answer its sender. */
  function Step(width: int, st: MasterState, rep: Report): (r: (MasterState, Dispatch))
    requires 0 <= rep.rowId < |st.img|
    ensures |r.0.img| == |st.img| && r.0.img[rep.rowId] == rep.row
    ensures r.0.colored == st.colored + 1
    ensures r.1.slave == rep.slave && r.1.work.rowId == r.0.cursor
    ensures r.1.work.tag == Send <==> st.cursor < width - 1
    ensures r.0.cursor == if st.cursor < width - 1 then st.cursor + 1 else st.cursor
  {
    var img := st.img[rep.rowId := rep.row];
    if st.cursor < width - 1 then
      (MasterState(st.cursor + 1, st.colored + 1, img), Dispatch(rep.slave, Assignment(st.cursor + 1, Send)))
    else
      (MasterState(st.cursor, st.colored + 1, img), Dispatch(rep.slave, Assignment(st.cursor, End)))
  }

  /** The master's loop over the results `reps`, in arrival order: the state
      reached and the dispatches made. */
  function Loop(width: int, st: MasterState, reps: seq<Report>): (r: (MasterState, seq<Dispatch>))
    requires InRange(reps, |st.img|)
    ensures |r.0.img| == |st.img| && |r.1| == |reps|
  {
    if reps == [] then (st, [])
    else
      var (mid, ds) := Loop(width, st, reps[..|reps| - 1]);
      var (next, d) := Step(width, mid, reps[|reps| - 1]);
      (next, ds + [d])
  }

  /** The whole master: the initial phase, then the loop over the first
      `width` results; the final state and every dispatch in order. */
  function MasterRun(width: nat, height: nat, numSlaves: nat, inbox: seq<Report>): (r: (MasterState, seq<Dispatch>))
    requires width <= |inbox| && InRange(inbox[..width], width)
    ensures |r.0.img| == width && |r.1| == numSlaves + width
    ensures r.1[..numSlaves] == InitialDispatches(numSlaves)
  {
    var (st, ds) := Loop(width, Start(width, height, numSlaves), inbox[..width]);
    (st, InitialDispatches(numSlaves) + ds)
  }

  /** The directive of the `j`-th dispatch of the whole run: the first `width`
      dispatches hand out rows 0, 1, ..., width - 1 in order, every later one
      stops its slave and repeats index width - 1. */
  function ExpectedWork(width: int, j: int): Assignment
  {
    if j < width then Assignment(j, Send) else Assignment(width - 1, End)
  }

  /** A received result changes only the image row it names. */
  lemma StepStoresAtRowId(width: int, st: MasterState, rep: Report)
    requires 0 <= rep.rowId < |st.img|
    ensures |Step(width, st, rep).0.img| == |st.img|
    ensures Step(width, st, rep).0.img[rep.rowId] == rep.row
    ensures forall r :: 0 <= r < |st.img| && r != rep.rowId ==> Step(width, st, rep).0.img[r] == st.img[r]
    ensures Step(width, st, rep).0.colored == st.colored + 1
    ensures Step(width, st, rep).1.slave == rep.slave
  {
  }

  /** The master's loop in closed form, after any number of results: one more
      row coloured per result, the cursor at min(width - 1, K - 1 + n), and
      the `j`-th answer going to the `j`-th sender with directive
      ExpectedWork(width, K + j). */
  lemma {:induction false} LoopClosedForm(width: nat, height: nat, numSlaves: nat, reps: seq<Report>)
    requires 1 <= numSlaves <= width && InRange(reps, width)
    ensures var (st, ds) := Loop(width, Start(width, height, numSlaves), reps);
      && st.colored == |reps|
      && st.cursor == (if numSlaves - 1 + |reps| < width - 1 then numSlaves - 1 + |reps| else width - 1)
      && forall j :: 0 <= j < |reps| ==>
           ds[j] == Dispatch(reps[j].slave, ExpectedWork(width, numSlaves + j))
  {
    if reps != [] {
      var init := reps[..|reps| - 1];
      assert InRange(init, width);
      LoopClosedForm(width, height, numSlaves, init);
    }
  }

  /** The dispatch log of a whole run, in closed form: `width + K` messages,
      the first `width` handing out rows 0..width-1 in order (the first K to
      slaves 1..K), the last K stopping a slave with index width - 1. */
  lemma MasterRunLog(width: nat, height: nat, numSlaves: nat, inbox: seq<Report>)
    requires 1 <= numSlaves <= width && width <= |inbox| && InRange(inbox[..width], width)
    ensures var (st, log) := MasterRun(width, height, numSlaves, inbox);
      && st.colored == width && st.cursor == width - 1
      && |log| == width + numSlaves
      && (forall j :: 0 <= j < |log| ==> log[j].work == ExpectedWork(width, j))
      && (forall s :: 0 <= s < numSlaves ==> log[s].slave == s + 1)
      && (forall j :: numSlaves <= j < |log| ==> log[j].slave == inbox[j - numSlaves].slave)
  {
    var reps := inbox[..width];
    LoopClosedForm(width, height, numSlaves, reps);
    var ds := Loop(width, Start(width, height, numSlaves), reps).1;
    var log := InitialDispatches(numSlaves) + ds;
    assert MasterRun(width, height, numSlaves, inbox).1 == log;
    forall j | 0 <= j < |log|
      ensures log[j].work == ExpectedWork(width, j)
      ensures j < numSlaves ==> log[j].slave == j + 1
      ensures numSlaves <= j ==> log[j].slave == inbox[j - numSlaves].slave
    {
      if j < numSlaves {
        assert log[j] == InitialDispatches(numSlaves)[j];
      } else {
        assert log[j] == ds[j - numSlaves] && reps[j - numSlaves] == inbox[j - numSlaves];
      }
    }
  }

  /** The cursor never passes W - 1, and the rows handed out with `tag_send`
      strictly increase along the log. */
  lemma SendRowsIncrease(width: nat, height: nat, numSlaves: nat, inbox: seq<Report>)
    requires 1 <= numSlaves <= width && width <= |inbox| && InRange(inbox[..width], width)
    ensures MasterRun(width, height, numSlaves, inbox).0.cursor <= width - 1
    ensures var log := MasterRun(width, height, numSlaves, inbox).1;
      forall j1, j2 :: 0 <= j1 < j2 < |log| && log[j1].work.tag == Send && log[j2].work.tag == Send ==>
        0 <= log[j1].work.rowId < log[j2].work.rowId <= width - 1
  {
    MasterRunLog(width, height, numSlaves, inbox);
  }

  /** Every row in [0, W) is handed out with `tag_send` exactly once: at
      position r of the log, and nowhere else. */
  lemma EveryRowSentOnce(width: nat, height: nat, numSlaves: nat, inbox: seq<Report>, r: int)
    requires 1 <= numSlaves <= width && width <= |inbox| && InRange(inbox[..width], width)
    requires 0 <= r < width
    ensures var log := MasterRun(width, height, numSlaves, inbox).1;
      r < |log| && log[r].work == Assignment(r, Send) &&
      forall j :: 0 <= j < |log| && log[j].work == Assignment(r, Send) ==> j == r
  {
    MasterRunLog(width, height, numSlaves, inbox);
  }

  /** Once a `tag_end` message is sent, every later one is `tag_end` with
      index W - 1. */
  lemma EndIsFinal(width: nat, height: nat, numSlaves: nat, inbox: seq<Report>)
    requires 1 <= numSlaves <= width && width <= |inbox| && InRange(inbox[..width], width)
    ensures var log := MasterRun(width, height, numSlaves, inbox).1;
      forall j1, j2 :: 0 <= j1 <= j2 < |log| && log[j1].work.tag == End ==>
        log[j2].work == Assignment(width - 1, End)
  {
    MasterRunLog(width, height, numSlaves, inbox);
  }

  /** How many dispatches of `log` carry `tag`. */
  function CountTag(log: seq<Dispatch>, tag: Tag): nat
  {
    if log == [] then 0
    else CountTag(log[..|log| - 1], tag) + (if log[|log| - 1].work.tag == tag then 1 else 0)
  }

  /** Counting a log whose first `w` entries are one tag and the rest the other. */
  lemma {:induction false} CountSplitLog(log: seq<Dispatch>, w: nat)
    requires w <= |log|
    requires forall j :: 0 <= j < |log| ==> (log[j].work.tag == Send <==> j < w)
    ensures CountTag(log, Send) == w && CountTag(log, End) == |log| - w
  {
    if log != [] {
      var init := log[..|log| - 1];
      if |log| - 1 < w {
        CountSplitLog(init, |log| - 1);
      } else {
        CountSplitLog(init, w);
      }
    }
  }

  /** Exactly W messages carry `tag_send` and exactly `num_slaves` carry `tag_end`. */
  lemma MessageCounts(width: nat, height: nat, numSlaves: nat, inbox: seq<Report>)
    requires 1 <= numSlaves <= width && width <= |inbox| && InRange(inbox[..width], width)
    ensures var log := MasterRun(width, height, numSlaves, inbox).1;
      CountTag(log, Send) == width && CountTag(log, End) == numSlaves
  {
    MasterRunLog(width, height, numSlaves, inbox);
    CountSplitLog(MasterRun(width, height, numSlaves, inbox).1, width);
  }

  /** The loop over one more result is one more Step. */
  lemma LoopSnoc(width: int, st: MasterState, inbox: seq<Report>, n: nat, m: nat)
    requires n < m <= |inbox| && InRange(inbox[..m], |st.img|)
    ensures InRange(inbox[..n], |st.img|) && InRange(inbox[..n + 1], |st.img|)
    ensures 0 <= inbox[n].rowId < |st.img|
    ensures var mid := Loop(width, st, inbox[..n]);
      var sd := Step(width, mid.0, inbox[n]);
      Loop(width, st, inbox[..n + 1]) == (sd.0, mid.1 + [sd.1])
  {
    assert inbox[..n + 1][..n] == inbox[..n];
    assert inbox[..n + 1][n] == inbox[..m][n] == inbox[n];
  }

  /** `master`: the initial phase, then one receive and one dispatch per
      result until W rows are coloured. Returns the image and every dispatch. */
  method Master(width: nat, height: nat, numSlaves: nat, inbox: seq<Report>)
      returns (img: array<seq<Shade>>, log: seq<Dispatch>)
    requires 1 <= numSlaves <= width
    requires width <= |inbox| && InRange(inbox[..width], width)
    ensures fresh(img)
    ensures img[..] == MasterRun(width, height, numSlaves, inbox).0.img
    ensures log == MasterRun(width, height, numSlaves, inbox).1
  {
    img := new seq<Shade>[width](_ => Blank(height));
    log := [];
    var i := 0;
    while i < numSlaves
      invariant 0 <= i <= numSlaves
      invariant log == InitialDispatches(i)
    {
      log := log + [Dispatch(i + 1, Assignment(i, Send))];
      i := i + 1;
    }
    i := i - 1;
    var coloredRows := 0;
    ghost var start := Start(width, height, numSlaves);
    assert img[..] == start.img;
    while coloredRows < width
      invariant 0 <= coloredRows <= width
      invariant InRange(inbox[..coloredRows], width)
      invariant Loop(width, start, inbox[..coloredRows]).0 == MasterState(i, coloredRows, img[..])
      invariant log == InitialDispatches(numSlaves) + Loop(width, start, inbox[..coloredRows]).1
    {
      var rep := inbox[coloredRows];
      LoopSnoc(width, start, inbox, coloredRows, width);
      ghost var mid := Loop(width, start, inbox[..coloredRows]);
      ghost var sd := Step(width, mid.0, rep);
      assert InitialDispatches(numSlaves) + (mid.1 + [sd.1]) == (InitialDispatches(numSlaves) + mid.1) + [sd.1];
      img[rep.rowId] := rep.row;
      coloredRows := coloredRows + 1;
      var tag;
      if i < width - 1 {
        tag := Send;
        i := i + 1;
      } else {
        tag := End;
      }
      log := log + [Dispatch(rep.slave, Assignment(i, tag))];
    }
  }

  /** Index of the first `tag_end` message, or |inbox| if there is none. */
  function FirstEnd(inbox: seq<Assignment>): (e: nat)
    ensures e <= |inbox|
    ensures forall k :: 0 <= k < e ==> inbox[k].tag == Send
    ensures e < |inbox| ==> inbox[e].tag == End
  {
    if inbox == [] || inbox[0].tag == End then 0
    else
      var rest := FirstEnd(inbox[1..]);
      assert forall k :: 0 <= k < 1 + rest ==> inbox[k].tag == Send by {
        forall k | 0 <= k < 1 + rest
          ensures inbox[k].tag == Send
        {
          if k > 0 {
            assert inbox[k] == inbox[1..][k - 1];
          }
        }
      }
      1 + rest
  }

  /** `slave`: receive assignments until one is tagged `tag_end`, answering each
      earlier one with its own row index and the colours of that row. The
      master eventually stops every slave, so a `tag_end` message arrives. */
  method Slave(id: int, orbit: Orbit, height: nat, mode: Coloring, inbox: seq<Assignment>)
      returns (outbox: seq<Report>)
    requires FirstEnd(inbox) < |inbox|
    ensures |outbox| == FirstEnd(inbox)
    ensures forall k :: 0 <= k < |outbox| ==>
      outbox[k] == Report(id, inbox[k].rowId, RowColors(orbit, inbox[k].rowId, height, mode))
  {
    var row := new Shade[height](_ => Zero);
    var received := 1;
    var current := inbox[0];
    outbox := [];
    while current.tag != End
      invariant 1 <= received <= FirstEnd(inbox) + 1
      invariant current == inbox[received - 1]
      invariant |outbox| == received - 1
      invariant forall k :: 0 <= k < |outbox| ==>
        outbox[k] == Report(id, inbox[k].rowId, RowColors(orbit, inbox[k].rowId, height, mode))
      decreases |inbox| - received
    {
      CalculateColors(orbit, row, current.rowId, height, mode);
      outbox := outbox + [Report(id, current.rowId, row[..])];
      current := inbox[received];
      received := received + 1;
    }
  }
}
