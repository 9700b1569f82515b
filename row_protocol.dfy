/**
 * The master of Mandelbrot/mandelbrot.cpp together with its slaves, as one
 * closed system.
 *
 * Between two messages from the master a slave is either holding a computed
 * row, blocked in its send until the master accepts it, or stopped. The
 * master receives from whichever holding slave the transport delivers first
 * (`MPI_ANY_SOURCE`); that choice is the only nondeterminism, so a run is a
 * schedule: the sequence of slave ids whose results the master receives.
 *
 * For every schedule the master can follow, the run cannot get stuck before
 * W rows are coloured, and once it has coloured W rows every row of the image
 * holds exactly the colours computed for that row, every row was received
 * exactly once and every slave was stopped by exactly one `tag_end` message.
 */
module RowProtocol {
  import opened EscapeTime
  import opened RowScheduler
  import opened Optional

  /** The plane, as far as the protocol needs it, and the topology of a run. */
  datatype Config = Config(width: nat, height: nat, numSlaves: nat, orbit: Orbit, mode: Coloring)

  /** W >= num_slaves: the initial phase indexes `img[i]` for every slave. */
  predicate ValidConfig(cfg: Config)
  {
    1 <= cfg.numSlaves <= cfg.width
  }

  /** A slave between two messages from the master. */
  datatype SlaveState = Holding(rowId: int) | Stopped

  /** The slaves (slave s + 1 at index s) and the results received so far, in order. */
  datatype System = System(slaves: seq<SlaveState>, reports: seq<Report>)

  /** The colours of row `r`, as every slave computes them. */
  function RowOf(cfg: Config, r: int): seq<Shade>
  {
    RowColors(cfg.orbit, r, cfg.height, cfg.mode)
  }

  /** The image a sequential evaluation of every row gives. */
  function SequentialImage(cfg: Config): seq<seq<Shade>>
  {
    seq(cfg.width, r => RowOf(cfg, r))
  }

  /** After the initial phase every slave holds the row it was sent. */
  function Init(cfg: Config): (sys: System)
    ensures sys.reports == [] && |sys.slaves| == cfg.numSlaves
    ensures forall s :: 0 <= s < cfg.numSlaves ==>
      sys.slaves[s] == AfterDispatch(InitialDispatches(cfg.numSlaves)[s].work)
  {
    System(seq(cfg.numSlaves, s => Holding(s)), [])
  }

  /** The master's state and its dispatches, given the results received. */
  function MasterView(cfg: Config, sys: System): (MasterState, seq<Dispatch>)
    requires InRange(sys.reports, cfg.width)
  {
    var (st, ds) := Loop(cfg.width, Start(cfg.width, cfg.height, cfg.numSlaves), sys.reports);
    (st, InitialDispatches(cfg.numSlaves) + ds)
  }

  /** What a slave does with the master's answer. */
  function AfterDispatch(a: Assignment): SlaveState
  {
    if a.tag == End then Stopped else Holding(a.rowId)
  }

  /** The master is still in its loop and slave `s` has a result ready. */
  predicate CanReport(cfg: Config, sys: System, s: int)
  {
    && InRange(sys.reports, cfg.width)
    && MasterView(cfg, sys).0.colored < cfg.width
    && 1 <= s <= |sys.slaves|
    && sys.slaves[s - 1].Holding?
    && 0 <= sys.slaves[s - 1].rowId < cfg.width
  }

  /** The master receives the result of slave `s` and answers it. */
  function Next(cfg: Config, sys: System, s: int): (next: System)
    requires CanReport(cfg, sys, s)
    ensures var r := sys.slaves[s - 1].rowId;
      next.reports == sys.reports + [Report(s, r, RowOf(cfg, r))]
    ensures |next.slaves| == |sys.slaves|
    ensures forall t :: 0 <= t < |sys.slaves| && t != s - 1 ==> next.slaves[t] == sys.slaves[t]
    ensures var cursor := MasterView(cfg, sys).0.cursor;
      next.slaves[s - 1] == if cursor < cfg.width - 1 then Holding(cursor + 1) else Stopped
  {
    var r := sys.slaves[s - 1].rowId;
    var rep := Report(s, r, RowOf(cfg, r));
    var d := Step(cfg.width, MasterView(cfg, sys).0, rep).1;
    System(sys.slaves[s - 1 := AfterDispatch(d.work)], sys.reports + [rep])
  }

  /** The system after following `sched`, or None if some step of it cannot happen. */
  function Run(cfg: Config, sched: seq<int>): (res: Option<System>)
    ensures res.Some? ==> |res.value.slaves| == cfg.numSlaves && |res.value.reports| == |sched|
    ensures res.Some? ==> forall k :: 0 <= k < |sched| ==> res.value.reports[k].slave == sched[k]
  {
    if sched == [] then Some(Init(cfg))
    else
      var pre, s := sched[..|sched| - 1], sched[|sched| - 1];
      match Run(cfg, pre)
      case None => None
      case Some(sys) =>
        if CanReport(cfg, sys, s) then
          Some(Next(cfg, sys, s))
        else None
  }

  // ---------------------------------------------------------------------
  // Counting helpers
  // ---------------------------------------------------------------------

  /** How many slaves hold a result. */
  function NumHolding(slaves: seq<SlaveState>): nat
  {
    if slaves == [] then 0
    else NumHolding(slaves[..|slaves| - 1]) + (if slaves[|slaves| - 1].Holding? then 1 else 0)
  }

  lemma {:induction false} NumHoldingUpdate(slaves: seq<SlaveState>, i: int, v: SlaveState)
    requires 0 <= i < |slaves|
    ensures NumHolding(slaves[i := v]) + (if slaves[i].Holding? then 1 else 0)
         == NumHolding(slaves) + (if v.Holding? then 1 else 0)
  {
    var n := |slaves|;
    if i < n - 1 {
      assert slaves[i := v][..n - 1] == slaves[..n - 1][i := v];
      NumHoldingUpdate(slaves[..n - 1], i, v);
    } else {
      assert slaves[i := v][..n - 1] == slaves[..n - 1];
    }
  }

  lemma {:induction false} NumHoldingPositive(slaves: seq<SlaveState>)
    requires NumHolding(slaves) > 0
    ensures exists s :: 0 <= s < |slaves| && slaves[s].Holding?
  {
    var n := |slaves|;
    if !slaves[n - 1].Holding? {
      NumHoldingPositive(slaves[..n - 1]);
      var s :| 0 <= s < n - 1 && slaves[..n - 1][s].Holding?;
      assert slaves[s].Holding?;
    }
  }

  lemma {:induction false} NumHoldingZero(slaves: seq<SlaveState>)
    requires NumHolding(slaves) == 0
    ensures forall s :: 0 <= s < |slaves| ==> slaves[s].Stopped?
  {
    if slaves != [] {
      var n := |slaves|;
      NumHoldingZero(slaves[..n - 1]);
      assert forall s :: 0 <= s < n - 1 ==> slaves[s] == slaves[..n - 1][s];
    }
  }

  lemma {:induction false} NumHoldingAll(k: nat)
    ensures NumHolding(seq(k, s => Holding(s))) == k
  {
    if k > 0 {
      assert seq(k, s => Holding(s))[..k - 1] == seq(k - 1, s => Holding(s));
      NumHoldingAll(k - 1);
    }
  }

  /** How many `tag_end` messages slave `s` received. */
  function EndsTo(log: seq<Dispatch>, s: int): nat
  {
    if log == [] then 0
    else EndsTo(log[..|log| - 1], s) + (if log[|log| - 1].slave == s && log[|log| - 1].work.tag == End then 1 else 0)
  }

  lemma {:induction false} EndsToInitial(k: nat, s: int)
    ensures EndsTo(InitialDispatches(k), s) == 0
  {
    if k > 0 {
      assert InitialDispatches(k)[..k - 1] == InitialDispatches(k - 1);
      EndsToInitial(k - 1, s);
    }
  }

  /** The rows the master has received. */
  function Received(reports: seq<Report>): set<int>
  {
    set j | 0 <= j < |reports| :: reports[j].rowId
  }

  lemma ReceivedSnoc(reports: seq<Report>, rep: Report)
    ensures Received(reports + [rep]) == Received(reports) + {rep.rowId}
  {
    assert forall j :: 0 <= j < |reports| ==> (reports + [rep])[j] == reports[j];
    assert (reports + [rep])[|reports|] == rep;
  }

  /** The rows the slaves hold. */
  function Held(slaves: seq<SlaveState>): set<int>
  {
    set s | 0 <= s < |slaves| && slaves[s].Holding? :: slaves[s].rowId
  }

  // ---------------------------------------------------------------------
  // The invariant of reachable states, part by part
  // ---------------------------------------------------------------------

  /** The master's row cursor after `received` results. */
  function Cursor(cfg: Config, received: nat): int
  {
    if cfg.numSlaves - 1 + received < cfg.width - 1 then cfg.numSlaves - 1 + received else cfg.width - 1
  }

  predicate Shape(cfg: Config, sys: System)
  {
    ValidConfig(cfg) && |sys.slaves| == cfg.numSlaves && |sys.reports| <= cfg.width && InRange(sys.reports, cfg.width)
  }

  predicate Counts(cfg: Config, sys: System, st: MasterState)
  {
    st.colored == |sys.reports| && st.cursor == Cursor(cfg, |sys.reports|) && |st.img| == cfg.width
  }

  /** Every result came from a slave, carries the colours of a row handed out,
      and the image holds them at that row. */
  predicate ReportsOk(cfg: Config, sys: System, st: MasterState)
  {
    forall j :: 0 <= j < |sys.reports| ==>
      && 1 <= sys.reports[j].slave <= cfg.numSlaves
      && 0 <= sys.reports[j].rowId <= st.cursor
      && sys.reports[j].row == RowOf(cfg, sys.reports[j].rowId)
      && sys.reports[j].rowId < |st.img|
      && st.img[sys.reports[j].rowId] == RowOf(cfg, sys.reports[j].rowId)
  }

  /** No row was received twice. */
  predicate Distinct(reports: seq<Report>)
  {
    forall j1, j2 :: 0 <= j1 < j2 < |reports| ==> reports[j1].rowId != reports[j2].rowId
  }

  /** A held row was handed out and has not been received. */
  predicate HeldOk(sys: System, st: MasterState)
  {
    forall s :: 0 <= s < |sys.slaves| && sys.slaves[s].Holding? ==>
      0 <= sys.slaves[s].rowId <= st.cursor && sys.slaves[s].rowId !in Received(sys.reports)
  }

  /** No two slaves hold the same row. */
  predicate HeldDistinct(slaves: seq<SlaveState>)
  {
    forall s1, s2 :: 0 <= s1 < s2 < |slaves| && slaves[s1].Holding? && slaves[s2].Holding? ==>
      slaves[s1].rowId != slaves[s2].rowId
  }

  /** Every row handed out is received or held. */
  predicate Covered(sys: System, st: MasterState)
  {
    forall r :: 0 <= r <= st.cursor ==> r in Received(sys.reports) || r in Held(sys.slaves)
  }

  /** A slave is stopped exactly when it received one `tag_end` message. */
  predicate EndsOk(slaves: seq<SlaveState>, log: seq<Dispatch>)
  {
    forall s :: 1 <= s <= |slaves| ==> EndsTo(log, s) == if slaves[s - 1].Stopped? then 1 else 0
  }

  predicate Inv(cfg: Config, sys: System)
  {
    && Shape(cfg, sys)
    && var v := MasterView(cfg, sys);
    && Counts(cfg, sys, v.0)
    && ReportsOk(cfg, sys, v.0)
    && Distinct(sys.reports)
    && HeldOk(sys, v.0)
    && HeldDistinct(sys.slaves)
    && Covered(sys, v.0)
    && NumHolding(sys.slaves) == v.0.cursor + 1 - v.0.colored
    && EndsOk(sys.slaves, v.1)
  }

  lemma InitInv(cfg: Config)
    requires ValidConfig(cfg)
    ensures Inv(cfg, Init(cfg))
  {
    var sys := Init(cfg);
    var k := cfg.numSlaves;
    NumHoldingAll(k);
    assert MasterView(cfg, sys).1 == InitialDispatches(k);
    forall s | 1 <= s <= k
      ensures EndsTo(MasterView(cfg, sys).1, s) == 0
    {
      EndsToInitial(k, s);
    }
    forall r | 0 <= r <= k - 1
      ensures r in Held(sys.slaves)
    {
      assert sys.slaves[r] == Holding(r);
    }
  }

  /** The master's view after one more result is one more `Step`. */
  lemma NextView(cfg: Config, sys: System, s: int)
    requires CanReport(cfg, sys, s)
    ensures var r := sys.slaves[s - 1].rowId;
      var v := MasterView(cfg, sys);
      var sd := Step(cfg.width, v.0, Report(s, r, RowOf(cfg, r)));
      && Next(cfg, sys, s).slaves == sys.slaves[s - 1 := AfterDispatch(sd.1.work)]
      && Next(cfg, sys, s).reports == sys.reports + [Report(s, r, RowOf(cfg, r))]
      && InRange(Next(cfg, sys, s).reports, cfg.width)
      && MasterView(cfg, Next(cfg, sys, s)) == (sd.0, v.1 + [sd.1])
  {
    var next := Next(cfg, sys, s);
    assert next.reports[..|next.reports| - 1] == sys.reports;
    var k := cfg.numSlaves;
    var inner := Loop(cfg.width, Start(cfg.width, cfg.height, k), sys.reports);
    var r := sys.slaves[s - 1].rowId;
    var sd := Step(cfg.width, inner.0, Report(s, r, RowOf(cfg, r)));
    assert InitialDispatches(k) + (inner.1 + [sd.1]) == (InitialDispatches(k) + inner.1) + [sd.1];
  }

  lemma NextCounts(cfg: Config, sys: System, s: int)
    requires Inv(cfg, sys) && CanReport(cfg, sys, s)
    ensures Shape(cfg, Next(cfg, sys, s))
    ensures Counts(cfg, Next(cfg, sys, s), MasterView(cfg, Next(cfg, sys, s)).0)
    ensures var v := MasterView(cfg, Next(cfg, sys, s));
      NumHolding(Next(cfg, sys, s).slaves) == v.0.cursor + 1 - v.0.colored
  {
    NextView(cfg, sys, s);
    var r := sys.slaves[s - 1].rowId;
    var st := MasterView(cfg, sys).0;
    var d := Step(cfg.width, st, Report(s, r, RowOf(cfg, r))).1;
    NumHoldingUpdate(sys.slaves, s - 1, AfterDispatch(d.work));
  }

  lemma NextReports(cfg: Config, sys: System, s: int)
    requires Inv(cfg, sys) && CanReport(cfg, sys, s)
    ensures ReportsOk(cfg, Next(cfg, sys, s), MasterView(cfg, Next(cfg, sys, s)).0)
    ensures Distinct(Next(cfg, sys, s).reports)
  {
    NextView(cfg, sys, s);
    var r := sys.slaves[s - 1].rowId;
    assert r !in Received(sys.reports);
    var next := Next(cfg, sys, s);
    var st := MasterView(cfg, sys).0;
    var st' := MasterView(cfg, next).0;
    forall j | 0 <= j < |next.reports|
      ensures st'.img[next.reports[j].rowId] == RowOf(cfg, next.reports[j].rowId)
    {
      if j < |sys.reports| {
        assert next.reports[j] == sys.reports[j];
        assert sys.reports[j].rowId in Received(sys.reports);
      }
    }
    forall j1, j2 | 0 <= j1 < j2 < |next.reports|
      ensures next.reports[j1].rowId != next.reports[j2].rowId
    {
      if j2 == |sys.reports| {
        assert sys.reports[j1].rowId in Received(sys.reports);
      }
    }
  }

  lemma NextHeld(cfg: Config, sys: System, s: int)
    requires Inv(cfg, sys) && CanReport(cfg, sys, s)
    ensures HeldOk(Next(cfg, sys, s), MasterView(cfg, Next(cfg, sys, s)).0)
  {
    NextView(cfg, sys, s);
    var r := sys.slaves[s - 1].rowId;
    var next := Next(cfg, sys, s);
    var st := MasterView(cfg, sys).0;
    ReceivedSnoc(sys.reports, Report(s, r, RowOf(cfg, r)));
    // nothing received so far lies past the cursor
    assert forall q :: q in Received(sys.reports) ==> q <= st.cursor;
    forall t | 0 <= t < |next.slaves| && next.slaves[t].Holding?
      ensures next.slaves[t].rowId !in Received(next.reports)
    {
      if t != s - 1 {
        assert next.slaves[t] == sys.slaves[t];
      }
    }
  }

  lemma NextHeldDistinct(cfg: Config, sys: System, s: int)
    requires Inv(cfg, sys) && CanReport(cfg, sys, s)
    ensures HeldDistinct(Next(cfg, sys, s).slaves)
  {
    NextView(cfg, sys, s);
    var next := Next(cfg, sys, s);
    var st := MasterView(cfg, sys).0;
    // the only new row handed out lies past every row held before
    forall t | 0 <= t < |next.slaves| && t != s - 1 && next.slaves[t].Holding?
      ensures next.slaves[t] == sys.slaves[t] && next.slaves[t].rowId <= st.cursor
    {
    }
  }

  lemma NextCovered(cfg: Config, sys: System, s: int)
    requires Inv(cfg, sys) && CanReport(cfg, sys, s)
    ensures Covered(Next(cfg, sys, s), MasterView(cfg, Next(cfg, sys, s)).0)
  {
    NextView(cfg, sys, s);
    var r := sys.slaves[s - 1].rowId;
    var next := Next(cfg, sys, s);
    var st := MasterView(cfg, sys).0;
    var st' := MasterView(cfg, next).0;
    ReceivedSnoc(sys.reports, Report(s, r, RowOf(cfg, r)));
    forall q | 0 <= q <= st'.cursor
      ensures q in Received(next.reports) || q in Held(next.slaves)
    {
      if q > st.cursor {
        assert next.slaves[s - 1] == Holding(q);
      } else if q !in Received(sys.reports) && q != r {
        var t :| 0 <= t < |sys.slaves| && sys.slaves[t].Holding? && sys.slaves[t].rowId == q;
        assert next.slaves[t] == sys.slaves[t];
      }
    }
  }

  lemma NextEnds(cfg: Config, sys: System, s: int)
    requires Inv(cfg, sys) && CanReport(cfg, sys, s)
    ensures EndsOk(Next(cfg, sys, s).slaves, MasterView(cfg, Next(cfg, sys, s)).1)
  {
    NextView(cfg, sys, s);
    var next := Next(cfg, sys, s);
    var log := MasterView(cfg, sys).1;
    var log' := MasterView(cfg, next).1;
    assert log'[..|log'| - 1] == log;
    forall t | 1 <= t <= |next.slaves|
      ensures EndsTo(log', t) == if next.slaves[t - 1].Stopped? then 1 else 0
    {
      if t != s {
        assert next.slaves[t - 1] == sys.slaves[t - 1];
      }
    }
  }

  lemma NextInv(cfg: Config, sys: System, s: int)
    requires Inv(cfg, sys) && CanReport(cfg, sys, s)
    ensures Inv(cfg, Next(cfg, sys, s))
  {
    NextCounts(cfg, sys, s);
    NextReports(cfg, sys, s);
    NextHeld(cfg, sys, s);
    NextHeldDistinct(cfg, sys, s);
    NextCovered(cfg, sys, s);
    NextEnds(cfg, sys, s);
  }

  lemma {:induction false} RunInv(cfg: Config, sched: seq<int>)
    requires ValidConfig(cfg) && Run(cfg, sched).Some?
    ensures Inv(cfg, Run(cfg, sched).value)
    ensures |Run(cfg, sched).value.reports| == |sched|
  {
    if sched == [] {
      InitInv(cfg);
    } else {
      RunInv(cfg, sched[..|sched| - 1]);
      NextInv(cfg, Run(cfg, sched[..|sched| - 1]).value, sched[|sched| - 1]);
    }
  }

  // ---------------------------------------------------------------------
  // The run's guarantees
  // ---------------------------------------------------------------------

  /** No deadlock: while fewer than W rows are coloured, some slave holds a
      result the master can receive. */
  lemma Progress(cfg: Config, sched: seq<int>)
    requires ValidConfig(cfg) && Run(cfg, sched).Some? && |sched| < cfg.width
    ensures exists s :: CanReport(cfg, Run(cfg, sched).value, s)
  {
    var sys := Run(cfg, sched).value;
    RunInv(cfg, sched);
    NumHoldingPositive(sys.slaves);
    var t :| 0 <= t < |sys.slaves| && sys.slaves[t].Holding?;
    assert CanReport(cfg, sys, t + 1);
  }

  /** After W results, whatever the order of arrival: the master's loop stops,
      the image equals the row-by-row sequential evaluation, every row was
      received exactly once, and every slave is stopped, having received
      exactly one `tag_end` message. */
  lemma Completion(cfg: Config, sched: seq<int>)
    requires ValidConfig(cfg) && Run(cfg, sched).Some? && |sched| == cfg.width
    ensures var sys := Run(cfg, sched).value;
      var v := MasterView(cfg, sys);
      && v.0.colored == cfg.width
      && (forall s :: !CanReport(cfg, sys, s))
      && v.0.img == SequentialImage(cfg)
      && (forall r :: 0 <= r < cfg.width <==> r in Received(sys.reports))
      && Distinct(sys.reports)
      && |sys.slaves| == cfg.numSlaves
      && (forall s :: 1 <= s <= cfg.numSlaves ==> sys.slaves[s - 1].Stopped? && EndsTo(v.1, s) == 1)
  {
    var sys := Run(cfg, sched).value;
    RunInv(cfg, sched);
    var st := MasterView(cfg, sys).0;
    NumHoldingZero(sys.slaves);
    assert Held(sys.slaves) == {};
    forall r | 0 <= r < cfg.width
      ensures st.img[r] == RowOf(cfg, r)
    {
      assert r in Received(sys.reports);
      var j :| 0 <= j < |sys.reports| && sys.reports[j].rowId == r;
    }
  }
}
