/**
 * The dining philosophers of P3/filosofos.cpp: ten processes, the even ranks
 * philosophers and the odd ranks forks. Philosopher `id` uses the forks on
 * either side of it, `(id + 1) % 10` (left) and `(id + 9) % 10` (right).
 * Philosopher 0 requests its right fork first and every other philosopher its
 * left fork first; that asymmetry is the source's argument against deadlock.
 *
 * A fork process serves one philosopher at a time: it accepts a request from
 * anyone, then only the release from the philosopher that holds it.
 */
module Philosophers {
  import opened Optional

  const NumFilosofos := 5
  const NumProcesos := 2 * NumFilosofos

  datatype Role = Filosofo | Tenedor

  /** `main`: even ranks run a philosopher, odd ranks a fork. */
  function RoleOf(id: int): (r: Role)
    ensures r == Tenedor <==> id % 2 == 1
  {
    if id % 2 == 0 then Filosofo else Tenedor
  }

  predicate IsPhilosopher(id: int)
  {
    0 <= id < NumProcesos && RoleOf(id) == Filosofo
  }

  predicate IsFork(f: int)
  {
    0 <= f < NumProcesos && RoleOf(f) == Tenedor
  }

  /** The ten ranks split into five philosophers and five forks, alternating. */
  lemma RolesAlternate()
    ensures (set id | 0 <= id < NumProcesos && IsPhilosopher(id)) == {0, 2, 4, 6, 8}
    ensures (set f | 0 <= f < NumProcesos && IsFork(f)) == {1, 3, 5, 7, 9}
  {
    assert forall id :: 0 <= id < NumProcesos ==> (IsPhilosopher(id) <==> id in {0, 2, 4, 6, 8});
    assert forall f :: 0 <= f < NumProcesos ==> (IsFork(f) <==> f in {1, 3, 5, 7, 9});
  }

  /** `id_ten_izq`. */
  function LeftFork(id: int): (f: int)
    ensures 0 <= f < NumProcesos
    ensures 0 <= id < NumProcesos ==> f == if id == NumProcesos - 1 then 0 else id + 1
  {
    (id + 1) % NumProcesos
  }

  /** `id_ten_der`. */
  function RightFork(id: int): (f: int)
    ensures 0 <= f < NumProcesos
    ensures 0 <= id < NumProcesos ==> f == if id == 0 then NumProcesos - 1 else id - 1
    ensures LeftFork(f) == id % NumProcesos
  {
    (id + NumProcesos - 1) % NumProcesos
  }

  /** A philosopher's two forks are two different fork processes, the ranks
      next to its own. */
  lemma ForksOfPhilosopher(id: int)
    requires IsPhilosopher(id)
    ensures IsFork(LeftFork(id)) && IsFork(RightFork(id)) && LeftFork(id) != RightFork(id)
    ensures LeftFork(id) == id + 1
    ensures RightFork(id) == if id == 0 then NumProcesos - 1 else id - 1
  {
  }

  /** Neighbouring philosophers share exactly one fork: the left fork of `id`
      is the right fork of the next philosopher, and their other forks differ. */
  lemma NeighboursShareOneFork(id: int)
    requires IsPhilosopher(id)
    ensures var next := (id + 2) % NumProcesos;
      && IsPhilosopher(next)
      && LeftFork(id) == RightFork(next)
      && RightFork(id) != LeftFork(next)
      && RightFork(id) != RightFork(next)
      && LeftFork(id) != LeftFork(next)
  {
  }

  /** Every fork is used by exactly two philosophers: the ranks on either side of it. */
  lemma EachForkHasTwoUsers(f: int, id: int)
    requires IsFork(f) && IsPhilosopher(id)
    ensures (LeftFork(id) == f || RightFork(id) == f) <==> (id == f - 1 || id == (f + 1) % NumProcesos)
  {
  }

  // ---------------------------------------------------------------------
  // A philosopher's messages
  // ---------------------------------------------------------------------

  /** The fork ranks one turn of `funcion_filosofos` sends to, in order: the two
      requests, then the two releases, left before right. */
  function RoundSends(id: int): (sends: seq<int>)
    ensures |sends| == 4 && sends[2..] == [LeftFork(id), RightFork(id)]
  {
    if id == 0 then [RightFork(id), LeftFork(id), LeftFork(id), RightFork(id)]
    else [LeftFork(id), RightFork(id), LeftFork(id), RightFork(id)]
  }

  /** The fork a philosopher requests first, and the one it requests second. */
  function FirstFork(id: int): (f: int)
    ensures f == LeftFork(id) || f == RightFork(id)
    ensures f == RightFork(id) <==> id == 0
  {
    if id == 0 then RightFork(id) else LeftFork(id)
  }

  /** The fork a philosopher requests second: the other one of its two. */
  function SecondFork(id: int): (f: int)
    ensures {FirstFork(id), f} == {LeftFork(id), RightFork(id)}
  {
    if id == 0 then LeftFork(id) else RightFork(id)
  }

  /** Philosopher 0 requests right then left, the others left then right, and
      every philosopher releases left then right. */
  lemma RoundOrder(id: int)
    requires IsPhilosopher(id)
    ensures |RoundSends(id)| == 4
    ensures RoundSends(id)[..2] == [FirstFork(id), SecondFork(id)]
    ensures RoundSends(id)[2..] == [LeftFork(id), RightFork(id)]
    ensures id == 0 <==> FirstFork(id) == RightFork(id)
  {
    ForksOfPhilosopher(id);
  }

  /** In one turn the philosopher requests each of its two forks once and
      releases each once; no other fork hears from it. */
  lemma RoundPerFork(id: int)
    requires IsPhilosopher(id)
    ensures multiset(RoundSends(id)[..2]) == multiset(RoundSends(id)[2..]) == multiset{LeftFork(id), RightFork(id)}
    ensures multiset(RoundSends(id)) == multiset{LeftFork(id), LeftFork(id), RightFork(id), RightFork(id)}
  {
    TurnCounts(RoundSends(id), LeftFork(id), RightFork(id));
  }

  /** The counting behind RoundPerFork, for any two forks. */
  lemma TurnCounts(s: seq<int>, l: int, r: int)
    requires s == [l, r, l, r] || s == [r, l, l, r]
    ensures multiset(s[..2]) == multiset(s[2..]) == multiset{l, r}
    ensures multiset(s) == multiset{l, l, r, r}
  {
    assert s[2..] == [l, r];
    if s == [l, r, l, r] {
      assert s[..2] == [l, r];
    } else {
      assert s[..2] == [r, l];
    }
  }

  /** The sends of `n` turns of the philosopher's loop. */
  function RoundsSends(id: int, n: nat): (r: seq<int>)
    ensures |r| == 4 * n
  {
    if n == 0 then [] else RoundsSends(id, n - 1) + RoundSends(id)
  }

  lemma {:induction false} RoundsSendsAt(id: int, n: nat, k: int)
    requires 0 <= k < 4 * n
    ensures RoundsSends(id, n)[k] == RoundSends(id)[k % 4]
  {
    if k < 4 * (n - 1) {
      RoundsSendsAt(id, n - 1, k);
    }
  }

  /** `funcion_filosofos`, `rounds` turns of its endless loop: the fork ranks it
      sends to, in order. */
  method FuncionFilosofos(id: int, rounds: nat) returns (sent: seq<int>)
    requires IsPhilosopher(id)
    ensures |sent| == 4 * rounds
    ensures forall k :: 0 <= k < |sent| ==> sent[k] == RoundSends(id)[k % 4]
  {
    var idTenIzq := (id + 1) % NumProcesos;
    var idTenDer := (id + NumProcesos - 1) % NumProcesos;
    sent := [];
    for r := 0 to rounds
      invariant sent == RoundsSends(id, r)
    {
      if id == 0 {
        sent := sent + [idTenDer];
        sent := sent + [idTenIzq];
      } else {
        sent := sent + [idTenIzq];
        sent := sent + [idTenDer];
      }
      sent := sent + [idTenIzq];
      sent := sent + [idTenDer];
    }
    forall k | 0 <= k < |sent|
      ensures sent[k] == RoundSends(id)[k % 4]
    {
      RoundsSendsAt(id, rounds, k);
    }
  }

  // ---------------------------------------------------------------------
  // A fork
  // ---------------------------------------------------------------------

  /** A fork between two of its receives: nobody has it, or philosopher p. */
  datatype ForkState = Free | HeldBy(philosopher: int)

  /** The fork receives a message from `source`: any philosopher may take a free
      fork, only its holder may release it; None when the message is not one
      the fork receives now. */
  function ForkStep(st: ForkState, source: int): (next: Option<ForkState>)
    ensures next.Some? <==> st.Free? || st.philosopher == source
    ensures next.Some? ==> (next.value.Free? <==> st.HeldBy?)
    ensures next.Some? && next.value.HeldBy? ==> next.value.philosopher == source
  {
    match st
    case Free => Some(HeldBy(source))
    case HeldBy(p) => if source == p then Some(Free) else None
  }

  /** The state after receiving from `sources` in order, starting free. */
  function ForkRun(sources: seq<int>): (st: Option<ForkState>)
    ensures st.Some? && st.value.HeldBy? ==> sources != [] && st.value.philosopher == sources[|sources| - 1]
  {
    if sources == [] then Some(Free)
    else match ForkRun(sources[..|sources| - 1])
      case None => None
      case Some(st) => ForkStep(st, sources[|sources| - 1])
  }

  /** Every release comes from the philosopher whose request came just before it. */
  predicate Alternates(sources: seq<int>)
  {
    forall k :: 1 <= k < |sources| && k % 2 == 1 ==> sources[k] == sources[k - 1]
  }

  /** A fork can receive the messages `sources` exactly when they alternate
      request and release by the same philosopher; it is then free after an
      even number of messages and held by the last sender after an odd number. */
  lemma {:induction false} ForkRunMeaning(sources: seq<int>)
    ensures ForkRun(sources).Some? <==> Alternates(sources)
    ensures ForkRun(sources).Some? ==>
      ForkRun(sources).value == if |sources| % 2 == 0 then Free else HeldBy(sources[|sources| - 1])
  {
    if sources != [] {
      var n := |sources|;
      var pre := sources[..n - 1];
      ForkRunMeaning(pre);
      assert forall k :: 0 <= k < n - 1 ==> pre[k] == sources[k];
      if !Alternates(pre) {
        var k :| 1 <= k < n - 1 && k % 2 == 1 && pre[k] != pre[k - 1];
        assert sources[k] != sources[k - 1];
      }
    }
  }

  /** `funcion_tenedores`, `rounds` turns of its endless loop over the sources
      of the messages it receives: the philosophers it was taken by, in order. */
  method FuncionTenedores(sources: seq<int>, rounds: nat) returns (holders: seq<int>)
    requires |sources| == 2 * rounds && Alternates(sources)
    ensures |holders| == rounds
    ensures forall r :: 0 <= r < rounds ==> holders[r] == sources[2 * r] == sources[2 * r + 1]
    ensures ForkRun(sources) == Some(Free)
  {
    holders := [];
    var i := 0;
    for r := 0 to rounds
      invariant i == 2 * r
      invariant |holders| == r
      invariant forall q :: 0 <= q < r ==> holders[q] == sources[2 * q]
    {
      var idFilosofo := sources[i];
      holders := holders + [idFilosofo];
      assert sources[i + 1] == idFilosofo;
      i := i + 2;
    }
    assert forall q :: 0 <= q < rounds ==> (2 * q + 1) % 2 == 1;
    ForkRunMeaning(sources);
  }

  // ---------------------------------------------------------------------
  // Deadlock
  // ---------------------------------------------------------------------

  /** Philosophers 0 and 8 both ask first for fork 9: the first-fork map is not
      injective, so the five philosophers cannot all hold their first fork at
      once, whichever philosopher each fork is held by. */
  lemma FirstForkNotInjective(holderOf: int -> int)
    ensures FirstFork(0) == FirstFork(8) == 9
    ensures exists id :: IsPhilosopher(id) && holderOf(FirstFork(id)) != id
  {
    if holderOf(9) != 0 {
      assert IsPhilosopher(0) && holderOf(FirstFork(0)) != 0;
    } else {
      assert IsPhilosopher(8) && holderOf(FirstFork(8)) != 8;
    }
  }

  /** Where philosopher i (rank 2 * i) is in its turn: waiting for its first
      fork, holding it and waiting for the second, or holding both. */
  datatype Stage = WaitingFirst | HasFirst | Eating

  /** Under the request order `first`/`second`, fork `f` is held by philosopher i. */
  predicate Holds(first: int -> int, second: int -> int, stages: seq<Stage>, f: int, i: int)
  {
    0 <= i < |stages| &&
    ((stages[i] != WaitingFirst && first(2 * i) == f) || (stages[i] == Eating && second(2 * i) == f))
  }

  predicate ForkFree(first: int -> int, second: int -> int, stages: seq<Stage>, f: int)
  {
    forall i :: 0 <= i < |stages| ==> !Holds(first, second, stages, f, i)
  }

  /** No fork is held by two philosophers. */
  ghost predicate Consistent(first: int -> int, second: int -> int, stages: seq<Stage>)
  {
    |stages| == NumFilosofos &&
    forall f, i, j :: 0 <= i < j < |stages| ==>
      !(Holds(first, second, stages, f, i) && Holds(first, second, stages, f, j))
  }

  /** Philosopher i can make its next step: eat and release, or get the fork it waits for. */
  predicate CanMove(first: int -> int, second: int -> int, stages: seq<Stage>, i: int)
    requires 0 <= i < |stages|
  {
    match stages[i]
    case Eating => true
    case WaitingFirst => ForkFree(first, second, stages, first(2 * i))
    case HasFirst => ForkFree(first, second, stages, second(2 * i))
  }

  ghost predicate Deadlocked(first: int -> int, second: int -> int, stages: seq<Stage>)
  {
    Consistent(first, second, stages) &&
    forall i :: 0 <= i < |stages| ==> !CanMove(first, second, stages, i)
  }

  /** With philosopher 0 reversed, no consistent state is a deadlock: someone
      eating can release, and with nobody eating the philosopher of rank 2
      (index 1 of `stages`) can move. */
  lemma NoDeadlock(stages: seq<Stage>)
    ensures !Deadlocked(FirstFork, SecondFork, stages)
  {
    if |stages| == NumFilosofos {
      if i :| 0 <= i < |stages| && stages[i] == Eating {
        assert CanMove(FirstFork, SecondFork, stages, i);
      } else {
        PhilosopherTwoCanMove(stages);
      }
    }
  }

  /** With nobody eating, the philosopher of rank 2, at index 1 of `stages`,
      gets the fork it waits for: its first fork, 3, is nobody else's first
      fork, and its second, 1, is nobody's. */
  lemma PhilosopherTwoCanMove(stages: seq<Stage>)
    requires |stages| == NumFilosofos
    requires forall i :: 0 <= i < |stages| ==> stages[i] != Eating
    ensures CanMove(FirstFork, SecondFork, stages, 1)
  {
    forall j | 0 <= j < |stages|
      ensures !Holds(FirstFork, SecondFork, stages, 1, j)
      ensures j != 1 ==> !Holds(FirstFork, SecondFork, stages, 3, j)
    {
    }
  }

  /** Without the reversal (everyone left first) the state in which every
      philosopher holds its left fork is a deadlock. */
  lemma SymmetricOrderDeadlocks()
    ensures Deadlocked(LeftFork, RightFork, seq(NumFilosofos, _ => HasFirst))
  {
    var stages := seq(NumFilosofos, _ => HasFirst);
    forall i | 0 <= i < |stages|
      ensures !CanMove(LeftFork, RightFork, stages, i)
    {
      var j := if i == 0 then NumFilosofos - 1 else i - 1;
      assert Holds(LeftFork, RightFork, stages, RightFork(2 * i), j);
    }
  }
}
