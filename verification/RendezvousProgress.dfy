/** Progress of the barrier of tests/xsa-472-3/main.c: no deadlock, a bound on
    the number of steps that are not spinning, and completion under fairness. */
module RendezvousProgress {
  import opened Arith
  import opened Rendezvous
  import opened Sequences

  // ----- how far a processor has come -----

  /** The barriers passed so far, and whether the boot processor is between the
      two halves of the next one. */
  function Passed(s: State): nat {
    if s.bsp.DecreaseReservation? || s.bsp.PopulatePhysmap? then s.round + 1 else s.round
  }

  predicate Between(s: State) {
    s.bsp in {ClearReady2, ClearStart2, EnablePage, SetStart1, AwaitReady2, ClearReady1, ClearStart1, SetStart2}
  }

  /** Steps an application processor has made. */
  function ApRank(pc: ApPc, passed: nat, between: bool): nat {
    match pc
    case Off => 0
    case Arrive1 => 5 * passed + 1
    case Await1 => 5 * passed + 2
    case Disable => 5 * passed + 3
    case Arrive2 => 5 * passed + 4
    case Await2 => if between then 5 * passed + 5 else 5 * passed
  }

  function SumRank(aps: seq<ApPc>, passed: nat, between: bool): nat {
    if aps == [] then 0 else ApRank(aps[0], passed, between) + SumRank(aps[1..], passed, between)
  }

  /** Steps the boot processor has made. */
  function BspRank(s: State): nat {
    match s.bsp
    case Initialise(cpu) => 2 * cpu
    case BringUp(cpu) => 2 * cpu + 1
    case AwaitReady1 => 2 * |s.aps| + 11 * s.round
    case ClearReady2 => 2 * |s.aps| + 11 * s.round + 1
    case ClearStart2 => 2 * |s.aps| + 11 * s.round + 2
    case EnablePage => 2 * |s.aps| + 11 * s.round + 3
    case SetStart1 => 2 * |s.aps| + 11 * s.round + 4
    case AwaitReady2 => 2 * |s.aps| + 11 * s.round + 5
    case ClearReady1 => 2 * |s.aps| + 11 * s.round + 6
    case ClearStart1 => 2 * |s.aps| + 11 * s.round + 7
    case SetStart2 => 2 * |s.aps| + 11 * s.round + 8
    case DecreaseReservation => 2 * |s.aps| + 11 * s.round + 9
    case PopulatePhysmap => 2 * |s.aps| + 11 * s.round + 10
    case Finished(_) => 2 * |s.aps| + 11 * s.round
  }

  function Rank(s: State): nat {
    BspRank(s) + SumRank(s.aps, Passed(s), Between(s))
  }

  /** More steps than can be made before the boot processor is finished. */
  function Bound(n: nat, maxIter: nat): nat {
    2 * n + 11 * maxIter + n * (5 * maxIter + 2) + 1
  }

  /** An upper bound on the steps, other than spinning, that are still to come. */
  function Remaining(s: State, maxIter: nat): int {
    if s.bsp.Finished? then 0 else Bound(|s.aps|, maxIter) - Rank(s)
  }

  // ----- sums over the processors -----

  lemma {:induction false} SumUpdate(aps: seq<ApPc>, i: nat, q: ApPc, passed: nat, between: bool)
    requires i < |aps|
    ensures SumRank(aps[i := q], passed, between)
         == SumRank(aps, passed, between) - ApRank(aps[i], passed, between) + ApRank(q, passed, between)
  {
    if i > 0 {
      SumUpdate(aps[1..], i - 1, q, passed, between);
      assert aps[i := q][1..] == aps[1..][i - 1 := q];
    } else {
      assert aps[i := q][1..] == aps[1..];
    }
  }

  lemma {:induction false} SumSame(aps: seq<ApPc>, p: nat, b: bool, p': nat, b': bool)
    requires forall i :: 0 <= i < |aps| ==> ApRank(aps[i], p, b) == ApRank(aps[i], p', b')
    ensures SumRank(aps, p, b) == SumRank(aps, p', b')
  {
    if aps != [] {
      SumSame(aps[1..], p, b, p', b');
    }
  }

  lemma {:induction false} SumBound(aps: seq<ApPc>, p: nat, b: bool, most: nat)
    requires forall i :: 0 <= i < |aps| ==> ApRank(aps[i], p, b) <= most
    ensures SumRank(aps, p, b) <= |aps| * most
  {
    if aps != [] {
      SumBound(aps[1..], p, b, most);
      MulStep(|aps|, most);
    }
  }

  // ----- every step that is not spinning makes progress -----

  lemma ApAdvances(s: State, i: nat, maxIter: nat)
    requires Inv(s, maxIter) && i < |s.aps| && !s.bsp.Finished?
    ensures ApStep(s, i).1 != Spin ==> Rank(ApStep(s, i).0) == Rank(s) + 1
    ensures ApStep(s, i).1 == Spin ==> ApStep(s, i).0 == s
  {
    var t := ApStep(s, i).0;
    ApFrame(s, i);
    ApRankAdvances(s, i, maxIter);
    SumUpdate(s.aps, i, t.aps[i], Passed(s), Between(s));
  }

  lemma ApFrame(s: State, i: nat)
    requires i < |s.aps|
    ensures var (t, e) := ApStep(s, i);
            && t.bsp == s.bsp && t.round == s.round && |t.aps| == |s.aps|
            && t.aps == s.aps[i := t.aps[i]]
            && (e == Spin ==> t == s)
  {
  }

  lemma ApRankAdvances(s: State, i: nat, maxIter: nat)
    requires Inv(s, maxIter) && i < |s.aps| && !s.bsp.Finished?
    ensures ApStep(s, i).1 != Spin ==>
              ApRank(ApStep(s, i).0.aps[i], Passed(s), Between(s)) == ApRank(s.aps[i], Passed(s), Between(s)) + 1
  {
    match s.aps[i]
    case Await1 => assert s.start1 ==> Between(s);
    case Await2 => assert s.start2 ==> !Between(s);
    case Arrive1 => assert !Between(s);
    case Disable => assert Between(s);
    case Arrive2 => assert Between(s);
    case Off =>
  }

  lemma BspAdvances(s: State, ok: bool, maxIter: nat)
    requires Inv(s, maxIter) && !s.bsp.Finished?
    ensures var (t, e) := BspStep(s, ok, maxIter);
            if e == Spin then t == s else t.bsp.Finished? || Rank(t) > Rank(s)
  {
    var t := BspStep(s, ok, maxIter).0;
    if s.bsp.BringUp? {
      SumUpdate(s.aps, s.bsp.cpu, Arrive1, 0, false);
    } else {
      BspKeepsRanks(s, ok, maxIter);
      if !t.bsp.Finished? {
        SumSame(s.aps, Passed(s), Between(s), Passed(t), Between(t));
      }
    }
  }

  lemma BspRankGrows(s: State, ok: bool, maxIter: nat)
    requires Inv(s, maxIter) && !s.bsp.Finished? && !s.bsp.BringUp?
    ensures var t := BspStep(s, ok, maxIter).0;
            t.aps == s.aps && (t.bsp.Finished? || t.bsp == s.bsp || BspRank(t) > BspRank(s))
  {
  }

  /** The stage of the round changes only when everybody waits for the same flag. */
  lemma StageChanges(s: State, ok: bool, maxIter: nat)
    requires Inv(s, maxIter) && !s.bsp.Finished? && !s.bsp.BringUp?
    ensures var t := BspStep(s, ok, maxIter).0;
            || t.bsp.Finished?
            || (Passed(t) == Passed(s) && Between(t) == Between(s))
            || (Passed(t) == Passed(s) && forall i :: 0 <= i < |s.aps| ==> s.aps[i] == Await1)
            || (Passed(t) == Passed(s) + 1 && Between(s) && !Between(t)
                && forall i :: 0 <= i < |s.aps| ==> s.aps[i] == Await2)
  {
    if s.bsp.AwaitReady1? {
      CountBound(s.aps, Await1);
    }
  }

  /** A step of the boot processor does not change how far the others have come. */
  lemma BspKeepsRanks(s: State, ok: bool, maxIter: nat)
    requires Inv(s, maxIter) && !s.bsp.Finished? && !s.bsp.BringUp?
    ensures var t := BspStep(s, ok, maxIter).0;
            && t.aps == s.aps
            && (t.bsp.Finished? || t.bsp == s.bsp || BspRank(t) > BspRank(s))
            && (t.bsp.Finished? || forall i :: 0 <= i < |s.aps| ==>
                  ApRank(s.aps[i], Passed(s), Between(s)) == ApRank(s.aps[i], Passed(t), Between(t)))
  {
    hide Inv, BspStep, Passed, Between, BspRank;
    BspRankGrows(s, ok, maxIter);
    StageChanges(s, ok, maxIter);
  }

  lemma RankBound(s: State, maxIter: nat)
    requires Inv(s, maxIter) && !s.bsp.Finished?
    ensures Rank(s) < Bound(|s.aps|, maxIter)
  {
    SumBound(s.aps, Passed(s), Between(s), 5 * maxIter + 2);
  }

  lemma StepAdvances(s: State, a: Actor, maxIter: nat)
    requires Inv(s, maxIter) && !s.bsp.Finished?
    ensures Remaining(s, maxIter) > 0
    ensures var (t, e) := Step(s, a, maxIter);
            if e == Spin then t == s else 0 <= Remaining(t, maxIter) < Remaining(s, maxIter)
  {
    var t := Step(s, a, maxIter).0;
    RankBound(s, maxIter);
    StepInv(s, a, maxIter);
    StepKeepsAps(s, a, maxIter);
    if !t.bsp.Finished? { RankBound(t, maxIter); }
    match a
    case Bsp(ok) => BspAdvances(s, ok, maxIter);
    case Ap(i) => if i < |s.aps| { ApAdvances(s, i, maxIter); }
  }

  // ----- somebody can always move -----

  ghost predicate CanMove(s: State, a: Actor, maxIter: nat) {
    Step(s, a, maxIter).1 != Spin
  }

  lemma NoDeadlock(s: State, maxIter: nat) returns (a: Actor)
    requires Inv(s, maxIter) && !s.bsp.Finished?
    ensures CanMove(s, a, maxIter) && (a.Ap? ==> a.cpu < |s.aps|)
  {
    CountBound(s.aps, Await1);
    CountBound(s.aps, Await2);
    if s.bsp.AwaitReady1? && s.ready1 < |s.aps| {
      var i :| 0 <= i < |s.aps| && s.aps[i] != Await1;
      a := Ap(i);
    } else if s.bsp.AwaitReady2? && s.ready2 < |s.aps| {
      var i :| 0 <= i < |s.aps| && s.aps[i] != Await2;
      a := Ap(i);
    } else {
      a := Bsp(true);
    }
  }

  // ----- completion under fairness -----

  /** Every processor gets at least one turn in `turn`. */
  ghost predicate Fair(turn: seq<Actor>, n: nat) {
    && (Bsp(true) in turn || Bsp(false) in turn)
    && (forall i: nat :: i < n ==> Ap(i) in turn)
  }

  lemma {:induction false} ExecAdvances(s: State, sched: seq<Actor>, maxIter: nat)
    requires Inv(s, maxIter)
    ensures 0 <= Remaining(Exec(s, sched, maxIter), maxIter) <= Remaining(s, maxIter)
    ensures s.bsp.Finished? ==> Exec(s, sched, maxIter).bsp.Finished?
    decreases |sched|
  {
    if s.bsp.Finished? {
      FinishedStays(s, sched, maxIter);
    } else if sched == [] {
      RankBound(s, maxIter);
    } else {
      StepInv(s, sched[0], maxIter);
      StepAdvances(s, sched[0], maxIter);
      ExecAdvances(Step(s, sched[0], maxIter).0, sched[1..], maxIter);
    }
  }

  /** As long as nobody moves the state stands still, so whoever can move still
      can when his turn comes. */
  lemma {:induction false} TurnComes(s: State, sched: seq<Actor>, a: Actor, maxIter: nat)
    requires Inv(s, maxIter) && !s.bsp.Finished?
    requires CanMove(s, a, maxIter) && a in sched
    ensures Remaining(Exec(s, sched, maxIter), maxIter) < Remaining(s, maxIter)
    decreases |sched|
  {
    var t := Step(s, sched[0], maxIter).0;
    StepInv(s, sched[0], maxIter);
    StepAdvances(s, sched[0], maxIter);
    if CanMove(s, sched[0], maxIter) {
      ExecAdvances(t, sched[1..], maxIter);
    } else {
      assert a in sched[1..];
      TurnComes(t, sched[1..], a, maxIter);
    }
  }

  lemma FairTurnAdvances(s: State, turn: seq<Actor>, maxIter: nat)
    requires Inv(s, maxIter) && !s.bsp.Finished? && Fair(turn, |s.aps|)
    ensures Remaining(Exec(s, turn, maxIter), maxIter) < Remaining(s, maxIter)
  {
    var a := NoDeadlock(s, maxIter);
    if a.Bsp? {
      assert CanMove(s, Bsp(!a.ok), maxIter);
      TurnComes(s, turn, if Bsp(true) in turn then Bsp(true) else Bsp(false), maxIter);
    } else {
      TurnComes(s, turn, a, maxIter);
    }
  }

  lemma {:induction false} ExecConcat(s: State, u: seq<Actor>, v: seq<Actor>, maxIter: nat)
    ensures Exec(s, u + v, maxIter) == Exec(Exec(s, u, maxIter), v, maxIter)
    decreases |u|
  {
    if u == [] {
      assert u + v == v;
    } else {
      assert (u + v)[1..] == u[1..] + v;
      ExecConcat(Step(s, u[0], maxIter).0, u[1..], v, maxIter);
    }
  }

  lemma {:induction false} FairRunFinishes(s: State, turns: seq<seq<Actor>>, maxIter: nat)
    requires Inv(s, maxIter)
    requires forall k :: 0 <= k < |turns| ==> Fair(turns[k], |s.aps|)
    requires Remaining(s, maxIter) <= |turns|
    ensures Exec(s, Concat(turns), maxIter).bsp.Finished?
    decreases |turns|
  {
    if s.bsp.Finished? {
      FinishedStays(s, Concat(turns), maxIter);
    } else {
      RankBound(s, maxIter);
      var t := Exec(s, turns[0], maxIter);
      FairTurnAdvances(s, turns[0], maxIter);
      ExecInv(s, turns[0], maxIter);
      ExecKeepsAps(s, turns[0], maxIter);
      ExecConcat(s, turns[0], Concat(turns[1..]), maxIter);
      FairRunFinishes(t, turns[1..], maxIter);
    }
  }

  /** Main result: from boot, any schedule made of `Bound` fair turns runs the test to its
      end.  It succeeds if and only if no hypercall that is made fails, and then it has
      run every round and each processor has disabled the page exactly `maxIter` times. */
  lemma BarrierCompletes(n: nat, turns: seq<seq<Actor>>, maxIter: nat, i: nat)
    requires n < 0x1_0000_0000 && i < n
    requires |turns| >= Bound(n, maxIter)
    requires forall k :: 0 <= k < |turns| ==> Fair(turns[k], n)
    ensures var sched := Concat(turns);
            var s := Exec(Init(n, maxIter), sched, maxIter);
            && s.bsp.Finished?
            && (s.bsp == Finished(Success) <==> forall k :: !FailsAt(Init(n, maxIter), sched, maxIter, k))
            && (s.bsp == Finished(Success) ==>
                  && s.round == maxIter
                  && CountEvents(Trace(Init(n, maxIter), sched, maxIter), Disabled(i)) == maxIter)
  {
    hide FailsAt, VerdictOfFailure;
    var s0 := Init(n, maxIter);
    var sched := Concat(turns);
    InitInv(n, maxIter);
    FairRunFinishes(s0, turns, maxIter);
    ExecInv(s0, sched, maxIter);
    Lockstep(n, sched, maxIter, i);
    VerdictIs(s0, sched, maxIter);
  }
}
