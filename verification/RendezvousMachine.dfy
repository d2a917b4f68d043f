/** The shared `wait` structure and the processors as mutable state: each turn
    performs the next atomic access of one processor in place. */
module RendezvousMachine {
  import opened Options
  import opened Rendezvous

  class Machine {
    // The shared structure.
    var ready1: nat
    var ready2: nat
    var start1: bool
    var start2: bool
    // Program counters, and the loop variable of the boot processor.
    const ap: array<ApPc>
    var bsp: BspPc
    var round: nat
    const maxIter: nat

    function View(): State
      reads this, ap
    {
      State(ready1, ready2, start1, start2, ap[..], bsp, round)
    }

    constructor (n: nat, maxIter: nat)
      ensures View() == Init(n, maxIter) && this.maxIter == maxIter && fresh(ap)
    {
      ready1, ready2, start1, start2 := 0, 0, false, false;
      ap := new ApPc[n](_ => Off);
      bsp, round := LaunchOrRounds(0, n, maxIter), 0;
      this.maxIter := maxIter;
      new;
      assert ap[..] == seq(n, _ => Off);
    }

    method ApTurn(i: nat) returns (e: Event)
      requires i < ap.Length
      modifies this, ap
      ensures (View(), e) == ApStep(old(View()), i)
    {
      e := Quiet;
      match ap[i]
      case Off => e := Spin;
      case Arrive1 => ready1 := Increment(ready1); ap[i] := Await1;
      case Await1 => if start1 { ap[i] := Disable; } else { e := Spin; }
      case Disable => e := Disabled(i); ap[i] := Arrive2;
      case Arrive2 => ready2 := Increment(ready2); ap[i] := Await2;
      case Await2 => if start2 { ap[i] := Arrive1; } else { e := Spin; }
    }

    method BspTurn(ok: bool) returns (e: Event)
      modifies this, ap
      ensures (View(), e) == BspStep(old(View()), ok, maxIter)
    {
      e := Quiet;
      match bsp
      case Initialise(cpu) =>
        if ok { e := Initialised(cpu); bsp := BringUp(cpu); } else { e := GiveUp; bsp := Finished(Error); }
      case BringUp(cpu) =>
        if ok {
          if cpu < ap.Length { ap[cpu] := Arrive1; }
          e := Started(cpu);
          bsp := LaunchOrRounds(cpu + 1, ap.Length, maxIter);
        } else {
          e := GiveUp;
          bsp := Finished(Error);
        }
      case AwaitReady1 => if ready1 < ap.Length { e := Spin; } else { bsp := ClearReady2; }
      case ClearReady2 => ready2 := 0; bsp := ClearStart2;
      case ClearStart2 => start2 := false; bsp := EnablePage;
      case EnablePage => e := Enable; bsp := SetStart1;
      case SetStart1 => start1 := true; bsp := AwaitReady2;
      case AwaitReady2 => if ready2 < ap.Length { e := Spin; } else { bsp := ClearReady1; }
      case ClearReady1 => ready1 := 0; bsp := ClearStart1;
      case ClearStart1 => start1 := false; bsp := SetStart2;
      case SetStart2 => start2 := true; bsp := DecreaseReservation;
      case DecreaseReservation =>
        if ok { e := Decrease; bsp := PopulatePhysmap; } else { e := GiveUp; bsp := Finished(Failure); }
      case PopulatePhysmap =>
        if ok {
          e := Populate;
          round := round + 1;
          bsp := RoundOrEnd(round, maxIter);
        } else {
          e := GiveUp;
          bsp := Finished(Error);
        }
      case Finished(_) => e := Spin;
    }

    method Turn(a: Actor) returns (e: Event)
      modifies this, ap
      ensures (View(), e) == Step(old(View()), a, maxIter)
    {
      match a
      case Bsp(ok) => e := BspTurn(ok);
      case Ap(i) => if i < ap.Length { e := ApTurn(i); } else { e := Spin; }
    }

    method Interleave(sched: seq<Actor>) returns (trace: seq<Event>)
      modifies this, ap
      ensures View() == Exec(old(View()), sched, maxIter) && trace == Trace(old(View()), sched, maxIter)
    {
      ghost var s0 := View();
      trace := [];
      for k := 0 to |sched|
        invariant Exec(View(), sched[k..], maxIter) == Exec(s0, sched, maxIter)
        invariant trace + Trace(View(), sched[k..], maxIter) == Trace(s0, sched, maxIter)
      {
        ghost var before := trace;
        UnrollTrace(View(), sched, k, maxIter, before);
        var e := Turn(sched[k]);
        trace := trace + [e];
      }
      assert trace + [] == trace;
    }

    /** Any interleaving from boot is a run of the barrier that keeps its rounds apart, and
        it ends without success where a hypercall fails, and only there. */
    method Run(sched: seq<Actor>) returns (trace: seq<Event>)
      requires View() == Init(ap.Length, maxIter) && ap.Length < 0x1_0000_0000
      modifies this, ap
      ensures View() == Exec(old(View()), sched, maxIter) && trace == Trace(old(View()), sched, maxIter)
      ensures PhaseAfter(Launch(0, ap.Length), trace, ap.Length) == Some(PhaseOf(View()))
      ensures bsp in {EnablePage, DecreaseReservation, PopulatePhysmap} ==> Disable !in ap[..]
      ensures GaveUp(View()) <==> exists k :: FailsAt(old(View()), sched, maxIter, k)
      ensures forall k :: FailsAt(old(View()), sched, maxIter, k) ==>
                VerdictOfFailure(old(View()), sched, maxIter, k)
    {
      hide FailsAt, VerdictOfFailure;
      ghost var s0 := View();
      trace := Interleave(sched);
      InitInv(ap.Length, maxIter);
      RunRefines(s0, sched, maxIter);
      Exclusion(ap.Length, sched, maxIter);
      VerdictIs(s0, sched, maxIter);
    }
  }

  lemma UnrollTrace(s: State, sched: seq<Actor>, k: nat, maxIter: nat, done: seq<Event>)
    requires k < |sched|
    ensures Exec(s, sched[k..], maxIter) == Exec(Step(s, sched[k], maxIter).0, sched[k + 1..], maxIter)
    ensures done + Trace(s, sched[k..], maxIter)
         == done + [Step(s, sched[k], maxIter).1] + Trace(Step(s, sched[k], maxIter).0, sched[k + 1..], maxIter)
  {
    assert sched[k..][1..] == sched[k + 1..];
  }
}
