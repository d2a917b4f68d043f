/** The two-phase barrier of tests/xsa-472-3/main.c, for any number of
    application processors: an interleaving of atomic accesses to the shared
    `wait` structure, one step of one processor at a time. */
module Rendezvous {
  import opened Options

  /** Where an application processor is in ap_thread(). */
  datatype ApPc = Off | Arrive1 | Await1 | Disable | Arrive2 | Await2

  /** What the test reports. */
  datatype Verdict = Success | Failure | Error

  /** Where the boot processor is in launch_aps() and test_main(). */
  datatype BspPc =
    | Initialise(cpu: nat)
    | BringUp(cpu: nat)
    | AwaitReady1
    | ClearReady2
    | ClearStart2
    | EnablePage
    | SetStart1
    | AwaitReady2
    | ClearReady1
    | ClearStart1
    | SetStart2
    | DecreaseReservation
    | PopulatePhysmap
    | Finished(verdict: Verdict)

  datatype State = State(ready1: nat, ready2: nat, start1: bool, start2: bool,
                         aps: seq<ApPc>, bsp: BspPc, round: nat)

  /** Who moves next; `ok` is the outcome of a hypercall, if the boot processor makes one. */
  datatype Actor = Bsp(ok: bool) | Ap(cpu: nat)

  datatype Event =
    | Quiet
    | Spin
    | Initialised(cpu: nat)
    | Started(cpu: nat)
    | Enable
    | Disabled(cpu: nat)
    | Decrease
    | Populate
    | GiveUp

  const UINT_RANGE := 0x1_0000_0000

  function Increment(x: nat): nat { (x + 1) % UINT_RANGE }

  // ----- one step -----

  function ApStep(s: State, i: nat): (State, Event)
    requires i < |s.aps|
  {
    match s.aps[i]
    case Off => (s, Spin)
    case Arrive1 => (s.(ready1 := Increment(s.ready1), aps := s.aps[i := Await1]), Quiet)
    case Await1 => if s.start1 then (s.(aps := s.aps[i := Disable]), Quiet) else (s, Spin)
    case Disable => (s.(aps := s.aps[i := Arrive2]), Disabled(i))
    case Arrive2 => (s.(ready2 := Increment(s.ready2), aps := s.aps[i := Await2]), Quiet)
    case Await2 => if s.start2 then (s.(aps := s.aps[i := Arrive1]), Quiet) else (s, Spin)
  }

  function RoundOrEnd(round: nat, maxIter: nat): BspPc {
    if round < maxIter then AwaitReady1 else Finished(Success)
  }

  function LaunchOrRounds(cpu: nat, n: nat, maxIter: nat): BspPc {
    if cpu < n then Initialise(cpu) else RoundOrEnd(0, maxIter)
  }

  function BspStep(s: State, ok: bool, maxIter: nat): (State, Event) {
    match s.bsp
    case Initialise(cpu) =>
      if ok then (s.(bsp := BringUp(cpu)), Initialised(cpu)) else (s.(bsp := Finished(Error)), GiveUp)
    case BringUp(cpu) =>
      if !ok then (s.(bsp := Finished(Error)), GiveUp)
      else
        (s.(aps := if cpu < |s.aps| then s.aps[cpu := Arrive1] else s.aps,
            bsp := LaunchOrRounds(cpu + 1, |s.aps|, maxIter)), Started(cpu))
    case AwaitReady1 => if s.ready1 < |s.aps| then (s, Spin) else (s.(bsp := ClearReady2), Quiet)
    case ClearReady2 => (s.(ready2 := 0, bsp := ClearStart2), Quiet)
    case ClearStart2 => (s.(start2 := false, bsp := EnablePage), Quiet)
    case EnablePage => (s.(bsp := SetStart1), Enable)
    case SetStart1 => (s.(start1 := true, bsp := AwaitReady2), Quiet)
    case AwaitReady2 => if s.ready2 < |s.aps| then (s, Spin) else (s.(bsp := ClearReady1), Quiet)
    case ClearReady1 => (s.(ready1 := 0, bsp := ClearStart1), Quiet)
    case ClearStart1 => (s.(start1 := false, bsp := SetStart2), Quiet)
    case SetStart2 => (s.(start2 := true, bsp := DecreaseReservation), Quiet)
    case DecreaseReservation =>
      if ok then (s.(bsp := PopulatePhysmap), Decrease) else (s.(bsp := Finished(Failure)), GiveUp)
    case PopulatePhysmap =>
      if ok then (s.(round := s.round + 1, bsp := RoundOrEnd(s.round + 1, maxIter)), Populate)
      else (s.(bsp := Finished(Error)), GiveUp)
    case Finished(_) => (s, Spin)
  }

  function Step(s: State, a: Actor, maxIter: nat): (State, Event) {
    match a
    case Bsp(ok) => BspStep(s, ok, maxIter)
    case Ap(i) => if i < |s.aps| then ApStep(s, i) else (s, Spin)
  }

  function Init(n: nat, maxIter: nat): State {
    State(0, 0, false, false, seq(n, _ => Off), LaunchOrRounds(0, n, maxIter), 0)
  }

  // ----- runs -----

  function Exec(s: State, sched: seq<Actor>, maxIter: nat): State
    decreases |sched|
  {
    if sched == [] then s else Exec(Step(s, sched[0], maxIter).0, sched[1..], maxIter)
  }

  function Trace(s: State, sched: seq<Actor>, maxIter: nat): seq<Event>
    decreases |sched|
  {
    if sched == [] then []
    else [Step(s, sched[0], maxIter).1] + Trace(Step(s, sched[0], maxIter).0, sched[1..], maxIter)
  }

  // ----- counting processors -----

  function CountAt(aps: seq<ApPc>, pc: ApPc): nat {
    if aps == [] then 0 else (if aps[0] == pc then 1 else 0) + CountAt(aps[1..], pc)
  }

  lemma {:induction false} CountBound(aps: seq<ApPc>, pc: ApPc)
    ensures CountAt(aps, pc) <= |aps|
    ensures CountAt(aps, pc) == |aps| <==> forall i :: 0 <= i < |aps| ==> aps[i] == pc
    ensures CountAt(aps, pc) == 0 <==> forall i :: 0 <= i < |aps| ==> aps[i] != pc
  {
    if aps != [] {
      CountBound(aps[1..], pc);
      assert forall i :: 0 <= i < |aps[1..]| ==> aps[1..][i] == aps[i + 1];
      assert forall i :: 1 <= i < |aps| ==> aps[i] == aps[1..][i - 1];
    }
  }

  lemma {:induction false} CountUpdate(aps: seq<ApPc>, i: nat, q: ApPc, pc: ApPc)
    requires i < |aps|
    ensures CountAt(aps[i := q], pc)
         == CountAt(aps, pc) - (if aps[i] == pc then 1 else 0) + (if q == pc then 1 else 0)
  {
    if i > 0 {
      CountUpdate(aps[1..], i - 1, q, pc);
      assert aps[i := q][1..] == aps[1..][i - 1 := q];
    } else {
      assert aps[i := q][1..] == aps[1..];
    }
  }

  // ----- the inductive invariant -----

  ghost predicate AllIn(aps: seq<ApPc>, where: set<ApPc>) {
    forall i :: 0 <= i < |aps| ==> aps[i] in where
  }

  /** Both flags as the processors that are between rounds may see them: nobody
      can pass the first flag, and `ready1` counts those that wait for it. */
  ghost predicate Gathering(s: State) {
    && !s.start1
    && s.ready1 == CountAt(s.aps, Await1)
  }

  ghost predicate Inv(s: State, maxIter: nat) {
    && |s.aps| < UINT_RANGE
    && match s.bsp
       case Initialise(cpu) => LaunchInv(s, cpu)
       case BringUp(cpu) => LaunchInv(s, cpu)
       case AwaitReady1 =>
         && Gathering(s) && s.round < maxIter
         && s.ready2 == (if s.start2 then |s.aps| else 0)
         && AllIn(s.aps, if s.start2 then {Await2, Arrive1, Await1} else {Arrive1, Await1})
       case ClearReady2 => AtFirst(s, maxIter)
       case ClearStart2 => AtFirst(s, maxIter) && s.ready2 == 0
       case EnablePage => AtFirst(s, maxIter) && s.ready2 == 0 && !s.start2
       case SetStart1 => AtFirst(s, maxIter) && s.ready2 == 0 && !s.start2
       case AwaitReady2 =>
         && s.start1 && !s.start2 && s.round < maxIter
         && s.ready1 == |s.aps| && s.ready2 == CountAt(s.aps, Await2)
         && AllIn(s.aps, {Await1, Disable, Arrive2, Await2})
       case ClearReady1 => AtSecond(s, maxIter) && s.start1 && s.ready1 == |s.aps|
       case ClearStart1 => AtSecond(s, maxIter) && s.start1 && s.ready1 == 0
       case SetStart2 => AtSecond(s, maxIter) && !s.start1 && s.ready1 == 0
       case DecreaseReservation => Released(s, maxIter)
       case PopulatePhysmap => Released(s, maxIter)
       case Finished(verdict) =>
         && Gathering(s) && s.ready2 <= |s.aps|
         && (verdict == Success ==> s.round == maxIter)
         && AllIn(s.aps, if s.start2 then {Off, Await2, Arrive1, Await1} else {Off, Arrive1, Await1})
  }

  /** While the boot processor starts the others, those below `cpu` run. */
  ghost predicate LaunchInv(s: State, cpu: nat) {
    && Gathering(s) && !s.start2 && s.ready2 == 0 && s.round == 0 && cpu < |s.aps|
    && (forall i :: 0 <= i < |s.aps| ==> s.aps[i] in (if i < cpu then {Arrive1, Await1} else {Off}))
  }

  /** Everybody waits for the first flag. */
  ghost predicate AtFirst(s: State, maxIter: nat) {
    !s.start1 && s.ready1 == |s.aps| && s.ready2 <= |s.aps| && AllIn(s.aps, {Await1}) && s.round < maxIter
  }

  /** Everybody waits for the second flag. */
  ghost predicate AtSecond(s: State, maxIter: nat) {
    !s.start2 && s.ready2 == |s.aps| && AllIn(s.aps, {Await2}) && s.round < maxIter
  }

  /** The second flag is up: everybody is on the way back to the first. */
  ghost predicate Released(s: State, maxIter: nat) {
    && Gathering(s) && s.start2 && s.ready2 == |s.aps| && s.round < maxIter
    && AllIn(s.aps, {Await2, Arrive1, Await1})
  }

  lemma InitInv(n: nat, maxIter: nat)
    requires n < UINT_RANGE
    ensures Inv(Init(n, maxIter), maxIter)
  {
    CountBound(Init(n, maxIter).aps, Await1);
  }

  lemma ApArrive1Inv(s: State, i: nat, maxIter: nat)
    requires Inv(s, maxIter) && i < |s.aps| && s.aps[i] == Arrive1
    ensures Inv(ApStep(s, i).0, maxIter)
  {
    var t := ApStep(s, i).0;
    CountBound(s.aps, Await1);
    CountBound(s.aps, Await2);
    CountUpdate(s.aps, i, t.aps[i], Await1);
    CountUpdate(s.aps, i, t.aps[i], Await2);
  }

  lemma ApAwait1Inv(s: State, i: nat, maxIter: nat)
    requires Inv(s, maxIter) && i < |s.aps| && s.aps[i] == Await1
    ensures Inv(ApStep(s, i).0, maxIter)
  {
    var t := ApStep(s, i).0;
    CountBound(s.aps, Await1);
    CountBound(s.aps, Await2);
    CountUpdate(s.aps, i, t.aps[i], Await1);
    CountUpdate(s.aps, i, t.aps[i], Await2);
  }

  lemma ApDisableInv(s: State, i: nat, maxIter: nat)
    requires Inv(s, maxIter) && i < |s.aps| && s.aps[i] == Disable
    ensures Inv(ApStep(s, i).0, maxIter)
  {
    var t := ApStep(s, i).0;
    CountBound(s.aps, Await1);
    CountBound(s.aps, Await2);
    CountUpdate(s.aps, i, t.aps[i], Await1);
    CountUpdate(s.aps, i, t.aps[i], Await2);
  }

  lemma ApArrive2Inv(s: State, i: nat, maxIter: nat)
    requires Inv(s, maxIter) && i < |s.aps| && s.aps[i] == Arrive2
    ensures Inv(ApStep(s, i).0, maxIter)
  {
    var t := ApStep(s, i).0;
    CountBound(s.aps, Await1);
    CountBound(s.aps, Await2);
    CountUpdate(s.aps, i, t.aps[i], Await1);
    CountUpdate(s.aps, i, t.aps[i], Await2);
  }

  lemma ApAwait2Inv(s: State, i: nat, maxIter: nat)
    requires Inv(s, maxIter) && i < |s.aps| && s.aps[i] == Await2
    ensures Inv(ApStep(s, i).0, maxIter)
  {
    var t := ApStep(s, i).0;
    CountBound(s.aps, Await1);
    CountBound(s.aps, Await2);
    CountUpdate(s.aps, i, t.aps[i], Await1);
    CountUpdate(s.aps, i, t.aps[i], Await2);
  }

  lemma ApStepInv(s: State, i: nat, maxIter: nat)
    requires Inv(s, maxIter) && i < |s.aps|
    ensures Inv(ApStep(s, i).0, maxIter)
  {
    hide Inv;
    match s.aps[i]
    case Off =>
    case Arrive1 => ApArrive1Inv(s, i, maxIter);
    case Await1 => ApAwait1Inv(s, i, maxIter);
    case Disable => ApDisableInv(s, i, maxIter);
    case Arrive2 => ApArrive2Inv(s, i, maxIter);
    case Await2 => ApAwait2Inv(s, i, maxIter);
  }

  lemma BspLaunchInv(s: State, ok: bool, maxIter: nat)
    requires Inv(s, maxIter) && (s.bsp.Initialise? || s.bsp.BringUp?)
    ensures Inv(BspStep(s, ok, maxIter).0, maxIter)
  {
    if s.bsp.BringUp? {
      CountUpdate(s.aps, s.bsp.cpu, Arrive1, Await1);
    }
  }

  lemma BspAwaitInv(s: State, ok: bool, maxIter: nat)
    requires Inv(s, maxIter) && (s.bsp.AwaitReady1? || s.bsp.AwaitReady2?)
    ensures Inv(BspStep(s, ok, maxIter).0, maxIter)
  {
    CountBound(s.aps, Await1);
    CountBound(s.aps, Await2);
  }

  lemma BspRoundInv(s: State, ok: bool, maxIter: nat)
    requires Inv(s, maxIter)
    requires !(s.bsp.Initialise? || s.bsp.BringUp? || s.bsp.AwaitReady1? || s.bsp.AwaitReady2?)
    ensures Inv(BspStep(s, ok, maxIter).0, maxIter)
  {
    CountBound(s.aps, Await1);
    CountBound(s.aps, Await2);
  }

  lemma BspStepInv(s: State, ok: bool, maxIter: nat)
    requires Inv(s, maxIter)
    ensures Inv(BspStep(s, ok, maxIter).0, maxIter)
  {
    hide Inv, BspStep;
    if s.bsp.Initialise? || s.bsp.BringUp? {
      BspLaunchInv(s, ok, maxIter);
    } else if s.bsp.AwaitReady1? || s.bsp.AwaitReady2? {
      BspAwaitInv(s, ok, maxIter);
    } else {
      BspRoundInv(s, ok, maxIter);
    }
  }

  lemma StepInv(s: State, a: Actor, maxIter: nat)
    requires Inv(s, maxIter)
    ensures Inv(Step(s, a, maxIter).0, maxIter)
  {
    match a
    case Bsp(ok) => BspStepInv(s, ok, maxIter);
    case Ap(i) => if i < |s.aps| { ApStepInv(s, i, maxIter); }
  }

  lemma {:induction false} ExecInv(s: State, sched: seq<Actor>, maxIter: nat)
    requires Inv(s, maxIter)
    ensures Inv(Exec(s, sched, maxIter), maxIter)
    decreases |sched|
  {
    if sched != [] {
      StepInv(s, sched[0], maxIter);
      ExecInv(Step(s, sched[0], maxIter).0, sched[1..], maxIter);
    }
  }

  // ----- lockstep: refinement of a specification that keeps rounds apart -----

  /** The launch of the processors, one after the other, processor `cpu` being initialised
      already or not, and then the life of the reference TSC page.  `Enabled(done)`:
      enabled in this round, and since then disabled once by each processor `i` with
      `done[i]`. */
  datatype Phase = Launching(cpu: nat, initialised: bool) | Idle | Enabled(done: seq<bool>) | Ballooned | Stopped

  /** The processors from `cpu` on are to be launched. */
  function Launch(cpu: nat, n: nat): Phase { if cpu < n then Launching(cpu, false) else Idle }

  function Nobody(n: nat): seq<bool> { seq(n, _ => false) }

  function Everybody(n: nat): seq<bool> { seq(n, _ => true) }

  function DoneIn(aps: seq<ApPc>): seq<bool> {
    seq(|aps|, i requires 0 <= i < |aps| => aps[i] in {Arrive2, Await2})
  }

  /** A processor is initialised and then started, all of them before the page is first
      enabled. A disabling write needs the enabling write of its own round and happens at
      most once a round; the page leaves the domain only after everybody's. */
  function PhaseStep(p: Phase, e: Event, n: nat): Option<Phase> {
    match e
    case Quiet => Some(p)
    case Spin => Some(p)
    case Initialised(i) => if p == Launching(i, false) then Some(Launching(i, true)) else None
    case Started(i) => if p == Launching(i, true) then Some(Launch(i + 1, n)) else None
    case Enable => if p == Idle then Some(Enabled(Nobody(n))) else None
    case Disabled(i) => if p.Enabled? && i < |p.done| && !p.done[i] then Some(Enabled(p.done[i := true])) else None
    case Decrease => if p == Enabled(Everybody(n)) then Some(Ballooned) else None
    case Populate => if p == Ballooned then Some(Idle) else None
    case GiveUp =>
      if p.Launching? || p == Enabled(Everybody(n)) || p == Ballooned then Some(Stopped) else None
  }

  /** The phase after a trace, or None if the specification does not allow the trace. */
  function PhaseAfter(p: Phase, trace: seq<Event>, n: nat): Option<Phase>
    decreases |trace|
  {
    if trace == [] then Some(p)
    else
      match PhaseStep(p, trace[0], n)
      case None => None
      case Some(q) => PhaseAfter(q, trace[1..], n)
  }

  ghost function PhaseOf(s: State): Phase {
    match s.bsp
    case Initialise(cpu) => Launching(cpu, false)
    case BringUp(cpu) => Launching(cpu, true)
    case SetStart1 => Enabled(Nobody(|s.aps|))
    case AwaitReady2 => Enabled(DoneIn(s.aps))
    case ClearReady1 => Enabled(Everybody(|s.aps|))
    case ClearStart1 => Enabled(Everybody(|s.aps|))
    case SetStart2 => Enabled(Everybody(|s.aps|))
    case DecreaseReservation => Enabled(Everybody(|s.aps|))
    case PopulatePhysmap => Ballooned
    case Finished(verdict) => if verdict == Success then Idle else Stopped
    case _ => Idle
  }

  lemma StepKeepsAps(s: State, a: Actor, maxIter: nat)
    ensures |Step(s, a, maxIter).0.aps| == |s.aps|
  {
  }

  lemma StepRefines(s: State, a: Actor, maxIter: nat)
    requires Inv(s, maxIter)
    ensures PhaseStep(PhaseOf(s), Step(s, a, maxIter).1, |s.aps|) == Some(PhaseOf(Step(s, a, maxIter).0))
  {
    match a
    case Bsp(ok) => BspRefines(s, ok, maxIter);
    case Ap(i) => if i < |s.aps| { ApRefines(s, i, maxIter); }
  }

  lemma AwaitRefines(s: State, ok: bool, maxIter: nat)
    requires Inv(s, maxIter) && s.bsp.AwaitReady2?
    ensures PhaseStep(PhaseOf(s), BspStep(s, ok, maxIter).1, |s.aps|) == Some(PhaseOf(BspStep(s, ok, maxIter).0))
  {
    CountBound(s.aps, Await2);
    assert s.ready2 == |s.aps| ==> DoneIn(s.aps) == Everybody(|s.aps|);
  }

  lemma StartRefines(s: State, ok: bool, maxIter: nat)
    requires Inv(s, maxIter) && s.bsp.SetStart1?
    ensures PhaseStep(PhaseOf(s), BspStep(s, ok, maxIter).1, |s.aps|) == Some(PhaseOf(BspStep(s, ok, maxIter).0))
  {
    assert DoneIn(s.aps) == Nobody(|s.aps|);
  }

  lemma OtherRefines(s: State, ok: bool, maxIter: nat)
    requires !s.bsp.AwaitReady2? && !s.bsp.SetStart1?
    ensures PhaseStep(PhaseOf(s), BspStep(s, ok, maxIter).1, |s.aps|) == Some(PhaseOf(BspStep(s, ok, maxIter).0))
  {
    hide DoneIn, Everybody, Nobody;
  }

  lemma BspRefines(s: State, ok: bool, maxIter: nat)
    requires Inv(s, maxIter)
    ensures PhaseStep(PhaseOf(s), BspStep(s, ok, maxIter).1, |s.aps|) == Some(PhaseOf(BspStep(s, ok, maxIter).0))
  {
    hide Inv, PhaseStep, PhaseOf, BspStep;
    match s.bsp
    case AwaitReady2 => AwaitRefines(s, ok, maxIter);
    case SetStart1 => StartRefines(s, ok, maxIter);
    case _ => OtherRefines(s, ok, maxIter);
  }

  lemma ApRefines(s: State, i: nat, maxIter: nat)
    requires Inv(s, maxIter) && i < |s.aps|
    ensures PhaseStep(PhaseOf(s), ApStep(s, i).1, |s.aps|) == Some(PhaseOf(ApStep(s, i).0))
  {
    var t := ApStep(s, i).0;
    assert s.aps[i] in s.aps;
    if s.bsp.AwaitReady2? {
      assert DoneIn(t.aps) == if s.aps[i] == Disable then DoneIn(s.aps)[i := true] else DoneIn(s.aps);
    }
  }

  /** Main result: the trace of every run is a trace of the specification. */
  lemma {:induction false} RunRefines(s: State, sched: seq<Actor>, maxIter: nat)
    requires Inv(s, maxIter)
    ensures PhaseAfter(PhaseOf(s), Trace(s, sched, maxIter), |s.aps|) == Some(PhaseOf(Exec(s, sched, maxIter)))
    decreases |sched|
  {
    if sched != [] {
      var t := Step(s, sched[0], maxIter).0;
      StepInv(s, sched[0], maxIter);
      StepRefines(s, sched[0], maxIter);
      StepKeepsAps(s, sched[0], maxIter);
      RunRefines(t, sched[1..], maxIter);
      assert Trace(s, sched, maxIter)[1..] == Trace(t, sched[1..], maxIter);
    }
  }

  // ----- what the specification says about counts -----

  function CountEvents(trace: seq<Event>, e: Event): nat {
    if trace == [] then 0 else (if trace[0] == e then 1 else 0) + CountEvents(trace[1..], e)
  }

  /** How many disabling writes of processor `i` a phase owes to the enabling write
      of the current round: 1 until it is done. */
  ghost function Owed(p: Phase, i: nat): int {
    if p.Enabled? && i < |p.done| && !p.done[i] then 1 else 0
  }

  lemma {:induction false} SpecCounts(p: Phase, trace: seq<Event>, n: nat, i: nat)
    requires i < n && PhaseAfter(p, trace, n).Some?
    ensures var q := PhaseAfter(p, trace, n).value;
            CountEvents(trace, Disabled(i)) + Owed(q, i) == CountEvents(trace, Enable) + Owed(p, i)
    decreases |trace|
  {
    if trace != [] {
      SpecCounts(PhaseStep(p, trace[0], n).value, trace[1..], n, i);
    }
  }

  predicate GaveUp(s: State) { s.bsp.Finished? && s.bsp.verdict != Success }

  /** Rounds whose enabling write has been made. */
  function Enables(s: State): int {
    s.round + (if HasEnabled(s.bsp) then 1 else 0)
  }

  predicate HasEnabled(bsp: BspPc) {
    || bsp.SetStart1? || bsp.AwaitReady2? || bsp.ClearReady1? || bsp.ClearStart1? || bsp.SetStart2?
    || bsp.DecreaseReservation? || bsp.PopulatePhysmap?
  }

  lemma BspEnables(s: State, ok: bool, maxIter: nat)
    requires !GaveUp(BspStep(s, ok, maxIter).0)
    ensures var (t, e) := BspStep(s, ok, maxIter);
            Enables(t) == Enables(s) + (if e == Enable then 1 else 0)
  {
  }

  lemma ApEnables(s: State, i: nat)
    requires i < |s.aps|
    ensures ApStep(s, i).1 != Enable && Enables(ApStep(s, i).0) == Enables(s)
  {
  }

  lemma StepEnables(s: State, a: Actor, maxIter: nat)
    requires !GaveUp(Step(s, a, maxIter).0)
    ensures Enables(Step(s, a, maxIter).0) == Enables(s) + (if Step(s, a, maxIter).1 == Enable then 1 else 0)
  {
    hide BspStep, ApStep, Enables;
    match a
    case Bsp(ok) => BspEnables(s, ok, maxIter);
    case Ap(i) => if i < |s.aps| { ApEnables(s, i); }
  }

  lemma {:induction false} EnablesCount(s: State, sched: seq<Actor>, maxIter: nat)
    requires Inv(s, maxIter) && !GaveUp(Exec(s, sched, maxIter))
    ensures CountEvents(Trace(s, sched, maxIter), Enable) == Enables(Exec(s, sched, maxIter)) - Enables(s)
    decreases |sched|
  {
    if sched != [] {
      var t := Step(s, sched[0], maxIter).0;
      StepInv(s, sched[0], maxIter);
      if GaveUp(t) {
        FinishedStays(t, sched[1..], maxIter);
      } else {
        StepEnables(s, sched[0], maxIter);
        EnablesCount(t, sched[1..], maxIter);
        assert Trace(s, sched, maxIter)[1..] == Trace(t, sched[1..], maxIter);
      }
    }
  }

  lemma {:induction false} FinishedStays(s: State, sched: seq<Actor>, maxIter: nat)
    requires s.bsp.Finished?
    ensures Exec(s, sched, maxIter).bsp == s.bsp
    decreases |sched|
  {
    if sched != [] {
      FinishedStays(Step(s, sched[0], maxIter).0, sched[1..], maxIter);
    }
  }

  /** Lockstep from boot, for every schedule: each processor has disabled the page
      exactly once for each round whose enabling write it has answered, which is
      every round except possibly the current one. */
  lemma Lockstep(n: nat, sched: seq<Actor>, maxIter: nat, i: nat)
    requires n < 0x1_0000_0000 && i < n
    ensures var s := Exec(Init(n, maxIter), sched, maxIter);
            var trace := Trace(Init(n, maxIter), sched, maxIter);
            && PhaseAfter(Launch(0, n), trace, n) == Some(PhaseOf(s))
            && CountEvents(trace, Disabled(i)) == CountEvents(trace, Enable) - Owed(PhaseOf(s), i)
            && (!GaveUp(s) ==> CountEvents(trace, Enable) == Enables(s))
            && (s.bsp in {AwaitReady1, Finished(Success)} ==> CountEvents(trace, Disabled(i)) == s.round)
  {
    var s0 := Init(n, maxIter);
    InitInv(n, maxIter);
    RunRefines(s0, sched, maxIter);
    SpecCounts(Launch(0, n), Trace(s0, sched, maxIter), n, i);
    if !GaveUp(Exec(s0, sched, maxIter)) {
      EnablesCount(s0, sched, maxIter);
    }
  }

  /** In every reachable state: no processor is at its disabling write while the
      page is being enabled, taken out or put back, and no counter exceeds the
      number of processors. */
  lemma Exclusion(n: nat, sched: seq<Actor>, maxIter: nat)
    requires n < 0x1_0000_0000
    ensures var s := Exec(Init(n, maxIter), sched, maxIter);
            && (s.bsp in {EnablePage, DecreaseReservation, PopulatePhysmap} ==> Disable !in s.aps)
            && s.ready1 <= n && s.ready2 <= n
  {
    var s := Exec(Init(n, maxIter), sched, maxIter);
    InitInv(n, maxIter);
    ExecInv(Init(n, maxIter), sched, maxIter);
    ExecKeepsAps(Init(n, maxIter), sched, maxIter);
    CountBound(s.aps, Await1);
    CountBound(s.aps, Await2);
  }

  lemma {:induction false} ExecKeepsAps(s: State, sched: seq<Actor>, maxIter: nat)
    ensures |Exec(s, sched, maxIter).aps| == |s.aps|
    decreases |sched|
  {
    if sched != [] {
      StepKeepsAps(s, sched[0], maxIter);
      ExecKeepsAps(Step(s, sched[0], maxIter).0, sched[1..], maxIter);
    }
  }

  // ----- the verdict of the test -----

  /** Turn `k` is one in which the boot processor makes a hypercall that fails. */
  predicate FailsAt(s: State, sched: seq<Actor>, maxIter: nat, k: nat) {
    && k < |sched| && sched[k] == Bsp(false)
    && var pc := Exec(s, sched[..k], maxIter).bsp;
    pc.Initialise? || pc.BringUp? || pc.DecreaseReservation? || pc.PopulatePhysmap?
  }

  /** A page that cannot be taken out fails the test; any other failing call is an error. */
  predicate VerdictOfFailure(s: State, sched: seq<Actor>, maxIter: nat, k: nat)
    requires k < |sched|
  {
    Exec(s, sched, maxIter).bsp
    == Finished(if Exec(s, sched[..k], maxIter).bsp.DecreaseReservation? then Failure else Error)
  }

  lemma FailsLater(s: State, sched: seq<Actor>, maxIter: nat, k: nat)
    requires 0 < k <= |sched|
    ensures var t := Step(s, sched[0], maxIter).0;
            && Exec(s, sched[..k], maxIter) == Exec(t, sched[1..][..k - 1], maxIter)
            && (FailsAt(s, sched, maxIter, k) <==> FailsAt(t, sched[1..], maxIter, k - 1))
  {
    assert sched[..k][1..] == sched[1..][..k - 1];
  }

  lemma FailsFirst(s: State, sched: seq<Actor>, maxIter: nat)
    requires sched != [] && !s.bsp.Finished?
    ensures var (t, e) := Step(s, sched[0], maxIter);
            && (FailsAt(s, sched, maxIter, 0) <==> e == GiveUp)
            && (e == GiveUp ==> t.bsp == Finished(if s.bsp.DecreaseReservation? then Failure else Error))
            && (t.bsp.Finished? && e != GiveUp ==> t.bsp == Finished(Success))
  {
    assert sched[..0] == [];
  }

  lemma {:induction false} FinishedIsQuiet(s: State, sched: seq<Actor>, maxIter: nat)
    requires s.bsp.Finished?
    ensures GiveUp !in Trace(s, sched, maxIter) && forall k :: !FailsAt(s, sched, maxIter, k)
    decreases |sched|
  {
    forall k: nat ensures !FailsAt(s, sched, maxIter, k) {
      if k < |sched| {
        FinishedStays(s, sched[..k], maxIter);
      }
    }
    if sched != [] {
      FinishedIsQuiet(Step(s, sched[0], maxIter).0, sched[1..], maxIter);
    }
  }

  /** A failing hypercall ends the test there, with the verdict that belongs to it, and
      the test ends without success only so. */
  lemma {:induction false} VerdictIs(s: State, sched: seq<Actor>, maxIter: nat)
    requires !GaveUp(s)
    ensures GaveUp(Exec(s, sched, maxIter)) <==> exists k :: FailsAt(s, sched, maxIter, k)
    ensures GiveUp in Trace(s, sched, maxIter) <==> exists k :: FailsAt(s, sched, maxIter, k)
    ensures forall k :: FailsAt(s, sched, maxIter, k) ==> VerdictOfFailure(s, sched, maxIter, k)
    decreases |sched|
  {
    hide Step;
    if s.bsp.Finished? {
      FinishedStays(s, sched, maxIter);
      FinishedIsQuiet(s, sched, maxIter);
    } else if sched != [] {
      var (t, e) := Step(s, sched[0], maxIter);
      FailsFirst(s, sched, maxIter);
      assert sched[..0] == [];
      forall k: nat | 0 < k <= |sched|
        ensures Exec(s, sched[..k], maxIter) == Exec(t, sched[1..][..k - 1], maxIter)
        ensures FailsAt(s, sched, maxIter, k) <==> FailsAt(t, sched[1..], maxIter, k - 1)
      {
        FailsLater(s, sched, maxIter, k);
      }
      if GaveUp(t) {
        FinishedStays(t, sched[1..], maxIter);
        FinishedIsQuiet(t, sched[1..], maxIter);
      } else {
        VerdictIs(t, sched[1..], maxIter);
        if k: nat :| FailsAt(t, sched[1..], maxIter, k) {
          assert FailsAt(s, sched, maxIter, k + 1);
        }
      }
    }
  }
}
