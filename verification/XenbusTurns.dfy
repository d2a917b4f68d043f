/** Calls of xenbus_write() and xenbus_read() against a peer that follows a script: the
    script has one part for each access of the guest, and its moves come before it. */
module XenbusTurns {
  import opened Arith
  import opened Index32
  import opened XsWire
  import opened ByteRing
  import opened XenbusProtocol
  import opened XenbusSafety
  import opened Sequences
  import opened XenbusProgress

  type Script = seq<seq<Move>>

  function Tail(script: Script): Script { if script == [] then [] else script[1..] }

  /** Only the peer's own moves count. */
  function PeerMoves(moves: seq<Move>): (r: seq<Move>)
    ensures forall i :: 0 <= i < |r| ==> IsPeerMove(r[i])
  {
    if moves == [] then []
    else PeerMoves(moves[..|moves| - 1])
         + (if IsPeerMove(moves[|moves| - 1]) then [moves[|moves| - 1]] else [])
  }

  function Part(script: Script): seq<Move> { if script == [] then [] else PeerMoves(script[0]) }

  /** The peer plays the next part of its script, and the guest makes the move `m`. */
  ghost function Turn(s: Sys, script: Script, m: Move): (t: Sys)
    requires Inv(s)
    ensures Inv(t)
  {
    var u := Run(s, Part(script));
    RingSizes(u);
    NextInv(u, m);
    Next(u, m)
  }

  lemma TurnIs(s: Sys, script: Script, m: Move)
    requires Inv(s)
    ensures var u := Run(s, Part(script));
            |u.req.cells| == |u.rsp.cells| == XENBUS_RING_SIZE && Turn(s, script, m) == Next(u, m)
  {
    RingSizes(Run(s, Part(script)));
  }

  /** No call is under way, or the guest sleeps and nobody is going to wake it. */
  predicate Over(s: Sys, script: Script) { s.guest.Idle? || (script == [] && GuestAsleep(s)) }

  /** Steps of a guest on its own until it moves its index, clears the bit, or sleeps. */
  function AloneRank(s: Sys): int {
    match s.guest
    case WCopy(_, _, _, part, k) => part - k + 1
    case RCopy(_, _, _, part, k) => part - k + 1
    case WClear(_, _) => 1027
    case RClear(_, _) => 1027
    case WSend(_, _) => 1028
    case RSend(_, _) => 1028
    case WLoadCons(_, _, _) => 1029
    case RLoadCons(_, _, _) => 1029
    case WLoad(_, _) => 1030
    case RLoad(_, _) => 1030
    case WPoll(_, _) => if s.pending then 1031 else 1026
    case RPoll(_, _) => if s.pending then 1031 else 1026
    case Idle(_) => 0
  }

  /** On its own, the guest uses up the bit, or bytes of its call, or steps. */
  predicate Lower(t: Sys, s: Sys) {
    || (s.pending && !t.pending)
    || (s.pending == t.pending && Left(t.guest) < Left(s.guest))
    || (s.pending == t.pending && Left(t.guest) == Left(s.guest) && AloneRank(t) < AloneRank(s))
  }

  lemma WriterLower(s: Sys)
    requires Inv(s) && Writing(s.guest) && !GuestAsleep(s)
    ensures |s.req.cells| == XENBUS_RING_SIZE && Lower(WriterStep(s), s)
  {
    hide Carries, Index, Sub32, Add32;
    RingSizes(s);
  }

  lemma ReaderLower(s: Sys)
    requires Inv(s) && Reading(s.guest) && !GuestAsleep(s) && !s.guest.RLoadCons?
    ensures |s.rsp.cells| == XENBUS_RING_SIZE && Lower(ReaderStep(s), s)
  {
    hide Inv, Carries, Index, Sub32, Add32;
    RingSizes(s);
    Bounds(s);
    if s.guest.RCopy? { CopyInside(s); }
  }

  lemma CopyInside(s: Sys)
    requires Inv(s) && s.guest.RCopy?
    ensures s.guest.k <= |s.guest.got| && s.guest.k <= s.guest.part && 0 < s.guest.part
    ensures s.guest.k < s.guest.part ==> Mask(s.guest.cons) + s.guest.k < XENBUS_RING_SIZE
  {
    hide Carries;
  }

  lemma ReaderChoiceLower(s: Sys)
    requires Inv(s) && s.guest.RLoadCons?
    ensures |s.rsp.cells| == XENBUS_RING_SIZE && Lower(ReaderStep(s), s)
  {
    hide Inv, Carries, Index, Add32;
    RingSizes(s);
    Bounds(s);
    var got := s.guest.got;
    assert got[..|got| - 0] == got;
  }

  lemma AloneAdvances(s: Sys)
    requires Inv(s) && !s.guest.Idle? && !GuestAsleep(s)
    ensures |s.req.cells| == |s.rsp.cells| == XENBUS_RING_SIZE && Lower(Next(s, GuestStep), s)
  {
    hide Inv, Lower, WriterStep, ReaderStep, GuestAsleep;
    RingSizes(s);
    if Writing(s.guest) {
      WriterLower(s);
    } else if s.guest.RLoadCons? {
      ReaderChoiceLower(s);
    } else {
      ReaderLower(s);
    }
  }

  /** Takes turns until the call under way is over. */
  ghost function Finish(s: Sys, script: Script): (r: (Sys, Script))
    requires Inv(s)
    ensures Inv(r.0) && Over(r.0, r.1)
    decreases |script|, s.pending, Left(s.guest), AloneRank(s)
  {
    if Over(s, script) then (s, script)
    else
      AloneTurn(s, script);
      Finish(Turn(s, script, GuestStep), Tail(script))
  }

  lemma AloneTurn(s: Sys, script: Script)
    requires Inv(s) && !Over(s, script)
    ensures 0 <= AloneRank(s) && 0 <= Left(s.guest)
    ensures var t := Turn(s, script, GuestStep);
            |Tail(script)| < |script| || (script == Tail(script) && Lower(t, s))
  {
    hide Inv, Next, Lower, Left, AloneRank, GuestAsleep;
    RanksCount(s);
    if script == [] {
      AloneAdvances(s);
    }
  }

  lemma RanksCount(s: Sys)
    requires Inv(s) && !s.guest.Idle?
    ensures 0 <= AloneRank(s) && 0 <= Left(s.guest)
  {
    Bounds(s);
  }

  lemma FinishTurn(s: Sys, script: Script)
    requires Inv(s) && !Over(s, script)
    ensures var u := Run(s, Part(script));
            && |u.req.cells| == |u.rsp.cells| == XENBUS_RING_SIZE && Inv(Next(u, GuestStep))
            && Turn(s, script, GuestStep) == Next(u, GuestStep)
            && Finish(s, script) == Finish(Next(u, GuestStep), Tail(script))
  {
    hide Inv, Next, Over;
    TurnIs(s, script, GuestStep);
  }

  lemma FinishOver(s: Sys, script: Script)
    requires Inv(s) && Over(s, script)
    ensures Finish(s, script) == (s, script)
  {
  }

  // ----- turns as a run -----

  /** The moves of the turns in which the parts of `script` are played. */
  function Moves(script: Script): seq<Move> {
    if script == [] then [] else PeerMoves(script[0]) + [GuestStep] + Moves(script[1..])
  }

  /** The state after the first `k` turns. */
  ghost function AfterTurns(s: Sys, script: Script, k: nat): (t: Sys)
    requires Inv(s) && k <= |script|
    ensures Inv(t)
  {
    Run(s, Moves(script[..k]))
  }

  lemma {:induction false} PeerMovesKeep(moves: seq<Move>, m: Move)
    requires IsPeerMove(m)
    ensures m in PeerMoves(moves) <==> m in moves
    decreases |moves|
  {
    if moves != [] {
      var n := |moves| - 1;
      PeerMovesKeep(moves[..n], m);
      assert moves == moves[..n] + [moves[n]];
    }
  }

  lemma {:induction false} RunAppend(s: Sys, moves: seq<Move>, m: Move)
    requires Inv(s)
    ensures |Run(s, moves).req.cells| == |Run(s, moves).rsp.cells| == XENBUS_RING_SIZE
    ensures Run(s, moves + [m]) == Next(Run(s, moves), m)
    decreases |moves|
  {
    hide Inv, Next;
    RingSizes(Run(s, moves));
    RingSizes(s);
    if moves == [] {
      assert moves + [m] == [m] && [m][1..] == [];
    } else {
      NextInv(s, moves[0]);
      assert (moves + [m])[0] == moves[0] && (moves + [m])[1..] == moves[1..] + [m];
      RunAppend(Next(s, moves[0]), moves[1..], m);
    }
  }

  lemma IdleKept(s: Sys, m: Move)
    requires Inv(s) && s.guest.Idle? && (IsPeerMove(m) || m == GuestStep)
    ensures |s.req.cells| == |s.rsp.cells| == XENBUS_RING_SIZE && Next(s, m).guest == s.guest
  {
    RingSizes(s);
  }

  /** Without new calls, a guest whose call has returned is found idle at the end. */
  lemma {:induction false} IdleAtTheEnd(s: Sys, moves: seq<Move>)
    requires Inv(s) && Returns(s, moves)
    requires forall i :: 0 <= i < |moves| ==> IsPeerMove(moves[i]) || moves[i] == GuestStep
    ensures Run(s, moves).guest.Idle?
    decreases |moves|
  {
    hide Inv, Next, IsPeerMove;
    if moves != [] {
      if s.guest.Idle? {
        IdleKept(s, moves[0]);
      }
      RingSizes(s);
      NextInv(s, moves[0]);
      IdleAtTheEnd(Next(s, moves[0]), moves[1..]);
    }
  }

  lemma {:induction false} MovesOfTurns(script: Script)
    ensures forall i :: 0 <= i < |Moves(script)| ==> IsPeerMove(Moves(script)[i]) || Moves(script)[i] == GuestStep
    decreases |script|
  {
    if script != [] {
      MovesOfTurns(script[1..]);
    }
  }

  lemma {:induction false} RunConcat(s: Sys, moves: seq<Move>, more: seq<Move>)
    requires Inv(s)
    ensures Run(s, moves + more) == Run(Run(s, moves), more)
    decreases |moves|
  {
    hide Inv, Next;
    if moves == [] {
      assert moves + more == more;
    } else {
      RingSizes(s);
      NextInv(s, moves[0]);
      assert (moves + more)[0] == moves[0] && (moves + more)[1..] == moves[1..] + more;
      RunConcat(Next(s, moves[0]), moves[1..], more);
    }
  }

  lemma AfterFirstTurn(s: Sys, script: Script, k: nat)
    requires Inv(s) && 0 < k <= |script|
    ensures AfterTurns(s, script, k) == AfterTurns(Turn(s, script, GuestStep), script[1..], k - 1)
  {
    hide Inv, Next, Run;
    var first := PeerMoves(script[0]);
    assert script[..k][0] == script[0] && script[..k][1..] == script[1..][..k - 1];
    RunAppend(s, first, GuestStep);
    TurnIs(s, script, GuestStep);
    RunConcat(s, first + [GuestStep], Moves(script[1..][..k - 1]));
  }

  lemma NoTurns(s: Sys, script: Script)
    requires Inv(s)
    ensures AfterTurns(s, script, 0) == s
  {
  }

  lemma {:induction false} IdleStays(s: Sys, script: Script, k: nat)
    requires Inv(s) && s.guest.Idle? && k <= |script|
    ensures AfterTurns(s, script, k).guest.Idle?
  {
    hide Inv, Next;
    MovesOfTurns(script[..k]);
    IdleAtTheEnd(s, Moves(script[..k]));
  }

  /** A call goes on from where some turns have led, or has returned by then. */
  lemma {:induction false} SkipTurns(s: Sys, script: Script, k: nat)
    requires Inv(s) && k <= |script|
    ensures var t := AfterTurns(s, script, k);
            if t.guest.Idle? then Finish(s, script).0.guest.Idle? && |Finish(s, script).1| >= |script| - k
            else Finish(s, script) == Finish(t, script[k..])
    decreases k
  {
    hide Inv, Next, Run, AfterTurns, Turn;
    if s.guest.Idle? {
      IdleStays(s, script, k);
      FinishOver(s, script);
    } else if k == 0 {
      NoTurns(s, script);
      assert script[0..] == script;
    } else {
      FinishTurn(s, script);
      AfterFirstTurn(s, script, k);
      SkipTurns(Turn(s, script, GuestStep), script[1..], k - 1);
      assert script[1..][k - 1..] == script[k..];
    }
  }

  lemma {:induction false} FinishSuffix(s: Sys, script: Script)
    requires Inv(s)
    ensures |Finish(s, script).1| <= |script|
    ensures Finish(s, script).1 == script[|script| - |Finish(s, script).1|..]
    decreases |script|, s.pending, Left(s.guest), AloneRank(s)
  {
    hide Inv, Turn, Left, AloneRank;
    if Over(s, script) {
      FinishOver(s, script);
    } else {
      AloneTurn(s, script);
      FinishTurn(s, script);
      FinishSuffix(Turn(s, script, GuestStep), Tail(script));
    }
  }

  // ----- a fair script ends every call that can be served -----

  /** The script falls into windows of so many parts, and in each of them nothing that
      remains due is put off. */
  ghost predicate FairWindows(s: Sys, script: Script, windows: seq<nat>)
    requires Inv(s)
    decreases |windows|
  {
    windows == [] ||
    (&& windows[0] <= |script|
     && FairRound(s, Moves(script[..windows[0]]))
     && FairWindows(AfterTurns(s, script, windows[0]), script[windows[0]..], windows[1..]))
  }

  /** The call under way will be served: from some turn on, the peer has what it asks
      for, and the script is fair for long enough. What comes before is arbitrary. */
  ghost predicate WillBeServed(s: Sys, script: Script)
    requires Inv(s)
  {
    exists k, windows :: ServedFrom(s, script, k, windows)
  }

  ghost predicate ServedFrom(s: Sys, script: Script, k: nat, windows: seq<nat>)
    requires Inv(s)
  {
    && k <= |script|
    && var t := AfterTurns(s, script, k);
    Served(t) && FairWindows(t, script[k..], windows) && |windows| >= Remaining(t)
  }

  /** A fair window lowers what is left to be done. */
  lemma FairWindow(s: Sys, script: Script, n: nat)
    requires Inv(s) && Served(s) && !s.guest.Idle? && n <= |script| && FairRound(s, Moves(script[..n]))
    ensures var t := AfterTurns(s, script, n);
            t.guest.Idle? || (Served(t) && Remaining(t) < Remaining(s))
  {
    hide Inv, Next, Served, Remaining, Returns, Run, Heeded;
    var round := Moves(script[..n]);
    HelpIsHeeded(s, round);
    HelpAdvances(s, round);
    if Returns(s, round) {
      MovesOfTurns(script[..n]);
      IdleAtTheEnd(s, round);
    }
  }

  lemma {:induction false} FairWindowsFinish(s: Sys, script: Script, windows: seq<nat>)
    requires Inv(s) && Served(s) && FairWindows(s, script, windows) && |windows| >= Remaining(s)
    ensures Finish(s, script).0.guest.Idle?
    decreases |windows|
  {
    hide Inv, Served, Remaining, FairRound, AfterTurns;
    if s.guest.Idle? {
      FinishOver(s, script);
    } else {
      SomethingLeft(s);
      FairWindow(s, script, windows[0]);
      SkipTurns(s, script, windows[0]);
      var t := AfterTurns(s, script, windows[0]);
      if !t.guest.Idle? {
        FairWindowsFinish(t, script[windows[0]..], windows[1..]);
      }
    }
  }

  /** Main result: a call that will be served returns. */
  lemma ServedFinishes(s: Sys, script: Script)
    requires Inv(s) && WillBeServed(s, script)
    ensures Finish(s, script).0.guest.Idle?
  {
    hide Inv, Served, Remaining, FairWindows, AfterTurns;
    var k: nat, windows: seq<nat> :| ServedFrom(s, script, k, windows);
    SkipTurns(s, script, k);
    var t := AfterTurns(s, script, k);
    if !t.guest.Idle? {
      FairWindowsFinish(t, script[k..], windows);
    }
  }

  // ----- scripts that are fair whatever happens -----

  /** The peer makes each of its moves somewhere in these parts. */
  predicate AllKinds(parts: Script) {
    && PWake in Concat(parts) && PTake in Concat(parts) && PRelease in Concat(parts)
    && PPut in Concat(parts) && PPublish in Concat(parts) && PNotify in Concat(parts)
  }

  /** In any `w` parts that follow one another, the peer makes each of its moves. */
  ghost predicate Busy(script: Script, w: nat) { w > 0 && forall i: nat :: BusyAt(script, w, i) }

  predicate BusyAt(script: Script, w: nat, i: nat) { i + w <= |script| ==> AllKinds(script[i..i + w]) }

  lemma {:induction false} MadeIsHeeded(s: Sys, moves: seq<Move>, m: Move)
    requires Inv(s) && m in moves
    ensures Heeded(s, moves, m)
    decreases |moves|
  {
    hide Inv, Next, Due;
    if moves[0] != m {
      RingSizes(s);
      NextInv(s, moves[0]);
      MadeIsHeeded(Next(s, moves[0]), moves[1..], m);
    }
  }

  lemma {:induction false} MovesKeep(parts: Script, m: Move)
    requires IsPeerMove(m) && m in Concat(parts)
    ensures m in Moves(parts)
    decreases |parts|
  {
    PeerMovesKeep(parts[0], m);
    if m !in parts[0] {
      MovesKeep(parts[1..], m);
    }
  }

  lemma BusyWindow(s: Sys, parts: Script)
    requires Inv(s) && parts != [] && AllKinds(parts)
    ensures FairRound(s, Moves(parts))
  {
    hide Inv, Heeded;
    forall m | m in {PWake, PTake, PRelease, PPut, PPublish, PNotify} ensures m in Moves(parts) {
      MovesKeep(parts, m);
    }
    assert Moves(parts)[|PeerMoves(parts[0])|] == GuestStep;
    forall m | m in {GuestStep, PWake, PTake, PRelease, PPut, PPublish, PNotify} ensures Heeded(s, Moves(parts), m) {
      MadeIsHeeded(s, Moves(parts), m);
    }
  }

  lemma BusySuffix(script: Script, w: nat, k: nat)
    requires Busy(script, w) && k <= |script|
    ensures Busy(script[k..], w)
  {
    hide AllKinds;
    forall i: nat ensures BusyAt(script[k..], w, i) {
      assert BusyAt(script, w, k + i);
      if i + w <= |script| - k {
        assert script[k..][i..i + w] == script[k + i..k + i + w];
      }
    }
  }

  /** A busy script is fair for as many windows as it has. */
  lemma {:induction false} BusyIsFair(s: Sys, script: Script, w: nat, n: nat)
    requires Inv(s) && Busy(script, w) && |script| >= n * w
    ensures FairWindows(s, script, seq(n, i => w))
    decreases n
  {
    hide Inv, FairRound, AfterTurns, AllKinds, Moves;
    if n > 0 {
      MulStep(n, w);
      MulNonNegative(n - 1, w);
      assert BusyAt(script, w, 0) && script[0..0 + w] == script[..w];
      BusyWindow(s, script[..w]);
      BusySuffix(script, w, w);
      BusyIsFair(AfterTurns(s, script, w), script[w..], w, n - 1);
      assert seq(n, i => w)[1..] == seq(n - 1, i => w);
    }
  }

  /** A call that can be served is over before a busy script is, if that is long enough,
      and takes no more windows of it than the measure says. */
  lemma {:induction false} BusyScriptFinishes(s: Sys, script: Script, w: nat)
    requires Inv(s) && Served(s) && Busy(script, w) && |script| >= Remaining(s) * w
    ensures var (t, rest) := Finish(s, script);
            t.guest.Idle? && |rest| >= |script| - Remaining(s) * w && Busy(rest, w)
    decreases Remaining(s)
  {
    hide Inv, Served, Remaining, AfterTurns, Busy, Finish, Left;
    FinishSuffix(s, script);
    BusySuffix(script, w, |script| - |Finish(s, script).1|);
    if s.guest.Idle? {
      FinishOver(s, script);
      IdleRemains(s);
    } else {
      SomethingLeft(s);
      MulStep(Remaining(s), w);
      MulNonNegative(Remaining(s) - 1, w);
      FirstWindow(s, script, w);
      SkipTurns(s, script, w);
      var t := AfterTurns(s, script, w);
      if !t.guest.Idle? {
        SomethingLeft(t);
        MulMonotone(Remaining(t), Remaining(s) - 1, w);
        BusyScriptFinishes(t, script[w..], w);
      }
    }
  }

  lemma FirstWindow(s: Sys, script: Script, w: nat)
    requires Inv(s) && Served(s) && !s.guest.Idle? && Busy(script, w) && w <= |script|
    ensures var t := AfterTurns(s, script, w);
            t.guest.Idle? || (Served(t) && Remaining(t) < Remaining(s))
    ensures Busy(script[w..], w)
  {
    hide Inv, Served, Remaining, FairRound, AfterTurns, AllKinds, Moves;
    assert BusyAt(script, w, 0) && script[0..0 + w] == script[..w];
    BusyWindow(s, script[..w]);
    FairWindow(s, script, w);
    BusySuffix(script, w, w);
  }

  lemma IdleRemains(s: Sys)
    requires s.guest.Idle?
    ensures Remaining(s) == 0
  {
  }

  lemma CallEnds(s: Sys, m: Move, script: Script)
    requires Inv(s)
    ensures WillBeServed(Called(s, m), script) ==> Finish(Called(s, m), script).0.guest.Idle?
  {
    hide Inv, Finish, WillBeServed;
    if WillBeServed(Called(s, m), script) {
      ServedFinishes(Called(s, m), script);
    }
  }
}
