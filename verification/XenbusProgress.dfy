/** Progress of the XenBus protocol: a call that the peer can serve returns, if both
    sides keep taking their steps. */
module XenbusProgress {
  import opened Arith
  import opened Index32
  import opened Sequences
  import opened XsWire
  import opened ByteRing
  import opened XenbusProtocol
  import opened XenbusSafety

  // ----- a measure of what is still to be done -----

  /** Request bytes that could be published, and reply bytes that could be read. */
  function Space(s: Sys): int { XENBUS_RING_SIZE - 1 - (|s.log.reqSent| - s.log.reqReleased) }
  function Available(s: Sys): int { |s.log.rspSent| - s.log.rspReleased }

  /** Bytes of the call that have not been published or released yet. */
  function Left(g: Guest): int {
    if Writing(g) then |g.data| - g.done else if Reading(g) then g.len - |Settled(g)| else 0
  }

  /** The ring gives the guest nothing to do, so the peer has to act. */
  predicate Blocked(s: Sys) {
    if Writing(s.guest) then Space(s) == 0 else Available(s) == 0
  }

  /** The peer rests, or may go to rest. */
  predicate Sleepy(s: Sys) { !s.peer.awake || s.peer.sawIdle }

  /** Steps until the guest has kicked the peer. */
  function ToSend(g: Guest): nat {
    match g
    case WLoad(_, _) => 3
    case RLoad(_, _) => 3
    case WLoadCons(_, _, _) => 2
    case RLoadCons(_, _, _) => 2
    case _ => 1
  }

  /** Steps until the ring becomes usable. */
  function PeerRank(s: Sys): nat {
    if Sleepy(s) then (if s.peer.bell then 3 else 3 + ToSend(s.guest))
    else if Writing(s.guest) then (if s.peer.held > 0 then 1 else 2)
    else (if s.peer.extra != [] then 1 else 2)
  }

  /** Steps until the guest has moved its index, when the ring is usable. A reader that
      loaded the other index before goes round once more. */
  function GuestRank(s: Sys): int {
    match s.guest
    case WCopy(_, _, _, part, k) => part - k + 1
    case RCopy(_, _, _, part, k) => part - k + 1
    case WLoadCons(_, _, _) => 1026
    case RLoadCons(_, _, prod) => if prod != s.rsp.cons then 1026 else 1032
    case WLoad(_, _) => 1027
    case RLoad(_, _) => 1027
    case WPoll(_, _) => if s.pending then 1028 else 1029
    case RPoll(_, _) => if s.pending then 1028 else 1029
    case WClear(_, _) => 1030
    case RClear(_, _) => 1030
    case WSend(_, _) => 1031
    case RSend(_, _) => 1031
    case Idle(_) => 0
  }

  function Stage(s: Sys): int { if Blocked(s) then 1032 + PeerRank(s) else GuestRank(s) }

  const ROUNDS_PER_BYTE := 1040

  function Remaining(s: Sys): int {
    if s.guest.Idle? then 0 else Left(s.guest) * ROUNDS_PER_BYTE + Stage(s)
  }

  /** The move that lowers the measure. */
  function Helpful(s: Sys): Move {
    if Blocked(s) then
      if Sleepy(s) then (if s.peer.bell then PWake else GuestStep)
      else if Writing(s.guest) then (if s.peer.held > 0 then PRelease else PTake)
      else (if s.peer.extra != [] then PPublish else PPut)
    else if (s.guest.WPoll? || s.guest.RPoll?) && !s.pending then PNotify
    else GuestStep
  }

  /** A read asks for no more than the peer has sent or is about to send. */
  predicate Served(s: Sys) {
    Reading(s.guest) ==> Left(s.guest) <= Available(s) + |s.peer.extra| + |s.peer.backlog|
  }

  /** The measure does not grow, the same move goes on to be the helpful one as long as
      the measure stays the same, and the helpful move lowers it. */
  predicate Advances(s: Sys, m: Move, t: Sys) {
    || t.guest.Idle?
    || (&& Served(t)
        && (Remaining(t) < Remaining(s)
            || (m != Helpful(s) && Remaining(t) == Remaining(s) && Helpful(t) == Helpful(s))))
  }

  // ----- what the invariant says about it -----

  lemma Facts(s: Sys)
    requires Inv(s)
    ensures |s.req.cells| == |s.rsp.cells| == XENBUS_RING_SIZE
    ensures 0 <= Space(s) && 0 <= Available(s) <= XENBUS_RING_SIZE
    ensures Sub32(s.req.prod, s.req.cons) == |s.log.reqSent| - s.log.reqReleased
    ensures Sub32(s.rsp.prod, s.rsp.cons) == Available(s)
    ensures s.log.reqReleased + s.peer.held <= |s.log.reqSent|
    ensures Available(s) + |s.peer.extra| <= XENBUS_RING_SIZE
    ensures Sub32(Add32(s.rsp.prod, |s.peer.extra|), s.rsp.cons) == Available(s) + |s.peer.extra|
    ensures IsWord(s.rsp.cons) && IsWord(s.rsp.prod)
  {
    var L := s.log;
    IndexDifference(L.reqBase + |L.reqSent|, L.reqBase + L.reqReleased);
    IndexDifference(L.rspBase + |L.rspSent|, L.rspBase + L.rspReleased);
    PutPosition(s.rsp, L.rspBase, L.rspSent, s.peer.extra, L.rspReleased);
  }

  /** A resting peer that has not been kicked leaves work undone only before the guest
      has kicked it. */
  lemma RestsBeforeKick(s: Sys)
    requires Inv(s) && Served(s) && !s.guest.Idle? && Blocked(s) && Sleepy(s) && !s.peer.bell
    ensures ToSend(s.guest) >= 1
    ensures || s.guest.WLoad? || s.guest.WLoadCons? || s.guest.WSend?
            || s.guest.RLoad? || s.guest.RLoadCons? || s.guest.RSend?
  {
    hide Carries, Sub32, Index, Mask;
    Facts(s);
  }

  /** A guest that sleeps although the ring is usable will be notified. */
  lemma WillBeNotified(s: Sys)
    requires Inv(s) && !s.guest.Idle? && !Blocked(s) && (s.guest.WPoll? || s.guest.RPoll?) && !s.pending
    ensures s.peer.owes && s.peer.awake
  {
    hide Carries, Sub32, Index, Mask;
  }

  /** Bounds on the measure; a copy is under way only when the ring was usable. */
  lemma Bounds(s: Sys)
    requires Inv(s) && !s.guest.Idle?
    ensures Left(s.guest) >= 1 && 1 <= Stage(s) <= 1038
    ensures s.guest.WCopy? || s.guest.RCopy? ==> !Blocked(s) && GuestRank(s) <= 1025
    ensures s.guest.WCopy? || s.guest.RCopy? ==> s.guest.part <= Left(s.guest)
    ensures s.guest.RCopy? ==> s.guest.part <= Available(s)
  {
    hide Carries, Sub32, Add32, Index;
  }

  lemma ReaderIndices(s: Sys)
    requires Inv(s) && Reading(s.guest)
    ensures s.rsp.prod == s.rsp.cons <==> Available(s) == 0
    ensures s.guest.RLoadCons? ==> (Sub32(s.guest.prod, s.rsp.cons) == 0 <==> s.guest.prod == s.rsp.cons)
    ensures s.guest.RLoadCons? && Available(s) == 0 ==> s.guest.prod == s.rsp.cons
  {
    hide Carries;
    Facts(s);
  }

  /** A write copies all at once that fits behind the published bytes without wrapping. */
  lemma WritesWhatFits(s: Sys, n: nat)
    requires Inv(s) && s.guest.WLoadCons?
    ensures var WLoadCons(data, done, prod) := s.guest;
            n <= WritePart(data, done, prod, s.req.cons) <==>
            && |s.log.reqSent| + n - s.log.reqReleased <= 1023
            && Cell(1024, s.log.reqBase, |s.log.reqSent|) + n <= 1024
            && done + n <= |data|
  {
    hide Carries, Sub32, Index, Mask, Cell;
    WriterIndices(s);
    MaskIndex(s.log.reqBase, |s.log.reqSent|);
    CarriesIndices(s.req, s.log.reqBase, s.log.reqSent, Copied(s.guest), s.log.reqReleased);
  }

  /** A read copies all at once that is published, without wrapping; bytes published
      after its look at the index are left for the next pass. */
  lemma ReadsWhatIsThere(s: Sys, n: nat)
    requires Inv(s) && s.guest.RLoadCons? && s.guest.prod == s.rsp.prod
    ensures var RLoadCons(len, got, prod) := s.guest;
            n <= ReadPart(len, got, prod, s.rsp.cons) <==>
            && s.log.rspReleased + n <= |s.log.rspSent|
            && Cell(1024, s.log.rspBase, s.log.rspReleased) + n <= 1024
            && |got| + n <= len
  {
    hide Carries, Sub32, Index, Mask, Cell;
    Facts(s);
    MaskIndex(s.log.rspBase, s.log.rspReleased);
    CarriesIndices(s.rsp, s.log.rspBase, s.log.rspSent, s.peer.extra, s.log.rspReleased);
  }

  // ----- every move -----

  lemma ConsumingAdvances(s: Sys, m: Move)
    requires Inv(s) && Served(s) && !s.guest.Idle? && (m.PTake? || m.PRelease?)
    ensures |s.req.cells| == |s.rsp.cells| == XENBUS_RING_SIZE && Advances(s, m, PeerStep(s, m))
  {
    hide Inv, Carries, Sub32, Add32, Index, Mask;
    Facts(s);
    Bounds(s);
  }

  lemma ProducingAdvances(s: Sys, m: Move)
    requires Inv(s) && Served(s) && !s.guest.Idle? && (m.PPut? || m.PPublish?)
    ensures |s.req.cells| == |s.rsp.cells| == XENBUS_RING_SIZE && Advances(s, m, PeerStep(s, m))
  {
    hide Inv, Carries, Sub32, Add32, Index, Mask;
    Facts(s);
    Bounds(s);
  }

  lemma ComposingAdvances(s: Sys, bytes: seq<byte>)
    requires Inv(s) && Served(s) && !s.guest.Idle?
    ensures |s.req.cells| == |s.rsp.cells| == XENBUS_RING_SIZE
              && Advances(s, PCompose(bytes), PeerStep(s, PCompose(bytes)))
  {
    hide Inv, Left, Settled, Sub32, Add32, Mask;
    RingSizes(s);
    var t := PeerStep(s, PCompose(bytes));
    assert Blocked(t) == Blocked(s) && GuestRank(t) == GuestRank(s);
  }

  /** An event only matters to a guest that is asleep. */
  lemma EventCounts(s: Sys, t: Sys)
    requires t == s.(peer := t.peer, pending := true)
    ensures Blocked(t) == Blocked(s)
    ensures GuestRank(t) == GuestRank(s) - (if (s.guest.WPoll? || s.guest.RPoll?) && !s.pending then 1 else 0)
  {
    hide Settled, Sub32, Add32, Mask;
  }

  lemma NotifyingAdvances(s: Sys)
    requires Inv(s) && Served(s) && !s.guest.Idle?
    ensures |s.req.cells| == |s.rsp.cells| == XENBUS_RING_SIZE && Advances(s, PNotify, PeerStep(s, PNotify))
  {
    hide Inv, Left, Settled, Sub32, Add32, Mask, Blocked, GuestRank;
    RingSizes(s);
    var t := PeerStep(s, PNotify);
    if t != s {
      EventCounts(s, t);
    }
    if (s.guest.WPoll? || s.guest.RPoll?) && !s.pending && !Blocked(s) { WillBeNotified(s); }
  }

  lemma RestingAdvances(s: Sys, m: Move)
    requires Inv(s) && Served(s) && !s.guest.Idle? && (m.PCheck? || m.PSleep? || m.PWake?)
    ensures |s.req.cells| == |s.rsp.cells| == XENBUS_RING_SIZE && Advances(s, m, PeerStep(s, m))
  {
    hide Inv, Left, Settled, Sub32, Add32, Mask;
    Facts(s);
    Bounds(s);
  }

  lemma WriterWaits(s: Sys)
    requires Inv(s) && Served(s) && (s.guest.WSend? || s.guest.WClear? || s.guest.WPoll? || s.guest.WLoad?)
    ensures |s.req.cells| == XENBUS_RING_SIZE && Advances(s, GuestStep, WriterStep(s))
  {
    hide Inv, Carries, Sub32, Add32, Index, Mask;
    Facts(s);
    Bounds(s);
    if Blocked(s) && Sleepy(s) && !s.peer.bell { RestsBeforeKick(s); }
  }

  lemma WriterChooses(s: Sys)
    requires Inv(s) && Served(s) && s.guest.WLoadCons?
    ensures |s.req.cells| == XENBUS_RING_SIZE && Advances(s, GuestStep, WriterStep(s))
  {
    hide Inv, Carries, Sub32, Add32, Index;
    Facts(s);
    Bounds(s);
    WriterIndices(s);
  }

  lemma WriterIndices(s: Sys)
    requires Inv(s) && s.guest.WLoadCons?
    ensures XENBUS_RING_SIZE - 1 - Mask(Sub32(s.guest.prod, s.req.cons)) == Space(s)
  {
    hide Carries, Sub32, Index;
    Facts(s);
  }

  lemma WriterCopies(s: Sys)
    requires Inv(s) && Served(s) && s.guest.WCopy?
    ensures |s.req.cells| == XENBUS_RING_SIZE && Advances(s, GuestStep, WriterStep(s))
  {
    hide Carries, Sub32, Add32, Index;
    Facts(s);
    Bounds(s);
    var t := WriterStep(s);
    if s.guest.k == s.guest.part && !t.guest.Idle? {
      assert 0 <= Space(t);
    }
  }

  lemma ReaderWaits(s: Sys)
    requires Inv(s) && Served(s) && (s.guest.RSend? || s.guest.RClear? || s.guest.RPoll? || s.guest.RLoad?)
    ensures |s.rsp.cells| == XENBUS_RING_SIZE && Advances(s, GuestStep, ReaderStep(s))
  {
    hide Inv, Carries, Sub32, Add32, Index, Mask;
    Facts(s);
    Bounds(s);
    ReaderIndices(s);
    if Blocked(s) && Sleepy(s) && !s.peer.bell { RestsBeforeKick(s); }
  }

  lemma ReaderChooses(s: Sys)
    requires Inv(s) && Served(s) && s.guest.RLoadCons?
    ensures |s.rsp.cells| == XENBUS_RING_SIZE && Advances(s, GuestStep, ReaderStep(s))
  {
    hide Inv, Carries, Add32, Index;
    Facts(s);
    Bounds(s);
    ReaderIndices(s);
  }

  lemma ReaderCopies(s: Sys)
    requires Inv(s) && Served(s) && s.guest.RCopy?
    ensures |s.rsp.cells| == XENBUS_RING_SIZE && Advances(s, GuestStep, ReaderStep(s))
  {
    hide Carries, Sub32, Add32, Index;
    Facts(s);
    Bounds(s);
  }

  lemma NextAdvances(s: Sys, m: Move)
    requires Inv(s) && Served(s) && !s.guest.Idle?
    ensures |s.req.cells| == |s.rsp.cells| == XENBUS_RING_SIZE && Advances(s, m, Next(s, m))
  {
    hide Inv, Advances, WriterStep, ReaderStep, PeerStep;
    Facts(s);
    match m
    case GuestStep =>
      match s.guest {
        case WLoadCons(_, _, _) => WriterChooses(s);
        case WCopy(_, _, _, _, _) => WriterCopies(s);
        case RLoadCons(_, _, _) => ReaderChooses(s);
        case RCopy(_, _, _, _, _) => ReaderCopies(s);
        case _ => if Writing(s.guest) { WriterWaits(s); } else { ReaderWaits(s); }
      }
    case CallWrite(_) => CallsRefused(s, m);
    case CallRead(_) => CallsRefused(s, m);
    case CallNotify => CallsRefused(s, m);
    case PTake => ConsumingAdvances(s, m);
    case PRelease => ConsumingAdvances(s, m);
    case PPut => ProducingAdvances(s, m);
    case PPublish => ProducingAdvances(s, m);
    case PCompose(bytes) => ComposingAdvances(s, bytes);
    case PNotify => NotifyingAdvances(s);
    case _ => RestingAdvances(s, m);
  }

  lemma CallsRefused(s: Sys, m: Move)
    requires Served(s) && !s.guest.Idle? && (m.CallWrite? || m.CallRead? || m.CallNotify?)
    ensures Advances(s, m, s)
  {
  }

  // ----- rounds -----

  /** The call under way returns in the course of `moves`. */
  ghost predicate Returns(s: Sys, moves: seq<Move>)
    requires Inv(s)
    decreases |moves|
  {
    || s.guest.Idle?
    || (moves != [] && (NextInv(s, moves[0]); Returns(Next(s, moves[0]), moves[1..])))
  }

  lemma {:induction false} NothingLost(s: Sys, moves: seq<Move>)
    requires Inv(s) && Served(s) && !s.guest.Idle?
    ensures Returns(s, moves) ||
            (!Run(s, moves).guest.Idle? && Served(Run(s, moves)) && Remaining(Run(s, moves)) <= Remaining(s))
    decreases |moves|
  {
    hide Inv, Next, Served, Remaining, Helpful;
    if moves != [] {
      NextAdvances(s, moves[0]);
      NextInv(s, moves[0]);
      var t := Next(s, moves[0]);
      if !t.guest.Idle? {
        NothingLost(t, moves[1..]);
      }
    }
  }

  /** There is reason to make the move `m`: the guest has a call to go on with, or the
      peer, awake, has something to do that it has not done. */
  predicate Due(s: Sys, m: Move)
  {
    match m
    case GuestStep => !s.guest.Idle?
    case PWake => s.peer.bell
    case PTake => s.peer.awake && s.peer.held < Sub32(s.req.prod, s.req.cons)
    case PRelease => s.peer.awake && s.peer.held > 0
    case PPut =>
      s.peer.awake && s.peer.backlog != [] && Sub32(Add32(s.rsp.prod, |s.peer.extra|), s.rsp.cons) < XENBUS_RING_SIZE
    case PPublish => s.peer.awake && s.peer.extra != []
    case PNotify => s.peer.awake && s.peer.owes
    case _ => false
  }

  lemma HelpfulIsDue(s: Sys)
    requires Inv(s) && Served(s) && !s.guest.Idle?
    ensures Due(s, Helpful(s))
  {
    hide Inv, Sub32, Add32;
    Facts(s);
    Bounds(s);
    if (s.guest.WPoll? || s.guest.RPoll?) && !s.pending && !Blocked(s) { WillBeNotified(s); }
  }

  /** In the course of `moves`, the move `m` is made, or there is no reason for it at
      some point. */
  ghost predicate Heeded(s: Sys, moves: seq<Move>, m: Move)
    requires Inv(s)
    decreases |moves|
  {
    || !Due(s, m)
    || (moves != [] && (moves[0] == m || (NextInv(s, moves[0]); Heeded(Next(s, moves[0]), moves[1..], m))))
  }

  /** A round in which nothing that remains due is put off, among any other moves. */
  ghost predicate FairRound(s: Sys, moves: seq<Move>)
    requires Inv(s)
  {
    && Heeded(s, moves, GuestStep) && Heeded(s, moves, PWake) && Heeded(s, moves, PTake) && Heeded(s, moves, PRelease)
    && Heeded(s, moves, PPut) && Heeded(s, moves, PPublish) && Heeded(s, moves, PNotify)
  }

  lemma {:induction false} HelpAdvances(s: Sys, moves: seq<Move>)
    requires Inv(s) && Served(s) && !s.guest.Idle? && Heeded(s, moves, Helpful(s))
    ensures Returns(s, moves) ||
            (!Run(s, moves).guest.Idle? && Served(Run(s, moves)) && Remaining(Run(s, moves)) < Remaining(s))
    decreases |moves|
  {
    hide Inv, Next, Served, Remaining, Helpful, Due;
    HelpfulIsDue(s);
    NextAdvances(s, moves[0]);
    NextInv(s, moves[0]);
    var t := Next(s, moves[0]);
    if !t.guest.Idle? {
      if Remaining(t) < Remaining(s) {
        NothingLost(t, moves[1..]);
      } else {
        HelpAdvances(t, moves[1..]);
      }
    }
  }

  /** Rounds one after the other, each fair from where the one before ends. */
  ghost predicate FairRounds(s: Sys, rounds: seq<seq<Move>>)
    requires Inv(s)
    decreases |rounds|
  {
    rounds == [] || (FairRound(s, rounds[0]) && FairRounds(Run(s, rounds[0]), rounds[1..]))
  }

  lemma {:induction false} RunsOn(s: Sys, moves: seq<Move>, more: seq<Move>)
    requires Inv(s)
    ensures Returns(s, moves) || Returns(Run(s, moves), more) ==> Returns(s, moves + more)
    decreases |moves|
  {
    hide Inv, Next;
    if moves == [] {
      assert moves + more == more;
    } else {
      RingSizes(s);
      NextInv(s, moves[0]);
      assert (moves + more)[0] == moves[0] && (moves + more)[1..] == moves[1..] + more;
      RunsOn(Next(s, moves[0]), moves[1..], more);
    }
  }

  /** Main result: a call under way returns within any sequence of fair rounds that is
      long enough. */
  lemma {:induction false} CallReturns(s: Sys, rounds: seq<seq<Move>>)
    requires Inv(s) && Served(s) && !s.guest.Idle?
    requires FairRounds(s, rounds) && |rounds| >= Remaining(s)
    ensures Returns(s, Concat(rounds))
    decreases |rounds|
  {
    hide Inv, Next, Served, Remaining, Helpful, Returns, Heeded;
    SomethingLeft(s);
    HelpIsHeeded(s, rounds[0]);
    HelpAdvances(s, rounds[0]);
    if !Returns(s, rounds[0]) {
      CallReturns(Run(s, rounds[0]), rounds[1..]);
    }
    RunsOn(s, rounds[0], Concat(rounds[1..]));
  }

  lemma SomethingLeft(s: Sys)
    requires Inv(s) && !s.guest.Idle?
    ensures 0 < Remaining(s) <= Left(s.guest) * ROUNDS_PER_BYTE + 1038
  {
    hide Inv;
    Bounds(s);
  }

  lemma HelpIsHeeded(s: Sys, moves: seq<Move>)
    requires Inv(s) && FairRound(s, moves)
    ensures Heeded(s, moves, Helpful(s))
  {
    hide Inv, Heeded;
  }

  /** xenbus_write() returns, whatever has gone before. */
  lemma WriteReturns(s: Sys, data: seq<byte>, rounds: seq<seq<Move>>)
    requires Inv(s) && s.guest.Idle? && 0 < |data| < WORD
    requires FairRounds(Called(s, CallWrite(data)), rounds)
    requires |rounds| >= (|data| + 1) * ROUNDS_PER_BYTE
    ensures Returns(Called(s, CallWrite(data)), Concat(rounds))
  {
    hide Inv, Returns, Remaining, FairRounds;
    var t := Called(s, CallWrite(data));
    SomethingLeft(t);
    CallReturns(t, rounds);
  }

  /** Reply bytes that have been sent or composed, and not been read. */
  function Supply(s: Sys): int { Available(s) + |s.peer.extra| + |s.peer.backlog| }

  /** xenbus_read() returns if the peer has what it asks for. */
  lemma ReadReturns(s: Sys, len: nat, rounds: seq<seq<Move>>)
    requires Inv(s) && s.guest.Idle? && 0 < len < WORD && len <= Supply(s)
    requires FairRounds(Called(s, CallRead(len)), rounds)
    requires |rounds| >= (len + 1) * ROUNDS_PER_BYTE
    ensures Returns(Called(s, CallRead(len)), Concat(rounds))
  {
    hide Inv, Returns, Remaining, FairRounds;
    var t := Called(s, CallRead(len));
    SomethingLeft(t);
    CallReturns(t, rounds);
  }

  // ----- and otherwise it does not -----

  lemma ReaderStaysUnserved(s: Sys)
    requires Inv(s) && Reading(s.guest) && !Served(s)
    ensures |s.rsp.cells| == XENBUS_RING_SIZE
    ensures Reading(ReaderStep(s).guest) && !Served(ReaderStep(s))
  {
    hide Inv, Carries, Sub32, Add32, Index, Mask;
    RingSizes(s);
    Bounds(s);
  }

  lemma PeerLeavesUnserved(s: Sys, m: Move)
    requires Reading(s.guest) && !Served(s) && IsPeerMove(m) && !m.PCompose?
    requires |s.req.cells| == |s.rsp.cells| == XENBUS_RING_SIZE
    ensures Reading(PeerStep(s, m).guest) && !Served(PeerStep(s, m))
  {
    hide Sub32, Add32, Mask, Left, Reading;
  }

  lemma NeverServed(s: Sys, m: Move)
    requires Inv(s) && Reading(s.guest) && !Served(s) && !m.PCompose?
    ensures |s.req.cells| == |s.rsp.cells| == XENBUS_RING_SIZE
    ensures Reading(Next(s, m).guest) && !Served(Next(s, m))
  {
    hide Inv, Served, PeerStep, ReaderStep;
    RingSizes(s);
    if m.GuestStep? {
      ReaderStaysUnserved(s);
    } else if IsPeerMove(m) {
      PeerLeavesUnserved(s, m);
    }
  }

  /** A read of more than the peer has, or composes, never returns. */
  lemma {:induction false} UnservedNeverReturns(s: Sys, moves: seq<Move>)
    requires Inv(s) && Reading(s.guest) && !Served(s)
    requires forall i :: 0 <= i < |moves| ==> !moves[i].PCompose?
    ensures !Returns(s, moves)
    decreases |moves|
  {
    hide Inv, Next, Served;
    if moves != [] {
      NeverServed(s, moves[0]);
      NextInv(s, moves[0]);
      UnservedNeverReturns(Next(s, moves[0]), moves[1..]);
    }
  }

  lemma {:induction false} ComposesNowhere(rounds: seq<seq<Move>>)
    requires forall i, j :: 0 <= i < |rounds| && 0 <= j < |rounds[i]| ==> !rounds[i][j].PCompose?
    ensures forall i :: 0 <= i < |Concat(rounds)| ==> !Concat(rounds)[i].PCompose?
    decreases |rounds|
  {
    if rounds != [] {
      assert forall i, j :: 0 <= i < |rounds[1..]| && 0 <= j < |rounds[1..][i]| ==>
          rounds[1..][i][j] == rounds[i + 1][j];
      ComposesNowhere(rounds[1..]);
    }
  }

  /** So with a peer that composes nothing more, xenbus_read() returns if and only if
      the peer has what it asks for. */
  lemma ReadReturnsIff(s: Sys, len: nat, rounds: seq<seq<Move>>)
    requires Inv(s) && s.guest.Idle? && 0 < len < WORD
    requires FairRounds(Called(s, CallRead(len)), rounds)
    requires forall i, j :: 0 <= i < |rounds| && 0 <= j < |rounds[i]| ==> !rounds[i][j].PCompose?
    requires |rounds| >= (len + 1) * ROUNDS_PER_BYTE
    ensures Returns(Called(s, CallRead(len)), Concat(rounds)) <==> len <= Supply(s)
  {
    hide Inv, Returns, FairRounds;
    if len <= Supply(s) {
      ReadReturns(s, len, rounds);
    } else {
      ComposesNowhere(rounds);
      UnservedNeverReturns(Called(s, CallRead(len)), Concat(rounds));
    }
  }
}
