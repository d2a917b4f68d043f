/** What holds in every reachable state of the XenBus protocol, whatever the
    order in which guest and peer take their steps. */
module XenbusSafety {
  import opened Index32
  import opened XsWire
  import opened ByteRing
  import opened XenbusProtocol

  ghost function Run(s: Sys, moves: seq<Move>): (t: Sys)
    requires Inv(s)
    ensures Inv(t)
    decreases |moves|
  {
    if moves == [] then s
    else
      NextInv(s, moves[0]);
      Run(Next(s, moves[0]), moves[1..])
  }

  /** A call begins. */
  ghost function Called(s: Sys, m: Move): (t: Sys)
    requires Inv(s)
    ensures Inv(t)
  {
    RingSizes(s);
    NextInv(s, m);
    Next(s, m)
  }

  /** Both rings are exact FIFOs, whatever the indices are and however often they
      wrap: each side has received a prefix of what the other has published, which
      is a prefix of what it was asked to send; no unread byte has been overwritten;
      the guest never has more than 1023 request bytes outstanding. */
  lemma Fifo(s0: Sys, moves: seq<Move>)
    requires Initial(s0)
    ensures Inv(s0)
    ensures var s := Run(s0, moves);
            && s.peer.got <= s.log.reqSent <= s.log.wanted
            && s.log.guestGot <= s.log.rspSent
            && (s.guest.Idle? ==> s.log.reqSent == s.log.wanted && |s.log.guestGot| == s.log.asked)
            && Sub32(s.req.prod, s.req.cons) == |s.log.reqSent| - s.log.reqReleased <= 1023
            && (forall j: nat {:trigger Cell(XENBUS_RING_SIZE, s.log.reqBase, j)} ::
                |s.peer.got| <= j < |s.log.reqSent| ==>
                 s.req.cells[Cell(XENBUS_RING_SIZE, s.log.reqBase, j)] == s.log.reqSent[j])
            && (forall j: nat {:trigger Cell(XENBUS_RING_SIZE, s.log.rspBase, j)} ::
                |s.log.guestGot| <= j < |s.log.rspSent| ==>
                 s.rsp.cells[Cell(XENBUS_RING_SIZE, s.log.rspBase, j)] == s.log.rspSent[j])
  {
    InitialInv(s0);
    var s := Run(s0, moves);
    var L := s.log;
    IndexDifference(L.reqBase + |L.reqSent|, L.reqBase + L.reqReleased);
    forall j: nat | |L.guestGot| <= j < |L.rspSent|
      ensures s.rsp.cells[Cell(XENBUS_RING_SIZE, L.rspBase, j)] == L.rspSent[j]
    {
      GetByte(s.rsp, L.rspBase, L.rspSent, s.peer.extra, L.rspReleased, j);
    }
    forall j: nat | |s.peer.got| <= j < |L.reqSent|
      ensures s.req.cells[Cell(XENBUS_RING_SIZE, L.reqBase, j)] == L.reqSent[j]
    {
      GetByte(s.req, L.reqBase, L.reqSent, Copied(s.guest), L.reqReleased, j);
    }
  }

  // ----- wake-ups -----

  predicate GuestAsleep(s: Sys) {
    (s.guest.WPoll? || s.guest.RPoll?) && !s.pending
  }

  predicate PeerAsleep(s: Sys) {
    !s.peer.awake && !s.peer.bell
  }

  /** A look at the shared indices would find room to write, or bytes to read. */
  predicate RingUsable(s: Sys) {
    if s.guest.WPoll? then XENBUS_RING_SIZE - 1 - Mask(Sub32(s.req.prod, s.req.cons)) != 0
    else Sub32(s.rsp.prod, s.rsp.cons) != 0
  }

  lemma UsableMeans(s: Sys)
    requires Inv(s) && GuestAsleep(s)
    ensures RingUsable(s) <==>
            if s.guest.WPoll? then |s.log.reqSent| - s.log.reqReleased < XENBUS_RING_SIZE - 1
            else s.log.rspReleased < |s.log.rspSent|
  {
    var L := s.log;
    IndexDifference(L.reqBase + |L.reqSent|, L.reqBase + L.reqReleased);
    IndexDifference(L.rspBase + |L.rspSent|, L.rspBase + L.rspReleased);
  }

  /** No lost wake-up: when the guest sleeps although the ring has become usable,
      the peer is awake and still has to notify it; and whenever the guest sleeps,
      the peer has been notified since the guest's last index update. */
  lemma NoLostWakeup(s0: Sys, moves: seq<Move>)
    requires Initial(s0)
    ensures Inv(s0)
    ensures var s := Run(s0, moves);
            GuestAsleep(s) ==>
              && s.log.told
              && (RingUsable(s) ==> s.peer.awake && s.peer.owes)
  {
    InitialInv(s0);
    var s := Run(s0, moves);
    if GuestAsleep(s) {
      UsableMeans(s);
    }
  }

  lemma BothAsleep(s: Sys)
    requires Inv(s) && GuestAsleep(s) && PeerAsleep(s)
    ensures s.guest.RPoll? && s.peer.backlog == [] && s.peer.extra == []
    ensures s.peer.got == s.log.reqSent == s.log.wanted && s.log.guestGot == s.log.rspSent
  {
    hide Carries, Cell, Index, Sub32, Add32, Mask;
    assert NoWork(s);
  }

  /** No deadlock: if both ends sleep, the guest waits for a reply that the peer
      does not have: every request byte has been taken and nothing is left to send. */
  lemma NoDeadlock(s0: Sys, moves: seq<Move>)
    requires Initial(s0)
    ensures Inv(s0)
    ensures var s := Run(s0, moves);
            GuestAsleep(s) && PeerAsleep(s) ==>
              && s.guest.RPoll?
              && s.peer.got == s.log.reqSent == s.log.wanted
              && s.peer.backlog == [] && s.peer.extra == []
              && s.log.guestGot == s.log.rspSent
  {
    hide Inv, Initial, Next;
    InitialInv(s0);
    var s := Run(s0, moves);
    if GuestAsleep(s) && PeerAsleep(s) {
      BothAsleep(s);
    }
  }

  /** A guest that is in a call and not asleep can always take its next step: no
      copy leaves the arrays, and a chunk is never empty. */
  lemma GuestNeverStuck(s: Sys)
    requires Inv(s) && !s.guest.Idle? && !GuestAsleep(s)
    ensures Next(s, GuestStep) != s
  {
    hide Carries, Index;
    var L := s.log;
    CarriesIndices(s.req, L.reqBase, L.reqSent, Copied(s.guest), L.reqReleased);
    CarriesIndices(s.rsp, L.rspBase, L.rspSent, s.peer.extra, L.rspReleased);
    match s.guest
    case WLoadCons(data, done, prod) =>
      assert Mask(Sub32(prod, s.req.cons)) == |L.reqSent| - L.reqReleased;
    case WCopy(data, done, prod, part, k) =>
      if k == part {
        assert Next(s, GuestStep).guest == AfterWrite(data, done + part);
      }
    case RCopy(len, got, cons, part, k) =>
      if k == part {
        assert Next(s, GuestStep).guest == AfterRead(len, got);
      }
    case _ =>
  }
}
