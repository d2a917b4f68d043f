/** xenbus_write() and xenbus_read() of common/xenbus.c, running on the shared
    page in place.  The peer plays the next part of its script before each access
    of the guest, and each access is one step of `XenbusProtocol`, so a call goes
    exactly as `XenbusTurns.Finish` says, whether it returns or not. */
module Xenbus {
  import opened Arith
  import opened Index32
  import opened XsWire
  import opened ByteRing
  import opened XenbusProtocol
  import opened XenbusSafety
  import opened XenbusTurns

  /** The chunk chosen in lines 34-51 fits, and the model takes the same branch. */
  lemma WriteChunk(s: Sys)
    requires Inv(s) && s.guest.WLoadCons?
    ensures var WLoadCons(data, done, prod) := s.guest;
            var space := XENBUS_RING_SIZE - 1 - Mask(Sub32(prod, s.req.cons));
            var part := WritePart(data, done, prod, s.req.cons);
            && (space == 0 ==> Next(s, GuestStep) == s.(guest := WSend(data, done)))
            && (space != 0 ==>
                  && 0 < part && done + part <= |data|
                  && Next(s, GuestStep) == s.(guest := WCopy(data, done, prod, part, 0)))
  {
  }

  /** A write that sleeps has sent what it had done. */
  lemma WriterHasSent(s: Sys, before: seq<byte>)
    requires Inv(s) && s.guest.WPoll? && s.log.wanted == before + s.guest.data
    ensures s.guest.done <= |s.guest.data| && s.log.reqSent == before + s.guest.data[..s.guest.done]
  {
    var WPoll(data, done) := s.guest;
    assert data == data[..done] + data[done..];
    assert s.log.reqSent == (before + data)[..|before| + done];
  }

  /** A read that sleeps has handed out what it took. */
  lemma ReaderHasTaken(s: Sys, before: seq<byte>)
    requires Inv(s) && s.guest.RPoll? && before <= s.log.guestGot && s.log.asked == |before| + s.guest.len
    ensures s.log.guestGot == before + s.guest.got
  {
    assert s.log.guestGot == before + s.log.guestGot[|before|..];
  }

  /** The chunk chosen in lines 78-95 is there to be read. */
  lemma ReadChunk(s: Sys)
    requires Inv(s) && s.guest.RLoadCons?
    ensures var RLoadCons(len, got, prod) := s.guest;
            var part := ReadPart(len, got, prod, s.rsp.cons);
            && (Sub32(prod, s.rsp.cons) == 0 ==> Next(s, GuestStep) == s.(guest := RSend(len, got)))
            && (Sub32(prod, s.rsp.cons) != 0 ==>
                  && 0 < part && |got| + part <= len
                  && Next(s, GuestStep) == s.(guest := RCopy(len, got, s.rsp.cons, part, 0)))
  {
  }

  class Connection {
    // struct xenbus_interface, and the event-channel bit in the shared info page.
    const req: array<byte>
    const rsp: array<byte>
    var reqCons: int
    var reqProd: int
    var rspCons: int
    var rspProd: int
    var pending: bool
    // The other end, and what it does at the successive points where it can interfere.
    var peer: Peer
    var script: seq<seq<Move>>
    // The guest's program point and the history of the connection.
    ghost var guest: Guest
    ghost var log: Log

    /** A connection as the domain builder leaves it: both rings drained, the indices
        anywhere, the page holding whatever earlier traffic left in it. */
    constructor (page: seq<byte>, reqBase: nat, rspBase: nat, pending: bool, script: seq<seq<Move>>)
      requires |page| == 2048
      ensures Valid() && Initial(View()) && fresh(req) && fresh(rsp)
      ensures log.reqBase == reqBase && log.rspBase == rspBase
      ensures this.script == script && this.pending == pending
    {
      req := new byte[XENBUS_RING_SIZE](i requires 0 <= i < XENBUS_RING_SIZE => page[i]);
      rsp := new byte[XENBUS_RING_SIZE](i requires 0 <= i < XENBUS_RING_SIZE => page[XENBUS_RING_SIZE + i]);
      reqProd, reqCons, rspProd, rspCons := Index(reqBase), Index(reqBase), Index(rspBase), Index(rspBase);
      this.pending, this.script := pending, script;
      peer := Peer(true, false, false, false, [], 0, [], []);
      guest := Idle([]);
      log := Log(reqBase, [], 0, rspBase, [], 0, [], [], 0, false);
      new;
      InitialInv(View());
    }

    ghost function View(): Sys
      reads this, req, rsp
    {
      Sys(Ring(req[..], reqProd, reqCons), Ring(rsp[..], rspProd, rspCons), pending, guest, peer, log)
    }

    ghost predicate Valid()
      reads this, req, rsp
    {
      req != rsp && Inv(View())
    }

    /** Nothing the guest owns has changed; the peer's streams have only grown. */
    twostate predicate GuestUntouched()
      reads this, req, rsp
    {
      && guest == old(guest)
      && reqProd == old(reqProd) && rspCons == old(rspCons) && req[..] == old(req[..])
      && log.reqSent == old(log.reqSent) && log.wanted == old(log.wanted)
      && log.guestGot == old(log.guestGot) && log.asked == old(log.asked) && log.told == old(log.told)
      && old(log.rspSent) <= log.rspSent
    }

    // ----- the peer -----

    /** The peer reads a request byte, or gives back those it has read. */
    method PeerConsumes(m: Move)
      requires Valid() && (m.PTake? || m.PRelease?)
      modifies this`reqCons, this`peer, this`log
      ensures View() == Next(old(View()), m) && Valid() && GuestUntouched()
    {
      hide Inv;
      RingSizes(View());
      NextInv(View(), m);
      var p := peer.(sawIdle := false);
      if !p.awake {
        return;
      }
      if m.PTake? {
        if p.held < Sub32(reqProd, reqCons) {
          peer := p.(got := p.got + [req[Mask(Add32(reqCons, p.held))]], held := p.held + 1);
        }
      } else {
        reqCons := Add32(reqCons, p.held);
        log := log.(reqReleased := log.reqReleased + p.held);
        peer := p.(held := 0, owes := true);
      }
    }

    /** The peer puts a reply byte into the ring, or publishes those it has put. */
    method PeerProduces(m: Move)
      requires Valid() && (m.PPut? || m.PPublish?)
      modifies this`rspProd, this`peer, this`log, rsp
      ensures View() == Next(old(View()), m) && Valid() && GuestUntouched()
    {
      hide Inv;
      RingSizes(View());
      NextInv(View(), m);
      var p := peer.(sawIdle := false);
      if !p.awake {
        return;
      }
      if m.PPut? {
        var next := Add32(rspProd, |p.extra|);
        if p.backlog != [] && Sub32(next, rspCons) < XENBUS_RING_SIZE {
          rsp[Mask(next)] := p.backlog[0];
          peer := p.(backlog := p.backlog[1..], extra := p.extra + [p.backlog[0]]);
        }
      } else {
        rspProd := Add32(rspProd, |p.extra|);
        log := log.(rspSent := log.rspSent + p.extra);
        peer := p.(extra := [], owes := true);
      }
    }

    /** The peer composes a reply, notifies the guest, looks at the rings, sleeps or wakes. */
    method PeerRests(m: Move)
      requires Valid() && (m.PCompose? || m.PNotify? || m.PCheck? || m.PSleep? || m.PWake?)
      modifies this`pending, this`peer
      ensures View() == Next(old(View()), m) && Valid() && GuestUntouched()
    {
      hide Inv;
      NextInv(View(), m);
      var p := peer.(sawIdle := false);
      match m
      case PCompose(bytes) => if p.awake { peer := p.(backlog := p.backlog + bytes); }
      case PNotify => if p.awake { pending := true; peer := p.(owes := false); }
      case PCheck =>
        if && p.awake && !p.owes && p.extra == [] && p.held == 0
           && Sub32(reqProd, reqCons) == 0
           && (p.backlog == [] || Sub32(rspProd, rspCons) == XENBUS_RING_SIZE)
        {
          peer := p.(sawIdle := true);
        }
      case PSleep => if peer.sawIdle && !p.bell { peer := peer.(awake := false); }
      case PWake => if p.bell { peer := p.(awake := true, bell := false); }
    }

    /** One move of the peer. */
    method PeerMove(m: Move)
      requires Valid() && IsPeerMove(m)
      modifies this`reqCons, this`rspProd, this`pending, this`peer, this`log, rsp
      ensures View() == Next(old(View()), m) && Valid() && GuestUntouched()
    {
      hide Inv, Next;
      if m.PTake? || m.PRelease? {
        PeerConsumes(m);
      } else if m.PPut? || m.PPublish? {
        PeerProduces(m);
      } else {
        PeerRests(m);
      }
    }

    /** A point where the peer can interfere: it plays the next part of its script. */
    method Interfere()
      requires Valid()
      modifies this`reqCons, this`rspProd, this`pending, this`peer, this`log, this`script, rsp
      ensures Valid() && GuestUntouched()
      ensures View() == Run(old(View()), Part(old(script))) && script == Tail(old(script))
      ensures old(script) == [] ==> pending == old(pending)
    {
      hide Inv, Next;
      if script == [] {
        return;
      }
      var part := script[0];
      script := script[1..];
      for i := 0 to |part|
        invariant Valid() && GuestUntouched() && script == old(script)[1..]
        invariant View() == Run(old(View()), PeerMoves(part[..i]))
      {
        assert part[..i + 1][..i] == part[..i];
        if IsPeerMove(part[i]) {
          RunAppend(old(View()), PeerMoves(part[..i]), part[i]);
          PeerMove(part[i]);
        } else {
          assert PeerMoves(part[..i + 1]) == PeerMoves(part[..i]);
        }
      }
      assert part[..|part|] == part;
    }

    // ----- steps of the guest -----

    /** A step that changes nothing but where the guest is. */
    ghost method Step()
      requires Valid()
      requires || guest.WLoad? || guest.RLoad? || guest.WLoadCons? || guest.RLoadCons? || guest.WPoll? || guest.RPoll?
               || (guest.RCopy? && guest.k < guest.part)
      modifies this`guest
      ensures View() == Next(old(View()), GuestStep) && Valid()
    {
      NextInv(View(), GuestStep);
      guest := Next(View(), GuestStep).guest;
    }

    method StoreStep(off: nat, b: byte)
      requires Valid() && guest.WCopy? && guest.k < guest.part
      requires off == Mask(guest.prod) + guest.k && guest.done + guest.k < |guest.data|
      requires b == guest.data[guest.done + guest.k]
      modifies req, this`guest
      ensures View() == Next(old(View()), GuestStep) && Valid() && SameStreams()
      ensures guest == WCopy(old(guest).data, old(guest).done, old(guest).prod, old(guest).part, old(guest).k + 1)
    {
      NextInv(View(), GuestStep);
      guest := Next(View(), GuestStep).guest;
      req[off] := b;
    }

    method PublishReqStep(prod: int)
      requires Valid() && guest.WCopy? && guest.k == guest.part && prod == Add32(guest.prod, guest.part)
      modifies this`reqProd, this`guest, this`log
      ensures View() == Next(old(View()), GuestStep) && Valid()
      ensures SameCalls() && log.guestGot == old(log.guestGot)
      ensures guest == AfterWrite(old(guest).data, old(guest).done + old(guest).part)
    {
      NextInv(View(), GuestStep);
      ghost var t := Next(View(), GuestStep);
      guest, log := t.guest, t.log;
      reqProd := prod;
    }

    method PublishRspStep(cons: int)
      requires Valid() && guest.RCopy? && guest.k == guest.part && cons == Add32(guest.cons, guest.part)
      modifies this`rspCons, this`guest, this`log
      ensures View() == Next(old(View()), GuestStep) && Valid()
      ensures SameCalls() && log.reqSent == old(log.reqSent) && old(log.guestGot) <= log.guestGot
      ensures guest == AfterRead(old(guest).len, old(guest).got)
    {
      NextInv(View(), GuestStep);
      ghost var t := Next(View(), GuestStep);
      guest, log := t.guest, t.log;
      rspCons := cons;
    }

    method SendStep()
      requires Valid() && (guest.WSend? || guest.RSend?)
      modifies this`peer, this`log, this`guest
      ensures View() == Next(old(View()), GuestStep) && Valid() && SameStreams() && log.told
      ensures guest == (if old(guest).WSend? then WClear(old(guest).data, old(guest).done)
                        else RClear(old(guest).len, old(guest).got))
    {
      NextInv(View(), GuestStep);
      guest := Next(View(), GuestStep).guest;
      peer := peer.(bell := true);
      log := log.(told := true);
    }

    method ClearStep() returns (was: bool)
      requires Valid() && (guest.WClear? || guest.RClear?)
      modifies this`pending, this`guest
      ensures View() == Next(old(View()), GuestStep) && Valid()
      ensures was == old(pending) && !pending
      ensures guest == (match old(guest)
                        case WClear(data, done) => if was then WLoad(data, done) else WPoll(data, done)
                        case RClear(len, got) => if was then RLoad(len, got) else RPoll(len, got)
                        case _ => guest)
    {
      NextInv(View(), GuestStep);
      guest := Next(View(), GuestStep).guest;
      was := pending;
      pending := false;
    }

    // ----- single accesses of the guest -----

    /** How the call under way will end. */
    ghost function Outcome(): (Sys, Script)
      reads this, req, rsp
      requires Valid()
    {
      Finish(View(), script)
    }

    /** The calls made so far are the same, and the peer's streams have only grown. */
    twostate predicate SameCalls()
      reads this
    {
      log.wanted == old(log.wanted) && log.asked == old(log.asked) && old(log.rspSent) <= log.rspSent
    }

    twostate predicate SameStreams()
      reads this
    {
      SameCalls() && log.reqSent == old(log.reqSent) && log.guestGot == old(log.guestGot)
    }

    /** Accesses use up the script, a part each; without one, nobody sets the bit. */
    twostate predicate ScriptUsed()
      reads this
    {
      script == Tail(old(script)) && (old(script) == [] ==> pending == old(pending))
    }

    /** Line 31. */
    method LoadReqProd() returns (prod: int)
      requires Valid() && guest.WLoad?
      modifies this`reqCons, this`rspProd, this`pending, this`peer, this`log, this`script, this`guest, rsp
      ensures Valid() && Outcome() == old(Outcome()) && SameStreams() && ScriptUsed()
      ensures guest == WLoadCons(old(guest).data, old(guest).done, prod)
    {
      hide Inv, Finish, Run;
      FinishTurn(View(), script);
      Interfere();
      RingSizes(View());
      prod := reqProd;
      Step();
    }

    /** Lines 32-51: load the other index, and choose the chunk; `left` bytes are to go. */
    method LoadReqCons(prod: int, left: nat) returns (part: nat)
      requires Valid() && guest.WLoadCons? && guest.prod == prod && left == |guest.data| - guest.done
      modifies this`reqCons, this`rspProd, this`pending, this`peer, this`log, this`script, this`guest, rsp
      ensures Valid() && Outcome() == old(Outcome()) && SameStreams() && ScriptUsed()
      ensures part <= left
      ensures guest == if part == 0 then WSend(old(guest).data, old(guest).done)
                       else WCopy(old(guest).data, old(guest).done, prod, part, 0)
    {
      hide Inv, Next, Finish, Run;
      FinishTurn(View(), script);
      Interfere();
      var cons := reqCons;
      WriteChunk(View());
      Step();
      part := XENBUS_RING_SIZE - 1 - Mask(Sub32(prod, cons));
      if part != 0 {
        part := Min(Min(part, XENBUS_RING_SIZE - Mask(prod)), left);
      }
    }

    /** One byte of the memcpy of line 53. */
    method StoreReqByte(off: nat, b: byte)
      requires Valid() && guest.WCopy? && guest.k < guest.part
      requires off == Mask(guest.prod) + guest.k && guest.done + guest.k < |guest.data|
      requires b == guest.data[guest.done + guest.k]
      modifies this`reqCons, this`rspProd, this`pending, this`peer, this`log, this`script, this`guest, req, rsp
      ensures Valid() && Outcome() == old(Outcome()) && SameStreams() && ScriptUsed()
      ensures guest == WCopy(old(guest).data, old(guest).done, old(guest).prod, old(guest).part, old(guest).k + 1)
    {
      hide Inv, Next, Finish, Run;
      FinishTurn(View(), script);
      Interfere();
      StoreStep(off, b);
    }

    /** Line 58. */
    method PublishReqProd(prod: int)
      requires Valid() && guest.WCopy? && guest.k == guest.part && prod == Add32(guest.prod, guest.part)
      modifies this`reqProd, this`reqCons, this`rspProd, this`pending, this`peer, this`log, this`script, this`guest, rsp
      ensures Valid() && Outcome() == old(Outcome()) && SameCalls() && ScriptUsed()
      ensures log.guestGot == old(log.guestGot)
      ensures guest == AfterWrite(old(guest).data, old(guest).done + old(guest).part)
    {
      hide Inv, Next, Finish, Run;
      FinishTurn(View(), script);
      Interfere();
      PublishReqStep(prod);
    }

    /** Line 75. */
    method LoadRspProd() returns (prod: int)
      requires Valid() && guest.RLoad?
      modifies this`reqCons, this`rspProd, this`pending, this`peer, this`log, this`script, this`guest, rsp
      ensures Valid() && Outcome() == old(Outcome()) && SameStreams() && ScriptUsed()
      ensures guest == RLoadCons(old(guest).len, old(guest).got, prod)
    {
      hide Inv, Finish, Run;
      FinishTurn(View(), script);
      Interfere();
      RingSizes(View());
      prod := rspProd;
      Step();
    }

    /** Lines 76-95: load the guest's own index, and choose the chunk; `left` bytes are to come. */
    method LoadRspCons(prod: int, left: nat) returns (cons: int, part: nat)
      requires Valid() && guest.RLoadCons? && guest.prod == prod && left == guest.len - |guest.got|
      modifies this`reqCons, this`rspProd, this`pending, this`peer, this`log, this`script, this`guest, rsp
      ensures Valid() && Outcome() == old(Outcome()) && SameStreams() && ScriptUsed()
      ensures part <= left
      ensures guest == if part == 0 then RSend(old(guest).len, old(guest).got)
                       else RCopy(old(guest).len, old(guest).got, cons, part, 0)
    {
      hide Inv, Next, Finish, Run;
      FinishTurn(View(), script);
      Interfere();
      cons := rspCons;
      ReadChunk(View());
      Step();
      part := Sub32(prod, cons);
      if part != 0 {
        part := Min(Min(part, XENBUS_RING_SIZE - Mask(cons)), left);
      }
    }

    /** One byte of the memcpy of line 97. */
    method LoadRspByte(off: nat) returns (b: byte)
      requires Valid() && guest.RCopy? && guest.k < guest.part && off == Mask(guest.cons) + guest.k
      modifies this`reqCons, this`rspProd, this`pending, this`peer, this`log, this`script, this`guest, rsp
      ensures Valid() && Outcome() == old(Outcome()) && SameStreams() && ScriptUsed()
      ensures old(guest.RCopy?) && guest == old(guest).(got := old(guest.got) + [b], k := old(guest.k) + 1)
    {
      hide Inv, Finish, Run;
      FinishTurn(View(), script);
      Interfere();
      CopyInside(View());
      RingSizes(View());
      Step();
      b := rsp[off];
    }

    /** Line 102. */
    method PublishRspCons(cons: int)
      requires Valid() && guest.RCopy? && guest.k == guest.part && cons == Add32(guest.cons, guest.part)
      modifies this`rspCons, this`reqCons, this`rspProd, this`pending, this`peer, this`log, this`script, this`guest, rsp
      ensures Valid() && Outcome() == old(Outcome()) && SameCalls() && ScriptUsed()
      ensures log.reqSent == old(log.reqSent) && old(log.guestGot) <= log.guestGot
      ensures guest == AfterRead(old(guest).len, old(guest).got)
    {
      hide Inv, Next, Finish, Run;
      FinishTurn(View(), script);
      Interfere();
      PublishRspStep(cons);
    }

    /** hypercall_evtchn_send(). */
    method Send()
      requires Valid() && (guest.WSend? || guest.RSend?)
      modifies this`reqCons, this`rspProd, this`pending, this`peer, this`log, this`script, this`guest, rsp
      ensures Valid() && Outcome() == old(Outcome()) && SameStreams() && ScriptUsed() && log.told
      ensures guest == (if old(guest).WSend? then WClear(old(guest).data, old(guest).done)
                        else RClear(old(guest).len, old(guest).got))
    {
      hide Inv, Next, Finish, Run;
      FinishTurn(View(), script);
      Interfere();
      SendStep();
    }

    /** test_and_clear_bit(). */
    method TestAndClearBit() returns (was: bool)
      requires Valid() && (guest.WClear? || guest.RClear?)
      modifies this`reqCons, this`rspProd, this`pending, this`peer, this`log, this`script, this`guest, rsp
      ensures Valid() && Outcome() == old(Outcome()) && SameStreams()
      ensures script == Tail(old(script)) && log.told == old(log.told)
      ensures !pending && (old(script) == [] ==> was == old(pending))
      ensures guest == (match old(guest)
                        case WClear(data, done) => if was then WLoad(data, done) else WPoll(data, done)
                        case RClear(len, got) => if was then RLoad(len, got) else RPoll(len, got)
                        case _ => guest)
    {
      hide Inv, Next, Finish, Run;
      FinishTurn(View(), script);
      Interfere();
      was := ClearStep();
    }

    /** hypercall_poll(): returns at once if the bit is set, otherwise sleeps until
        the peer sets it.  `woken` is false if the script ends before that. */
    method Poll() returns (woken: bool)
      requires Valid() && (guest.WPoll? || guest.RPoll?)
      modifies this`reqCons, this`rspProd, this`pending, this`peer, this`log, this`script, this`guest, rsp
      ensures Valid() && Outcome() == old(Outcome()) && SameStreams() && log.told == old(log.told)
      ensures |script| <= |old(script)|
      ensures woken ==> pending && guest == (if old(guest).WPoll? then WLoad(old(guest).data, old(guest).done)
                                             else RLoad(old(guest).len, old(guest).got))
      ensures !woken ==> !pending && script == [] && guest == old(guest)
      ensures old(script) == [] ==> woken == old(pending)
    {
      while true
        invariant Valid() && Outcome() == old(Outcome()) && GuestUntouched()
        invariant |script| <= |old(script)| && (old(script) == [] ==> pending == old(pending))
        decreases |script|
      {
        if script == [] && !pending {
          return false;
        }
        woken := Doze();
        if woken {
          return;
        }
      }
    }

    /** A turn of a guest in hypercall_poll(). */
    method Doze() returns (woken: bool)
      requires Valid() && (guest.WPoll? || guest.RPoll?) && (script != [] || pending)
      modifies this`reqCons, this`rspProd, this`pending, this`peer, this`log, this`script, this`guest, rsp
      ensures Valid() && Outcome() == old(Outcome()) && SameStreams() && ScriptUsed() && log.told == old(log.told)
      ensures woken == pending
      ensures guest == (if !woken then old(guest) else if old(guest).WPoll? then WLoad(old(guest).data, old(guest).done)
                        else RLoad(old(guest).len, old(guest).got))
      ensures !woken ==> GuestUntouched()
    {
      hide Inv, Finish, Run;
      FinishTurn(View(), script);
      Interfere();
      RingSizes(View());
      Step();
      woken := pending;
    }

    /** hypercall_evtchn_send() outside the two transfer loops. */
    method Kick()
      requires Valid() && guest.Idle?
      modifies this`reqCons, this`rspProd, this`pending, this`peer, this`log, this`script, rsp
      ensures Valid() && guest == old(guest) && SameStreams() && log.told
      ensures View() == Turn(old(View()), old(script), CallNotify) && script == Tail(old(script))
    {
      Interfere();
      NextInv(View(), CallNotify);
      peer := peer.(bell := true);
      log := log.(told := true);
    }

    // ----- lines 36-45 and 80-89 -----

    ghost function Reload(g: Guest): Guest {
      match g
      case WSend(data, done) => WLoad(data, done)
      case RSend(len, got) => RLoad(len, got)
      case _ => g
    }

    /** Lines 39-41 and 83-85: notify the peer, and test and clear the bit. */
    method SendAndTest() returns (was: bool)
      requires Valid() && (guest.WSend? || guest.RSend?)
      modifies this`reqCons, this`rspProd, this`pending, this`peer, this`log, this`script, this`guest, rsp
      ensures Valid() && Outcome() == old(Outcome()) && SameStreams() && !pending && log.told
      ensures was ==> guest == Reload(old(guest))
      ensures !was ==> guest == (if old(guest).WSend? then WPoll(old(guest).data, old(guest).done)
                                 else RPoll(old(guest).len, old(guest).got))
      ensures |script| <= |old(script)| && (old(script) == [] ==> was == old(pending))
    {
      hide Inv, Next, Finish;
      Send();
      was := TestAndClearBit();
    }

    /** Kick the peer, and sleep unless it has already answered. A guest that goes on
        without having found the bit set finds it set when it wakes; one that does not
        go on sleeps for ever, the bit clear and the peer notified. */
    method KickAndWait() returns (woken: bool, was: bool)
      requires Valid() && (guest.WSend? || guest.RSend?)
      modifies this`reqCons, this`rspProd, this`pending, this`peer, this`log, this`script, this`guest, rsp
      ensures Valid() && Outcome() == old(Outcome()) && SameStreams()
      ensures woken ==> guest == Reload(old(guest)) && (was || pending)
      ensures !woken ==> !was && !pending && script == [] && log.told
                         && guest == (if old(guest).WSend? then WPoll(old(guest).data, old(guest).done)
                                      else RPoll(old(guest).len, old(guest).got))
      ensures |script| <= |old(script)|
      ensures old(script) == [] ==> was == woken == old(pending) && !pending
    {
      hide Inv, Next, Finish;
      was := SendAndTest();
      woken := was;
      if !was {
        woken := Poll();
      }
    }

    // ----- xenbus_write -----

    /** The memcpy of line 53, byte by byte. */
    method CopyIn(data: seq<byte>, done: nat, prod: int, part: nat)
      requires Valid() && guest == WCopy(data, done, prod, part, 0) && done + part <= |data|
      modifies this`reqCons, this`rspProd, this`pending, this`peer, this`log, this`script, this`guest, req, rsp
      ensures Valid() && Outcome() == old(Outcome()) && SameStreams() && guest == WCopy(data, done, prod, part, part)
      ensures |script| <= |old(script)| && (old(script) == [] ==> pending == old(pending))
    {
      hide Inv, Next, Finish;
      for k := 0 to part
        invariant Valid() && Outcome() == old(Outcome()) && SameStreams() && guest == WCopy(data, done, prod, part, k)
        invariant |script| <= |old(script)| && (old(script) == [] ==> pending == old(pending))
      {
        StoreReqByte(Mask(prod) + k, data[done + k]);
      }
    }

    /** One pass of the loop of lines 29-62. */
    method WriteSome(data: seq<byte>, done: nat) returns (ok: bool, part: nat)
      requires Valid() && guest == WLoad(data, done) && done < |data|
      modifies this, req, rsp
      ensures Valid() && Outcome() == old(Outcome()) && SameCalls() && log.guestGot == old(log.guestGot)
      ensures ok ==> done + part <= |data| && guest == AfterWrite(data, done + part)
      ensures !ok ==> guest == WPoll(data, done) && !pending && script == [] && log.told
      ensures old(script) != [] ==> |script| < |old(script)|
      ensures ok && old(script) == [] ==>
                script == [] && ((part > 0 && pending == old(pending)) || (part == 0 && old(pending) && !pending))
    {
      hide Inv, Next, Finish;
      var prod := LoadReqProd();
      part := LoadReqCons(prod, |data| - done);
      if part == 0 {
        ghost var was;
        ok, was := KickAndWait();
      } else {
        CopyIn(data, done, prod, part);
        PublishReqProd(Add32(prod, part));
        ok := true;
      }
    }

    /** Write some raw data into the ring, however the peer behaves.  The result is
        false if the peer's script ends while the guest sleeps for space, which it does
        not if the peer goes on serving the call. */
    method Write(data: seq<byte>) returns (ok: bool, ghost done: nat)
      requires Valid() && guest.Idle? && |data| < WORD
      modifies this, req, rsp
      ensures Valid() && (View(), script) == Finish(Called(old(View()), CallWrite(data)), old(script))
      ensures log.wanted == old(log.wanted) + data && done <= |data|
      ensures log.reqSent == old(log.reqSent) + data[..done]
      ensures log.asked == old(log.asked) && log.guestGot == old(log.guestGot) && old(log.rspSent) <= log.rspSent
      ensures ok ==> guest.Idle? && done == |data|
      ensures !ok ==> done < |data| && guest == WPoll(data, done) && !pending && script == [] && log.told
      ensures WillBeServed(Called(old(View()), CallWrite(data)), old(script)) ==> ok
    {
      hide Inv, Next, Finish, WillBeServed;
      CallEnds(View(), CallWrite(data), script);
      IdleMeans(View());
      BeginCall(CallWrite(data));
      var sent, len := 0, |data|;
      while len != 0
        invariant 0 <= sent <= |data| && sent + len == |data|
        invariant Valid() && guest == AfterWrite(data, sent)
        invariant Outcome() == Finish(Called(old(View()), CallWrite(data)), old(script))
        invariant log.wanted == old(log.wanted) + data
        invariant log.asked == old(log.asked) && log.guestGot == old(log.guestGot) && old(log.rspSent) <= log.rspSent
        decreases |script|, pending, len
      {
        var more, part := WriteSome(data, sent);
        if !more {
          done := sent;
          FinishOver(View(), script);
          WriterHasSent(View(), old(log.reqSent));
          return false, done;
        }
        len := len - part;
        sent := sent + part;
      }
      ok, done := true, |data|;
      FinishOver(View(), script);
      IdleMeans(View());
    }

    ghost method BeginCall(m: Move)
      requires Valid() && guest.Idle? && (m.CallWrite? || m.CallRead?)
      modifies this`guest, this`log
      ensures View() == Called(old(View()), m) && Valid()
      ensures match m
              case CallWrite(data) =>
                |data| < WORD ==> guest == AfterWrite(data, 0) && log == old(log).(wanted := old(log.wanted) + data)
              case CallRead(len) =>
                len < WORD ==> guest == AfterRead(len, []) && log == old(log).(asked := old(log.asked) + len)
              case _ => true
    {
      NextInv(View(), m);
      ghost var t := Next(View(), m);
      guest, log := t.guest, t.log;
    }

    // ----- xenbus_read -----

    /** The memcpy of line 97, byte by byte, into `buf` from cell `done` on. */
    method CopyOut(buf: array<byte>, len: nat, done: nat, cons: int, part: nat)
      requires Valid() && buf != req && buf != rsp && done + part <= len <= buf.Length
      requires guest == RCopy(len, buf[..done], cons, part, 0)
      modifies this`reqCons, this`rspProd, this`pending, this`peer, this`log, this`script, this`guest, rsp, buf
      ensures Valid() && Outcome() == old(Outcome()) && SameStreams()
      ensures guest == RCopy(len, buf[..done + part], cons, part, part)
      ensures buf[..done] == old(buf[..done]) && buf[len..] == old(buf[len..])
      ensures |script| <= |old(script)| && (old(script) == [] ==> pending == old(pending))
    {
      hide Inv, Next, Finish;
      for k := 0 to part
        invariant Valid() && Outcome() == old(Outcome()) && SameStreams()
        invariant guest == RCopy(len, buf[..done + k], cons, part, k)
        invariant buf[..done] == old(buf[..done]) && buf[len..] == old(buf[len..])
        invariant |script| <= |old(script)| && (old(script) == [] ==> pending == old(pending))
      {
        var b := LoadRspByte(Mask(cons) + k);
        ghost var before := buf[..done + k];
        buf[done + k] := b;
        assert buf[..done + k + 1] == before + [b];
      }
    }

    /** Lines 97-102. */
    method TransferOut(buf: array<byte>, len: nat, done: nat, cons: int, part: nat)
      requires Valid() && buf != req && buf != rsp && done + part <= len <= buf.Length
      requires guest == RCopy(len, buf[..done], cons, part, 0)
      modifies this`rspCons, this`reqCons, this`rspProd, this`pending, this`peer, this`log, this`script, this`guest
      modifies rsp, buf
      ensures Valid() && Outcome() == old(Outcome()) && SameCalls() && log.reqSent == old(log.reqSent)
      ensures guest == AfterRead(len, buf[..done + part]) && buf[len..] == old(buf[len..])
      ensures old(log.guestGot) <= log.guestGot
      ensures |script| <= |old(script)| && (old(script) == [] ==> pending == old(pending))
    {
      hide Inv, Next, Finish;
      CopyOut(buf, len, done, cons, part);
      PublishRspCons(Add32(cons, part));
    }

    /** One pass of the loop of lines 73-106. */
    method ReadSome(buf: array<byte>, len: nat, done: nat) returns (ok: bool, part: nat)
      requires Valid() && buf != req && buf != rsp && done < len <= buf.Length
      requires guest == RLoad(len, buf[..done])
      modifies this, req, rsp, buf
      ensures Valid() && Outcome() == old(Outcome()) && SameCalls() && log.reqSent == old(log.reqSent)
      ensures ok ==> done + part <= len && guest == AfterRead(len, buf[..done + part])
      ensures !ok ==> guest == RPoll(len, buf[..done]) && !pending && script == [] && log.told
      ensures buf[len..] == old(buf[len..]) && old(log.guestGot) <= log.guestGot
      ensures old(script) != [] ==> |script| < |old(script)|
      ensures ok && old(script) == [] ==>
                script == [] && ((part > 0 && pending == old(pending)) || (part == 0 && old(pending) && !pending))
    {
      hide Inv, Next, Finish;
      var prod := LoadRspProd();
      var cons;
      cons, part := LoadRspCons(prod, len - done);
      if part == 0 {
        ghost var was;
        ok, was := KickAndWait();
      } else {
        TransferOut(buf, len, done, cons, part);
        ok := true;
      }
    }

    /** Read some raw data from the ring into `buf`, however the peer behaves.  The
        result is false if the peer's script ends while the guest sleeps for data, which
        it does not if the peer goes on serving the call. */
    method Read(buf: array<byte>, len: nat) returns (ok: bool, ghost done: nat)
      requires Valid() && guest.Idle? && len < WORD
      requires buf != req && buf != rsp && len <= buf.Length
      modifies this, req, rsp, buf
      ensures Valid() && (View(), script) == Finish(Called(old(View()), CallRead(len)), old(script))
      ensures done <= len && log.guestGot == old(log.guestGot) + buf[..done] && buf[len..] == old(buf[len..])
      ensures log.wanted == old(log.wanted) && log.reqSent == old(log.reqSent) && old(log.rspSent) <= log.rspSent
      ensures ok ==> guest == Idle(buf[..len]) && done == len
      ensures !ok ==> done < len && guest == RPoll(len, buf[..done]) && !pending && script == [] && log.told
      ensures WillBeServed(Called(old(View()), CallRead(len)), old(script)) ==> ok
    {
      hide Inv, Next, Finish, WillBeServed;
      CallEnds(View(), CallRead(len), script);
      IdleMeans(View());
      BeginCall(CallRead(len));
      var sofar, left := 0, len;
      while left != 0
        invariant 0 <= sofar <= len && sofar + left == len
        invariant Valid() && guest == AfterRead(len, buf[..sofar])
        invariant Outcome() == Finish(Called(old(View()), CallRead(len)), old(script))
        invariant buf[len..] == old(buf[len..])
        invariant log.wanted == old(log.wanted) && log.reqSent == old(log.reqSent)
        invariant log.asked == old(log.asked) + len
        invariant old(log.rspSent) <= log.rspSent && old(log.guestGot) <= log.guestGot
        decreases |script|, pending, left
      {
        var more, part := ReadSome(buf, len, sofar);
        if !more {
          done := sofar;
          FinishOver(View(), script);
          ReaderHasTaken(View(), old(log.guestGot));
          return false, done;
        }
        left := left - part;
        sofar := sofar + part;
      }
      ok, done := true, len;
      FinishOver(View(), script);
      IdleMeans(View());
      assert log.guestGot == old(log.guestGot) + log.guestGot[|old(log.guestGot)|..];
    }
  }
}
