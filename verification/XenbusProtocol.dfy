/** The XenBus connection of common/xenbus.c as a transition system: the guest's
    loads, byte copies, index updates, event-channel calls and polls, interleaved
    with a peer (xenstored) that consumes requests, produces replies and
    notifies after each of its index updates. */
module XenbusProtocol {
  import opened Arith
  import opened Index32
  import opened XsWire
  import opened ByteRing

  /** Where the guest is in xenbus_write() or xenbus_read(). */
  datatype Guest =
    | Idle(last: seq<byte>)                             // `last`: what the latest read returned
    | WLoad(data: seq<byte>, done: nat)                 // line 31
    | WLoadCons(data: seq<byte>, done: nat, prod: int)  // lines 32-51
    | WSend(data: seq<byte>, done: nat)                 // line 39
    | WClear(data: seq<byte>, done: nat)                // line 41
    | WPoll(data: seq<byte>, done: nat)                 // line 42
    | WCopy(data: seq<byte>, done: nat, prod: int, part: nat, k: nat)  // lines 53-58
    | RLoad(len: nat, got: seq<byte>)                   // line 75
    | RLoadCons(len: nat, got: seq<byte>, prod: int)    // lines 76-95
    | RSend(len: nat, got: seq<byte>)                   // line 83
    | RClear(len: nat, got: seq<byte>)                  // line 85
    | RPoll(len: nat, got: seq<byte>)                   // line 86
    | RCopy(len: nat, got: seq<byte>, cons: int, part: nat, k: nat)    // lines 97-102

  /** The other end.  `got`: request bytes read so far, the last `held` of them not
      given back; `backlog`: reply bytes it has yet to put in the ring; `extra`: reply
      bytes put but not published; `owes`: it has moved an index and not notified
      yet; `bell`: its own event-channel bit. */
  datatype Peer = Peer(awake: bool, sawIdle: bool, bell: bool, owes: bool,
                       got: seq<byte>, held: nat, backlog: seq<byte>, extra: seq<byte>)

  /** History, which no step depends on: streams as published and as received, positions given back, what the
      guest's calls asked for, and whether it has notified since its last index update. */
  datatype Log = Log(reqBase: nat, reqSent: seq<byte>, reqReleased: nat,
                     rspBase: nat, rspSent: seq<byte>, rspReleased: nat,
                     guestGot: seq<byte>, wanted: seq<byte>, asked: nat, told: bool)

  datatype Sys = Sys(req: Ring, rsp: Ring, pending: bool, guest: Guest, peer: Peer, log: Log)

  datatype Move =
    | GuestStep
    | CallWrite(data: seq<byte>)
    | CallRead(len: nat)
    | CallNotify
    | PTake | PRelease | PCompose(bytes: seq<byte>) | PPut | PPublish | PNotify
    | PCheck | PSleep | PWake

  predicate IsPeerMove(m: Move) { !(m.GuestStep? || m.CallWrite? || m.CallRead? || m.CallNotify?) }

  // ----- the guest -----

  function AfterWrite(data: seq<byte>, done: nat): Guest {
    if done < |data| then WLoad(data, done) else Idle([])
  }

  function AfterRead(len: nat, got: seq<byte>): Guest {
    if |got| < len then RLoad(len, got) else Idle(got)
  }

  /** The event reaches the peer. */
  function Notified(s: Sys): Sys {
    s.(peer := s.peer.(bell := true), log := s.log.(told := true))
  }

  function WritePart(data: seq<byte>, done: nat, prod: int, cons: int): int {
    Min(Min(XENBUS_RING_SIZE - 1 - Mask(Sub32(prod, cons)), XENBUS_RING_SIZE - Mask(prod)), |data| - done)
  }

  function ReadPart(len: nat, got: seq<byte>, prod: int, cons: int): int {
    Min(Min(Sub32(prod, cons), XENBUS_RING_SIZE - Mask(cons)), len - |got|)
  }

  function WriterStep(s: Sys): Sys
    requires Writing(s.guest) && |s.req.cells| == XENBUS_RING_SIZE
  {
    match s.guest
    case WLoad(data, done) => s.(guest := WLoadCons(data, done, s.req.prod))
    case WLoadCons(data, done, prod) =>
      if XENBUS_RING_SIZE - 1 - Mask(Sub32(prod, s.req.cons)) == 0 then s.(guest := WSend(data, done))
      else
        var part := WritePart(data, done, prod, s.req.cons);
        if part <= 0 then s else s.(guest := WCopy(data, done, prod, part, 0))
    case WSend(data, done) => Notified(s).(guest := WClear(data, done))
    case WClear(data, done) =>
      if s.pending then s.(pending := false, guest := WLoad(data, done)) else s.(guest := WPoll(data, done))
    case WPoll(data, done) => if s.pending then s.(guest := WLoad(data, done)) else s
    case WCopy(data, done, prod, part, k) =>
      if k < part then
        if Mask(prod) + k < XENBUS_RING_SIZE && done + k < |data| then
          s.(req := s.req.(cells := s.req.cells[Mask(prod) + k := data[done + k]]),
             guest := WCopy(data, done, prod, part, k + 1))
        else s
      else
        s.(req := s.req.(prod := Add32(prod, part)),
           guest := AfterWrite(data, done + part),
           log := s.log.(reqSent := s.log.reqSent + data[Min(done, |data|)..Min(done + part, |data|)], told := false))
    case _ => s
  }

  function ReaderStep(s: Sys): Sys
    requires Reading(s.guest) && |s.rsp.cells| == XENBUS_RING_SIZE
  {
    match s.guest
    case RLoad(len, got) => s.(guest := RLoadCons(len, got, s.rsp.prod))
    case RLoadCons(len, got, prod) =>
      if Sub32(prod, s.rsp.cons) == 0 then s.(guest := RSend(len, got))
      else
        var part := ReadPart(len, got, prod, s.rsp.cons);
        if part <= 0 then s else s.(guest := RCopy(len, got, s.rsp.cons, part, 0))
    case RSend(len, got) => Notified(s).(guest := RClear(len, got))
    case RClear(len, got) =>
      if s.pending then s.(pending := false, guest := RLoad(len, got)) else s.(guest := RPoll(len, got))
    case RPoll(len, got) => if s.pending then s.(guest := RLoad(len, got)) else s
    case RCopy(len, got, cons, part, k) =>
      if k < part then
        if Mask(cons) + k < XENBUS_RING_SIZE then
          s.(guest := RCopy(len, got + [s.rsp.cells[Mask(cons) + k]], cons, part, k + 1))
        else s
      else
        s.(rsp := s.rsp.(cons := Add32(cons, part)),
           guest := AfterRead(len, got),
           log := s.log.(rspReleased := s.log.rspReleased + part,
                         guestGot := s.log.guestGot + got[|got| - Min(part, |got|)..], told := false))
    case _ => s
  }

  predicate Writing(g: Guest) {
    g.WLoad? || g.WLoadCons? || g.WSend? || g.WClear? || g.WPoll? || g.WCopy?
  }

  predicate Reading(g: Guest) {
    g.RLoad? || g.RLoadCons? || g.RSend? || g.RClear? || g.RPoll? || g.RCopy?
  }

  // ----- the peer -----

  function PeerStep(s: Sys, m: Move): Sys
    requires |s.req.cells| == XENBUS_RING_SIZE && |s.rsp.cells| == XENBUS_RING_SIZE
  {
    var p := s.peer.(sawIdle := false);
    match m
    case PTake =>
      if p.awake && p.held < Sub32(s.req.prod, s.req.cons) then
        s.(peer := p.(got := p.got + [s.req.cells[Mask(Add32(s.req.cons, p.held))]], held := p.held + 1))
      else s
    case PRelease =>
      if p.awake then
        s.(req := s.req.(cons := Add32(s.req.cons, p.held)), peer := p.(held := 0, owes := true),
           log := s.log.(reqReleased := s.log.reqReleased + p.held))
      else s
    case PCompose(bytes) => if p.awake then s.(peer := p.(backlog := p.backlog + bytes)) else s
    case PPut =>
      var next := Add32(s.rsp.prod, |p.extra|);
      if p.awake && p.backlog != [] && Sub32(next, s.rsp.cons) < XENBUS_RING_SIZE then
        s.(rsp := s.rsp.(cells := s.rsp.cells[Mask(next) := p.backlog[0]]),
           peer := p.(backlog := p.backlog[1..], extra := p.extra + [p.backlog[0]]))
      else s
    case PPublish =>
      if p.awake then
        s.(rsp := s.rsp.(prod := Add32(s.rsp.prod, |p.extra|)),
           peer := p.(extra := [], owes := true),
           log := s.log.(rspSent := s.log.rspSent + p.extra))
      else s
    case PNotify => if p.awake then s.(pending := true, peer := p.(owes := false)) else s
    case PCheck =>
      // A look at both rings that finds everything done.
      if && p.awake && !p.owes && p.extra == [] && p.held == 0
         && Sub32(s.req.prod, s.req.cons) == 0
         && (p.backlog == [] || Sub32(s.rsp.prod, s.rsp.cons) == XENBUS_RING_SIZE)
      then s.(peer := p.(sawIdle := true))
      else s
    case PSleep => if s.peer.sawIdle && !p.bell then s.(peer := s.peer.(awake := false)) else s
    case PWake => if p.bell then s.(peer := p.(awake := true, bell := false)) else s
    case _ => s
  }

  /** One step of the system; a move that is not possible changes nothing. */
  function Next(s: Sys, m: Move): Sys
    requires |s.req.cells| == XENBUS_RING_SIZE && |s.rsp.cells| == XENBUS_RING_SIZE
  {
    match m
    case GuestStep => if Writing(s.guest) then WriterStep(s) else if Reading(s.guest) then ReaderStep(s) else s
    case CallWrite(data) =>
      if s.guest.Idle? && |data| < WORD then
        s.(guest := AfterWrite(data, 0), log := s.log.(wanted := s.log.wanted + data))
      else s
    case CallRead(len) =>
      if s.guest.Idle? && len < WORD then
        s.(guest := AfterRead(len, []), log := s.log.(asked := s.log.asked + len))
      else s
    case CallNotify => if s.guest.Idle? then Notified(s) else s
    case _ => PeerStep(s, m)
  }

  /** A fresh connection: both rings empty, at any index, nobody waiting. */
  ghost predicate Initial(s: Sys) {
    && |s.req.cells| == XENBUS_RING_SIZE && |s.rsp.cells| == XENBUS_RING_SIZE
    && s.guest == Idle([])
    && s.peer.awake && !s.peer.sawIdle && s.peer.got == s.peer.extra == [] && s.peer.held == 0
    && s.log.reqSent == s.log.rspSent == s.log.guestGot == s.log.wanted == []
    && s.log.reqReleased == s.log.rspReleased == s.log.asked == 0
    && !s.log.told
    && s.req.prod == s.req.cons == Index(s.log.reqBase)
    && s.rsp.prod == s.rsp.cons == Index(s.log.rspBase)
  }

  // ----- the invariant -----

  /** Request bytes the guest has copied into the ring but not published. */
  function Copied(g: Guest): seq<byte> {
    match g
    case WCopy(data, done, _, _, k) => if done + k <= |data| then data[done..done + k] else []
    case _ => []
  }

  /** What is still to be published of the data passed to the current write. */
  function Unsent(g: Guest): seq<byte> {
    if Writing(g) && g.done <= |g.data| then g.data[g.done..] else []
  }

  /** The bytes the current read has taken over for good. */
  function Settled(g: Guest): seq<byte> {
    match g
    case Idle(_) => []
    case RCopy(_, got, _, _, k) => if k <= |got| then got[..|got| - k] else []
    case _ => if Reading(g) then g.got else []
  }

  ghost predicate GuestInv(s: Sys) {
    match s.guest
    case Idle(_) => true
    case WLoad(data, done) => done < |data|
    case WLoadCons(data, done, prod) => done < |data| && prod == s.req.prod
    case WSend(data, done) => done < |data|
    case WClear(data, done) => done < |data|
    case WPoll(data, done) => done < |data|
    case WCopy(data, done, prod, part, k) =>
      && k <= part && 0 < part && done + part <= |data| && prod == s.req.prod
      && part <= XENBUS_RING_SIZE - Mask(prod)
      && |s.log.reqSent| + part - s.log.reqReleased <= XENBUS_RING_SIZE - 1
    case RLoad(len, got) => |got| < len
    case RLoadCons(len, got, prod) =>
      && |got| < len && IsWord(prod)
      && s.log.rspReleased + Sub32(prod, s.rsp.cons) <= |s.log.rspSent|
    case RSend(len, got) => |got| < len
    case RClear(len, got) => |got| < len
    case RPoll(len, got) => |got| < len
    case RCopy(len, got, cons, part, k) =>
      && k <= part && 0 < part && k <= |got| && |got| - k + part <= len && cons == s.rsp.cons
      && part <= XENBUS_RING_SIZE - Mask(cons)
      && s.log.rspReleased + part <= |s.log.rspSent|
      && got[|got| - k..] == s.log.rspSent[s.log.rspReleased..s.log.rspReleased + k]
  }

  /** Both rings carry their streams, and nobody has seen anything else. */
  ghost predicate StreamInv(s: Sys) {
    && |s.req.cells| == XENBUS_RING_SIZE && |s.rsp.cells| == XENBUS_RING_SIZE
    && Carries(s.req, s.log.reqBase, s.log.reqSent, Copied(s.guest), s.log.reqReleased)
    && |s.log.reqSent| + |Copied(s.guest)| - s.log.reqReleased <= XENBUS_RING_SIZE - 1
    && s.log.reqReleased + s.peer.held == |s.peer.got|
    && s.peer.got <= s.log.reqSent
    && Carries(s.rsp, s.log.rspBase, s.log.rspSent, s.peer.extra, s.log.rspReleased)
    && s.log.guestGot == s.log.rspSent[..s.log.rspReleased]
  }

  /** The calls made so far account for the streams. */
  ghost predicate CallInv(s: Sys) {
    && s.log.reqSent + Unsent(s.guest) == s.log.wanted
    && (if Reading(s.guest) then |s.log.guestGot| - |Settled(s.guest)| + s.guest.len == s.log.asked
        else |s.log.guestGot| == s.log.asked)
    && |Settled(s.guest)| <= |s.log.guestGot|
    && s.log.guestGot[|s.log.guestGot| - |Settled(s.guest)|..] == Settled(s.guest)
    && (s.guest.Idle? ==>
          && |s.guest.last| <= |s.log.guestGot|
          && s.log.guestGot[|s.log.guestGot| - |s.guest.last|..] == s.guest.last)
  }

  predicate AwaitingSpace(g: Guest) { g.WSend? || g.WClear? || g.WPoll? }
  predicate AwaitingData(g: Guest) { g.RSend? || g.RClear? || g.RPoll? }

  /** The peer has read every published byte, and nothing can be put into the reply ring. */
  predicate NoWork(s: Sys) {
    && |s.peer.got| == |s.log.reqSent|
    && (s.peer.backlog == [] || |s.log.rspSent| - s.log.rspReleased == XENBUS_RING_SIZE)
  }

  /** Wake-ups: a guest that waits for a ring that has become usable will be
      notified, and a peer that rests has nothing to do unless it will be. */
  ghost predicate WakeInv(s: Sys) {
    && (AwaitingSpace(s.guest) ==>
         |s.log.reqSent| - s.log.reqReleased == XENBUS_RING_SIZE - 1 || s.pending || s.peer.owes)
    && (AwaitingData(s.guest) ==>
         s.log.rspReleased == |s.log.rspSent| || s.pending || s.peer.owes)
    && (s.guest.RLoadCons? ==> s.guest.prod == s.rsp.prod || s.pending || s.peer.owes)
    && (s.guest.WClear? || s.guest.WPoll? || s.guest.RClear? || s.guest.RPoll? ==> s.log.told)
    && (!s.peer.awake ==> s.peer.sawIdle)
    && (s.peer.sawIdle ==> !s.peer.owes && s.peer.extra == [] && s.peer.held == 0)
    && (s.peer.sawIdle && !s.peer.bell && s.log.told ==> NoWork(s))
  }

  ghost predicate Inv(s: Sys) {
    StreamInv(s) && GuestInv(s) && CallInv(s) && WakeInv(s)
  }

  lemma RingSizes(s: Sys)
    requires Inv(s)
    ensures |s.req.cells| == |s.rsp.cells| == XENBUS_RING_SIZE
  {
  }

  lemma InitialInv(s: Sys)
    requires Initial(s)
    ensures Inv(s)
  {
  }

  /** The indices of a ring, without the cells. */
  lemma CarriesIndices(r: Ring, base: nat, stream: seq<byte>, extra: seq<byte>, released: nat)
    requires Carries(r, base, stream, extra, released)
    ensures |r.cells| == XENBUS_RING_SIZE && released <= |stream|
    ensures r.prod == Index(base + |stream|) && r.cons == Index(base + released)
    ensures IsWord(r.prod) && IsWord(r.cons)
    ensures Sub32(r.prod, r.cons) == |stream| - released <= XENBUS_RING_SIZE
  {
    IndexDifference(base + |stream|, base + released);
  }

  /** Outside a call, everything has been sent and received that was asked for. */
  lemma IdleMeans(s: Sys)
    requires Inv(s) && s.guest.Idle?
    ensures s.log.reqSent == s.log.wanted && s.log.guestGot <= s.log.rspSent
    ensures s.log.guestGot == s.log.rspSent[..s.log.rspReleased] && |s.log.guestGot| == s.log.asked
    ensures |s.guest.last| <= |s.log.guestGot|
    ensures s.log.guestGot[|s.log.guestGot| - |s.guest.last|..] == s.guest.last
  {
  }

  // ----- the invariant is kept: the guest writes -----

  lemma WriteLoadInv(s: Sys)
    requires Inv(s) && (s.guest.WLoad? || s.guest.WSend? || s.guest.WClear? || s.guest.WPoll?)
    ensures Inv(WriterStep(s))
  {
  }

  lemma WriteLoadConsInv(s: Sys)
    requires Inv(s) && s.guest.WLoadCons?
    ensures Inv(WriterStep(s))
  {
    hide Carries, Index, Sub32;
    var L := s.log;
    CarriesIndices(s.req, L.reqBase, L.reqSent, [], L.reqReleased);
    var used := |L.reqSent| - L.reqReleased;
    assert Mask(Sub32(s.req.prod, s.req.cons)) == used;
    assert Copied(WriterStep(s).guest) == [];
  }

  lemma WriteCopyInv(s: Sys)
    requires Inv(s) && s.guest.WCopy? && s.guest.k < s.guest.part
    ensures Inv(WriterStep(s))
  {
    var L := s.log;
    var WCopy(data, done, prod, part, k) := s.guest;
    var t := WriterStep(s);
    CellContiguous(L.reqBase, |L.reqSent|, k);
    PutByte(s.req, L.reqBase, L.reqSent, Copied(s.guest), L.reqReleased, data[done + k]);
    assert Copied(t.guest) == Copied(s.guest) + [data[done + k]];
  }

  lemma WritePublishStream(s: Sys)
    requires StreamInv(s) && GuestInv(s) && s.guest.WCopy? && s.guest.k == s.guest.part
    ensures StreamInv(WriterStep(s))
  {
    hide Mask;
    var L := s.log;
    var part := s.guest.part;
    IndexAdd(L.reqBase + |L.reqSent|, part);
    PublishBytes(s.req, L.reqBase, L.reqSent, Copied(s.guest), L.reqReleased);
    assert s.peer.got <= L.reqSent + Copied(s.guest);
  }

  lemma SentAndUnsent(sent: seq<byte>, data: seq<byte>, done: nat, part: nat)
    requires done + part <= |data|
    ensures (sent + data[done..done + part]) + data[done + part..] == sent + data[done..]
  {
    assert data[done..] == data[done..done + part] + data[done + part..];
  }

  lemma WritePublishCalls(s: Sys)
    requires |s.req.cells| == XENBUS_RING_SIZE && s.guest.WCopy?
    requires GuestInv(s) && CallInv(s) && s.guest.k == s.guest.part
    ensures CallInv(WriterStep(s))
  {
    hide Mask, Add32, Sub32;
    var WCopy(data, done, prod, part, k) := s.guest;
    var t := WriterStep(s);
    SentAndUnsent(s.log.reqSent, data, done, part);
    assert t.log.reqSent == s.log.reqSent + data[done..done + part];
    assert Unsent(t.guest) == data[done + part..];
    assert Settled(t.guest) == Settled(s.guest) == [];
  }

  lemma WritePublishInv(s: Sys)
    requires Inv(s) && s.guest.WCopy? && s.guest.k == s.guest.part
    ensures Inv(WriterStep(s))
  {
    hide Carries, Mask, Add32, Sub32, Index, Cell, StreamInv, CallInv;
    RingSizes(s);
    WritePublishStream(s);
    WritePublishCalls(s);
  }

  // ----- the invariant is kept: the guest reads -----

  lemma ReadLoadInv(s: Sys)
    requires Inv(s) && (s.guest.RLoad? || s.guest.RSend? || s.guest.RClear? || s.guest.RPoll?)
    ensures Inv(ReaderStep(s))
  {
    hide Carries, Index, Sub32;
    CarriesIndices(s.rsp, s.log.rspBase, s.log.rspSent, s.peer.extra, s.log.rspReleased);
  }

  lemma ReadLoadConsGuest(s: Sys)
    requires StreamInv(s) && GuestInv(s) && s.guest.RLoadCons?
    ensures var t := ReaderStep(s);
            && t == s.(guest := t.guest) && GuestInv(t)
            && Reading(t.guest) && t.guest.len == s.guest.len && Settled(t.guest) == Settled(s.guest)
            && (t.guest.RSend? || t.guest.RCopy?) && (t.guest.RSend? ==> s.guest.prod == s.rsp.cons)
  {
    hide Carries, Index;
    var got := s.guest.got;
    assert got[..|got| - 0] == got;
    CarriesIndices(s.rsp, s.log.rspBase, s.log.rspSent, s.peer.extra, s.log.rspReleased);
  }

  lemma ReadLoadConsInv(s: Sys)
    requires Inv(s) && s.guest.RLoadCons?
    ensures Inv(ReaderStep(s))
  {
    hide Carries, Index, Settled, GuestInv, ReaderStep;
    RingSizes(s);
    CarriesIndices(s.rsp, s.log.rspBase, s.log.rspSent, s.peer.extra, s.log.rspReleased);
    ReadLoadConsGuest(s);
  }

  /** What has been copied is what the stream has there. */
  lemma ReadCopyGuest(s: Sys)
    requires StreamInv(s) && GuestInv(s) && s.guest.RCopy? && s.guest.k < s.guest.part
    ensures GuestInv(ReaderStep(s)) && ReaderStep(s).guest.RCopy?
    ensures var t := ReaderStep(s);
            t == s.(guest := t.guest) && t.guest == s.guest.(got := t.guest.got, k := s.guest.k + 1)
            && |t.guest.got| == |s.guest.got| + 1 && s.guest.got <= t.guest.got
            && |s.guest.got| >= s.guest.k
  {
    hide Carries, Index, Sub32, Add32;
    var L := s.log;
    var RCopy(len, got, cons, part, k) := s.guest;
    CarriesIndices(s.rsp, L.rspBase, L.rspSent, s.peer.extra, L.rspReleased);
    var b := s.rsp.cells[Mask(cons) + k];
    CellContiguous(L.rspBase, L.rspReleased, k);
    GetByte(s.rsp, L.rspBase, L.rspSent, s.peer.extra, L.rspReleased, L.rspReleased + k);
    var j := L.rspReleased + k;
    assert (got + [b])[|got| + 1 - (k + 1)..] == got[|got| - k..] + [b];
    assert L.rspSent[L.rspReleased..j + 1] == L.rspSent[L.rspReleased..j] + [L.rspSent[j]];
  }

  lemma ReadCopyInv(s: Sys)
    requires Inv(s) && s.guest.RCopy? && s.guest.k < s.guest.part
    ensures Inv(ReaderStep(s))
  {
    hide Carries, Index, Sub32, Add32, GuestInv;
    ReadCopyGuest(s);
    var RCopy(len, got, cons, part, k) := s.guest;
    var got' := ReaderStep(s).guest.got;
    assert got'[..|got'| - (k + 1)] == got[..|got| - k];
  }

  lemma ReadPublishStream(s: Sys)
    requires StreamInv(s) && GuestInv(s) && s.guest.RCopy? && s.guest.k == s.guest.part
    ensures StreamInv(ReaderStep(s))
  {
    hide Mask;
    var L := s.log;
    var RCopy(len, got, cons, part, k) := s.guest;
    IndexAdd(L.rspBase + L.rspReleased, part);
    ReleaseBytes(s.rsp, L.rspBase, L.rspSent, s.peer.extra, L.rspReleased, part);
    assert L.rspSent[..L.rspReleased + part] == L.rspSent[..L.rspReleased] + got[|got| - part..];
  }

  lemma SettledGrows(all: seq<byte>, got: seq<byte>, part: nat)
    requires part <= |got| <= |all| + part && all[|all| - (|got| - part)..] == got[..|got| - part]
    ensures var now := all + got[|got| - part..];
            |now| - |got| == |all| - (|got| - part) && now[|now| - |got|..] == got
  {
    var taken := got[|got| - part..];
    assert got == got[..|got| - part] + taken;
    assert (all + taken)[|all + taken| - |got|..] == all[|all| - (|got| - part)..] + taken;
  }

  /** What the publication changes. */
  lemma ReadPublishes(s: Sys)
    requires |s.rsp.cells| == XENBUS_RING_SIZE && s.guest.RCopy? && s.guest.k == s.guest.part <= |s.guest.got|
    ensures var t, got := ReaderStep(s), s.guest.got;
            && t.guest == AfterRead(s.guest.len, got)
            && t.log.guestGot == s.log.guestGot + got[|got| - s.guest.part..]
            && t.log.asked == s.log.asked && t.log.wanted == s.log.wanted && t.log.reqSent == s.log.reqSent
  {
    hide Add32;
  }

  lemma NothingUnsent(g: Guest)
    requires !Writing(g)
    ensures Unsent(g) == []
  {
  }

  lemma SettledCopy(g: Guest)
    requires g.RCopy? && g.k <= |g.got|
    ensures Settled(g) == g.got[..|g.got| - g.k]
  {
  }

  lemma SettledAfterRead(len: nat, got: seq<byte>)
    ensures Settled(AfterRead(len, got)) == if |got| < len then got else []
  {
  }

  lemma ReadPublishCalls(s: Sys)
    requires |s.rsp.cells| == XENBUS_RING_SIZE && s.guest.RCopy?
    requires GuestInv(s) && CallInv(s) && s.guest.k == s.guest.part
    ensures CallInv(ReaderStep(s))
  {
    hide ReaderStep, Settled, Unsent, Mask, Sub32;
    var RCopy(len, got, cons, part, k) := s.guest;
    var t := ReaderStep(s);
    ReadPublishes(s);
    NothingUnsent(s.guest);
    NothingUnsent(t.guest);
    SettledCopy(s.guest);
    SettledAfterRead(len, got);
    SettledGrows(s.log.guestGot, got, part);
  }

  lemma ReadPublishInv(s: Sys)
    requires Inv(s) && s.guest.RCopy? && s.guest.k == s.guest.part
    ensures Inv(ReaderStep(s))
  {
    hide Carries, Mask, Add32, Sub32, Index, Cell, StreamInv, CallInv;
    RingSizes(s);
    ReadPublishStream(s);
    ReadPublishCalls(s);
  }

  // ----- the invariant is kept: the peer and the calls -----

  /** What the guest is doing does not depend on the peer's own state. */
  lemma PeerFrame(s: Sys, t: Sys)
    requires GuestInv(s) && CallInv(s)
    requires t == s.(peer := t.peer, pending := t.pending, rsp := s.rsp.(cells := t.rsp.cells))
    ensures GuestInv(t) && CallInv(t)
  {
  }

  lemma PeerTakeInv(s: Sys)
    requires Inv(s)
    ensures Inv(PeerStep(s, PTake))
  {
    var t := PeerStep(s, PTake);
    PeerFrame(s, t);
    PeerTakesNextByte(s);
    PeerActsAwake(s, t);
  }

  /** The cell the peer reads next holds the next byte of the stream. */
  lemma NextByteStands(s: Sys)
    requires StreamInv(s) && |s.peer.got| < |s.log.reqSent|
    ensures s.req.cells[Mask(Add32(s.req.cons, s.peer.held))] == s.log.reqSent[|s.peer.got|]
  {
    var L := s.log;
    var j := |s.peer.got|;
    IndexAdd(L.reqBase + L.reqReleased, s.peer.held);
    MaskIndex(L.reqBase, j);
    GetByte(s.req, L.reqBase, L.reqSent, Copied(s.guest), L.reqReleased, j);
  }

  lemma PeerTakesNextByte(s: Sys)
    requires StreamInv(s)
    ensures StreamInv(PeerStep(s, PTake))
  {
    hide Carries, Mask, Add32;
    CarriesIndices(s.req, s.log.reqBase, s.log.reqSent, Copied(s.guest), s.log.reqReleased);
    if PeerStep(s, PTake) != s {
      var sent, j := s.log.reqSent, |s.peer.got|;
      NextByteStands(s);
      assert sent[..j + 1] == sent[..j] + [sent[j]];
    }
  }

  /** A peer that acts has its eyes open, so only what it owes the guest matters. */
  lemma PeerActsAwake(s: Sys, t: Sys)
    requires WakeInv(s)
    requires t == s.(peer := t.peer, pending := t.pending, rsp := s.rsp.(cells := t.rsp.cells))
    requires t == s || (t.peer.awake && !t.peer.sawIdle)
    requires s.pending || s.peer.owes ==> t.pending || t.peer.owes
    ensures WakeInv(t)
  {
  }

  lemma PeerReleaseStream(s: Sys)
    requires StreamInv(s)
    ensures StreamInv(PeerStep(s, PRelease))
  {
    var L := s.log;
    IndexAdd(L.reqBase + L.reqReleased, s.peer.held);
    ReleaseBytes(s.req, L.reqBase, L.reqSent, Copied(s.guest), L.reqReleased, s.peer.held);
  }

  lemma PeerReleaseInv(s: Sys)
    requires Inv(s)
    ensures Inv(PeerStep(s, PRelease))
  {
    hide Carries, Mask, Add32, Sub32, Index, Cell;
    PeerReleaseStream(s);
    var t := PeerStep(s, PRelease);
    assert GuestInv(t) && CallInv(t) && WakeInv(t);
  }

  lemma PeerPutStream(s: Sys)
    requires StreamInv(s)
    ensures StreamInv(PeerStep(s, PPut))
  {
    hide Carries, Mask, Add32, Sub32, Index;
    PutPosition(s.rsp, s.log.rspBase, s.log.rspSent, s.peer.extra, s.log.rspReleased);
    if PeerStep(s, PPut) != s {
      PutByte(s.rsp, s.log.rspBase, s.log.rspSent, s.peer.extra, s.log.rspReleased, s.peer.backlog[0]);
    }
  }

  lemma PutPosition(r: Ring, base: nat, stream: seq<byte>, extra: seq<byte>, released: nat)
    requires Carries(r, base, stream, extra, released)
    ensures Mask(Add32(r.prod, |extra|)) == Cell(XENBUS_RING_SIZE, base, |stream| + |extra|)
    ensures Sub32(Add32(r.prod, |extra|), r.cons) == |stream| + |extra| - released
  {
    var j := |stream| + |extra|;
    IndexAdd(base + |stream|, |extra|);
    IndexDifference(base + j, base + released);
    MaskIndex(base, j);
  }

  lemma PeerPutInv(s: Sys)
    requires Inv(s)
    ensures Inv(PeerStep(s, PPut))
  {
    hide Carries, Mask, Add32, Sub32, Index;
    PeerPutStream(s);
    var t := PeerStep(s, PPut);
    PeerFrame(s, t);
    PeerActsAwake(s, t);
  }

  lemma PeerPublishInv(s: Sys)
    requires Inv(s)
    ensures Inv(PeerStep(s, PPublish))
  {
    hide Carries, Mask, Add32, Sub32, Index, Cell;
    PeerPublishStream(s);
    PeerPublishGuest(s);
    var t := PeerStep(s, PPublish);
    assert CallInv(t) && WakeInv(t);
  }

  lemma PeerPublishStream(s: Sys)
    requires StreamInv(s)
    ensures StreamInv(PeerStep(s, PPublish))
  {
    var L := s.log;
    IndexAdd(L.rspBase + |L.rspSent|, |s.peer.extra|);
    PublishBytes(s.rsp, L.rspBase, L.rspSent, s.peer.extra, L.rspReleased);
    assert (L.rspSent + s.peer.extra)[..L.rspReleased] == L.rspSent[..L.rspReleased];
  }

  /** More reply bytes do not disturb a read that is under way. */
  lemma PeerPublishGuest(s: Sys)
    requires StreamInv(s) && GuestInv(s)
    ensures GuestInv(PeerStep(s, PPublish))
  {
    if s.guest.RCopy? {
      var L := s.log;
      var j := L.rspReleased + s.guest.k;
      assert (L.rspSent + s.peer.extra)[L.rspReleased..j] == L.rspSent[L.rspReleased..j];
    }
  }

  lemma PeerCheckInv(s: Sys)
    requires Inv(s)
    ensures Inv(PeerStep(s, PCheck))
  {
    var t := PeerStep(s, PCheck);
    PeerFrame(s, t);
    if t != s {
      var L := s.log;
      IndexDifference(L.reqBase + |L.reqSent|, L.reqBase + L.reqReleased);
      IndexDifference(L.rspBase + |L.rspSent|, L.rspBase + L.rspReleased);
      assert NoWork(t);
    }
  }

  lemma PeerRestInv(s: Sys, m: Move)
    requires Inv(s) && (m.PCompose? || m.PNotify? || m.PSleep? || m.PWake?)
    ensures Inv(PeerStep(s, m))
  {
    var t := PeerStep(s, m);
    PeerFrame(s, t);
    if !m.PSleep? {
      PeerActsAwake(s, t);
    }
  }

  lemma CallsInv(s: Sys, m: Move)
    requires Inv(s) && (m.CallWrite? || m.CallRead? || m.CallNotify?)
    ensures Inv(Next(s, m))
  {
  }

  lemma NextInv(s: Sys, m: Move)
    requires Inv(s)
    ensures Inv(Next(s, m))
  {
    match m
    case GuestStep =>
      match s.guest {
        case WLoadCons(_, _, _) => WriteLoadConsInv(s);
        case WCopy(_, _, _, part, k) => if k < part { WriteCopyInv(s); } else { WritePublishInv(s); }
        case RLoadCons(_, _, _) => ReadLoadConsInv(s);
        case RCopy(_, _, _, part, k) => if k < part { ReadCopyInv(s); } else { ReadPublishInv(s); }
        case Idle(_) =>
        case _ => if Writing(s.guest) { WriteLoadInv(s); } else { ReadLoadInv(s); }
      }
    case CallWrite(_) => CallsInv(s, m);
    case CallRead(_) => CallsInv(s, m);
    case CallNotify => CallsInv(s, m);
    case PTake => PeerTakeInv(s);
    case PRelease => PeerReleaseInv(s);
    case PPut => PeerPutInv(s);
    case PPublish => PeerPublishInv(s);
    case PCheck => PeerCheckInv(s);
    case _ => PeerRestInv(s, m);
  }
}
