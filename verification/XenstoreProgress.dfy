/** xenstore_read() returns if its reads and writes are served, and the answer it returns is
    the one in the reply that came, whenever that was composed. */
module XenstoreProgress {
  import opened Arith
  import opened XsWire
  import opened Index32
  import opened XenbusProtocol
  import opened XenbusSafety
  import opened XenbusProgress
  import opened XenbusTurns
  import opened XenstoreWire
  import opened XenstoreCalls

  // ----- what a read hands out -----

  /** All reply bytes so far: published, put into the ring, and composed. */
  function Stream(s: Sys): seq<byte> { s.log.rspSent + s.peer.extra + s.peer.backlog }

  /** `bytes` are what comes from position `from` of the reply stream on. */
  predicate ComesAt(s: Sys, from: nat, bytes: seq<byte>) {
    from <= |Stream(s)| && bytes <= Stream(s)[from..]
  }

  lemma ComesLater(s: Sys, t: Sys, from: nat, bytes: seq<byte>)
    requires ComesAt(s, from, bytes) && Stream(s) <= Stream(t)
    ensures ComesAt(t, from, bytes)
  {
    assert Stream(s) == Stream(t)[..|Stream(s)|];
    assert Stream(s)[from..] == Stream(t)[from..][..|Stream(s)| - from];
  }

  /** `t` is a later state than `s`, without a call in between. */
  ghost predicate ReadsOn(s: Sys, t: Sys) {
    && t.log.asked == s.log.asked && s.log.guestGot <= t.log.guestGot && Stream(s) <= Stream(t)
    && (s.guest.Idle? ==> t.guest == s.guest && t.log.rspReleased == s.log.rspReleased)
    && (Reading(s.guest) ==> || (Reading(t.guest) && t.guest.len == s.guest.len)
                             || (t.guest.Idle? && |t.guest.last| == s.guest.len))
  }

  lemma ReadsOnSame(s: Sys)
    ensures ReadsOn(s, s)
  {
  }

  lemma ReadsOnAgain(s: Sys, t: Sys, u: Sys)
    requires ReadsOn(s, t) && ReadsOn(t, u)
    ensures Reading(s.guest) || s.guest.Idle? ==> ReadsOn(s, u)
  {
    hide Stream;
  }

  lemma PeerExtends(s: Sys, m: Move)
    requires |s.req.cells| == |s.rsp.cells| == XENBUS_RING_SIZE && IsPeerMove(m)
    ensures Stream(s) <= Stream(PeerStep(s, m))
  {
    hide Sub32, Add32, Mask;
    var t := PeerStep(s, m);
    if m.PPut? && t != s {
      assert s.peer.backlog == [s.peer.backlog[0]] + s.peer.backlog[1..];
      assert Stream(t) == Stream(s);
    } else if m.PPublish? {
      assert Stream(t) == Stream(s);
    } else if m.PCompose? {
      assert Stream(t) == Stream(s) + m.bytes || t == s;
    }
  }

  lemma PeerReadsOn(s: Sys, m: Move)
    requires Inv(s) && IsPeerMove(m)
    ensures |s.req.cells| == |s.rsp.cells| == XENBUS_RING_SIZE && ReadsOn(s, PeerStep(s, m))
  {
    hide Inv, Sub32, Add32, Mask, Reading, Stream;
    RingSizes(s);
    PeerExtends(s, m);
  }

  lemma GuestReadsOn(s: Sys)
    requires Inv(s) && (Reading(s.guest) || s.guest.Idle?)
    ensures |s.req.cells| == |s.rsp.cells| == XENBUS_RING_SIZE && ReadsOn(s, Next(s, GuestStep))
  {
    hide Inv, Sub32, Add32, Mask;
    RingSizes(s);
    if s.guest.RCopy? {
      CopyInside(s);
      Bounds(s);
    }
  }

  lemma {:induction false} RunReadsOn(s: Sys, moves: seq<Move>)
    requires Inv(s) && (Reading(s.guest) || s.guest.Idle?)
    requires forall i :: 0 <= i < |moves| ==> IsPeerMove(moves[i])
    ensures ReadsOn(s, Run(s, moves))
    decreases |moves|
  {
    hide Inv, Next, PeerStep, IsPeerMove;
    if moves == [] {
      ReadsOnSame(s);
    } else {
      PeerReadsOn(s, moves[0]);
      PeerNext(s, moves[0]);
      NextInv(s, moves[0]);
      RunReadsOn(Next(s, moves[0]), moves[1..]);
      ReadsOnAgain(s, Next(s, moves[0]), Run(s, moves));
    }
  }

  lemma PeerNext(s: Sys, m: Move)
    requires IsPeerMove(m) && |s.req.cells| == |s.rsp.cells| == XENBUS_RING_SIZE
    ensures Next(s, m) == PeerStep(s, m)
  {
  }

  lemma TurnReadsOn(s: Sys, script: Script)
    requires Inv(s) && (Reading(s.guest) || s.guest.Idle?)
    ensures ReadsOn(s, Turn(s, script, GuestStep))
  {
    hide Inv, Next, Run;
    RunReadsOn(s, Part(script));
    TurnIs(s, script, GuestStep);
    var u := Run(s, Part(script));
    GuestReadsOn(u);
    ReadsOnAgain(s, u, Next(u, GuestStep));
  }

  lemma {:induction false} FinishReadsOn(s: Sys, script: Script)
    requires Inv(s) && (Reading(s.guest) || s.guest.Idle?)
    ensures ReadsOn(s, Finish(s, script).0)
    decreases |script|, s.pending, Left(s.guest), AloneRank(s)
  {
    hide Inv, Turn, Left, AloneRank;
    if Over(s, script) {
      FinishOver(s, script);
      ReadsOnSame(s);
    } else {
      AloneTurn(s, script);
      var t := Turn(s, script, GuestStep);
      TurnReadsOn(s, script);
      FinishReadsOn(t, Tail(script));
      ReadsOnAgain(s, t, Finish(t, Tail(script)).0);
    }
  }

  lemma AfterCallRead(s: Sys, len: nat)
    requires Inv(s) && s.guest.Idle? && len < WORD
    ensures var t := Called(s, CallRead(len));
            && t == s.(guest := AfterRead(len, []), log := s.log.(asked := s.log.asked + len))
            && (Reading(t.guest) || t.guest.Idle?) && Stream(t) == Stream(s)
  {
    hide Inv;
  }

  /** A read that returns hands out the next bytes of the stream. */
  lemma ReadHandsOut(s: Sys, len: nat, t: Sys)
    requires Inv(s) && Inv(t) && s.guest.Idle? && t.guest.Idle?
    requires |t.guest.last| == len && t.log.asked == s.log.asked + len
    ensures t.log.rspReleased == s.log.rspReleased + len <= |Stream(t)|
    ensures t.guest.last == Stream(t)[s.log.rspReleased..t.log.rspReleased]
  {
    hide Inv;
    IdleMeans(s);
    IdleMeans(t);
    Facts(s);
    Facts(t);
    var k := |s.log.guestGot|;
    assert t.log.guestGot == Stream(t)[..k + len];
    assert t.guest.last == t.log.guestGot[k..] == Stream(t)[k..k + len];
  }

  lemma PerformReads(s: Sys, len: nat, script: Script)
    requires Inv(s) && s.guest.Idle? && len < WORD
    ensures var t := Perform(s, script, CallRead(len)).0;
            && Stream(s) <= Stream(t)
            && (t.guest.Idle? ==>
                  && t.log.rspReleased == s.log.rspReleased + len <= |Stream(t)|
                  && t.guest.last == Stream(t)[s.log.rspReleased..t.log.rspReleased])
  {
    hide Inv, Finish, Stream;
    AfterCallRead(s, len);
    var u := Called(s, CallRead(len));
    FinishReadsOn(u, script);
    var t := Finish(u, script).0;
    if t.guest.Idle? {
      assert |t.guest.last| == len by {
        if len == 0 { assert u.guest == Idle([]); }
      }
      ReadHandsOut(s, len, t);
    }
  }

  lemma {:induction false} DrainedReads(s: Sys, script: Script, left: nat)
    requires Inv(s) && s.guest.Idle? && left < WORD
    ensures var t := Drained(s, script, left).0;
            && Stream(s) <= Stream(t)
            && (t.guest.Idle? ==> t.log.rspReleased == s.log.rspReleased + left)
    decreases left
  {
    hide Inv, Perform, Stream;
    if left > 0 {
      var part := Min(left, XENSTORE_PAYLOAD_MAX);
      PerformReads(s, part, script);
      var (t, rest) := Perform(s, script, CallRead(part));
      if t.guest.Idle? {
        DrainedReads(t, rest, left - part);
      }
    }
  }

  /** What the bytes from `from` on are, in a later state. */
  lemma SameBytes(t: Sys, u: Sys, from: nat, n: nat, bytes: seq<byte>)
    requires Stream(t) <= Stream(u) && from + n <= |Stream(t)| && n <= |bytes| && ComesAt(u, from, bytes)
    ensures Stream(t)[from..from + n] == bytes[..n]
  {
    assert Stream(t) == Stream(u)[..|Stream(t)|];
    assert bytes[..n] == Stream(u)[from..][..n] == Stream(u)[from..from + n];
  }

  lemma HeaderOf(r: Reply)
    requires ValidReply(r)
    ensures |Wire(r)| == HEADER_SIZE + |r.payload| && Wire(r)[HEADER_SIZE..] == r.payload
    ensures DecodeHdr(Wire(r)[..HEADER_SIZE]) == Hdr(r.typ, r.reqId, r.txId, |r.payload|)
  {
    hide DecodeHdr;
    WireHeader(r, []);
    assert Wire(r) + [] == Wire(r);
  }

  /** A call that comes through the reply gives its answer, and takes a framed reply off
      the ring.  The reply is there at the latest in the state `u`. */
  lemma RepliedReads(s: Sys, script: Script, r: Reply, u: Sys)
    requires Inv(s) && s.guest.Idle? && ValidReply(r)
    ensures var ret := Replied(s, script);
            && Stream(s) <= Stream(ret.sys)
            && (ret.sys.guest.Idle? && Stream(ret.sys) <= Stream(u) && ComesAt(u, s.log.rspReleased, Wire(r)) ==>
                  && ret.value == Answer(r)
                  && (Framed(r) ==> ret.sys.log.rspReleased == s.log.rspReleased + |Wire(r)|))
  {
    hide Inv, Perform, Drained, Stream, DecodeHdr, Wire, ComesAt;
    var ret := Replied(s, script);
    var from, n := s.log.rspReleased, |r.payload|;
    PerformReads(s, HEADER_SIZE, script);
    var (t, rest) := Perform(s, script, CallRead(HEADER_SIZE));
    if t.guest.Idle? {
      var h := LastHdr(t.guest);
      if h.typ == XS_READ && h.len > XENSTORE_PAYLOAD_MAX {
        DrainedReads(t, rest, h.len);
      } else if h.typ == XS_READ {
        PerformReads(t, h.len, rest);
      }
      if ret.sys.guest.Idle? && Stream(ret.sys) <= Stream(u) && ComesAt(u, from, Wire(r)) {
        HeaderOf(r);
        SameBytes(t, u, from, HEADER_SIZE, Wire(r));
        assert h == Hdr(r.typ, r.reqId, r.txId, n);
        if r.typ == XS_READ && n <= XENSTORE_PAYLOAD_MAX {
          SameBytes(ret.sys, u, from, HEADER_SIZE + n, Wire(r));
          assert Wire(r)[..HEADER_SIZE + n] == Wire(r);
          assert ret.sys.guest.last == Stream(ret.sys)[from..from + (HEADER_SIZE + n)][HEADER_SIZE..];
        }
      }
    }
  }

  // ----- what a request leaves alone -----

  /** `t` is a later state than `s`, without a read in between. */
  ghost predicate WritesOn(s: Sys, t: Sys) {
    && Stream(s) <= Stream(t) && t.log.rspReleased == s.log.rspReleased
    && (Writing(s.guest) || s.guest.Idle? ==> Writing(t.guest) || t.guest.Idle?)
  }

  lemma PeerWritesOn(s: Sys, m: Move)
    requires |s.req.cells| == |s.rsp.cells| == XENBUS_RING_SIZE && IsPeerMove(m)
    ensures WritesOn(s, PeerStep(s, m))
  {
    hide Sub32, Add32, Mask, Writing, Stream;
    PeerExtends(s, m);
  }

  lemma GuestWritesOn(s: Sys, m: Move)
    requires |s.req.cells| == |s.rsp.cells| == XENBUS_RING_SIZE
    requires Writing(s.guest) || s.guest.Idle?
    requires m == GuestStep || m == CallNotify || m.CallWrite?
    ensures WritesOn(s, Next(s, m))
  {
    hide Sub32, Add32, Mask;
  }

  lemma WritesOnAgain(s: Sys, t: Sys, u: Sys)
    requires WritesOn(s, t) && WritesOn(t, u)
    ensures Writing(s.guest) || s.guest.Idle? ==> WritesOn(s, u)
  {
    hide Stream;
  }

  lemma {:induction false} RunWritesOn(s: Sys, moves: seq<Move>)
    requires Inv(s) && (Writing(s.guest) || s.guest.Idle?)
    requires forall i :: 0 <= i < |moves| ==> IsPeerMove(moves[i])
    ensures WritesOn(s, Run(s, moves))
    decreases |moves|
  {
    hide Inv, Next, PeerStep, IsPeerMove;
    if moves != [] {
      RingSizes(s);
      PeerWritesOn(s, moves[0]);
      PeerNext(s, moves[0]);
      NextInv(s, moves[0]);
      RunWritesOn(Next(s, moves[0]), moves[1..]);
      WritesOnAgain(s, Next(s, moves[0]), Run(s, moves));
    }
  }

  lemma TurnWritesOn(s: Sys, script: Script, m: Move)
    requires Inv(s) && (Writing(s.guest) || s.guest.Idle?) && (m == GuestStep || m == CallNotify)
    ensures WritesOn(s, Turn(s, script, m))
  {
    hide Inv, Next, Run;
    RunWritesOn(s, Part(script));
    TurnIs(s, script, m);
    var u := Run(s, Part(script));
    GuestWritesOn(u, m);
    WritesOnAgain(s, u, Next(u, m));
  }

  lemma {:induction false} FinishWritesOn(s: Sys, script: Script)
    requires Inv(s) && (Writing(s.guest) || s.guest.Idle?)
    ensures WritesOn(s, Finish(s, script).0)
    decreases |script|, s.pending, Left(s.guest), AloneRank(s)
  {
    hide Inv, Turn, Left, AloneRank;
    if Over(s, script) {
      FinishOver(s, script);
    } else {
      AloneTurn(s, script);
      var t := Turn(s, script, GuestStep);
      TurnWritesOn(s, script, GuestStep);
      FinishWritesOn(t, Tail(script));
      WritesOnAgain(s, t, Finish(t, Tail(script)).0);
    }
  }

  lemma PerformWritesOn(s: Sys, script: Script, data: seq<byte>)
    requires Inv(s) && (Writing(s.guest) || s.guest.Idle?)
    ensures WritesOn(s, Perform(s, script, CallWrite(data)).0)
  {
    hide Inv, Next, Finish, WritesOn;
    RingSizes(s);
    GuestWritesOn(s, CallWrite(data));
    var u := Called(s, CallWrite(data));
    assert Writing(u.guest) || u.guest.Idle? by { StillWriting(s, u); }
    FinishWritesOn(u, script);
    WritesOnAgain(s, u, Finish(u, script).0);
  }

  lemma StillWriting(s: Sys, t: Sys)
    requires WritesOn(s, t) && (Writing(s.guest) || s.guest.Idle?)
    ensures Writing(t.guest) || t.guest.Idle?
  {
  }

  lemma RequestedReads(s: Sys, script: Script, path: seq<byte>)
    requires Inv(s) && s.guest.Idle?
    ensures WritesOn(s, Requested(s, script, path).0)
  {
    hide Inv, Perform, Turn, RequestHdr, RequestBody, WritesOn;
    PerformWritesOn(s, script, RequestHdr(path));
    var (t, rest) := Perform(s, script, CallWrite(RequestHdr(path)));
    if t.guest.Idle? {
      PerformWritesOn(t, rest, RequestBody(path));
      var (u, more) := Perform(t, rest, CallWrite(RequestBody(path)));
      WritesOnAgain(s, t, u);
      if u.guest.Idle? {
        TurnWritesOn(u, more, CallNotify);
        WritesOnAgain(s, u, Turn(u, more, CallNotify));
      }
    }
  }

  lemma OneCallReads(s: Sys, script: Script, path: seq<byte>, r: Reply, u: Sys)
    requires Inv(s) && s.guest.Idle? && ValidReply(r)
    ensures var ret := OneCall(s, script, path);
            && Stream(s) <= Stream(ret.sys)
            && (ret.sys.guest.Idle? && Stream(ret.sys) <= Stream(u) && ComesAt(u, s.log.rspReleased, Wire(r)) ==>
                  && ret.value == Answer(r)
                  && (Framed(r) ==> ret.sys.log.rspReleased == s.log.rspReleased + |Wire(r)|))
  {
    hide Inv, Requested, Replied, Stream, ComesAt, Wire, Framed, Answer;
    RequestedReads(s, script, path);
    var (t, rest) := Requested(s, script, path);
    if t.guest.Idle? {
      RepliedReads(t, rest, r, u);
    }
  }

  /** If all calls of a session return, and the replies that came are framed, each call
      gives the answer in its reply. */
  lemma {:induction false} CallsRead(s: Sys, script: Script, paths: seq<seq<byte>>, rs: seq<Reply>)
    requires Inv(s) && s.guest.Idle? && |rs| == |paths| && AllFramed(rs)
    ensures var all := Calls(s, script, paths);
            && Stream(s) <= Stream(all.sys)
            && (all.sys.guest.Idle? ==> |all.values| == |paths|)
            && (all.sys.guest.Idle? && ComesAt(all.sys, s.log.rspReleased, WireAll(rs)) ==>
                  forall i :: 0 <= i < |paths| ==> all.values[i] == Answer(rs[i]))
    decreases |paths|
  {
    hide Inv, Stream, ComesAt, OneCall, Wire, Framed, Answer, ValidReply;
    if paths != [] {
      CallsFirst(s, script, paths);
      var all := Calls(s, script, paths);
      var first := OneCall(s, script, paths[0]);
      OneCallReads(s, script, paths[0], rs[0], all.sys);
      if first.sys.guest.Idle? {
        CallsRead(first.sys, first.script, paths[1..], rs[1..]);
        FirstComes(all.sys, s.log.rspReleased, Wire(rs[0]), WireAll(rs[1..]));
      }
    }
  }

  lemma FirstComes(t: Sys, from: nat, first: seq<byte>, more: seq<byte>)
    ensures ComesAt(t, from, first + more) ==> ComesAt(t, from, first) && ComesAt(t, from + |first|, more)
  {
    if ComesAt(t, from, first + more) {
      var c := Stream(t)[from..];
      assert first + more == c[..|first| + |more|];
      assert first == c[..|first| + |more|][..|first|] == c[..|first|];
      assert more == c[..|first| + |more|][|first|..] == c[|first|..][..|more|];
      assert c[|first|..] == Stream(t)[from + |first|..];
    }
  }

  // ----- calls that are served return -----

  /** Both writes of a request will be served. */
  ghost predicate RequestServed(s: Sys, script: Script, path: seq<byte>)
    requires Inv(s)
  {
    && WillBeServed(Called(s, CallWrite(RequestHdr(path))), script)
    && var (t, rest) := Perform(s, script, CallWrite(RequestHdr(path)));
    WillBeServed(Called(t, CallWrite(RequestBody(path))), rest)
  }

  ghost predicate DrainServed(s: Sys, script: Script, left: nat)
    requires Inv(s)
    decreases left
  {
    left == 0 ||
    (var part := Min(left, XENSTORE_PAYLOAD_MAX);
     && WillBeServed(Called(s, CallRead(part)), script)
     && var (t, rest) := Perform(s, script, CallRead(part));
     DrainServed(t, rest, left - part))
  }

  /** Each read of a reply will be served, at its own time: that of the header, and those
      that the header asks for. */
  ghost predicate ReplyServed(s: Sys, script: Script)
    requires Inv(s)
  {
    && WillBeServed(Called(s, CallRead(HEADER_SIZE)), script)
    && var (t, rest) := Perform(s, script, CallRead(HEADER_SIZE));
    var h := LastHdr(t.guest);
    h.typ == XS_READ ==>
      if h.len > XENSTORE_PAYLOAD_MAX then DrainServed(t, rest, h.len)
      else WillBeServed(Called(t, CallRead(h.len)), rest)
  }

  ghost predicate CallServed(s: Sys, script: Script, path: seq<byte>)
    requires Inv(s)
  {
    && RequestServed(s, script, path)
    && var (t, rest) := Requested(s, script, path);
    ReplyServed(t, rest)
  }

  ghost predicate SessionServed(s: Sys, script: Script, paths: seq<seq<byte>>)
    requires Inv(s)
    decreases |paths|
  {
    paths == [] ||
    (&& CallServed(s, script, paths[0])
     && var first := OneCall(s, script, paths[0]);
     SessionServed(first.sys, first.script, paths[1..]))
  }

  lemma PerformEnds(s: Sys, script: Script, m: Move)
    requires Inv(s) && WillBeServed(Called(s, m), script)
    ensures Perform(s, script, m).0.guest.Idle?
  {
    hide Inv, Finish, WillBeServed;
    CallEnds(s, m, script);
  }

  lemma {:induction false} DrainedEnds(s: Sys, script: Script, left: nat)
    requires Inv(s) && s.guest.Idle? && DrainServed(s, script, left)
    ensures Drained(s, script, left).0.guest.Idle?
    decreases left
  {
    hide Inv, Perform, WillBeServed;
    if left > 0 {
      var part := Min(left, XENSTORE_PAYLOAD_MAX);
      PerformEnds(s, script, CallRead(part));
      var (t, rest) := Perform(s, script, CallRead(part));
      DrainedEnds(t, rest, left - part);
    }
  }

  lemma RepliedEnds(s: Sys, script: Script)
    requires Inv(s) && ReplyServed(s, script)
    ensures Replied(s, script).sys.guest.Idle?
  {
    hide Inv, Perform, WillBeServed, DrainServed, Drained, LastHdr;
    PerformEnds(s, script, CallRead(HEADER_SIZE));
    var (t, rest) := Perform(s, script, CallRead(HEADER_SIZE));
    var h := LastHdr(t.guest);
    if h.typ == XS_READ {
      if h.len > XENSTORE_PAYLOAD_MAX {
        DrainedEnds(t, rest, h.len);
      } else {
        PerformEnds(t, rest, CallRead(h.len));
      }
    }
  }

  lemma {:induction false} PeerKeepsIdle(s: Sys, moves: seq<Move>)
    requires Inv(s) && s.guest.Idle? && forall i :: 0 <= i < |moves| ==> IsPeerMove(moves[i])
    ensures Run(s, moves).guest.Idle?
    decreases |moves|
  {
    hide Inv, Next, IsPeerMove;
    if moves != [] {
      IdleKept(s, moves[0]);
      NextInv(s, moves[0]);
      PeerKeepsIdle(Next(s, moves[0]), moves[1..]);
    }
  }

  lemma NotifyKeepsIdle(s: Sys)
    requires |s.req.cells| == |s.rsp.cells| == XENBUS_RING_SIZE && s.guest.Idle?
    ensures Next(s, CallNotify).guest.Idle?
  {
  }

  lemma RequestedEnds(s: Sys, script: Script, path: seq<byte>)
    requires Inv(s) && RequestServed(s, script, path)
    ensures Requested(s, script, path).0.guest.Idle?
  {
    hide Inv, Perform, WillBeServed, RequestHdr, RequestBody, Run, Next;
    PerformEnds(s, script, CallWrite(RequestHdr(path)));
    var (t, rest) := Perform(s, script, CallWrite(RequestHdr(path)));
    PerformEnds(t, rest, CallWrite(RequestBody(path)));
    var (u, more) := Perform(t, rest, CallWrite(RequestBody(path)));
    PeerKeepsIdle(u, Part(more));
    TurnIs(u, more, CallNotify);
    NotifyKeepsIdle(Run(u, Part(more)));
  }

  /** Main result: a call that is served returns, and if the bytes that the peer composed
      next, before the request or at any time after it, are a reply, it returns the
      answer in it. */
  lemma CallAnswered(s: Sys, script: Script, path: seq<byte>, r: Reply)
    requires Inv(s) && s.guest.Idle? && ValidReply(r)
    ensures var ret := OneCall(s, script, path);
            CallServed(s, script, path) ==>
              && ret.sys.guest.Idle?
              && (ComesAt(ret.sys, s.log.rspReleased, Wire(r)) ==>
                    && ret.value == Answer(r)
                    && (Framed(r) ==> ret.sys.log.rspReleased == s.log.rspReleased + |Wire(r)|))
  {
    hide Inv, Requested, Replied, Stream, ComesAt, Wire, Framed, Answer, RequestServed, ReplyServed;
    if CallServed(s, script, path) {
      RequestedEnds(s, script, path);
      var (t, rest) := Requested(s, script, path);
      RepliedEnds(t, rest);
      OneCallReads(s, script, path, r, OneCall(s, script, path).sys);
    }
  }

  lemma {:induction false} SessionEnds(s: Sys, script: Script, paths: seq<seq<byte>>)
    requires Inv(s) && s.guest.Idle? && SessionServed(s, script, paths)
    ensures Calls(s, script, paths).sys.guest.Idle?
    decreases |paths|
  {
    hide Inv, Requested, Replied, RequestServed, ReplyServed;
    if paths != [] {
      var (t, rest) := Requested(s, script, paths[0]);
      RequestedEnds(s, script, paths[0]);
      RepliedEnds(t, rest);
      CallsFirst(s, script, paths);
      var first := OneCall(s, script, paths[0]);
      SessionEnds(first.sys, first.script, paths[1..]);
    }
  }

  /** Main result: if each call of a session is served, all return, and if framed replies
      are what the peer composed next, each at any time before it is read, every call
      returns the answer to its request. */
  lemma SessionAnswers(s: Sys, script: Script, paths: seq<seq<byte>>, rs: seq<Reply>)
    requires Inv(s) && s.guest.Idle? && |rs| == |paths| && AllFramed(rs)
    ensures var all := Calls(s, script, paths);
            SessionServed(s, script, paths) ==>
              && all.sys.guest.Idle? && |all.values| == |paths|
              && (ComesAt(all.sys, s.log.rspReleased, WireAll(rs)) ==>
                    forall i :: 0 <= i < |paths| ==> all.values[i] == Answer(rs[i]))
  {
    hide Inv, Stream, ComesAt, Calls, SessionServed, Wire, Framed, Answer, ValidReply;
    CallsRead(s, script, paths, rs);
    if SessionServed(s, script, paths) {
      SessionEnds(s, script, paths);
    }
  }

  // ----- a busy peer serves -----

  /** Windows that a call of `n` bytes needs at most. */
  function Need(n: nat): nat { (n + 1) * ROUNDS_PER_BYTE }

  function DrainNeed(left: nat): nat
    decreases left
  {
    if left == 0 then 0
    else
      var part := Min(left, XENSTORE_PAYLOAD_MAX);
      Need(part) + DrainNeed(left - part)
  }

  function RequestNeed(path: seq<byte>): nat { Need(HEADER_SIZE) + Need(|RequestBody(path)|) + 1 }

  function PayloadNeed(n: nat): nat { if n > XENSTORE_PAYLOAD_MAX then DrainNeed(n) else Need(n) }

  function ReplyNeed(r: Reply): nat { Need(HEADER_SIZE) + PayloadNeed(|r.payload|) }

  /** What is left of a busy script after `n` windows of it is busy, and not shorter than it
      has to be. */
  ghost predicate BusyRest(script: Script, rest: Script, w: nat, n: nat) {
    Busy(rest, w) && |rest| >= |script| - n * w
  }

  lemma BusyRestAgain(script: Script, rest: Script, more: Script, w: nat, n: nat, m: nat)
    requires BusyRest(script, rest, w, n) && BusyRest(rest, more, w, m)
    ensures BusyRest(script, more, w, n + m)
  {
    hide Busy;
    assert (n + m) * w == n * w + m * w;
  }

  /** A busy script serves a call that can be served from now on. */
  lemma BusyServes(s: Sys, script: Script, w: nat, n: nat)
    requires Inv(s) && Served(s) && Busy(script, w) && Remaining(s) <= n && |script| >= n * w
    ensures WillBeServed(s, script) && Finish(s, script).0.guest.Idle?
    ensures BusyRest(script, Finish(s, script).1, w, n)
  {
    hide Inv, Served, Remaining, FairWindows, Finish, Busy;
    var least := RemainingCounts(s);
    MulMonotone(least, n, w);
    BusyIsFair(s, script, w, least);
    NoTurns(s, script);
    assert script[0..] == script;
    assert ServedFrom(s, script, 0, seq(least, i => w));
    BusyScriptFinishes(s, script, w);
  }

  lemma RemainingCounts(s: Sys) returns (n: nat)
    requires Inv(s)
    ensures n == Remaining(s)
  {
    hide Inv;
    if s.guest.Idle? {
      n := 0;
    } else {
      SomethingLeft(s);
      n := Remaining(s);
    }
  }

  lemma BusyWrite(s: Sys, data: seq<byte>, script: Script, w: nat)
    requires Inv(s) && s.guest.Idle? && |data| < WORD && Busy(script, w) && |script| >= Need(|data|) * w
    ensures WillBeServed(Called(s, CallWrite(data)), script)
    ensures var (t, rest) := Perform(s, script, CallWrite(data));
            t.guest.Idle? && BusyRest(script, rest, w, Need(|data|))
  {
    hide Inv, Finish, WillBeServed, Busy, BusyRest, Remaining;
    var t := Called(s, CallWrite(data));
    FreshCall(t, |data|);
    BusyServes(t, script, w, Need(|data|));
  }

  lemma FreshCall(t: Sys, n: nat)
    requires Inv(t) && Left(t.guest) <= n
    ensures Remaining(t) <= Need(n)
  {
    hide Inv;
    if !t.guest.Idle? {
      SomethingLeft(t);
      MulMonotone(Left(t.guest), n, ROUNDS_PER_BYTE);
    }
  }

  lemma BusyRead(s: Sys, len: nat, script: Script, w: nat)
    requires Inv(s) && s.guest.Idle? && len < WORD && len <= Supply(s)
    requires Busy(script, w) && |script| >= Need(len) * w
    ensures WillBeServed(Called(s, CallRead(len)), script)
    ensures var (t, rest) := Perform(s, script, CallRead(len));
            && t.guest.Idle? && BusyRest(script, rest, w, Need(len))
            && Supply(t) >= Supply(s) - len
  {
    hide Inv, Finish, WillBeServed, Busy, BusyRest, Remaining;
    AfterCallRead(s, len);
    var t := Called(s, CallRead(len));
    FreshCall(t, len);
    BusyServes(t, script, w, Need(len));
    PerformReads(s, len, script);
  }

  lemma {:induction false} BusyDrain(s: Sys, left: nat, script: Script, w: nat)
    requires Inv(s) && s.guest.Idle? && left < WORD && left <= Supply(s)
    requires Busy(script, w) && |script| >= DrainNeed(left) * w
    ensures DrainServed(s, script, left) && BusyRest(script, Drained(s, script, left).1, w, DrainNeed(left))
    decreases left
  {
    hide Inv, WillBeServed, Busy, Perform, Supply, Need;
    if left > 0 {
      var part := Min(left, XENSTORE_PAYLOAD_MAX);
      MulAdds(Need(part), DrainNeed(left - part), w);
      BusyRead(s, part, script, w);
      var (t, rest) := Perform(s, script, CallRead(part));
      BusyDrain(t, left - part, rest, w);
      BusyRestAgain(script, rest, Drained(t, rest, left - part).1, w, Need(part), DrainNeed(left - part));
    }
  }

  /** A busy script serves every request. */
  lemma BusyRequest(s: Sys, script: Script, path: seq<byte>, w: nat)
    requires Inv(s) && s.guest.Idle?
    ensures Busy(script, w) && |script| >= RequestNeed(path) * w ==>
              RequestServed(s, script, path) && BusyRest(script, Requested(s, script, path).1, w, RequestNeed(path))
  {
    hide Inv, WillBeServed, Perform, Need, RequestHdr, RequestBody, Turn, BusyRest;
    if Busy(script, w) && |script| >= RequestNeed(path) * w {
      var n, m := Need(HEADER_SIZE), Need(|RequestBody(path)|);
      MulAdds(n, m + 1, w);
      MulAdds(m, 1, w);
      BusyWrite(s, RequestHdr(path), script, w);
      var (t, rest) := Perform(s, script, CallWrite(RequestHdr(path)));
      BusyRestMeans(script, rest, w, n);
      BusyWrite(t, RequestBody(path), rest, w);
      var (u, more) := Perform(t, rest, CallWrite(RequestBody(path)));
      BusyRestMeans(rest, more, w, m);
      BusyRestAgain(script, rest, more, w, n, m);
      BusyRestTail(more, w);
      BusyRestAgain(script, more, Tail(more), w, n + m, 1);
    }
  }

  lemma BusyRestMeans(script: Script, rest: Script, w: nat, n: nat)
    requires BusyRest(script, rest, w, n)
    ensures Busy(rest, w) && |rest| >= |script| - n * w
  {
  }

  lemma BusyRestTail(script: Script, w: nat)
    requires Busy(script, w)
    ensures BusyRest(script, Tail(script), w, 1)
  {
    if script != [] {
      BusySuffix(script, w, 1);
    }
  }

  /** The reply `r` comes late: after `k` turns of the call that reads its header, about
      which nothing is said, it is there, and the peer is busy for long enough. */
  ghost predicate ComesLate(s: Sys, script: Script, r: Reply, k: nat, w: nat)
    requires Inv(s) && ValidReply(r)
  {
    && k <= |script|
    && var t := AfterTurns(Called(s, CallRead(HEADER_SIZE)), script, k);
    && Reading(t.guest) && ComesAt(t, s.log.rspReleased, Wire(r))
    && Busy(script[k..], w) && |script| - k >= ReplyNeed(r) * w
  }

  lemma {:induction false} TurnsReadOn(s: Sys, script: Script, k: nat)
    requires Inv(s) && (Reading(s.guest) || s.guest.Idle?) && k <= |script|
    ensures ReadsOn(s, AfterTurns(s, script, k))
    decreases k
  {
    hide Inv, Turn, AfterTurns;
    if k == 0 {
      NoTurns(s, script);
      ReadsOnSame(s);
    } else {
      AfterFirstTurn(s, script, k);
      TurnReadsOn(s, script);
      var t := Turn(s, script, GuestStep);
      TurnsReadOn(t, script[1..], k - 1);
      ReadsOnAgain(s, t, AfterTurns(s, script, k));
    }
  }

  /** What a read that is under way still asks for is what it does of what comes. */
  lemma LeftOfRead(s: Sys, len: nat, t: Sys, bytes: seq<byte>)
    requires Inv(s) && Inv(t) && s.guest.Idle? && Reading(t.guest)
    requires t.guest.len == len && t.log.asked == s.log.asked + len
    requires ComesAt(t, s.log.rspReleased, bytes) && len <= |bytes|
    ensures Served(t) && Left(t.guest) <= len
  {
    hide Inv;
    IdleMeans(s);
    Facts(t);
    ReadingMeans(t);
  }

  lemma ReadingMeans(t: Sys)
    requires Inv(t) && Reading(t.guest)
    ensures |t.log.guestGot| - |Settled(t.guest)| + t.guest.len == t.log.asked
    ensures |t.log.guestGot| == t.log.rspReleased
  {
  }

  lemma LateHeader(s: Sys, script: Script, r: Reply, k: nat, w: nat)
    requires Inv(s) && s.guest.Idle? && ValidReply(r) && ComesLate(s, script, r, k, w)
    ensures WillBeServed(Called(s, CallRead(HEADER_SIZE)), script)
    ensures var (t, rest) := Perform(s, script, CallRead(HEADER_SIZE));
            && t.guest.Idle? && ComesAt(t, s.log.rspReleased, Wire(r))
            && BusyRest(script[k..], rest, w, Need(HEADER_SIZE))
  {
    hide Inv, Finish, Busy, BusyRest, Remaining, AfterTurns, Wire, FairWindows, ComesAt, Stream, PayloadNeed;
    var u := Called(s, CallRead(HEADER_SIZE));
    AfterCallRead(s, HEADER_SIZE);
    TurnsReadOn(u, script, k);
    HeaderOf(r);
    var v := AfterTurns(u, script, k);
    LeftOfRead(s, HEADER_SIZE, v, Wire(r));
    FreshCall(v, HEADER_SIZE);
    MulAdds(Need(HEADER_SIZE), PayloadNeed(|r.payload|), w);
    BusyServes(v, script[k..], w, Need(HEADER_SIZE));
    SkipTurns(u, script, k);
    FinishReadsOn(v, script[k..]);
    ComesLater(v, Finish(u, script).0, s.log.rspReleased, Wire(r));
    LateServed(u, script, k, w);
  }

  lemma LateServed(s: Sys, script: Script, k: nat, w: nat)
    requires Inv(s) && k <= |script|
    requires var t := AfterTurns(s, script, k);
             Served(t) && Busy(script[k..], w) && |script| - k >= Remaining(t) * w
    ensures WillBeServed(s, script)
  {
    hide Inv, Served, Remaining, FairWindows, Busy, AfterTurns;
    var t := AfterTurns(s, script, k);
    var least := RemainingCounts(t);
    BusyIsFair(t, script[k..], w, least);
    assert ServedFrom(s, script, k, seq(least, i => w));
  }

  lemma BusyRestMore(script: Script, rest: Script, w: nat, n: nat, m: nat)
    requires BusyRest(script, rest, w, n) && n <= m
    ensures BusyRest(script, rest, w, m)
  {
    hide Busy;
    MulMonotone(n, m, w);
  }

  /** The payload that a header announces is there. */
  lemma PayloadThere(t: Sys, from: nat, r: Reply)
    requires Inv(t) && ValidReply(r) && ComesAt(t, from, Wire(r)) && t.log.rspReleased == from + HEADER_SIZE
    requires t.guest.Idle? && t.guest.last == Stream(t)[from..from + HEADER_SIZE]
    ensures LastHdr(t.guest) == Hdr(r.typ, r.reqId, r.txId, |r.payload|) && |r.payload| <= Supply(t)
  {
    hide Inv, DecodeHdr, Wire;
    HeaderOf(r);
    SameBytes(t, t, from, HEADER_SIZE, Wire(r));
  }

  /** A late reply is served. */
  lemma LateReply(s: Sys, script: Script, r: Reply, k: nat, w: nat)
    requires Inv(s) && s.guest.Idle? && ValidReply(r) && ComesLate(s, script, r, k, w)
    ensures ReplyServed(s, script) && ComesAt(Replied(s, script).sys, s.log.rspReleased, Wire(r))
    ensures BusyRest(script[k..], Replied(s, script).script, w, ReplyNeed(r))
  {
    hide Inv, Perform, Busy, WillBeServed, DrainNeed, Need, Wire, ComesAt, Drained, DrainServed, LastHdr, Stream,
      Supply;
    var from, n := s.log.rspReleased, |r.payload|;
    LateHeader(s, script, r, k, w);
    PerformReads(s, HEADER_SIZE, script);
    var (t, rest) := Perform(s, script, CallRead(HEADER_SIZE));
    PayloadThere(t, from, r);
    MulAdds(Need(HEADER_SIZE), PayloadNeed(n), w);
    var ret := Replied(s, script);
    if r.typ != XS_READ {
      BusyRestMore(script[k..], rest, w, Need(HEADER_SIZE), ReplyNeed(r));
    } else {
      if n > XENSTORE_PAYLOAD_MAX {
        BusyDrain(t, n, rest, w);
        DrainedReads(t, rest, n);
      } else {
        BusyRead(t, n, rest, w);
        PerformReads(t, n, rest);
      }
      ComesLater(t, ret.sys, from, Wire(r));
      BusyRestAgain(script[k..], rest, ret.script, w, Need(HEADER_SIZE), PayloadNeed(n));
    }
  }

  /** So a call whose request is served returns the answer in a reply that the peer
      composes after it. */
  lemma LateReplyAnswered(s: Sys, script: Script, path: seq<byte>, r: Reply, k: nat, w: nat)
    requires Inv(s) && s.guest.Idle? && ValidReply(r)
    ensures var (t, rest) := Requested(s, script, path);
            var ret := OneCall(s, script, path);
            RequestServed(s, script, path) && ComesLate(t, rest, r, k, w) ==>
              && ret.sys.guest.Idle? && ret.value == Answer(r)
              && (Framed(r) ==> ret.sys.log.rspReleased == s.log.rspReleased + |Wire(r)|)
  {
    hide Inv, Requested, Replied, Stream, ComesAt, Wire, Framed, Answer, RequestServed, ReplyServed, BusyRest,
      ComesLate, WillBeServed;
    var (t, rest) := Requested(s, script, path);
    if RequestServed(s, script, path) && ComesLate(t, rest, r, k, w) {
      RequestedEnds(s, script, path);
      RequestedReads(s, script, path);
      LateReply(t, rest, r, k, w);
      CallAnswered(s, script, path, r);
    }
  }

  /** The request is served, and the reply to it comes late. */
  ghost predicate AnsweredLate(s: Sys, script: Script, path: seq<byte>, r: Reply)
    requires Inv(s)
  {
    && ValidReply(r) && RequestServed(s, script, path)
    && var (t, rest) := Requested(s, script, path);
    exists k, w :: ComesLate(t, rest, r, k, w)
  }

  /** Every call of a session is answered late, each at its own time. */
  ghost predicate SessionLate(s: Sys, script: Script, paths: seq<seq<byte>>, rs: seq<Reply>)
    requires Inv(s) && |rs| == |paths|
    decreases |paths|
  {
    paths == [] ||
    (&& AnsweredLate(s, script, paths[0], rs[0])
     && var first := OneCall(s, script, paths[0]);
     SessionLate(first.sys, first.script, paths[1..], rs[1..]))
  }

  lemma AnsweredIs(s: Sys, script: Script, path: seq<byte>, r: Reply)
    requires Inv(s) && s.guest.Idle? && AnsweredLate(s, script, path, r)
    ensures var ret := OneCall(s, script, path);
            && ret.sys.guest.Idle? && ret.value == Answer(r)
            && (Framed(r) ==> ret.sys.log.rspReleased == s.log.rspReleased + |Wire(r)|)
  {
    hide Inv, Requested, OneCall, Wire, Framed, Answer, ValidReply, RequestServed, ComesLate;
    var (t, rest) := Requested(s, script, path);
    var k: nat, w: nat :| ComesLate(t, rest, r, k, w);
    LateReplyAnswered(s, script, path, r, k, w);
  }

  /** A session with a peer that composes each reply after the request for it. */
  lemma {:induction false} LateSessionAnswers(s: Sys, script: Script, paths: seq<seq<byte>>, rs: seq<Reply>)
    requires Inv(s) && s.guest.Idle? && |rs| == |paths| && AllFramed(rs)
    ensures var all := Calls(s, script, paths);
            SessionLate(s, script, paths, rs) ==>
              && all.sys.guest.Idle? && |all.values| == |paths|
              && forall i :: 0 <= i < |paths| ==> all.values[i] == Answer(rs[i])
    decreases |paths|
  {
    hide Inv, OneCall, Wire, Framed, Answer, ValidReply, AnsweredLate;
    if paths != [] && SessionLate(s, script, paths, rs) {
      AnsweredIs(s, script, paths[0], rs[0]);
      CallsFirst(s, script, paths);
      var first := OneCall(s, script, paths[0]);
      LateSessionAnswers(first.sys, first.script, paths[1..], rs[1..]);
    }
  }

  function SessionNeed(paths: seq<seq<byte>>, rs: seq<Reply>): nat
    requires |rs| == |paths|
  {
    if paths == [] then 0 else RequestNeed(paths[0]) + ReplyNeed(rs[0]) + SessionNeed(paths[1..], rs[1..])
  }

  /** A reply that is there when its request is out comes after no turn at all. */
  lemma ComesAtOnce(s: Sys, script: Script, r: Reply, w: nat)
    requires Inv(s) && s.guest.Idle? && ValidReply(r) && ComesAt(s, s.log.rspReleased, Wire(r))
    requires Busy(script, w) && |script| >= ReplyNeed(r) * w
    ensures ComesLate(s, script, r, 0, w)
  {
    hide Inv, Stream, Wire, Busy, ReplyNeed;
    AfterCallRead(s, HEADER_SIZE);
    NoTurns(Called(s, CallRead(HEADER_SIZE)), script);
    assert script[0..] == script;
  }

  /** A busy peer answers a call if it has the reply. */
  lemma BusyCall(s: Sys, script: Script, path: seq<byte>, r: Reply, w: nat)
    requires Inv(s) && s.guest.Idle? && ValidReply(r) && ComesAt(s, s.log.rspReleased, Wire(r))
    requires Busy(script, w) && |script| >= (RequestNeed(path) + ReplyNeed(r)) * w
    ensures AnsweredLate(s, script, path, r)
    ensures var ret := OneCall(s, script, path);
            Stream(s) <= Stream(ret.sys) && BusyRest(script, ret.script, w, RequestNeed(path) + ReplyNeed(r))
  {
    hide Inv, Requested, OneCall, Replied, Wire, ValidReply, RequestServed, ComesLate, Busy, ComesAt,
      RequestNeed, ReplyNeed, Stream, BusyRest;
    var a, b := RequestNeed(path), ReplyNeed(r);
    MulAdds(a, b, w);
    BusyRequest(s, script, path, w);
    RequestedEnds(s, script, path);
    RequestedReads(s, script, path);
    var (t, rest) := Requested(s, script, path);
    BusyRestMeans(script, rest, w, a);
    ComesLater(s, t, s.log.rspReleased, Wire(r));
    ComesAtOnce(t, rest, r, w);
    LateReply(t, rest, r, 0, w);
    assert rest[0..] == rest;
    OneCallIs(s, script, path);
    BusyRestAgain(script, rest, Replied(t, rest).script, w, a, b);
    OneCallReads(s, script, path, r, s);
  }

  /** A peer that has all the replies, and is busy for long enough, serves a session. */
  lemma {:induction false} BusySession(s: Sys, script: Script, paths: seq<seq<byte>>, rs: seq<Reply>, w: nat)
    requires Inv(s) && s.guest.Idle? && |rs| == |paths| && AllFramed(rs)
    ensures Busy(script, w) && |script| >= SessionNeed(paths, rs) * w && ComesAt(s, s.log.rspReleased, WireAll(rs))
            ==> SessionLate(s, script, paths, rs)
    decreases |paths|
  {
    hide Inv, OneCall, Wire, Framed, ValidReply, AnsweredLate, Busy, ComesAt, RequestNeed, ReplyNeed, Stream, BusyRest;
    if && paths != [] && Busy(script, w) && |script| >= SessionNeed(paths, rs) * w
       && ComesAt(s, s.log.rspReleased, WireAll(rs)) {
      var n := RequestNeed(paths[0]) + ReplyNeed(rs[0]);
      MulAdds(n, SessionNeed(paths[1..], rs[1..]), w);
      FirstComes(s, s.log.rspReleased, Wire(rs[0]), WireAll(rs[1..]));
      BusyCall(s, script, paths[0], rs[0], w);
      AnsweredIs(s, script, paths[0], rs[0]);
      var first := OneCall(s, script, paths[0]);
      BusyRestMeans(script, first.script, w, n);
      ComesLater(s, first.sys, s.log.rspReleased + |Wire(rs[0])|, WireAll(rs[1..]));
      BusySession(first.sys, first.script, paths[1..], rs[1..], w);
    }
  }

  lemma OneCallIs(s: Sys, script: Script, path: seq<byte>)
    requires Inv(s)
    ensures var (t, rest) := Requested(s, script, path);
            t.guest.Idle? ==> OneCall(s, script, path) == Replied(t, rest)
  {
  }
}
