/** xenstore_read() of common/xenbus.c over a live connection. */
module Xenstore {
  import opened Arith
  import opened Options
  import opened Index32
  import opened Sequences
  import opened XsWire
  import opened XenbusProtocol
  import opened XenbusTurns
  import opened XenstoreWire
  import opened XenstoreCalls
  import opened Xenbus

  /** If the stream from `start` on begins with framed replies, one a call, then the
      calls returned their answers and have taken them, and only them. */
  ghost predicate Answered(start: seq<byte>, got: seq<byte>, stream: seq<byte>, values: seq<Option<seq<byte>>>) {
    forall rs, tail :: |rs| == |values| && AllFramed(rs) && stream == start + WireAll(rs) + tail ==>
      && got == start + WireAll(rs)
      && (forall i :: 0 <= i < |values| ==> values[i] == Answer(rs[i]))
  }

  lemma SessionAnswered(start: seq<byte>, taken: seq<byte>, stream: seq<byte>, values: seq<Option<seq<byte>>>)
    requires start + taken <= stream && Outcomes(taken, values)
    ensures Answered(start, start + taken, stream, values)
  {
    forall rs, tail | |rs| == |values| && AllFramed(rs) && stream == start + WireAll(rs) + tail
      ensures taken == WireAll(rs) && forall i :: 0 <= i < |values| ==> values[i] == Answer(rs[i])
    {
      TakenIsPrefix(start, taken, WireAll(rs), tail);
      SessionFraming(rs, tail, taken, values);
    }
  }

  lemma HeadKept(before: seq<byte>, head: seq<byte>, all: seq<byte>)
    requires before + head <= all
    ensures before + all[|before|..] == all && |all[|before|..]| >= |head| && all[|before|..][..|head|] == head
  {
    assert all[..|before + head|] == before + head;
    assert all[|before|..][..|head|] == all[..|before + head|][|before|..];
  }

  class Client {
    const ring: Connection
    const payload: array<byte>  // static, XENSTORE_PAYLOAD_MAX + 1 bytes

    constructor (ring: Connection)
      ensures this.ring == ring && fresh(payload) && payload.Length == XENSTORE_PAYLOAD_MAX + 1
    {
      this.ring := ring;
      payload := new byte[XENSTORE_PAYLOAD_MAX + 1](_ => 0);
    }

    ghost predicate Valid()
      reads this, ring, ring.req, ring.rsp
    {
      && ring.Valid()
      && payload.Length == XENSTORE_PAYLOAD_MAX + 1 && payload != ring.req && payload != ring.rsp
    }

    ghost predicate Ready()
      reads this, ring, ring.req, ring.rsp
    {
      Valid() && ring.guest.Idle?
    }

    /** The guest sleeps and the script of the peer has ended. */
    ghost predicate Stalled()
      reads this, ring, ring.req, ring.rsp
    {
      Valid() && (ring.guest.WPoll? || ring.guest.RPoll?) && !ring.pending && ring.script == [] && ring.log.told
    }

    /** Lines 142-151: send the request. */
    method SendRequest(path: seq<byte>) returns (ok: bool)
      requires Ready()
      modifies ring, ring.req, ring.rsp
      ensures Valid() && (ring.View(), ring.script) == Requested(old(ring.View()), old(ring.script), path)
      ensures ok ==> Ready() && ring.log.wanted == old(ring.log.wanted) + Request(path) && ring.log.told
      ensures AsksFor(Request(path), path)
      ensures !ok ==> Stalled() && ring.log.wanted <= old(ring.log.wanted) + Request(path)
      ensures old(ring.log.wanted) <= ring.log.wanted
      ensures ring.log.guestGot == old(ring.log.guestGot) && old(ring.log.rspSent) <= ring.log.rspSent
    {
      hide Inv, Finish, WillBeServed, AsksFor;
      RequestAsks(path);
      var len := (|path| + 1) % WORD;
      var hdr := Hdr(XS_READ, 0, 0, len);
      ghost var n;
      assert old(ring.log.wanted) + RequestHdr(path) + RequestBody(path) == old(ring.log.wanted) + Request(path);
      ok, n := ring.Write(EncodeHdr(hdr));
      if ok {
        ok, n := ring.Write((path + [0])[..len]);
        if ok {
          ring.Kick();
        }
      }
    }

    /** Lines 159-175: take an oversized payload off the ring, a buffer at a time. */
    method DrainPayload(len: nat) returns (ok: bool)
      requires Ready() && len < WORD
      modifies ring, ring.req, ring.rsp, payload
      ensures Valid() && (ring.View(), ring.script) == Drained(old(ring.View()), old(ring.script), len)
      ensures ok ==> Ready() && |ring.log.guestGot| == |old(ring.log.guestGot)| + len
      ensures !ok ==> Stalled() && |ring.log.guestGot| < |old(ring.log.guestGot)| + len
      ensures old(ring.log.guestGot) <= ring.log.guestGot
      ensures ring.log.wanted == old(ring.log.wanted) && old(ring.log.rspSent) <= ring.log.rspSent
    {
      hide Inv, Finish, WillBeServed;
      var left := len;
      while left != 0
        invariant 0 <= left <= len && Ready()
        invariant Drained(ring.View(), ring.script, left) == Drained(old(ring.View()), old(ring.script), len)
        invariant old(ring.log.guestGot) <= ring.log.guestGot
        invariant |ring.log.guestGot| == |old(ring.log.guestGot)| + len - left
        invariant ring.log.wanted == old(ring.log.wanted) && old(ring.log.rspSent) <= ring.log.rspSent
      {
        var part := Min(left, XENSTORE_PAYLOAD_MAX);
        ghost var n;
        ok, n := ring.Read(payload, part);
        if !ok {
          return;
        }
        left := left - part;
      }
      ok := true;
    }

    /** The string a call hands out: the first `len` bytes of the buffer, NUL-terminated there. */
    ghost predicate Holds(value: Option<seq<byte>>)
      reads this, payload
    {
      value.Some? ==>
        && |value.value| < payload.Length
        && payload[..|value.value|] == value.value && payload[|value.value|] == 0
    }

    /** Lines 178-183: a payload that fits, NUL-terminated. */
    method ReceivePayload(len: nat) returns (ok: bool, value: Option<seq<byte>>, ghost took: seq<byte>)
      requires Ready() && len <= XENSTORE_PAYLOAD_MAX
      modifies ring, ring.req, ring.rsp, payload
      ensures Valid() && (ring.View(), ring.script) == Perform(old(ring.View()), old(ring.script), CallRead(len))
      ensures ring.log.guestGot == old(ring.log.guestGot) + took
      ensures ok ==> Ready() && ring.guest == Idle(took) && |took| == len && value == Some(took) && Holds(value)
      ensures !ok ==> Stalled() && |took| < len && value == None
      ensures ring.log.wanted == old(ring.log.wanted) && old(ring.log.rspSent) <= ring.log.rspSent
    {
      hide Inv, Finish, WillBeServed;
      value := None;
      ghost var n;
      ok, n := ring.Read(payload, len);
      took := payload[..n];
      if ok {
        payload[len] := 0;
        assert payload[..len] == took;
        value := Some(payload[..len]);
      }
    }

    /** Lines 153-183: receive the reply.  `value` is None where the C code returns NULL,
        and `c` is what has been taken off the stream: less than a reply if the call
        does not return. */
    method ReceiveReply() returns (ok: bool, value: Option<seq<byte>>, ghost c: seq<byte>)
      requires Ready()
      modifies ring, ring.req, ring.rsp, payload
      ensures Valid() && Return(value, ring.View(), ring.script) == Replied(old(ring.View()), old(ring.script))
      ensures ring.log.guestGot == old(ring.log.guestGot) + c
      ensures ok ==> Ready() && CallOutcome(c, value) && Holds(value)
      ensures !ok ==> Stalled() && Partial(c)
      ensures ring.log.wanted == old(ring.log.wanted) && old(ring.log.rspSent) <= ring.log.rspSent
    {
      hide Inv, Finish, WillBeServed, DecodeHdr, Drained;
      value := None;
      ghost var before := ring.log.guestGot;
      var raw := new byte[HEADER_SIZE];
      ghost var n;
      ok, n := ring.Read(raw, HEADER_SIZE);
      c := raw[..n];
      if !ok {
        return;
      }
      var hdr := DecodeHdr(raw[..HEADER_SIZE]);
      ghost var head := raw[..HEADER_SIZE];
      assert head[..HEADER_SIZE] == head;
      if hdr.typ != XS_READ {
        return;
      }
      if hdr.len > XENSTORE_PAYLOAD_MAX {
        ok := DrainPayload(hdr.len);
        c := ring.log.guestGot[|before|..];
        HeadKept(before, head, ring.log.guestGot);
        return;
      }
      ghost var took;
      ok, value, took := ReceivePayload(hdr.len);
      c := head + took;
      assert before + head + took == before + c;
      assert c[..HEADER_SIZE] == head && c[HEADER_SIZE..] == took;
    }

    /** One call. */
    method Read(path: seq<byte>) returns (ok: bool, value: Option<seq<byte>>, ghost c: seq<byte>)
      requires Ready()
      modifies ring, ring.req, ring.rsp, payload
      ensures Valid() && Return(value, ring.View(), ring.script) == OneCall(old(ring.View()), old(ring.script), path)
      ensures ok ==> Ready() && ring.log.wanted == old(ring.log.wanted) + Request(path)
      ensures ok ==> CallOutcome(c, value) && Holds(value)
      ensures !ok ==> Stalled() && Partial(c)
      ensures old(ring.log.wanted) <= ring.log.wanted <= old(ring.log.wanted) + Request(path)
      ensures ring.log.guestGot == old(ring.log.guestGot) + c && old(ring.log.rspSent) <= ring.log.rspSent
    {
      hide Inv, Requested, Replied;
      value, c := None, [];
      ok := SendRequest(path);
      if ok {
        ok, value, c := ReceiveReply();
      }
    }

    /** The calls for `paths[..i]` have been made, took `taken` off the stream from
        `start` on, and returned `values`. */
    ghost predicate SessionSoFar(paths: seq<seq<byte>>, i: nat, before: seq<byte>, start: seq<byte>, taken: seq<byte>,
                                 values: seq<Option<seq<byte>>>)
      reads this, ring, ring.req, ring.rsp
    {
      && Ready() && i <= |paths| && |values| == i
      && ring.log.wanted == before + Requests(paths[..i])
      && ring.log.guestGot == start + taken && Outcomes(taken, values)
    }

    method NextCall(paths: seq<seq<byte>>, i: nat, values: seq<Option<seq<byte>>>,
                    ghost before: seq<byte>, ghost start: seq<byte>, ghost taken: seq<byte>)
      returns (ok: bool, values': seq<Option<seq<byte>>>, ghost taken': seq<byte>)
      requires i < |paths| && SessionSoFar(paths, i, before, start, taken, values)
      modifies ring, ring.req, ring.rsp, payload
      ensures Valid()
      ensures var first := OneCall(old(ring.View()), old(ring.script), paths[i]);
              && (ring.View(), ring.script) == (first.sys, first.script)
              && values' == if ok then values + [first.value] else values
      ensures ok ==> SessionSoFar(paths, i + 1, before, start, taken', values')
      ensures !ok ==> Stalled() && taken' == taken
      ensures !ok ==> before + Requests(paths[..i]) <= ring.log.wanted <= before + Requests(paths[..i + 1])
      ensures !ok ==> exists part :: Partial(part) && ring.log.guestGot == start + taken + part
    {
      hide Inv, Outcomes, CallOutcome, Request, Requests, OneCall;
      var value;
      ghost var c;
      ok, value, c := Read(paths[i]);
      RequestsAppend(paths, i, before);
      values', taken' := values, taken;
      if ok {
        values', taken' := values + [value], taken + c;
        OutcomesAppend(taken, values, c, value);
        assert start + taken + c == start + (taken + c);
      }
    }

    /** The calls one after the other, until one does not return. */
    method MakeCalls(paths: seq<seq<byte>>) returns (ok: bool, values: seq<Option<seq<byte>>>, ghost taken: seq<byte>)
      requires Ready()
      modifies ring, ring.req, ring.rsp, payload
      ensures Valid()
      ensures Returns(values, ring.View(), ring.script) == Calls(old(ring.View()), old(ring.script), paths)
      ensures |values| <= |paths| && ok == (|values| == |paths|) && Outcomes(taken, values)
      ensures ok ==> SessionSoFar(paths, |paths|, old(ring.log.wanted), old(ring.log.guestGot), taken, values)
      ensures !ok ==>
                && Stalled()
                && old(ring.log.wanted) + Requests(paths[..|values|]) <= ring.log.wanted
                && ring.log.wanted <= old(ring.log.wanted) + Requests(paths[..|values| + 1])
                && exists part :: Partial(part) && ring.log.guestGot == old(ring.log.guestGot) + taken + part
    {
      hide Inv, OneCall, Outcomes, Calls, Requests, Partial;
      ghost var before, start := ring.log.wanted, ring.log.guestGot;
      values, taken, ok := [], [], true;
      NothingYet(before, start);
      assert paths[..0] == [] && paths[0..] == paths;
      while |values| < |paths|
        invariant SessionSoFar(paths, |values|, before, start, taken, values)
        invariant var more := Calls(ring.View(), ring.script, paths[|values|..]);
                  Calls(old(ring.View()), old(ring.script), paths) == more.(values := values + more.values)
        decreases |paths| - |values|
      {
        CallsNext(ring.View(), ring.script, paths, values);
        ok, values, taken := NextCall(paths, |values|, values, before, start, taken);
        if !ok {
          return;
        }
      }
      NoCalls(ring.View(), ring.script);
      assert paths[|paths|..] == [] && values + [] == values;
    }

    /** Any run of calls, against any peer.  What they return, which of them return, and
        the state in the end are those of `Calls`.  The calls that return have sent
        their requests, and if the peer's replies, from where the session starts, are
        all answers to reads or empty, call number i returns the answer in reply
        number i, and these calls take exactly those replies off the ring.  If a call
        does not return, it has sent part of its request and taken less than a reply. */
    method Session(paths: seq<seq<byte>>) returns (ok: bool, values: seq<Option<seq<byte>>>, ghost taken: seq<byte>)
      requires Ready()
      modifies ring, ring.req, ring.rsp, payload
      ensures Valid()
      ensures Returns(values, ring.View(), ring.script) == Calls(old(ring.View()), old(ring.script), paths)
      ensures |values| <= |paths| && ok == (|values| == |paths|)
      ensures Outcomes(taken, values)
      ensures Answered(old(ring.log.guestGot), old(ring.log.guestGot) + taken, ring.log.rspSent, values)
      ensures ok ==> Ready() && ring.log.guestGot == old(ring.log.guestGot) + taken
      ensures ok ==> ring.log.reqSent == old(ring.log.reqSent) + Requests(paths)
      ensures !ok ==>
                && Stalled()
                && old(ring.log.reqSent) + Requests(paths[..|values|]) <= ring.log.wanted
                && ring.log.wanted <= old(ring.log.reqSent) + Requests(paths[..|values| + 1])
                && exists part :: Partial(part) && ring.log.guestGot == old(ring.log.guestGot) + taken + part
    {
      hide Inv, Answered, Outcomes, Calls, Requests, Partial;
      IdleMeans(ring.View());
      ghost var start := ring.log.guestGot;
      ok, values, taken := MakeCalls(paths);
      if ok {
        IdleMeans(ring.View());
        assert paths[..|paths|] == paths;
      }
      StreamsOrdered(ring.View());
      SessionAnswered(start, taken, ring.log.rspSent, values);
    }
  }

  /** The next call, and those behind it. */
  lemma CallsNext(s: Sys, script: Script, paths: seq<seq<byte>>, done: seq<Option<seq<byte>>>)
    requires Inv(s) && |done| < |paths|
    ensures var i := |done|;
            var all, first := Calls(s, script, paths[i..]), OneCall(s, script, paths[i]);
            all.(values := done + all.values) ==
              if !first.sys.guest.Idle? then Returns(done, first.sys, first.script)
              else
                var more := Calls(first.sys, first.script, paths[i + 1..]);
                more.(values := done + [first.value] + more.values)
  {
    hide Inv, OneCall, Calls;
    var i := |done|;
    CallsFirst(s, script, paths[i..]);
    assert paths[i..][0] == paths[i] && paths[i..][1..] == paths[i + 1..];
    var first := OneCall(s, script, paths[i]);
    if first.sys.guest.Idle? {
      Regroup(done, [first.value], Calls(first.sys, first.script, paths[i + 1..]).values);
    } else {
      assert done + [] == done;
    }
  }

  lemma NoCalls(s: Sys, script: Script)
    requires Inv(s)
    ensures Calls(s, script, []) == Returns([], s, script)
  {
  }

  lemma StreamsOrdered(s: Sys)
    requires Inv(s)
    ensures s.log.guestGot <= s.log.rspSent
  {
  }

  lemma NothingYet(before: seq<byte>, start: seq<byte>)
    ensures Outcomes([], []) && before + Requests([]) == before && start + [] == start
  {
  }

  lemma RequestsAppend(paths: seq<seq<byte>>, i: nat, before: seq<byte>)
    requires i < |paths|
    ensures before + Requests(paths[..i]) + Request(paths[i]) == before + Requests(paths[..i + 1])
  {
    assert paths[..i + 1][..i] == paths[..i];
  }

  lemma TakenIsPrefix(start: seq<byte>, taken: seq<byte>, replies: seq<byte>, tail: seq<byte>)
    requires start + taken <= start + replies + tail
    ensures taken <= replies + tail
  {
    assert taken == (start + taken)[|start|..];
    assert (start + replies + tail)[|start|..] == replies + tail;
  }
}
