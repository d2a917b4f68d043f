/** xenstore_read() of common/xenbus.c as a function of the connection and of the
    script that the peer follows: what a call returns, or where it waits for ever. */
module XenstoreCalls {
  import opened Arith
  import opened Options
  import opened XsWire
  import opened XenbusProtocol
  import opened XenbusSafety
  import opened XenbusTurns
  import opened XenstoreWire

  /** One call of xenbus_write() or xenbus_read(). */
  ghost function Perform(s: Sys, script: Script, m: Move): (r: (Sys, Script))
    requires Inv(s)
    ensures Inv(r.0) && Over(r.0, r.1)
  {
    Finish(Called(s, m), script)
  }

  /** Lines 142-151. The guest is idle afterwards unless it waits for space. */
  ghost function Requested(s: Sys, script: Script, path: seq<byte>): (r: (Sys, Script))
    requires Inv(s)
    ensures Inv(r.0)
  {
    var (t, rest) := Perform(s, script, CallWrite(RequestHdr(path)));
    if !t.guest.Idle? then (t, rest)
    else
      var (u, more) := Perform(t, rest, CallWrite(RequestBody(path)));
      if !u.guest.Idle? then (u, more) else (Turn(u, more, CallNotify), Tail(more))
  }

  /** Lines 168-175. */
  ghost function Drained(s: Sys, script: Script, left: nat): (r: (Sys, Script))
    requires Inv(s)
    ensures Inv(r.0)
    decreases left
  {
    if left == 0 || !s.guest.Idle? then (s, script)
    else
      var part := Min(left, XENSTORE_PAYLOAD_MAX);
      var (t, rest) := Perform(s, script, CallRead(part));
      Drained(t, rest, left - part)
  }

  /** The header that the latest read returned. */
  function LastHdr(g: Guest): (h: Hdr)
    ensures ValidHdr(h)
  {
    if g.Idle? && |g.last| == HEADER_SIZE then DecodeHdr(g.last) else Hdr(0, 0, 0, 0)
  }

  /** What a call returns, and the state in which it leaves the connection. */
  datatype Return = Return(value: Option<seq<byte>>, sys: Sys, script: Script)

  /** Lines 153-183. */
  ghost function Replied(s: Sys, script: Script): (r: Return)
    requires Inv(s)
    ensures Inv(r.sys)
  {
    var (t, rest) := Perform(s, script, CallRead(HEADER_SIZE));
    var h := LastHdr(t.guest);
    if !t.guest.Idle? || h.typ != XS_READ then Return(None, t, rest)
    else if h.len > XENSTORE_PAYLOAD_MAX then
      var (u, more) := Drained(t, rest, h.len);
      Return(None, u, more)
    else
      var (u, more) := Perform(t, rest, CallRead(h.len));
      Return(if u.guest.Idle? then Some(u.guest.last) else None, u, more)
  }

  ghost function OneCall(s: Sys, script: Script, path: seq<byte>): (r: Return)
    requires Inv(s)
    ensures Inv(r.sys)
  {
    var (t, rest) := Requested(s, script, path);
    if t.guest.Idle? then Replied(t, rest) else Return(None, t, rest)
  }

  /** Successive calls: what those that return return, and the state in the end. */
  datatype Returns = Returns(values: seq<Option<seq<byte>>>, sys: Sys, script: Script)

  lemma CallsFirst(s: Sys, script: Script, paths: seq<seq<byte>>)
    requires Inv(s) && paths != []
    ensures var first := OneCall(s, script, paths[0]);
            Calls(s, script, paths) ==
              if !first.sys.guest.Idle? then Returns([], first.sys, first.script)
              else
                var more := Calls(first.sys, first.script, paths[1..]);
                more.(values := [first.value] + more.values)
  {
  }

  ghost function Calls(s: Sys, script: Script, paths: seq<seq<byte>>): (r: Returns)
    requires Inv(s)
    ensures Inv(r.sys)
    decreases |paths|
  {
    if paths == [] then Returns([], s, script)
    else
      var first := OneCall(s, script, paths[0]);
      if !first.sys.guest.Idle? then Returns([], first.sys, first.script)
      else
        var more := Calls(first.sys, first.script, paths[1..]);
        more.(values := [first.value] + more.values)
  }
}
