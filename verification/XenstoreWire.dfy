/** The request/reply framing of xenstore_read() in common/xenbus.c, as a function
    of the byte streams. */
module XenstoreWire {
  import opened Arith
  import opened Options
  import opened Index32
  import opened XsWire

  /** What a call sends: header, path, NUL.  The length is a 32-bit field, and only
      that many bytes of the terminated path follow. */
  function Request(path: seq<byte>): seq<byte> { RequestHdr(path) + RequestBody(path) }

  function RequestHdr(path: seq<byte>): (s: seq<byte>)
    ensures |s| == HEADER_SIZE
  {
    EncodeHdr(Hdr(XS_READ, 0, 0, |RequestBody(path)|))
  }

  function RequestBody(path: seq<byte>): (s: seq<byte>)
    ensures |s| < WORD
  {
    (path + [0])[..(|path| + 1) % WORD]
  }

  /** The message that asks for the value at `path`: type 2, no request and transaction
      ids, and a length that counts the path and its NUL, which follow; a length that 32
      bits cannot hold is cut, and so is what follows. */
  predicate AsksFor(r: seq<byte>, path: seq<byte>) {
    && |r| >= 16
    && r[..12] == [2, 0, 0, 0, 0, 0, 0, 0, 0, 0, 0, 0]
    && r[12] as int + 0x100 * r[13] as int + 0x1_0000 * r[14] as int + 0x100_0000 * r[15] as int == |r| - 16
    && |r| - 16 == (|path| + 1) % 0x1_0000_0000
    && r[16..] == (path + [0])[..|r| - 16]
  }

  lemma RequestAsks(path: seq<byte>)
    ensures AsksFor(Request(path), path)
    ensures |path| + 1 < 0x1_0000_0000 ==> Request(path)[16..] == path + [0]
  {
    hide DecodeHdr, EncodeHdr;
    var r, h := Request(path), Hdr(XS_READ, 0, 0, |RequestBody(path)|);
    HdrRoundTrip(h);
    assert r[..16] == EncodeHdr(h) && r[16..] == RequestBody(path);
    HdrLayout(r[..16], h);
    if |path| + 1 < 0x1_0000_0000 {
      assert (path + [0])[..|path| + 1] == path + [0];
    }
  }

  datatype Reply = Reply(typ: int, reqId: int, txId: int, payload: seq<byte>)

  predicate ValidReply(r: Reply) {
    IsWord(r.typ) && IsWord(r.reqId) && IsWord(r.txId) && |r.payload| < WORD
  }

  function Wire(r: Reply): seq<byte>
    requires ValidReply(r)
  {
    EncodeHdr(Hdr(r.typ, r.reqId, r.txId, |r.payload|)) + r.payload
  }

  function WireAll(rs: seq<Reply>): seq<byte>
    requires forall i :: 0 <= i < |rs| ==> ValidReply(rs[i])
  {
    if rs == [] then [] else Wire(rs[0]) + WireAll(rs[1..])
  }

  /** What the caller should get for a reply: the payload, or NULL if it is not an
      answer to a read or does not fit. */
  function Answer(r: Reply): Option<seq<byte>> {
    if r.typ == 2 && |r.payload| <= 4096 then Some(r.payload) else None
  }

  /** Bytes of the reply stream that a call takes, header included: lines 154-178. */
  function Taken(h: Hdr): nat
    requires ValidHdr(h)
  {
    if h.typ != XS_READ then HEADER_SIZE else HEADER_SIZE + h.len
  }

  /** The bytes `c` taken by one call and what the call returned. */
  predicate CallOutcome(c: seq<byte>, result: Option<seq<byte>>) {
    && |c| >= HEADER_SIZE
    && var h := DecodeHdr(c[..HEADER_SIZE]);
    && |c| == Taken(h)
    && result == if h.typ == XS_READ && h.len <= XENSTORE_PAYLOAD_MAX then Some(c[HEADER_SIZE..]) else None
  }

  /** Less than one call takes. */
  predicate Partial(c: seq<byte>) {
    |c| < HEADER_SIZE || |c| < Taken(DecodeHdr(c[..HEADER_SIZE]))
  }

  /** Successive calls that took `c` in all and returned `results`. */
  predicate Outcomes(c: seq<byte>, results: seq<Option<seq<byte>>>)
    decreases |results|
  {
    if results == [] then c == []
    else
      && |c| >= HEADER_SIZE
      && var n := Taken(DecodeHdr(c[..HEADER_SIZE]));
      && n <= |c|
      && CallOutcome(c[..n], results[0])
      && Outcomes(c[n..], results[1..])
  }

  lemma DropConcat<T>(c: seq<T>, d: seq<T>, n: nat)
    requires n <= |c|
    ensures (c + d)[n..] == c[n..] + d && (c + d)[..n] == c[..n]
  {
  }

  lemma {:induction false} OutcomesAppend(c: seq<byte>, results: seq<Option<seq<byte>>>, d: seq<byte>,
                                        r: Option<seq<byte>>)
    requires Outcomes(c, results) && CallOutcome(d, r)
    ensures Outcomes(c + d, results + [r])
    decreases |results|
  {
    if results == [] {
      assert c + d == d;
      assert d[..|d|] == d;
      assert ([r])[1..] == [];
    } else {
      var n := Taken(DecodeHdr(c[..HEADER_SIZE]));
      OutcomesAppend(c[n..], results[1..], d, r);
      assert (c + d)[..HEADER_SIZE] == c[..HEADER_SIZE];
      assert (c + d)[..n] == c[..n];
      DropConcat(c, d, n);
      assert (results + [r])[1..] == results[1..] + [r];
    }
  }

  /** The requests of successive calls. */
  function Requests(paths: seq<seq<byte>>): seq<byte> {
    if paths == [] then [] else Requests(paths[..|paths| - 1]) + Request(paths[|paths| - 1])
  }

  lemma WireHeader(r: Reply, rest: seq<byte>)
    requires ValidReply(r)
    ensures |Wire(r)| == HEADER_SIZE + |r.payload|
    ensures var h := DecodeHdr((Wire(r) + rest)[..HEADER_SIZE]);
            h == Hdr(r.typ, r.reqId, r.txId, |r.payload|)
    ensures Wire(r)[HEADER_SIZE..] == r.payload
  {
    var h := Hdr(r.typ, r.reqId, r.txId, |r.payload|);
    HdrRoundTrip(h);
    assert (Wire(r) + rest)[..HEADER_SIZE] == EncodeHdr(h);
  }

  /** A reply can be skipped over by the call that receives it. */
  predicate Framed(r: Reply) {
    r.typ == 2 || r.payload == []
  }

  /** A call that finds reply `r` at the head of the stream takes exactly that reply
      if and only if `r` answers a read or has no payload. */
  lemma OneReplyPerCall(r: Reply, rest: seq<byte>)
    requires ValidReply(r)
    ensures Taken(DecodeHdr((Wire(r) + rest)[..HEADER_SIZE])) == |Wire(r)| <==> Framed(r)
    ensures Framed(r) ==> CallOutcome(Wire(r), Answer(r))
  {
    WireHeader(r, rest);
    WireHeader(r, []);
    assert Wire(r) + [] == Wire(r);
  }

  predicate AllFramed(rs: seq<Reply>) {
    forall i :: 0 <= i < |rs| ==> ValidReply(rs[i]) && Framed(rs[i])
  }

  /** One call at the head of `stream`: what it takes depends on the header only. */
  lemma FirstCall(c: seq<byte>, stream: seq<byte>, results: seq<Option<seq<byte>>>) returns (n: nat)
    requires results != [] && Outcomes(c, results) && c <= stream
    ensures HEADER_SIZE <= n <= |c| && n == Taken(DecodeHdr(stream[..HEADER_SIZE]))
    ensures c[..n] == stream[..n] && CallOutcome(stream[..n], results[0])
    ensures c[n..] <= stream[n..] && Outcomes(c[n..], results[1..])
  {
    hide DecodeHdr, CallOutcome, Taken;
    assert c == stream[..|c|];
    assert c[..HEADER_SIZE] == stream[..HEADER_SIZE];
    n := Taken(DecodeHdr(c[..HEADER_SIZE]));
    TakenHeader(DecodeHdr(c[..HEADER_SIZE]));
    assert c[..n] == stream[..n];
    assert c[n..] == stream[n..][..|c| - n];
  }

  lemma TakenHeader(h: Hdr)
    requires ValidHdr(h)
    ensures Taken(h) >= HEADER_SIZE
  {
  }

  lemma OutcomeIsFunctional(c: seq<byte>, r1: Option<seq<byte>>, r2: Option<seq<byte>>)
    requires CallOutcome(c, r1) && CallOutcome(c, r2)
    ensures r1 == r2
  {
  }

  /** Framing over a whole session: if the stream starts with replies that are all
      framed, call number i returns the answer in reply number i, oversized replies
      included, and the calls together take the replies and nothing else. */
  lemma {:induction false} SessionFraming(rs: seq<Reply>, tail: seq<byte>, c: seq<byte>,
                                        results: seq<Option<seq<byte>>>)
    requires AllFramed(rs)
    requires |results| == |rs| && Outcomes(c, results)
    requires c <= WireAll(rs) + tail
    ensures c == WireAll(rs)
    ensures forall i :: 0 <= i < |rs| ==> results[i] == Answer(rs[i])
    decreases |rs|
  {
    hide Outcomes, CallOutcome, DecodeHdr, Wire, Taken, Answer;
    if rs == [] {
      NoCallNoBytes(c, results);
    } else {
      var stream := WireAll(rs) + tail;
      var rest := WireAll(rs[1..]) + tail;
      assert stream == Wire(rs[0]) + rest;
      var n := FirstCall(c, stream, results);
      OneReplyPerCall(rs[0], rest);
      assert stream[..n] == Wire(rs[0]) && stream[n..] == rest;
      OutcomeIsFunctional(Wire(rs[0]), results[0], Answer(rs[0]));
      SessionFraming(rs[1..], tail, c[n..], results[1..]);
      assert c == c[..n] + c[n..];
    }
  }

  /** An error reply with a payload breaks the framing: xenstored answers a read of
      a missing node with XS_ERROR "ENOENT", the payload stays in the ring, and the
      next call takes "ENOENT" and the start of the next reply for a header. */
  lemma ErrorReplyDesynchronises(next: Reply, c: seq<byte>, results: seq<Option<seq<byte>>>)
    requires ValidReply(next)
    requires |results| == 2 && Outcomes(c, results)
    requires c <= Wire(ENOENT_REPLY) + Wire(next)
    ensures |c| == 2 * HEADER_SIZE
    ensures results == [None, None]
    ensures c[HEADER_SIZE..HEADER_SIZE + 7] == ENOENT_REPLY.payload
  {
    hide Outcomes, CallOutcome, Wire, DecodeHdr;
    var r := ENOENT_REPLY;
    WireHeader(r, Wire(next));
    WireHeader(next, []);
    HeaderOnly(c, Wire(r) + Wire(next), results);
    assert (Wire(r) + Wire(next))[HEADER_SIZE..] == r.payload + Wire(next);
    StaleHeader(Wire(next));
    HeaderOnly(c[HEADER_SIZE..], r.payload + Wire(next), results[1..]);
    NoCallNoBytes(c[HEADER_SIZE..][HEADER_SIZE..], results[1..][1..]);
    assert c[HEADER_SIZE..][..7] == (r.payload + Wire(next))[..7] == r.payload;
    assert c[HEADER_SIZE..HEADER_SIZE + 7] == c[HEADER_SIZE..][..7];
  }

  lemma NoCallNoBytes(c: seq<byte>, results: seq<Option<seq<byte>>>)
    requires results == [] && Outcomes(c, results)
    ensures c == []
  {
  }

  /** A call that meets another type takes the header only and returns NULL. */
  lemma HeaderOnly(c: seq<byte>, stream: seq<byte>, results: seq<Option<seq<byte>>>)
    requires results != [] && Outcomes(c, results) && c <= stream
    requires |stream| >= HEADER_SIZE && DecodeHdr(stream[..HEADER_SIZE]).typ != XS_READ
    ensures HEADER_SIZE <= |c| && results[0] == None
    ensures c[HEADER_SIZE..] <= stream[HEADER_SIZE..] && Outcomes(c[HEADER_SIZE..], results[1..])
  {
    var n := FirstCall(c, stream, results);
    assert stream[..n][..HEADER_SIZE] == stream[..HEADER_SIZE];
  }

  /** "ENOE" is no message type. */
  lemma StaleHeader(next: seq<byte>)
    requires |next| >= HEADER_SIZE
    ensures DecodeHdr((ENOENT_REPLY.payload + next)[..HEADER_SIZE]).typ == 0x454F4E45
  {
    var s := ENOENT_REPLY.payload + next;
    assert s[0] == 0x45 && s[1] == 0x4E && s[2] == 0x4F && s[3] == 0x45;
    var w := s[..HEADER_SIZE][..4];
    assert w == [s[0], s[1], s[2], s[3]];
  }

  /** XS_ERROR, "ENOENT" and its NUL. */
  const ENOENT_REPLY: Reply := Reply(XS_ERROR, 0, 0, [0x45, 0x4E, 0x4F, 0x45, 0x4E, 0x54, 0])
}
