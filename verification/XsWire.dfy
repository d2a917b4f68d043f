/** Free-running 32-bit indices. */
module Index32 {
  import opened Arith

  const WORD := 0x1_0000_0000

  predicate IsWord(x: int) { 0 <= x < WORD }

  /** 32-bit sums and differences. */
  function Add32(a: int, b: int): int { (a + b) % WORD }
  function Sub32(a: int, b: int): int { (a - b) % WORD }

  /** The index that stands for position `p` of a stream. */
  function Index(p: nat): int { p % WORD }

  lemma IndexAdd(p: nat, n: nat)
    ensures Add32(Index(p), n) == Index(p + n)
  {
  }

  lemma IndexDifference(p: nat, c: nat)
    requires c <= p < c + WORD
    ensures Sub32(Index(p), Index(c)) == p - c
    ensures Index(p) == Index(c) <==> p == c
  {
  }

  // ----- rings -----

  predicate IsRingSize(size: int) { size == 1024 || size == 2048 }

  /** The cell, of a ring of `size` cells, that holds byte `j` of a stream that started
      at position `base`. */
  function Cell(size: nat, base: nat, j: nat): nat
    requires IsRingSize(size)
  {
    (base + j) % size
  }

  lemma CellOfIndex(size: nat, base: nat, j: nat)
    requires IsRingSize(size)
    ensures Index(base + j) % size == Cell(size, base, j)
  {
    var p := base + j;
    var laps, index := p / WORD, p % WORD;
    DivModIdentity(p, WORD);
    DivModIdentity(index, size);
    DivModUnique(p, size, laps * (if size == 1024 then 0x40_0000 else 0x20_0000) + index / size, index % size);
  }

  lemma CellsDistinct(size: nat, base: nat, i: nat, j: nat)
    requires IsRingSize(size) && i < j < i + size
    ensures Cell(size, base, i) != Cell(size, base, j)
  {
  }
}

/** Constants and layouts of include/xen/io/xs_wire.h, and the arithmetic of a
    power-of-two ring addressed by free-running 32-bit indices. */
module XsWire {
  import opened Arith
  import opened Index32

  const XENBUS_RING_SIZE := 1024
  const XENSTORE_PAYLOAD_MAX := 4096
  const XS_READ := 2
  const XS_ERROR := 16
  const HEADER_SIZE := 16

  /** mask_xenbus_idx(): on an unsigned index, `& (XENBUS_RING_SIZE - 1)` is a remainder. */
  function Mask(idx: int): int { idx % XENBUS_RING_SIZE }

  lemma MaskIsBitwiseAnd(idx: bv32)
    ensures idx & 0x3ff == idx % 0x400
  {
  }

  lemma MaskIndex(base: nat, j: nat)
    ensures Mask(Index(base + j)) == Cell(XENBUS_RING_SIZE, base, j)
  {
    CellOfIndex(XENBUS_RING_SIZE, base, j);
  }

  /** Cells after a masked index follow it in memory up to the end of the array. */
  lemma CellContiguous(base: nat, j: nat, k: nat)
    requires Mask(Index(base + j)) + k < XENBUS_RING_SIZE
    ensures Cell(XENBUS_RING_SIZE, base, j + k) == Mask(Index(base + j)) + k
  {
    MaskIndex(base, j);
    var p := base + j;
    DivModIdentity(p, XENBUS_RING_SIZE);
    DivModUnique(p + k, XENBUS_RING_SIZE, p / XENBUS_RING_SIZE, Cell(XENBUS_RING_SIZE, base, j) + k);
  }

  // ----- messages -----

  /** struct xenstore_msg_hdr, four little-endian words. */
  datatype Hdr = Hdr(typ: int, reqId: int, txId: int, len: int)

  predicate ValidHdr(h: Hdr) {
    IsWord(h.typ) && IsWord(h.reqId) && IsWord(h.txId) && IsWord(h.len)
  }

  function EncodeWord(x: int): (s: seq<byte>)
    requires IsWord(x)
    ensures |s| == 4
  {
    [x % 256, x / 256 % 256, x / 256 / 256 % 256, x / 256 / 256 / 256]
  }

  function DecodeWord(s: seq<byte>): (x: int)
    requires |s| == 4
    ensures IsWord(x)
  {
    (s[0] as int) + 256 * (s[1] as int) + 65536 * (s[2] as int) + 16777216 * (s[3] as int)
  }

  function EncodeHdr(h: Hdr): (s: seq<byte>)
    requires ValidHdr(h)
    ensures |s| == HEADER_SIZE
  {
    EncodeWord(h.typ) + EncodeWord(h.reqId) + EncodeWord(h.txId) + EncodeWord(h.len)
  }

  function DecodeHdr(s: seq<byte>): (h: Hdr)
    requires |s| == HEADER_SIZE
    ensures ValidHdr(h)
  {
    Hdr(DecodeWord(s[..4]), DecodeWord(s[4..8]), DecodeWord(s[8..12]), DecodeWord(s[12..]))
  }

  /** The layout: type, request id, transaction id, length, each of them little-endian. */
  lemma HdrLayout(s: seq<byte>, h: Hdr)
    requires |s| == 16 && ValidHdr(h)
    ensures DecodeHdr(s) == h <==>
            && h.typ == s[0] as int + 0x100 * s[1] as int + 0x1_0000 * s[2] as int + 0x100_0000 * s[3] as int
            && h.reqId == s[4] as int + 0x100 * s[5] as int + 0x1_0000 * s[6] as int + 0x100_0000 * s[7] as int
            && h.txId == s[8] as int + 0x100 * s[9] as int + 0x1_0000 * s[10] as int + 0x100_0000 * s[11] as int
            && h.len == s[12] as int + 0x100 * s[13] as int + 0x1_0000 * s[14] as int + 0x100_0000 * s[15] as int
  {
    assert s[..4] == [s[0], s[1], s[2], s[3]] && s[4..8] == [s[4], s[5], s[6], s[7]];
    assert s[8..12] == [s[8], s[9], s[10], s[11]] && s[12..] == [s[12], s[13], s[14], s[15]];
  }

  lemma WordRoundTrip(x: int)
    requires IsWord(x)
    ensures DecodeWord(EncodeWord(x)) == x
  {
    DivModIdentity(x, 256);
    DivModIdentity(x / 256, 256);
    DivModIdentity(x / 256 / 256, 256);
  }

  lemma HdrRoundTrip(h: Hdr)
    requires ValidHdr(h)
    ensures DecodeHdr(EncodeHdr(h)) == h
  {
    var a, b, c, d := EncodeWord(h.typ), EncodeWord(h.reqId), EncodeWord(h.txId), EncodeWord(h.len);
    var s := EncodeHdr(h);
    assert s[..4] == a && s[4..8] == b && s[8..12] == c && s[12..] == d;
    WordRoundTrip(h.typ);
    WordRoundTrip(h.reqId);
    WordRoundTrip(h.txId);
    WordRoundTrip(h.len);
  }
}

/** One direction of the shared page: a ring of cells with a producer and a
    consumer index, related to the byte stream it carries. */
module ByteRing {
  import opened Arith
  import opened Index32
  import opened XsWire

  datatype Ring = Ring(cells: seq<byte>, prod: int, cons: int)

  /** `stream` has been published, the first `released` bytes of it have been given
      back, and `extra` has been written but not published.  `base` is the position
      the stream started at, so the indices may have any value and wrap. */
  ghost predicate Carries(r: Ring, base: nat, stream: seq<byte>, extra: seq<byte>, released: nat) {
    && |r.cells| == XENBUS_RING_SIZE
    && released <= |stream|
    && |stream| + |extra| - released <= XENBUS_RING_SIZE
    && r.prod == Index(base + |stream|)
    && r.cons == Index(base + released)
    && (forall j: nat {:trigger Cell(XENBUS_RING_SIZE, base, j)} :: released <= j < |stream| + |extra| ==>
         r.cells[Cell(XENBUS_RING_SIZE, base, j)] == (stream + extra)[j])
  }

  lemma PutByte(r: Ring, base: nat, stream: seq<byte>, extra: seq<byte>, released: nat, b: byte)
    requires Carries(r, base, stream, extra, released)
    requires |stream| + |extra| - released < XENBUS_RING_SIZE
    ensures var cell := Cell(XENBUS_RING_SIZE, base, |stream| + |extra|);
            Carries(r.(cells := r.cells[cell := b]), base, stream, extra + [b], released)
  {
    var n := |stream| + |extra|;
    var t := r.cells[Cell(XENBUS_RING_SIZE, base, n) := b];
    forall j: nat {:trigger Cell(XENBUS_RING_SIZE, base, j)} | released <= j < n + 1
      ensures t[Cell(XENBUS_RING_SIZE, base, j)] == (stream + (extra + [b]))[j]
    {
      if j < n {
        CellsDistinct(XENBUS_RING_SIZE, base, j, n);
        assert (stream + extra)[j] == (stream + (extra + [b]))[j];
      }
    }
  }

  lemma PublishBytes(r: Ring, base: nat, stream: seq<byte>, extra: seq<byte>, released: nat)
    requires Carries(r, base, stream, extra, released)
    ensures Carries(r.(prod := Index(base + |stream| + |extra|)), base, stream + extra, [], released)
  {
    assert stream + extra + [] == stream + extra;
  }

  lemma ReleaseBytes(r: Ring, base: nat, stream: seq<byte>, extra: seq<byte>, released: nat, n: nat)
    requires Carries(r, base, stream, extra, released)
    requires released + n <= |stream|
    ensures Carries(r.(cons := Index(base + released + n)), base, stream, extra, released + n)
  {
  }

  lemma GetByte(r: Ring, base: nat, stream: seq<byte>, extra: seq<byte>, released: nat, j: nat)
    requires Carries(r, base, stream, extra, released)
    requires released <= j < |stream|
    ensures r.cells[Cell(XENBUS_RING_SIZE, base, j)] == stream[j]
  {
  }
}
