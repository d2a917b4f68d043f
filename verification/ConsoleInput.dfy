/** pv_console_read_some() of common/console.c: the input half of the console, with
    xenconsoled acting before every access of the guest to what they share. */
module ConsoleInput {
  import opened Arith
  import opened Index32

  const IN_RING := 1024

  // ----- the call as a function -----

  /** xenconsoled puts text into the ring, as far as there is room, or sends an event. */
  datatype Act = Give(text: string) | Notify

  /** The event-channel bit, all text put into the ring so far, how much of it has been
      read, and what xenconsoled does at each of the points where it can act. */
  datatype World = World(pending: bool, stream: string, read: nat, script: seq<seq<Act>>)

  predicate Fits(w: World) { w.read <= |w.stream| <= w.read + IN_RING }

  function Acted(w: World, act: Act): (r: World)
    requires Fits(w)
    ensures Fits(r) && r.read == w.read && r.script == w.script && w.stream <= r.stream
  {
    match act
    case Notify => w.(pending := true)
    case Give(text) => w.(stream := w.stream + text[..Min(|text|, IN_RING - (|w.stream| - w.read))])
  }

  function ActedAll(w: World, acts: seq<Act>): (r: World)
    requires Fits(w)
    ensures Fits(r) && r.read == w.read && r.script == w.script && w.stream <= r.stream
  {
    if acts == [] then w else Acted(ActedAll(w, acts[..|acts| - 1]), acts[|acts| - 1])
  }

  /** xenconsoled acts, or has nothing left to do. */
  function Moved(w: World): (r: World)
    requires Fits(w)
    ensures Fits(r) && r.read == w.read && w.stream <= r.stream
    ensures r.script == if w.script == [] then [] else w.script[1..]
  {
    if w.script == [] then w else ActedAll(w.(script := w.script[1..]), w.script[0])
  }

  /** hypercall_poll() returns when the bit is set, or never. */
  function Polled(w: World): (r: (bool, World))
    requires Fits(w)
    ensures Fits(r.1) && r.1.read == w.read && w.stream <= r.1.stream && |r.1.script| <= |w.script|
    ensures if r.0 then r.1.pending else !r.1.pending && r.1.script == []
    decreases |w.script|
  {
    if w.pending then (true, w) else if w.script == [] then (false, w) else Polled(Moved(w))
  }

  /** Whether the wait for data ends, after how many calls of hypercall_poll(), and in
      which state. */
  datatype Wait = Wait(ok: bool, sleeps: nat, after: World)

  /** Lines 60-61: the bit is tested and cleared, and only if it was set, the indices
      are looked at. */
  function TestedAndLooked(w: World): (r: (bool, World))
    requires Fits(w)
    ensures Fits(r.1) && r.1.read == w.read && w.stream <= r.1.stream && |r.1.script| <= |w.script|
    ensures r.0 ==> w.read < |r.1.stream|
    ensures |r.1.script| == |w.script| ==> r.1.script == [] && (r.0 || !r.1.pending)
  {
    var tested := Moved(w);
    var looked := if tested.pending then Moved(tested.(pending := false)) else tested;
    (tested.pending && looked.read < |looked.stream|, looked)
  }

  /** Lines 60-62. */
  function Awaited(w: World): (r: Wait)
    requires Fits(w)
    ensures Fits(r.after) && r.after.read == w.read && w.stream <= r.after.stream
    ensures if r.ok then w.read < |r.after.stream| else r.after.script == [] && !r.after.pending
    decreases |w.script|
  {
    var (found, looked) := TestedAndLooked(w);
    if found then Wait(true, 0, looked)
    else
      var (woken, after) := Polled(looked);
      if !woken then Wait(false, 1, after)
      else
        var rest := Awaited(after);
        rest.(sleeps := rest.sleeps + 1)
  }

  /** While the wait goes on, the script gets shorter. */
  lemma WaitShrinks(w: World)
    requires Fits(w)
    ensures var (found, looked) := TestedAndLooked(w);
            !found && Polled(looked).0 ==> |Polled(looked).1.script| < |w.script|
  {
  }

  function MovedTimes(w: World, n: nat): (r: World)
    requires Fits(w)
    ensures Fits(r) && r.read == w.read && w.stream <= r.stream
  {
    if n == 0 then w else Moved(MovedTimes(w, n - 1))
  }

  lemma NoMove(w: World)
    requires Fits(w)
    ensures MovedTimes(w, 0) == w
  {
  }

  lemma OneMoreMove(w: World, n: nat)
    requires Fits(w)
    ensures MovedTimes(w, n + 1) == Moved(MovedTimes(w, n))
  {
  }

  /** Lines 64-72: at most `len` of the characters there are at the load of line 65. */
  function Taken(w: World, len: nat): (r: (string, World))
    requires Fits(w)
    ensures Fits(r.1) && w.stream <= r.1.stream && r.1.read == w.read + |r.0|
    ensures r.0 == r.1.stream[w.read..r.1.read] && |r.0| <= len
    ensures len > 0 && w.read < |w.stream| ==> r.0 != ""
    ensures |r.0| == len || r.1.read >= |w.stream|
  {
    var loaded := Moved(w);
    var s := Min(len, |loaded.stream| - loaded.read);
    var after := MovedTimes(loaded, s + 1);
    assert after.stream[..|loaded.stream|] == loaded.stream;
    (loaded.stream[w.read..w.read + s], after.(read := after.read + s))
  }

  /** What a call hands out, and the state it leaves. */
  datatype Reading = Reading(ok: bool, text: string, sleeps: nat, after: World)

  /** The whole call: the next characters of the stream, in order, at least one if
      `len` is positive, and `len` of them unless there are not as many, if it returns. */
  function Read(w: World, len: nat): (r: Reading)
    requires Fits(w)
    ensures Fits(r.after) && w.stream <= r.after.stream
    ensures r.after.read == w.read + |r.text| && r.text == r.after.stream[w.read..r.after.read]
    ensures r.ok && len > 0 ==> r.text != ""
    ensures r.ok ==> |r.text| == len || r.after.read >= |w.stream|
    ensures !r.ok ==> r.text == "" && r.after.script == [] && !r.after.pending
  {
    var wait := Awaited(w);
    if !wait.ok then Reading(false, "", wait.sleeps, wait.after)
    else
      var (text, after) := Taken(wait.after, len);
      Reading(true, text, wait.sleeps, after)
  }

  // ----- when it returns -----

  lemma {:induction false} NotifySets(w: World, acts: seq<Act>)
    requires Fits(w)
    ensures ActedAll(w, acts).pending <==> w.pending || Notify in acts
    decreases |acts|
  {
    if acts != [] {
      NotifySets(w, acts[..|acts| - 1]);
      assert acts == acts[..|acts| - 1] + [acts[|acts| - 1]];
    }
  }

  predicate WillNotify(w: World) {
    w.pending || exists k :: 0 <= k < |w.script| && Notify in w.script[k]
  }

  lemma MoveNotifies(w: World)
    requires Fits(w)
    ensures WillNotify(Moved(w)) <==> WillNotify(w)
  {
    if w.script != [] {
      NotifySets(w.(script := w.script[1..]), w.script[0]);
      assert forall k :: 0 <= k < |w.script[1..]| ==> w.script[1..][k] == w.script[k + 1];
      if k :| 0 <= k < |w.script| && Notify in w.script[k] && k > 0 {
        assert w.script[1..][k - 1] == w.script[k];
      }
    }
  }

  lemma {:induction false} PollNotifies(w: World)
    requires Fits(w)
    ensures Polled(w).0 <==> WillNotify(w)
    decreases |w.script|
  {
    if !w.pending && w.script != [] {
      MoveNotifies(w);
      PollNotifies(Moved(w));
    }
  }

  /** Data in the ring are not enough: with data there, a call returns if and only if an
      event is pending or is still to come. */
  lemma {:induction false} WithDataReturnsIff(w: World, len: nat)
    requires Fits(w) && w.read < |w.stream|
    ensures Read(w, len).ok <==> WillNotify(w)
    decreases |w.script|
  {
    var tested := Moved(w);
    MoveNotifies(w);
    if !tested.pending {
      PollNotifies(tested);
      if Polled(tested).0 {
        WithDataReturnsIff(Polled(tested).1, len);
      }
    }
  }

  /** Text, and later an event. */
  predicate Announces(acts: seq<Act>) {
    exists i, j :: 0 <= i < j < |acts| && acts[i].Give? && acts[i].text != "" && acts[j] == Notify
  }

  predicate HasText(acts: seq<Act>) { exists i :: 0 <= i < |acts| && acts[i].Give? && acts[i].text != "" }

  lemma {:induction false} AnnouncedSeen(w: World, acts: seq<Act>)
    requires Fits(w)
    ensures Announces(acts) ==> ActedAll(w, acts).pending && w.read < |ActedAll(w, acts).stream|
    ensures HasText(acts) ==> w.read < |ActedAll(w, acts).stream|
    decreases |acts|
  {
    if acts != [] {
      var front := acts[..|acts| - 1];
      AnnouncedSeen(w, front);
      assert forall i :: 0 <= i < |front| ==> front[i] == acts[i];
      NotifySets(w, acts);
      if Announces(acts) {
        var i, j :| 0 <= i < j < |acts| && acts[i].Give? && acts[i].text != "" && acts[j] == Notify;
        assert front[i] == acts[i] && acts[j] in acts;
      }
    }
  }

  /** Text comes in part `k` of the script, and an event behind it in part `l`. */
  predicate AnnouncesIn(script: seq<seq<Act>>, k: int, l: int) {
    0 <= k <= l < |script| && (if k == l then Announces(script[k]) else HasText(script[k]) && Notify in script[l])
  }

  /** An event comes, or is pending, when there are data: those there are, or later ones. */
  ghost predicate Announced(w: World) {
    (w.read < |w.stream| && WillNotify(w)) || exists k, l :: AnnouncesIn(w.script, k, l)
  }

  lemma MoveAnnounces(w: World)
    requires Fits(w) && Announced(w)
    ensures Announced(Moved(w))
  {
    if w.script != [] {
      MoveNotifies(w);
      if !(w.read < |w.stream| && WillNotify(w)) {
        var k, l :| AnnouncesIn(w.script, k, l);
        AnnouncedSeen(w.(script := w.script[1..]), w.script[0]);
        if k > 0 {
          assert AnnouncesIn(Moved(w).script, k - 1, l - 1);
        } else if l > 0 {
          assert Notify in Moved(w).script[l - 1];
        }
      }
    }
  }

  lemma {:induction false} PollAnnounces(w: World)
    requires Fits(w) && Announced(w)
    ensures Polled(w).0 && Announced(Polled(w).1)
    decreases |w.script|
  {
    if !w.pending {
      MoveAnnounces(w);
      PollAnnounces(Moved(w));
    }
  }

  lemma StillAnnounced(w: World)
    requires Announced(w) && w.read == |w.stream|
    ensures Announced(w.(pending := false))
  {
  }

  /** Progress: a call returns if xenconsoled sends an event after putting text into the
      ring, at whichever points of the call it does the one and the other. */
  lemma {:induction false} AnnouncedIsRead(w: World, len: nat)
    requires Fits(w) && Announced(w)
    ensures Read(w, len).ok
    decreases |w.script|
  {
    hide Announced;
    var tested := Moved(w);
    MoveAnnounces(w);
    if !tested.pending {
      PollAnnounces(tested);
      AnnouncedIsRead(Polled(tested).1, len);
    } else {
      var looked := Moved(tested.(pending := false));
      if looked.read == |looked.stream| {
        assert Announced(tested.(pending := false)) by { StillAnnounced(tested); }
        MoveAnnounces(tested.(pending := false));
        PollAnnounces(looked);
        AnnouncedIsRead(Polled(looked).1, len);
      }
    }
  }

  /** "Will block if no data are available" is only half of it: after a read of one of
      two characters that came with one event, the next read never returns. */
  lemma ShortReadThenSleep()
    ensures var first := Read(World(true, "ab", 0, []), 1);
            var second := Read(first.after, 1);
            && first.text == "a" && first.sleeps == 0 && first.after.stream == "ab" && !second.ok
  {
    var w := World(true, "ab", 0, []);
    var first := Read(w, 1);
    assert MovedTimes(w.(pending := false), 2) == w.(pending := false);
    assert first.after == World(false, "ab", 1, []);
    WithDataReturnsIff(first.after, 1);
  }

  // ----- the ring -----

  class InputRing {
    const cells: array<char>
    var inCons: int
    var inProd: int
    // The event-channel bit.
    var pending: bool
    // What xenconsoled does at each of the points where it can act.
    var script: seq<seq<Act>>
    // All text put into the ring, how much of it has been read, and where it started.
    ghost var stream: string
    ghost var read: nat
    ghost const base: nat

    ghost predicate Valid()
      reads this, cells
    {
      && cells.Length == IN_RING
      && read <= |stream| <= read + IN_RING
      && inProd == Index(base + |stream|) && inCons == Index(base + read)
      && (forall j: nat {:trigger Cell(IN_RING, base, j)} :: read <= j < |stream| ==>
           cells[Cell(IN_RING, base, j)] == stream[j])
    }

    ghost function Now(): (w: World)
      reads this, cells
      requires Valid()
      ensures Fits(w)
    {
      World(pending, stream, read, script)
    }

    lemma IndicesStand()
      requires Valid()
      ensures inCons == Index(base + read) && inProd == Index(base + |stream|)
    {
    }

    constructor (base: nat, pending: bool, script: seq<seq<Act>>, page: seq<char>)
      requires |page| == 1024
      ensures Valid() && Now() == World(pending, [], 0, script) && fresh(cells)
    {
      cells := new char[IN_RING](i requires 0 <= i < IN_RING => page[i]);
      inProd, inCons := Index(base), Index(base);
      this.pending, this.script, this.base := pending, script, base;
      stream, read := [], 0;
    }

    method Put(c: char)
      requires Valid() && |stream| < read + IN_RING
      modifies this`inProd, this`stream, cells
      ensures Valid() && stream == old(stream) + [c]
    {
      ghost var n := |stream|;
      CellOfIndex(IN_RING, base, n);
      IndexAdd(base + n, 1);
      forall j: nat {:trigger Cell(IN_RING, base, j)} | read <= j < n
        ensures Cell(IN_RING, base, j) != Cell(IN_RING, base, n)
      {
        CellsDistinct(IN_RING, base, j, n);
      }
      cells[inProd % IN_RING] := c;
      inProd := Add32(inProd, 1);
      stream := stream + [c];
    }

    /** xenconsoled puts text into the ring, as far as there is room. */
    method GiveText(text: string)
      requires Valid()
      modifies this`inProd, this`stream, cells
      ensures Valid() && Now() == Acted(old(Now()), Give(text))
    {
      var k := 0;
      IndexDifference(base + |stream|, base + read);
      while k < |text| && Sub32(inProd, inCons) < IN_RING
        invariant k <= |text| && Valid() && stream == old(stream) + text[..k]
        invariant Sub32(inProd, inCons) == |stream| - read
      {
        Put(text[k]);
        k := k + 1;
        IndexDifference(base + |stream|, base + read);
      }
    }

    /** xenconsoled acts. */
    method Interfere()
      requires Valid()
      modifies this`inProd, this`pending, this`script, this`stream, cells
      ensures Valid() && Now() == Moved(old(Now()))
    {
      if script == [] {
        return;
      }
      var acts := script[0];
      script := script[1..];
      ghost var was := Now();
      for i := 0 to |acts|
        invariant Valid() && Now() == ActedAll(was, acts[..i])
      {
        assert acts[..i + 1][..i] == acts[..i];
        match acts[i]
        case Notify => pending := true;
        case Give(text) => GiveText(text);
      }
      assert acts[..|acts|] == acts;
    }

    /** hypercall_poll(). */
    method Poll() returns (woken: bool)
      requires Valid()
      modifies this`inProd, this`pending, this`script, this`stream, cells
      ensures Valid() && (woken, Now()) == Polled(old(Now()))
    {
      while !pending && script != []
        invariant Valid() && Polled(Now()) == Polled(old(Now()))
        decreases |script|
      {
        Interfere();
      }
      woken := pending;
    }

    /** Lines 60-61: test and clear the bit, and if it was set, look at the indices. */
    method TestAndLook() returns (found: bool)
      requires Valid()
      modifies this`inProd, this`pending, this`script, this`stream, cells
      ensures Valid() && (found, Now()) == TestedAndLooked(old(Now()))
    {
      hide ActedAll;
      Interfere();
      var was := pending;
      pending := false;
      if was {
        Interfere();
        IndexDifference(base + |stream|, base + read);
      }
      found := was && inCons != inProd;
    }

    /** Lines 60-62. */
    method AwaitData() returns (ok: bool, sleeps: nat)
      requires Valid()
      modifies this`inProd, this`pending, this`script, this`stream, cells
      ensures Valid() && Wait(ok, sleeps, Now()) == Awaited(old(Now()))
    {
      hide TestedAndLooked, Polled;
      sleeps := 0;
      while true
        invariant Valid()
        invariant Awaited(old(Now())) == var rest := Awaited(Now()); rest.(sleeps := rest.sleeps + sleeps)
        decreases |script|
      {
        WaitShrinks(Now());
        var found := TestAndLook();
        if found {
          return true, sleeps;
        }
        sleeps := sleeps + 1;
        var woken := Poll();
        if !woken {
          return false, sleeps;
        }
      }
    }

    /** Line 68: take the character at position `j` of the stream. */
    method TakeOne(buf: array<char>, s: nat, cons: int, ghost j: nat)
      requires Valid() && buf != cells && s < buf.Length
      requires read <= j < |stream| && cons == Index(base + j)
      modifies this`inProd, this`pending, this`script, this`stream, cells, buf
      ensures Valid() && Now() == Moved(old(Now()))
      ensures buf[s] == old(stream)[j] && forall i :: 0 <= i < buf.Length && i != s ==> buf[i] == old(buf[i])
    {
      hide Moved, Cell, Index;
      Interfere();
      CellOfIndex(IN_RING, base, j);
      assert cells[Cell(IN_RING, base, j)] == stream[j];
      buf[s] := cells[cons % IN_RING];
    }

    /** Lines 67-68: the indices as they were loaded decide how much is taken. */
    method TakeAll(buf: array<char>, len: nat, first: int, prod: int, ghost loaded: World) returns (s: nat, cons: int)
      requires Valid() && buf != cells && len <= buf.Length && Now() == loaded
      requires first == Index(base + read) && prod == Index(base + |stream|)
      modifies this`inProd, this`pending, this`script, this`stream, cells, buf
      ensures Valid() && s == Min(len, |loaded.stream| - read) && Now() == MovedTimes(loaded, s)
      ensures forall i :: 0 <= i < s ==> buf[i] == loaded.stream[read + i]
      ensures forall i :: s <= i < buf.Length ==> buf[i] == old(buf[i])
      ensures cons == Index(base + read + s)
    {
      hide Valid, Moved, MovedTimes, Index, Sub32, Add32;
      NoMove(loaded);
      s, cons := 0, first;
      IndexDifference(base + |stream|, base + read);
      while s < len && 0 < Sub32(prod, cons)
        invariant s <= len && read + s <= |loaded.stream|
        invariant Valid() && Now() == MovedTimes(loaded, s)
        invariant cons == Index(base + read + s) && Sub32(prod, cons) == |loaded.stream| - (read + s)
        invariant forall i :: 0 <= i < s ==> buf[i] == loaded.stream[read + i]
        invariant forall i :: s <= i < buf.Length ==> buf[i] == old(buf[i])
      {
        TakeOne(buf, s, cons, read + s);
        OneMoreMove(loaded, s);
        IndexAdd(base + read + s, 1);
        cons := Add32(cons, 1);
        s := s + 1;
        IndexDifference(base + |loaded.stream|, base + read + s);
      }
    }

    /** The release of line 70, after which the cells can be used again. */
    method Release(cons: int, s: nat)
      requires Valid() && read + s <= |stream| && cons == Index(base + read + s)
      modifies this`inCons, this`read
      ensures Valid() && Now() == old(Now()).(read := old(read) + s)
    {
      inCons := cons;
      read := read + s;
    }

    /** Lines 64-72: take what there is, at most `len`. */
    method Take(buf: array<char>, len: nat) returns (s: nat)
      requires Valid() && buf != cells && len <= buf.Length
      modifies this`inCons, this`inProd, this`pending, this`script, this`stream, this`read, cells, buf
      ensures Valid() && s <= len && (buf[..s], Now()) == Taken(old(Now()), len)
      ensures buf[s..] == old(buf[s..])
    {
      hide Valid, Moved, MovedTimes, Index;
      Interfere();
      IndicesStand();
      ghost var loaded := Now();
      var cons;
      s, cons := TakeAll(buf, len, inCons, inProd, loaded);
      OneMoreMove(loaded, s);
      Interfere();
      assert buf[..s] == loaded.stream[read..read + s];
      Release(cons, s);
    }

    /** pv_console_read_some(): hands out the next characters in order, and nothing of
        `buf` behind them changes. */
    method ReadSome(buf: array<char>, len: nat) returns (ok: bool, s: nat, sleeps: nat)
      requires Valid() && buf != cells && len <= buf.Length
      modifies this`inCons, this`inProd, this`pending, this`script, this`stream, this`read, cells, buf
      ensures Valid() && s <= len
      ensures Reading(ok, buf[..s], sleeps, Now()) == Read(old(Now()), len)
      ensures buf[s..] == old(buf[s..])
    {
      hide Taken, Awaited;
      s := 0;
      ok, sleeps := AwaitData();
      if ok {
        s := Take(buf, len);
      }
    }
  }
}
