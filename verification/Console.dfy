/** The paravirtual console of common/console.c: the output ring in shared memory,
    and vprintk() on top of it. */
module Console {
  import opened Arith
  import opened Index32
  import opened ConsoleRun
  import opened Sequences
  import FormatText
  import FormatSpec
  import Vsnprintf

  class PvConsole {
    // xencons_interface_t, the output half.
    const out: array<char>
    var outCons: int
    var outProd: int
    // xenconsoled: what it has taken so far, and how many bytes it takes at each of
    // the points where it can act.
    var taken: string
    var takes: seq<nat>
    // History: all bytes published, how many of them had been when xenconsoled was last
    // notified, and the position the stream started at.
    ghost var stream: string
    ghost var told: nat
    ghost const base: nat

    ghost predicate Valid()
      reads this, out
    {
      && out.Length == RING
      && |taken| <= |stream| <= |taken| + RING && taken == stream[..|taken|]
      && outProd == Index(base + |stream|) && outCons == Index(base + |taken|)
      && (forall j: nat {:trigger Cell(RING, base, j)} :: |taken| <= j < |stream| ==>
          out[Cell(RING, base, j)] == stream[j])
    }

    ghost function Used(): nat
      reads this, out
      requires Valid()
    {
      |stream| - |taken|
    }

    /** A drained ring, at any index. */
    constructor (base: nat, takes: seq<nat>, page: seq<char>)
      requires |page| == 2048
      ensures Valid() && Used() == 0 && taken == stream == [] && this.takes == takes && fresh(out)
    {
      out := new char[RING](i requires 0 <= i < RING => page[i]);
      outProd, outCons := Index(base), Index(base);
      taken, stream, told := [], [], 0;
      this.takes, this.base := takes, base;
    }

    /** The consumer acts: it takes up to `takes[0]` bytes. */
    method Interfere()
      requires Valid() && takes != []
      modifies this`outCons, this`taken, this`takes
      ensures Valid() && takes == old(takes)[1..]
      ensures |taken| == |old(taken)| + Min(old(takes)[0], old(Used())) && old(taken) <= taken
    {
      var n: nat := takes[0];
      takes := takes[1..];
      while n > 0 && outCons != outProd
        invariant Valid() && n <= old(takes)[0] && takes == old(takes)[1..]
        invariant |taken| == |old(taken)| + (old(takes)[0] - n) && old(taken) <= taken
        decreases n
      {
        ghost var j := |taken|;
        CellOfIndex(RING, base, j);
        IndexAdd(base + j, 1);
        IndexDifference(base + |stream|, base + j);
        assert out[Cell(RING, base, j)] == stream[j];
        taken := taken + [out[outCons % RING]];
        outCons := Add32(outCons, 1);
        n := n - 1;
      }
      IndexDifference(base + |stream|, base + |taken|);
    }

    /** pv_console_write_some(), after the acquiring load. */
    method WriteSome(buf: array<char>, off: nat, len: nat) returns (s: nat)
      requires Valid() && buf != out && off + len <= buf.Length
      modifies this`outProd, this`stream, out
      ensures Valid() && s == Min(len, RING - old(Used()))
      ensures stream == old(stream) + buf[off..off + s] && taken == old(taken)
    {
      var cons, prod := outCons, outProd;
      s := 0;
      ghost var added := "";
      IndexDifference(base + |stream|, base + |taken|);
      while s < len && Sub32(prod, cons) < RING
        invariant s <= len && added == buf[off..off + s] && stream == old(stream)
        invariant |stream| + s <= |taken| + RING
        invariant prod == Index(base + |stream| + s)
        invariant Sub32(prod, cons) == |stream| + s - |taken|
        invariant forall j: nat {:trigger Cell(RING, base, j)} :: |taken| <= j < |stream| + s ==>
                  out[Cell(RING, base, j)] == (stream + added)[j]
      {
        hide Sub32, Add32, Index, Cell;
        ghost var n := |stream| + s;
        CellOfIndex(RING, base, n);
        PutChar(prod, n, stream + added, buf[off + s]);
        IndexAdd(base + n, 1);
        prod := Add32(prod, 1);
        added := added + [buf[off + s]];
        s := s + 1;
        IndexDifference(base + n + 1, base + |taken|);
      }
      // The release.
      outProd := prod;
      stream := stream + added;
    }

    /** Store byte `n` of the stream. */
    method PutChar(prod: int, ghost n: nat, ghost text: string, c: char)
      requires out.Length == RING && prod % RING == Cell(RING, base, n) && n == |text| < |taken| + RING
      requires forall j: nat {:trigger Cell(RING, base, j)} :: |taken| <= j < n ==> out[Cell(RING, base, j)] == text[j]
      modifies out
      ensures forall j: nat {:trigger Cell(RING, base, j)} :: |taken| <= j < n + 1 ==>
                out[Cell(RING, base, j)] == (text + [c])[j]
    {
      forall j: nat {:trigger Cell(RING, base, j)} | |taken| <= j < n
        ensures Cell(RING, base, j) != Cell(RING, base, n)
      {
        CellsDistinct(RING, base, j, n);
      }
      out[prod % RING] := c;
    }

    /** What is still to be seen of a call that publishes `total.0` behind `before`,
        with `at` and `moved` as in `ConsoleRun`. */
    ghost predicate Remains(text: string, at: Point, moved: nat, before: string, total: Seen)
      reads this, out
    {
      && Valid() && (at.Put? || at.Spin? ==> at.written <= |text|) && before <= stream
      && var r := Run(text, at, Used(), moved, takes);
      && stream[|before|..] + r.out == total.out && r.done == total.done && r.rest == total.rest
    }

    /** Lines 82 and 98: a look at `out_cons`, after the consumer has acted. */
    method Look(ghost text: string, ghost at: Point, ghost moved: nat, ghost before: string, ghost total: Seen)
      returns (cons: int, ghost moved': nat)
      requires takes != [] && Remains(text, at, moved, before, total) && (at.Load? || at.Spin?)
      modifies this`outCons, this`taken, this`takes
      ensures old(taken) <= taken
      ensures takes == old(takes)[1..] && cons == outCons && Valid() && stream == old(stream)
      ensures moved' == (if at.Load? then 0 else moved + (|taken| - |old(taken)|))
      ensures Remains(text, if at.Load? then Put(0) else if moved' % WORD == 0 then at else Put(at.written),
                      moved', before, total)
    {
      hide Run;
      LookUnfolds(text, at, Used(), moved, takes, Min(takes[0], Used()));
      Interfere();
      cons := outCons;
      moved' := if at.Load? then 0 else moved + (|taken| - |old(taken)|);
    }

    /** Lines 87-90: put some data into the ring, from buf[written] on, and notify the
        consumer. */
    method PutSome(buf: array<char>, written: nat, len: nat, ghost moved: nat, ghost before: string, ghost total: Seen)
      returns (n: nat, ghost moved': nat)
      requires buf != out && written <= len <= buf.Length
      requires takes != [] && Remains(buf[..len], Put(written), moved, before, total)
      modifies this`outCons, this`outProd, this`taken, this`takes, this`stream, this`told, out
      ensures told == |stream|
      ensures old(taken) <= taken
      ensures takes == old(takes)[1..] && n <= len && moved' == moved + (|taken| - |old(taken)|)
      ensures Remains(buf[..len], if n < len then Spin(n) else Drain, moved', before, total)
    {
      hide Run, Index, Cell;
      ghost var u := Used() - Min(takes[0], Used());
      ghost var k := Min(len - written, RING - u);
      PutUnfolds(buf[..len], written, Used(), moved, takes, u, k, if k < len then Spin(k) else Drain);
      Interfere();
      moved' := moved + (|taken| - |old(taken)|);
      ghost var used := Used();
      ghost var was := stream;
      n := WriteSome(buf, written, len - written);
      told := |stream|;
      ghost var text := buf[written..written + n];
      Slices(buf, len, written, written + n);
      ghost var r := Run(buf[..len], if n < len then Spin(n) else Drain, used + n, moved', takes);
      PutSeen(was, text, |before|, r.out, total.out);
    }

    /** Lines 98-99: wait for the consumer to move away from `cons`. */
    method AwaitConsumer(cons: int, written: nat, ghost text: string, ghost moved: nat, ghost before: string,
                         ghost total: Seen)
      returns (ok: bool, ghost moved': nat)
      requires Remains(text, Spin(written), moved, before, total)
      requires moved <= |taken| && cons == Index(base + (|taken| - moved))
      modifies this`outCons, this`taken, this`takes
      ensures old(taken) <= taken
      ensures |takes| <= |old(takes)| && (ok ==> |takes| < |old(takes)|)
      ensures ok ==> Remains(text, Put(written), moved', before, total)
                     && moved' <= |taken| && cons == Index(base + (|taken| - moved'))
      ensures !ok ==> takes == [] && Remains(text, Spin(written), moved', before, total)
    {
      hide Run;
      moved' := moved;
      while true
        invariant old(taken) <= taken
        invariant Remains(text, Spin(written), moved', before, total)
        invariant moved' <= |taken| && cons == Index(base + (|taken| - moved'))
        invariant |takes| <= |old(takes)|
        decreases |takes|
      {
        if takes == [] {
          return false, moved';
        }
        var c;
        c, moved' := Look(text, Spin(written), moved', before, total);
        IndexesApart(base + (|taken| - moved'), moved');
        if c != cons {
          return true, moved';
        }
      }
    }

    /** Line 105: a look at both indices, after the consumer has acted. */
    method LookWhileDraining(ghost text: string, ghost moved: nat, ghost before: string, ghost total: Seen)
      returns (ghost moved': nat)
      requires takes != [] && Remains(text, Drain, moved, before, total)
      modifies this`outCons, this`taken, this`takes
      ensures old(taken) <= taken
      ensures takes == old(takes)[1..] && Valid() && before <= stream
      ensures Used() == 0 <==> outCons == outProd
      ensures if Used() == 0 then stream[|before|..] == total.out && total.done && takes == total.rest
              else Remains(text, Drain, moved', before, total)
    {
      hide Run;
      ghost var t := |taken|;
      DrainUnfolds(text, Used(), moved, takes, Min(takes[0], Used()));
      assert stream[|before|..] + "" == stream[|before|..];
      Interfere();
      moved' := moved + (|taken| - t);
      IndexDifference(base + |stream|, base + |taken|);
    }

    /** Lines 104-106: wait for the consumer to take everything. */
    method AwaitDrain(ghost text: string, ghost moved: nat, ghost before: string, ghost total: Seen)
      returns (done: bool)
      requires Remains(text, Drain, moved, before, total)
      modifies this`outCons, this`taken, this`takes
      ensures old(taken) <= taken
      ensures Valid() && before <= stream
      ensures stream[|before|..] == total.out && done == total.done && takes == total.rest
      ensures if done then Used() == 0 else takes == []
    {
      hide Run;
      ghost var m: nat := moved;
      while true
        invariant old(taken) <= taken
        invariant Remains(text, Drain, m, before, total)
        decreases |takes|
      {
        if takes == [] {
          StopsHere(text, Drain, m, before, total);
          return false;
        }
        m := LookWhileDraining(text, m, before, total);
        if outCons == outProd {
          return true;
        }
      }
    }

    /** pv_console_write(): what it publishes and whether it returns is what
        `ConsoleRun` says, and a call that returns leaves the ring drained. */
    method Write(buf: array<char>, len: nat) returns (done: bool)
      requires Valid() && buf != out && len <= buf.Length
      modifies this`outCons, this`outProd, this`taken, this`takes, this`stream, this`told, out
      ensures old(taken) <= taken
      ensures Valid()
      ensures var seen := Call(buf[..len], old(Used()), old(takes));
              stream == old(stream) + seen.out && done == seen.done && takes == seen.rest
      ensures if done then Used() == 0 else takes == []
      ensures (told == |stream| || told == old(told)) && (done || stream != old(stream) ==> told == |stream|)
    {
      hide Run;
      ghost var before, text := stream, buf[..len];
      ghost var total := Call(text, Used(), takes);
      Begins(text, Used(), takes);
      if takes == [] {
        assert stream + "" == stream;
        return false;
      }
      var cons;
      ghost var moved;
      assert stream[|before|..] + total.out == total.out;
      cons, moved := Look(text, Load, 0, before, total);
      done := Transmit(buf, len, cons, before, total);
      assert stream == before + stream[|before|..];
    }

    /** Lines 84-106. */
    method Transmit(buf: array<char>, len: nat, cons: int, ghost before: string, ghost total: Seen) returns (done: bool)
      requires buf != out && len <= buf.Length
      requires Remains(buf[..len], Put(0), 0, before, total) && cons == outCons
      modifies this`outCons, this`outProd, this`taken, this`takes, this`stream, this`told, out
      ensures old(taken) <= taken
      ensures Valid() && before <= stream
      ensures stream[|before|..] == total.out && done == total.done && takes == total.rest
      ensures if done then Used() == 0 else takes == []
      ensures (told == |stream| || told == old(told)) && (done || stream != old(stream) ==> told == |stream|)
    {
      hide Run, Remains, Index;
      var written: nat := 0;
      ghost var moved: nat := 0;
      ConsIs(buf[..len], Put(0), 0, before, total);
      while true
        invariant old(taken) <= taken && written <= len
        invariant (told == |stream| || told == old(told)) && (stream != old(stream) ==> told == |stream|)
        invariant Remains(buf[..len], Put(written), moved, before, total)
        invariant moved <= |taken| && cons == Index(base + (|taken| - moved))
        decreases |takes|
      {
        if takes == [] {
          StopsHere(buf[..len], Put(written), moved, before, total);
          return false;
        }
        written, moved := PutSome(buf, written, len, moved, before, total);
        if written < len {
          var ok;
          ok, moved := AwaitConsumer(cons, written, buf[..len], moved, before, total);
          if !ok {
            StopsHere(buf[..len], Spin(written), moved, before, total);
            return false;
          }
        } else {
          done := AwaitDrain(buf[..len], moved, before, total);
          return;
        }
      }
    }

    lemma ConsIs(text: string, at: Point, moved: nat, before: string, total: Seen)
      requires Remains(text, at, moved, before, total)
      ensures outCons == Index(base + |taken|)
    {
      hide Run, Index;
    }

    lemma StopsHere(text: string, at: Point, moved: nat, before: string, total: Seen)
      requires takes == [] && Remains(text, at, moved, before, total)
      ensures Valid() && before <= stream
      ensures stream[|before|..] == total.out && !total.done && total.rest == []
    {
      hide Run;
      NothingMoreSeen(text, at, Used(), moved);
      assert stream[|before|..] + "" == stream[|before|..];
    }
  }

  lemma Slices(buf: array<char>, len: nat, a: nat, b: nat)
    requires a <= b <= len <= buf.Length
    ensures buf[..len][a..b] == buf[a..b]
  {
  }

  /** Text put behind what has been published moves from what is to come into what has. */
  lemma PutSeen(was: string, text: string, k: nat, rest: string, total: string)
    requires k <= |was| && was[k..] + (text + rest) == total
    ensures (was + text)[k..] + rest == total
  {
    TailGrows(was, text, k);
    Regroup(was[k..], text, rest);
  }

  lemma Begins(text: string, used: nat, takes: seq<nat>)
    requires used <= RING
    ensures Call(text, used, takes) == Run(text, Load, used, 0, takes)
    ensures takes == [] ==> Call(text, used, takes) == Seen("", false, [])
  {
  }

  lemma IndexesApart(p: nat, moved: nat)
    ensures Index(p) == Index(p + moved) <==> moved % WORD == 0
  {
    DivModIdentity(p, WORD);
    DivModIdentity(moved, WORD);
    var laps, rest := p / WORD + moved / WORD, p % WORD + moved % WORD;
    if rest < WORD {
      DivModUnique(p + moved, WORD, laps, rest);
    } else {
      DivModUnique(p + moved, WORD, laps + 1, rest - WORD);
    }
  }

  // ----- vprintk -----

  datatype Outcome = Done | Stalled | Panicked

  /** The size of the static buffer. */
  const PRINTK_BUF := 2048

  /** What vprintk() sends of an output that it does not panic over: an output of
      exactly 2048 characters is let through by line 127, and loses its last
      character to the terminating NUL. */
  function Printed(out: string): string {
    if |out| < PRINTK_BUF then out else out[..PRINTK_BUF - 1] + "\0"
  }

  lemma PrintedExactlyIff(out: string)
    requires |out| <= 2048
    ensures Printed(out) == out <==> |out| < 2048 || out[2047] == '\0'
  {
    if |out| == PRINTK_BUF {
      assert out == out[..PRINTK_BUF - 1] + [out[PRINTK_BUF - 1]];
      assert Printed(out)[PRINTK_BUF - 1] == '\0';
    }
  }

  lemma BufferHolds(cells: seq<char>, out: string)
    requires |cells| == PRINTK_BUF && |out| <= PRINTK_BUF
    ensures Vsnprintf.Terminated(cells, PRINTK_BUF, out)[..|out|] == Printed(out)
  {
    if |out| < PRINTK_BUF {
      assert out[..|out|] == out;
    }
  }

  datatype Message = Message(fmt: string, args: seq<FormatSpec.Arg>)

  /** What a call sends if its buffer is large enough: the plain output of its format,
      with every "\n" made "\r\n". */
  function OutputOf(m: Message, env: FormatSpec.Env): string
    requires FormatSpec.ValidEnv(env)
  {
    FormatText.Crlf(FormatSpec.Output(m.fmt, 0, m.args, 0, false, env))
  }

  /** The outcome of printing `m` on a drained ring, and what is left of the
      consumer's schedule: the call waits for the consumer to take everything. */
  function Printing(m: Message, takes: seq<nat>, env: FormatSpec.Env): (Outcome, seq<nat>)
    requires FormatSpec.ValidEnv(env)
  {
    var n := |OutputOf(m, env)|;
    if n > PRINTK_BUF then (Panicked, takes)
    else if |takes| >= 3 && n <= Sum(takes[2..]) then (Done, AfterDrain(n, takes[2..]))
    else (Stalled, [])
  }

  method Vprintk(con: PvConsole, buf: array<char>, m: Message, env: FormatSpec.Env) returns (r: Outcome)
    requires con.Valid() && con.Used() == 0
    requires buf.Length == PRINTK_BUF && buf != con.out && '\0' !in m.fmt && FormatSpec.ValidEnv(env)
    modifies con`outCons, con`outProd, con`taken, con`takes, con`stream, con`told, con.out, buf
    ensures con.Valid() && (r, con.takes) == Printing(m, old(con.takes), env)
    ensures r.Panicked? <==> |OutputOf(m, env)| > 2048
    ensures r.Panicked? ==> con.stream == old(con.stream) && con.Used() == 0
    ensures r.Done? ==> con.stream == old(con.stream) + Printed(OutputOf(m, env)) && con.Used() == 0
    ensures r.Stalled? ==>
              con.takes == [] && con.stream in {old(con.stream), old(con.stream) + Printed(OutputOf(m, env))}
    ensures old(con.taken) <= con.taken
    ensures con.told == |con.stream| || con.told == old(con.told)
    ensures r.Done? || con.stream != old(con.stream) ==> con.told == |con.stream|
  {
    hide FormatSpec.Output, FormatText.Crlf, Vsnprintf.Terminated, Run;
    FormatSpec.CrlfHomomorphism(m.fmt, 0, m.args, 0, env);
    var rc := Vsnprintf.VsnprintfInternal(buf, buf.Length, m.fmt, m.args, true, env);
    if rc > buf.Length {
      return Panicked;
    }
    BufferHolds(old(buf[..]), OutputOf(m, env));
    assert buf[..rc] == buf[..][..rc];
    Begins(buf[..rc], 0, con.takes);
    WholeOrNothing(buf[..rc], Load, 0, 0, con.takes);
    FittingCallReturns(buf[..rc], 0, con.takes);
    assert con.stream + "" == con.stream;
    var done := con.Write(buf, rc);
    r := if done then Done else Stalled;
  }

  function PrintedAll(ms: seq<Message>, env: FormatSpec.Env): string
    requires FormatSpec.ValidEnv(env)
  {
    if ms == [] then "" else PrintedAll(ms[..|ms| - 1], env) + Printed(OutputOf(ms[|ms| - 1], env))
  }

  /** The outcome of a run, and how many messages have been printed completely by then. */
  function PrintingAll(ms: seq<Message>, takes: seq<nat>, env: FormatSpec.Env): (Outcome, nat)
    requires FormatSpec.ValidEnv(env)
  {
    if ms == [] then (Done, 0)
    else
      var (r, rest) := Printing(ms[0], takes, env);
      if r != Done then (r, 0)
      else
        var (s, k) := PrintingAll(ms[1..], rest, env);
        (s, k + 1)
  }

  lemma NothingPrinted(ms: seq<Message>, before: string, env: FormatSpec.Env)
    requires FormatSpec.ValidEnv(env)
    ensures before + PrintedAll(ms[..0], env) == before
  {
  }

  lemma OneMorePrinted(ms: seq<Message>, n: nat, before: string, env: FormatSpec.Env)
    requires FormatSpec.ValidEnv(env) && n < |ms|
    ensures before + PrintedAll(ms[..n], env) + Printed(OutputOf(ms[n], env)) == before + PrintedAll(ms[..n + 1], env)
  {
    hide OutputOf, Printed;
    assert ms[..n + 1][..n] == ms[..n];
  }

  lemma PrintingFirst(ms: seq<Message>, n: nat, takes: seq<nat>, env: FormatSpec.Env)
    requires FormatSpec.ValidEnv(env) && n < |ms|
    ensures PrintingAll(ms[n..], takes, env) ==
              var (o, rest) := Printing(ms[n], takes, env);
              if o != Done then (o, 0)
              else
                var (s, k) := PrintingAll(ms[n + 1..], rest, env);
                (s, k + 1)
  {
    hide Printing;
    assert ms[n..][0] == ms[n] && ms[n..][1..] == ms[n + 1..];
  }

  lemma NonePrinting(ms: seq<Message>, takes: seq<nat>, env: FormatSpec.Env)
    requires FormatSpec.ValidEnv(env)
    ensures PrintingAll(ms[|ms|..], takes, env) == (Done, 0)
  {
  }

  /** How often a consumer that never comes in vain has to come for a run to complete. */
  function Visits(ms: seq<Message>, env: FormatSpec.Env): nat
    requires FormatSpec.ValidEnv(env)
  {
    if ms == [] then 0 else 2 + Max(1, |OutputOf(ms[0], env)|) + Visits(ms[1..], env)
  }

  lemma {:induction false} DrainsInTime(n: nat, takes: seq<nat>)
    requires |takes| >= Max(1, n) && forall k :: 0 <= k < |takes| ==> takes[k] > 0
    ensures n <= Sum(takes) && |AfterDrain(n, takes)| >= |takes| - Max(1, n)
    ensures forall k :: 0 <= k < |AfterDrain(n, takes)| ==> AfterDrain(n, takes)[k] > 0
    decreases n
  {
    if takes[0] < n {
      DrainsInTime(n - takes[0], takes[1..]);
    }
  }

  /** Progress: if no output is too long, a run completes against every consumer that
      takes something each time and comes often enough. */
  lemma {:induction false} RunCompletes(ms: seq<Message>, takes: seq<nat>, env: FormatSpec.Env)
    requires FormatSpec.ValidEnv(env)
    requires forall k :: 0 <= k < |ms| ==> |OutputOf(ms[k], env)| <= PRINTK_BUF
    requires forall k :: 0 <= k < |takes| ==> takes[k] > 0
    requires |takes| >= Visits(ms, env)
    ensures PrintingAll(ms, takes, env) == (Done, |ms|)
    decreases |ms|
  {
    hide OutputOf;
    if ms != [] {
      var n := |OutputOf(ms[0], env)|;
      DrainsInTime(n, takes[2..]);
      RunCompletes(ms[1..], AfterDrain(n, takes[2..]), env);
    }
  }

  /** Any run of vprintk() calls on a drained ring, against any consumer. Every call
      finds the ring drained. When all have returned, the consumer has received exactly
      what the calls printed, in order; when one panics, what the calls before it
      printed; and when one waits for ever, the whole schedule of the consumer has been
      used, and what it has received lies between what was printed before the call and
      what was printed with it. */
  method PrintRun(con: PvConsole, buf: array<char>, ms: seq<Message>, env: FormatSpec.Env)
    returns (r: Outcome, n: nat)
    requires con.Valid() && con.Used() == 0
    requires buf.Length == PRINTK_BUF && buf != con.out && FormatSpec.ValidEnv(env)
    requires forall k :: 0 <= k < |ms| ==> '\0' !in ms[k].fmt
    modifies con`outCons, con`outProd, con`taken, con`takes, con`stream, con`told, con.out, buf
    ensures con.Valid() && (r, n) == PrintingAll(ms, old(con.takes), env)
    ensures n <= |ms| && (r.Done? <==> n == |ms|)
    ensures r.Done? ==> con.taken == old(con.taken) + PrintedAll(ms, env)
    ensures r.Panicked? ==> |OutputOf(ms[n], env)| > PRINTK_BUF
                            && con.taken == con.stream == old(con.taken) + PrintedAll(ms[..n], env)
    ensures r.Stalled? ==> con.takes == []
                           && old(con.taken) + PrintedAll(ms[..n], env) <= con.taken
                           && con.taken <= old(con.taken) + PrintedAll(ms[..n + 1], env)
    ensures con.stream != old(con.stream) ==> con.told == |con.stream|
  {
    hide FormatSpec.Output, OutputOf, Printed, Printing, PrintedAll, PrintingAll;
    ghost var before, all := con.taken, con.takes;
    assert con.taken == con.stream && ms[0..] == ms;
    NothingPrinted(ms, before, env);
    r, n := Done, 0;
    while n < |ms|
      invariant n <= |ms| && con.Valid() && con.Used() == 0
      invariant con.stream != old(con.stream) ==> con.told == |con.stream|
      invariant r == Done && con.taken == con.stream == before + PrintedAll(ms[..n], env)
      invariant var (s, k) := PrintingAll(ms[n..], con.takes, env);
                PrintingAll(ms, all, env) == (s, k + n)
    {
      OneMorePrinted(ms, n, before, env);
      PrintingFirst(ms, n, con.takes, env);
      r := Vprintk(con, buf, ms[n], env);
      if r != Done {
        return;
      }
      n := n + 1;
    }
    assert ms[..|ms|] == ms;
    NonePrinting(ms, con.takes, env);
  }
}
