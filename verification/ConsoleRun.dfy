/** pv_console_write() of common/console.c against every possible consumer, as a
    function: which bytes it publishes, and whether it returns. */
module ConsoleRun {
  import opened Arith
  import opened Index32

  const RING := 2048

  /** Where the writer is: about to load `out_cons` (line 82), about to write from
      buf[written] on (line 87), waiting for the consumer to move (line 98), or
      waiting for the ring to drain (line 105). */
  datatype Point = Load | Put(written: nat) | Spin(written: nat) | Drain

  /** What is seen of the writer until `takes` ends: the bytes it publishes, whether
      it has returned by then, and what is left of `takes` when it has. */
  datatype Seen = Seen(out: string, done: bool, rest: seq<nat>)

  /** `used` bytes are in the ring, and the consumer has taken `moved` since the
      first load.  `takes` says how many more it takes before each of the writer's
      successive looks at `out_cons`. */
  function Run(buf: string, at: Point, used: nat, moved: nat, takes: seq<nat>): Seen
    requires used <= RING
    requires at.Put? || at.Spin? ==> at.written <= |buf|
    decreases |takes|
  {
    if takes == [] then Seen("", false, [])
    else
      var t := Min(takes[0], used);
      var u, m, rest := used - t, moved + t, takes[1..];
      match at
      case Load => Run(buf, Put(0), u, 0, rest)
      case Put(written) =>
        var n := Min(|buf| - written, RING - u);
        var r := Run(buf, if n < |buf| then Spin(n) else Drain, u + n, m, rest);
        r.(out := buf[written..written + n] + r.out)
      case Spin(written) => Run(buf, if m % WORD == 0 then Spin(written) else Put(written), u, m, rest)
      case Drain => if u == 0 then Seen("", true, rest) else Run(buf, Drain, u, m, rest)
  }

  lemma PutUnfolds(buf: string, written: nat, used: nat, moved: nat, takes: seq<nat>, u: nat, n: nat, next: Point)
    requires takes != [] && used <= RING && written <= |buf|
    requires u == used - Min(takes[0], used) && n == Min(|buf| - written, RING - u)
    requires next == if n < |buf| then Spin(n) else Drain
    ensures var r := Run(buf, next, u + n, moved + (used - u), takes[1..]);
            Run(buf, Put(written), used, moved, takes) == r.(out := buf[written..written + n] + r.out)
  {
    var t := Min(takes[0], used);
    assert used - t == u && moved + t == moved + (used - u);
  }

  lemma DrainUnfolds(buf: string, used: nat, moved: nat, takes: seq<nat>, t: nat)
    requires takes != [] && used <= RING && t == Min(takes[0], used)
    ensures Run(buf, Drain, used, moved, takes)
         == if used == t then Seen("", true, takes[1..]) else Run(buf, Drain, used - t, moved + t, takes[1..])
  {
  }

  /** A look at `out_cons` at the start, or while waiting. */
  lemma LookUnfolds(buf: string, at: Point, used: nat, moved: nat, takes: seq<nat>, t: nat)
    requires takes != [] && used <= RING && t == Min(takes[0], used) && (at.Load? || (at.Spin? && at.written <= |buf|))
    ensures Run(buf, at, used, moved, takes)
         == if at.Load? then Run(buf, Put(0), used - t, 0, takes[1..])
            else Run(buf, if (moved + t) % WORD == 0 then at else Put(at.written), used - t, moved + t, takes[1..])
  {
  }

  lemma NothingMoreSeen(buf: string, at: Point, used: nat, moved: nat)
    requires used <= RING && (at.Put? || at.Spin? ==> at.written <= |buf|)
    ensures Run(buf, at, used, moved, []) == Seen("", false, [])
  {
  }

  /** A call with `used` bytes in the ring. */
  function Call(buf: string, used: nat, takes: seq<nat>): Seen
    requires used <= RING
  {
    Run(buf, Load, used, 0, takes)
  }

  // ----- when the call is correct -----

  lemma {:induction false} DrainPublishesNothing(buf: string, used: nat, moved: nat, takes: seq<nat>)
    requires used <= RING
    ensures Run(buf, Drain, used, moved, takes).out == ""
    decreases |takes|
  {
    if takes != [] {
      var t := Min(takes[0], used);
      if used - t != 0 {
        DrainPublishesNothing(buf, used - t, moved + t, takes[1..]);
      }
    }
  }

  /** From the start of the buffer, with room for all of it, or nothing to split. */
  lemma {:induction false} WholeOrNothing(buf: string, at: Point, used: nat, moved: nat, takes: seq<nat>)
    requires used <= RING && (at == Load || at == Put(0) || at == Spin(0))
    requires |buf| <= RING - used || |buf| <= 1
    ensures var seen := Run(buf, at, used, moved, takes);
            (seen.out == "" || seen.out == buf) && (seen.done ==> seen.out == buf)
    decreases |takes|
  {
    hide Run;
    if takes == [] {
      NothingMoreSeen(buf, at, used, moved);
    } else {
      var t := Min(takes[0], used);
      var u, m, rest := used - t, moved + t, takes[1..];
      if at.Put? {
        var n := Min(|buf|, RING - u);
        PutUnfolds(buf, 0, used, moved, takes, u, n, if n < |buf| then Spin(n) else Drain);
        if n < |buf| {
          assert n == 0;
          WholeOrNothing(buf, Spin(0), u, m, rest);
          assert buf[0..0] == "" && "" + Run(buf, Spin(0), u, m, rest).out == Run(buf, Spin(0), u, m, rest).out;
        } else {
          DrainPublishesNothing(buf, u + n, m, rest);
          assert buf[0..n] == buf && buf + "" == buf;
        }
      } else {
        LookUnfolds(buf, at, used, moved, takes, t);
        if at.Load? {
          WholeOrNothing(buf, Put(0), u, 0, rest);
        } else {
          WholeOrNothing(buf, if m % WORD == 0 then Spin(0) else Put(0), u, m, rest);
        }
      }
    }
  }

  // ----- when the call returns -----

  /** How many bytes a consumer with the schedule `takes` can take. */
  function Sum(takes: seq<nat>): nat { if takes == [] then 0 else takes[0] + Sum(takes[1..]) }

  /** What is left of a schedule when `used` bytes have been taken, and a look has shown it. */
  function AfterDrain(used: nat, takes: seq<nat>): seq<nat>
    decreases |takes|
  {
    if takes == [] then [] else if used <= takes[0] then takes[1..] else AfterDrain(used - takes[0], takes[1..])
  }

  lemma {:induction false} DrainReturns(buf: string, used: nat, moved: nat, takes: seq<nat>)
    requires used <= RING
    ensures Run(buf, Drain, used, moved, takes).done <==> takes != [] && used <= Sum(takes)
    ensures Run(buf, Drain, used, moved, takes).rest == AfterDrain(used, takes)
    decreases |takes|
  {
    if takes != [] {
      var t := Min(takes[0], used);
      DrainUnfolds(buf, used, moved, takes, t);
      if used != t {
        DrainReturns(buf, used - t, moved + t, takes[1..]);
      }
    }
  }

  /** The bytes that are in the ring when the buffer has been put behind the `used`
      ones, of which the consumer may have taken some. */
  function ToDrain(n: nat, used: nat, takes: seq<nat>): nat
    requires |takes| >= 2
  {
    n + used - Min(takes[0] + takes[1], used)
  }

  /** Progress: the call with a buffer that fits returns exactly when the consumer gets
      to take what was in the ring and what the call has put there. */
  lemma FittingCallReturns(buf: string, used: nat, takes: seq<nat>)
    requires |buf| <= RING - used
    ensures var seen := Call(buf, used, takes);
            && (seen.done <==> |takes| >= 3 && ToDrain(|buf|, used, takes) <= Sum(takes[2..]))
            && (seen.done ==> seen.rest == AfterDrain(ToDrain(|buf|, used, takes), takes[2..]))
  {
    hide Run;
    if takes == [] {
      NothingMoreSeen(buf, Load, used, 0);
    } else {
      var t := Min(takes[0], used);
      LookUnfolds(buf, Load, used, 0, takes, t);
      if takes[1..] == [] {
        NothingMoreSeen(buf, Put(0), used - t, 0);
      } else {
        var u := used - t - Min(takes[1], used - t);
        PutUnfolds(buf, 0, used - t, 0, takes[1..], u, |buf|, Drain);
        assert takes[1..][1..] == takes[2..] && takes[1..][0] == takes[1];
        DrainReturns(buf, u + |buf|, (used - t) - u, takes[2..]);
      }
    }
  }

  // ----- when it is not -----

  /** A consumer that takes a byte before every write and none otherwise. */
  function OneByOne(k: nat): seq<nat> {
    if k == 0 then [] else [1, 0] + OneByOne(k - 1)
  }

  lemma OneMore(buf: string, k: nat)
    requires |buf| >= 2 && k > 0
    ensures buf[1..2] + seq(k - 1, i => buf[1]) == seq(k, i => buf[1])
  {
  }

  /** Once one byte of several counts as written, the writer goes on writing
      buf[1] for as long as the consumer makes room for it. */
  lemma {:induction false} WritesForever(buf: string, moved: nat, k: nat)
    requires |buf| >= 2 && 0 < moved && moved + k < WORD
    ensures Run(buf, Put(1), RING, moved, OneByOne(k)).out == seq(k, i => buf[1])
    decreases k
  {
    hide Run;
    if k == 0 {
      NothingMoreSeen(buf, Put(1), RING, moved);
    } else {
      var rest := OneByOne(k - 1);
      assert OneByOne(k) == [1] + ([0] + rest);
      PutStep(buf, 1, RING, moved, 1, [0] + rest);
      SpinStep(buf, 1, RING, moved + 1, 0, rest);
      WritesForever(buf, moved + 1, k - 1);
      OneMore(buf, k);
    }
  }

  /** A consumer that makes room for one byte at a time, after the ring has filled up. */
  function Trickle(free: nat, k: nat): seq<nat> {
    if free == 0 then [0, 1, 0] + OneByOne(k) else [0, 0, 1, 0, 0] + OneByOne(k)
  }

  lemma LoadStep(buf: string, used: nat, moved: nat, t: nat, rest: seq<nat>)
    requires t <= used <= RING
    ensures Run(buf, Load, used, moved, [t] + rest) == Run(buf, Put(0), used - t, 0, rest)
  {
    var takes := [t] + rest;
    assert takes[0] == t && takes[1..] == rest && Min(t, used) == t;
  }

  lemma PutStep(buf: string, written: nat, used: nat, moved: nat, t: nat, rest: seq<nat>)
    requires t <= used <= RING && written <= |buf|
    requires Min(|buf| - written, RING - (used - t)) < |buf|
    ensures var n := Min(|buf| - written, RING - (used - t));
            Run(buf, Put(written), used, moved, [t] + rest).out
            == buf[written..written + n] + Run(buf, Spin(n), used - t + n, moved + t, rest).out
  {
    var takes := [t] + rest;
    assert takes[0] == t && takes[1..] == rest && Min(t, used) == t;
  }

  lemma SpinStep(buf: string, written: nat, used: nat, moved: nat, t: nat, rest: seq<nat>)
    requires t <= used <= RING && written <= |buf| && 0 < moved + t < WORD
    ensures Run(buf, Spin(written), used, moved, [t] + rest) == Run(buf, Put(written), used - t, moved + t, rest)
  {
    var takes := [t] + rest;
    assert takes[0] == t && takes[1..] == rest && Min(t, used) == t;
  }

  lemma TricklePublishes(buf: string, used: nat, k: nat)
    requires used <= RING && |buf| >= 2 && |buf| > RING - used && k + 2 < WORD
    ensures |Call(buf, used, Trickle(RING - used, k)).out| >= k
  {
    hide Run, OneByOne;
    var free, pump := RING - used, OneByOne(k);
    WritesForever(buf, 1, k);
    SpinStep(buf, 1, RING, 1, 0, pump);
    if free == 0 {
      assert Trickle(free, k) == [0] + ([1] + ([0] + pump));
      LoadStep(buf, used, 0, 0, [1] + ([0] + pump));
      PutStep(buf, 0, used, 0, 1, [0] + pump);
    } else {
      assert Trickle(free, k) == [0] + ([0] + ([1] + ([0] + ([0] + pump))));
      LoadStep(buf, used, 0, 0, [0] + ([1] + ([0] + ([0] + pump))));
      PutStep(buf, 0, used, 0, 0, [1] + ([0] + ([0] + pump)));
      SpinStep(buf, free, RING, 0, 1, [0] + ([0] + pump));
      PutStep(buf, free, RING - 1, 1, 0, [0] + pump);
    }
  }

  /** What a caller wants: only bytes of the buffer, in order and once each, and all
      of them by the time the call returns. */
  ghost predicate CorrectFor(buf: string, used: nat, takes: seq<nat>)
    requires used <= RING
  {
    var seen := Call(buf, used, takes);
    seen.out <= buf && (seen.done ==> seen.out == buf)
  }

  /** `written` is overwritten, not accumulated (line 87), so the call is correct for
      every consumer exactly when the buffer fits into the free part of the ring, or
      is too short to be split. */
  lemma CorrectIffItFits(buf: string, used: nat)
    requires used <= 2048 && |buf| + 3 < WORD
    ensures (forall takes :: CorrectFor(buf, used, takes)) <==> |buf| <= 2048 - used || |buf| <= 1
  {
    if |buf| <= RING - used || |buf| <= 1 {
      forall takes ensures CorrectFor(buf, used, takes) {
        WholeOrNothing(buf, Load, used, 0, takes);
      }
    } else {
      TricklePublishes(buf, used, |buf| + 1);
      assert !CorrectFor(buf, used, Trickle(RING - used, |buf| + 1));
    }
  }
}
