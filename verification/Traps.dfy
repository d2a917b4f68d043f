/** Fault redirection: `do_exception` of arch/x86/traps.c on top of the
    exception table. */
module Traps {
  import opened Extable

  /** The part of struct cpu_regs that the fault handlers read or write. */
  datatype Regs = Regs(ip: int, ax: int, cx: int, dx: int, di: int, entryVector: int, errorCode: int)

  class CpuRegs {
    var ip: int
    var ax: int
    var cx: int
    var dx: int
    var di: int
    var entryVector: int
    var errorCode: int

    function Snapshot(): Regs
      reads this
    {
      Regs(ip, ax, cx, dx, di, entryVector, errorCode)
    }

    method Load(r: Regs)
      modifies this
      ensures Snapshot() == r
    {
      ip, ax, cx, dx, di := r.ip, r.ax, r.cx, r.dx, r.di;
      entryVector, errorCode := r.entryVector, r.errorCode;
    }
  }

  const EXINFO_EXPECTED := 0x8000_0000

  function Exinfo(vec: int, ec: int): int {
    EXINFO_EXPECTED + (vec % 0x100) * 0x1_0000 + ec % 0x1_0000
  }

  /** `x` tells a fault apart from none, by its top bit, and names its vector, in 8 bits,
      and its error code, in 16. */
  predicate Records(x: int, vec: int, ec: int) {
    0x8000_0000 <= x < 0x8100_0000 && x / 0x1_0000 % 0x100 == vec % 0x100 && x % 0x1_0000 == ec % 0x1_0000
  }

  /** Exactly one word does so. */
  lemma ExinfoRecords(x: int, vec: int, ec: int)
    ensures Records(x, vec, ec) <==> x == Exinfo(vec, ec)
    ensures 0 <= vec < 0x100 && 0 <= ec < 0x1_0000 ==>
              Exinfo(vec, ec) / 0x1_0000 % 0x100 == vec && Exinfo(vec, ec) % 0x1_0000 == ec
  {
  }

  /** Functions the table or the test may supply: other handlers, and the
      do_unhandled_exception() hook, whose default returns false. */
  datatype Hooks = Hooks(custom: (int, Regs, Entry) -> (Regs, bool), unhandled: Regs -> (Regs, bool))

  function CallHandler(hooks: Hooks, regs: Regs, ex: Entry): (Regs, bool)
    requires ex.handler != NoHandler
  {
    match ex.handler
    case RecordFaultEax => (regs.(ax := Exinfo(regs.entryVector, regs.errorCode), ip := ex.fixup), true)
    case RecordFaultEdi => (regs.(di := Exinfo(regs.entryVector, regs.errorCode), ip := ex.fixup), true)
    case RdmsrSafe => (regs.(ax := 0, dx := 0, cx := 0xffff_ffff, ip := ex.fixup), true)
    case WrmsrSafe => (regs.(cx := 0xffff_ffff, ip := ex.fixup), true)
    case Custom(id) => hooks.custom(id, regs, ex)
  }

  /** How a fault at an address listed by `ex` ends: registers, and whether the kernel survives. */
  ghost predicate RedirectedBy(hooks: Hooks, before: Regs, ex: Entry, after: Regs, survived: bool) {
    match ex.handler
    case NoHandler => survived && after == before.(ip := ex.fixup)
    case Custom(id) =>
      var (r, safe) := hooks.custom(id, before, ex);
      if safe then survived && after == r else (after, survived) == hooks.unhandled(r)
    case _ =>
      // Every helper resumes at the fixup and leaves the fault description alone.
      && survived && after.ip == ex.fixup
      && after.entryVector == before.entryVector && after.errorCode == before.errorCode
      && (after.ax != before.ax ==> ex.handler == RecordFaultEax || (ex.handler == RdmsrSafe && after.ax == 0))
      && (ex.handler == RecordFaultEax ==> Records(after.ax, before.entryVector, before.errorCode))
      && (ex.handler == RecordFaultEdi ==> Records(after.di, before.entryVector, before.errorCode))
      && (ex.handler != RecordFaultEdi ==> after.di == before.di)
      && (if ex.handler == RdmsrSafe then after.ax == 0 && after.dx == 0 else after.dx == before.dx)
      && (after.cx == if ex.handler in {RdmsrSafe, WrmsrSafe} then 0xffff_ffff else before.cx)
  }

  ghost predicate OnlyEntryFor(entries: seq<Entry>, addr: int, ex: Entry) {
    && ex in entries && ex.fault == addr
    && (forall e :: e in entries && e.fault == addr ==> e == ex)
  }

  /** Returns false where the C code would panic(). */
  method DoException(table: ExceptionTable, regs: CpuRegs, hooks: Hooks) returns (survived: bool)
    requires table.Valid() && SortedByFault(table.Entries())
    modifies regs
    ensures Listed(table.Entries(), old(regs.ip)) ==>
              exists ex :: ex in table.Entries() && ex.fault == old(regs.ip)
                           && RedirectedBy(hooks, old(regs.Snapshot()), ex, regs.Snapshot(), survived)
    ensures FoundPastEnd(table.Entries(), table.PastEnd(), old(regs.ip)) ==>
              RedirectedBy(hooks, old(regs.Snapshot()), table.PastEnd(), regs.Snapshot(), survived)
    ensures !Listed(table.Entries(), old(regs.ip)) && !FoundPastEnd(table.Entries(), table.PastEnd(), old(regs.ip)) ==>
              (regs.Snapshot(), survived) == hooks.unhandled(old(regs.Snapshot()))
  {
    hide Records, Exinfo;
    ghost var before := regs.Snapshot();
    ExinfoRecords(Exinfo(before.entryVector, before.errorCode), before.entryVector, before.errorCode);
    survived := false;
    var found := table.SearchExtable(regs.ip);
    assert forall i :: 0 <= i < |table.Entries()| ==> table.Entries()[i] in table.Entries();
    if found.Some? {
      var ex := table.slots[found.value];
      if ex.handler != NoHandler {
        var (r, safe) := CallHandler(hooks, regs.Snapshot(), ex);
        regs.Load(r);
        survived := safe;
      } else {
        regs.ip := ex.fixup;
        survived := true;
      }
    }
    if !survived {
      var (r, safe) := hooks.unhandled(regs.Snapshot());
      regs.Load(r);
      survived := safe;
    }
    if Listed(table.Entries(), before.ip) {
      ghost var ex := table.Entries()[found.value];
      assert RedirectedBy(hooks, before, ex, regs.Snapshot(), survived);
    }
  }

  /** From boot to the first fault: whatever order the linker emitted the entries
      in, a fault at a listed address is redirected by an entry emitted for that
      address, and by the only one when the address is listed once; one at an address
      that is not listed is left to the hook, unless the words behind the table pass
      for an entry. */
  method FaultAfterBoot(table: ExceptionTable, regs: CpuRegs, hooks: Hooks) returns (survived: bool)
    requires table.Valid()
    modifies table.slots, regs
    ensures old(Listed(table.Entries(), regs.ip)) ==>
              exists ex :: ex in old(table.Entries()) && ex.fault == old(regs.ip)
                           && RedirectedBy(hooks, old(regs.Snapshot()), ex, regs.Snapshot(), survived)
    ensures forall ex :: OnlyEntryFor(old(table.Entries()), old(regs.ip), ex) ==>
              RedirectedBy(hooks, old(regs.Snapshot()), ex, regs.Snapshot(), survived)
    ensures old(FoundPastEnd(table.Entries(), table.PastEnd(), regs.ip)) ==>
              RedirectedBy(hooks, old(regs.Snapshot()), old(table.PastEnd()), regs.Snapshot(), survived)
    ensures old(!Listed(table.Entries(), regs.ip) && !FoundPastEnd(table.Entries(), table.PastEnd(), regs.ip)) ==>
              (regs.Snapshot(), survived) == hooks.unhandled(old(regs.Snapshot()))
  {
    ghost var emitted := table.Entries();
    table.SortExtable();
    assert forall e :: e in emitted <==> e in table.Entries() by {
      SameElements(emitted, table.Entries());
    }
    SameAddresses(emitted, table.Entries(), table.PastEnd(), regs.ip);
    survived := DoException(table, regs, hooks);
    forall ex | OnlyEntryFor(emitted, old(regs.ip), ex)
      ensures Listed(emitted, old(regs.ip))
    {
      var i :| 0 <= i < |emitted| && emitted[i] == ex;
    }
  }

  /** Sorting does not change what is listed, nor what is taken for listed. */
  lemma SameAddresses(s: seq<Entry>, t: seq<Entry>, past: Entry, addr: int)
    requires forall e :: e in s <==> e in t
    ensures Listed(s, addr) <==> Listed(t, addr)
    ensures FoundPastEnd(s, past, addr) <==> FoundPastEnd(t, past, addr)
  {
    assert forall i :: 0 <= i < |s| ==> s[i] in t;
    assert forall i :: 0 <= i < |t| ==> t[i] in s;
  }

  lemma SameElements<T>(s: seq<T>, t: seq<T>)
    requires multiset(s) == multiset(t)
    ensures forall x :: x in s <==> x in t
  {
    forall x ensures x in s <==> x in t {
      assert x in s <==> x in multiset(s);
      assert x in t <==> x in multiset(t);
    }
  }
}
