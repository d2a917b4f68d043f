/** The exception table of common/extable.c: sorted once at boot, then searched
    on every fault. */
module Extable {
  import opened Options
  import Heapsort

  /** The handler field of an entry: a null pointer, one of the helpers of
      arch/x86/extable.c, or some other function. */
  datatype Handler = NoHandler | RecordFaultEax | RecordFaultEdi | RdmsrSafe | WrmsrSafe | Custom(id: int)

  datatype Entry = Entry(fault: int, fixup: int, handler: Handler)

  function CompareEntry(l: Entry, r: Entry): int {
    if l.fault == r.fault then 0 else if l.fault > r.fault then 1 else -1
  }

  ghost predicate SortedByFault(s: seq<Entry>) {
    forall i, j :: 0 <= i < j < |s| ==> s[i].fault <= s[j].fault
  }

  ghost predicate Listed(s: seq<Entry>, addr: int) {
    exists i :: 0 <= i < |s| && s[i].fault == addr
  }

  /** The address is not listed, but the words behind the table pass for an entry
      of it, and the search gets that far. */
  ghost predicate FoundPastEnd(entries: seq<Entry>, past: Entry, addr: int) {
    past.fault == addr && forall i :: 0 <= i < |entries| ==> entries[i].fault < addr
  }

  /** What a search of a table of entries `s`, followed in memory by `past`, may
      return.  An absent address is reported at slot |s|, one past the end, exactly
      when that slot holds it and every entry is below it. */
  ghost predicate SearchResult(s: seq<Entry>, past: Entry, addr: int, r: Option<nat>) {
    if Listed(s, addr) then
      r.Some? && r.value < |s| && s[r.value].fault == addr
    else if FoundPastEnd(s, past, addr) then
      r == Some(|s|)
    else
      r == None
  }

  /** "NULL if no entry" holds of a search exactly when the words behind the table
      are not taken for an entry. */
  lemma NullIffNotListed(s: seq<Entry>, past: Entry, addr: int, r: Option<nat>)
    requires SearchResult(s, past, addr, r)
    ensures (r == None <==> !Listed(s, addr)) <==> !FoundPastEnd(s, past, addr)
  {
    assert Listed(s, addr) ==> !FoundPastEnd(s, past, addr);
  }

  /** An empty table followed by the word 5 claims to hold an entry for address 5. */
  lemma PastEndReported(past: Entry, r: Option<nat>)
    requires past.fault == 5 && SearchResult([], past, 5, r)
    ensures !Listed([], 5) && r == Some(0)
  {
    assert FoundPastEnd([], past, 5);
  }

  /** A table that any linker can emit: `slots` holds the entries between
      __start_ex_table and __stop_ex_table and, last, the words that follow. */
  class ExceptionTable {
    const slots: array<Entry>
    const wordBytes: int

    ghost predicate Valid() {
      && slots.Length >= 1
      && (wordBytes == 4 || wordBytes == 8)
      && 2 * Heapsort.Offset(Count(), EntrySize()) + EntrySize() < Modulus() / 2
    }

    function Modulus(): int {
      if wordBytes == 4 then 0x1_0000_0000 else 0x1_0000_0000_0000_0000
    }

    function EntrySize(): int { 3 * wordBytes }

    function Count(): int { slots.Length - 1 }

    ghost function Entries(): seq<Entry>
      reads slots
      requires Valid()
    {
      slots[..Count()]
    }

    ghost function PastEnd(): Entry
      reads slots
      requires Valid()
    {
      slots[Count()]
    }

    /** The emitted image: the entries in link order and the words behind them. */
    constructor (image: seq<Entry>, wordBytes: int)
      requires |image| >= 1 && (wordBytes == 4 || wordBytes == 8)
      requires 2 * ((|image| - 1) * (3 * wordBytes)) + 3 * wordBytes
            < (if wordBytes == 4 then 0x1_0000_0000 else 0x1_0000_0000_0000_0000) / 2
      ensures Valid() && fresh(slots)
      ensures Entries() == image[..|image| - 1] && PastEnd() == image[|image| - 1]
    {
      slots := new Entry[|image|](i requires 0 <= i < |image| => image[i]);
      this.wordBytes := wordBytes;
      new;
      assert slots[..] == image;
    }

    method SortExtable()
      requires Valid()
      modifies slots
      ensures SortedByFault(Entries())
      ensures multiset(Entries()) == old(multiset(Entries()))
      ensures PastEnd() == old(PastEnd())
    {
      Heapsort.Heapsort(slots, Count(), EntrySize(), CompareEntry, Modulus());
      assert SortedByFault(Entries()) by {
        assert Heapsort.SortedBy(Entries(), CompareEntry);
        forall i, j | 0 <= i < j < |Entries()| ensures Entries()[i].fault <= Entries()[j].fault {
          assert CompareEntry(Entries()[i], Entries()[j]) <= 0;
        }
      }
      assert slots[Count()..][0] == slots[Count()];
    }

    method SearchExtable(addr: int) returns (r: Option<nat>)
      requires Valid() && SortedByFault(Entries())
      ensures SearchResult(Entries(), PastEnd(), addr, r)
    {
      var start, stop := 0, Count();
      while start <= stop
        invariant 0 <= start && stop <= Count() && start <= stop + 1
        invariant forall i :: 0 <= i < start && i < Count() ==> slots[i].fault < addr
        invariant forall i :: stop < i < Count() ==> slots[i].fault > addr
        invariant start > Count() ==> PastEnd().fault < addr
        invariant stop < Count() ==> PastEnd().fault > addr || exists i :: 0 <= i < Count() && slots[i].fault > addr
        decreases stop - start + 1
      {
        var mid := start + (stop - start) / 2;
        if addr == slots[mid].fault {
          assert mid < Count() ==> Entries()[mid].fault == addr;
          assert mid == Count() ==> start == Count();
          return Some(mid);
        } else if addr > slots[mid].fault {
          assert forall i :: 0 <= i < mid && mid < Count() ==> Entries()[i].fault <= Entries()[mid].fault;
          start := mid + 1;
        } else {
          assert forall i :: mid < i < Count() ==> Entries()[mid].fault <= Entries()[i].fault;
          stop := mid - 1;
        }
      }
      assert forall i :: 0 <= i < Count() ==> Entries()[i] == slots[i];
      return None;
    }
  }
}
