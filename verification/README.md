# XTF library proofs

XTF is a small freestanding kernel library for exercising Xen. This project models its
algorithms and protocols in Dafny and proves what they are for. `dafny verify dfyconfig.toml`
verifies everything.

| file | models |
|---|---|
| `XsWire.dfy`, `XenbusProtocol.dfy`, `XenbusSafety.dfy`, `XenbusProgress.dfy` | the XenBus rings and the event-channel protocol, as a transition system of single accesses by guest and peer: what it never does, and that calls return |
| `XenbusTurns.dfy`, `Xenbus.dfy` | how a call goes against a peer that follows a script, and `xenbus_write()` and `xenbus_read()` in place on the shared page |
| `XenstoreWire.dfy`, `XenstoreCalls.dfy`, `XenstoreProgress.dfy`, `Xenstore.dfy` | message framing, `xenstore_read()` as a function of connection and script, when it returns, and its code |
| `Rendezvous.dfy`, `RendezvousProgress.dfy`, `RendezvousMachine.dfy` | the two-phase barrier of the XSA-472 test for any number of processors |
| `FormatText.dfy`, `FormatSpec.dfy`, `FormatGrammar.dfy` | what a format and its arguments stand for, in full length |
| `FormatStandard.dfy` | integer and string conversions of the C standard, and when the code prints the same |
| `Vsnprintf.dfy`, `Div.dfy` | the bounded writers, the format interpreter and the division behind them |
| `Heapsort.dfy`, `Extable.dfy`, `Traps.dfy` | the heapsort in byte offsets, the exception table, and fault redirection |
| `ConsoleRun.dfy`, `Console.dfy`, `ConsoleInput.dfy` | the PV console rings and `vprintk()` |
| `Cpuid.dfy` | the CPUID leaf walk |
| `TestNames.dfy`, `Selection.dfy` | test instance names, selection and sorting in `xtf-runner` |
| `Arith.dfy`, `Sequences.dfy`, `Options.dfy` | arithmetic facts, sequences, an option type |

## How the source's form is kept

Code that works in place is a class or an array method here and is proved against a
specification function. Code shared with another party (the XenBus peer, the console daemon,
other processors) runs against an arbitrary script of that party's actions, played at every
point where it can interfere; a script that ends while the guest sleeps makes the method return
with a flag that says so. What such a method does is a function of the state and of the script
(`XenbusTurns.Finish`, `XenstoreCalls.Calls`, `Console.PrintingAll`, `ConsoleInput.Read`), so that
it cannot give up early. Fields called `log`, `guest` and `stream` are history and steer nothing.
In `XenbusProtocol` positions in a stream are unbounded, and the 32-bit indices are those
positions modulo 2^32, starting anywhere. In `Heapsort` every sum of offsets is formed by
`LongAdd`, whose precondition says that it does not overflow a long, and every use of the
callbacks goes through `CallCompar` and `CallSwap`.

## Where the code does not do what its documentation says

The model follows the code. Each case has a lemma or a method that says exactly when the
documented behaviour is obtained.

* `search_extable()` looks at the slot one past the table and can return it, although an absent
  address should give NULL (`Extable.NullIffNotListed`, `Extable.PastEndReported`).
* `xenstore_read()` leaves the payload of a reply of another type in the ring, so the next call
  reads from the middle of it (`XenstoreWire.OneReplyPerCall`,
  `XenstoreWire.ErrorReplyDesynchronises`).
* `pv_console_write()` overwrites its count of written bytes, so a buffer that does not fit into
  the free part of the ring is sent wrongly (`ConsoleRun.CorrectIffItFits`). `vprintk()` never
  meets this, because it always finds the ring drained (`Console.PrintRun`).
* `vprintk()` accepts an output of exactly 2048 characters and loses the last one
  (`Console.PrintedExactlyIff`).
* `pv_console_read_some()` can block although data are available: with data in the ring it returns
  exactly when an event is pending or still to come (`ConsoleInput.WithDataReturnsIff`,
  `ConsoleInput.ShortReadThenSleep`).
* `dump_leaves()` runs for ever for some CPUID functions (`Cpuid.WalkEndsIff`).
* `tests_from_selection()` does not intersect its parameters when an intermediate result is empty
  (`Selection.AndWiseIff`, `Selection.AndWiseFails`, `Selection.AndWiseFailsForTwo`).
* The number conversions depart from section 7.21.6.1 of ISO/IEC 9899:2011: a bare `.` leaves the
  precision unset, `%.0d` of 0 prints `0`, `#` always adds its prefix, `#X` prints `0x`, and `%zd`
  loses the sign where `size_t` has 32 bits. `FormatStandard.NumberMeetsStandardIff` and
  `FormatStandard.DirectiveMeetsStandardIff` say exactly when the code prints what the standard
  prescribes; `BareDotOfZero`, `BareDotPadded`, `ZeroPrecisionOfZero`, `AlternateOctalOfZero`,
  `AlternateOctalWithPrecision`, `AlternateHexOfZero`, `AlternateUpperHex` and `NegativeSize` are
  inputs where it does not.
* `%.s` prints the whole string instead of nothing (`FormatStandard.StringMeetsStandardIff`; by
  `FormatStandard.StandardStringUnique`, the standard leaves one text only).
* A hex dump of width 0 prints nothing but leaves its separator letter as text
  (`FormatStandard.SeparatorIff`).

## Model

| member | source | states |
|---|---|---|
| XenbusSafety.Fifo | common/xenbus.c:25-107 | over every interleaving of single accesses, both rings are exact FIFOs: what each side received is a prefix of what the other published, nothing unread is overwritten, at most 1023 request bytes are outstanding, and a guest outside a call has sent and received exactly what its calls asked for; index values and wrap-around do not matter |
| XenbusSafety.NoLostWakeup | common/xenbus.c:36-45 | when the guest sleeps in the poll although the ring has become usable, the peer is awake and still has to notify it; and whenever the guest sleeps the peer was notified after the guest's last index update |
| XenbusSafety.NoDeadlock | common/xenbus.c:80-89 | if guest and peer both sleep, the guest waits for a reply that does not exist: every request byte was taken, nothing is left to send, and everything sent was read |
| XenbusSafety.GuestNeverStuck | common/xenbus.c:29-62 | a guest inside a call that is not asleep always has a next step: chunks are never empty and copies stay inside the arrays |
| XenbusProgress.CallReturns | common/xenbus.c:29-62 | in any reachable state, a call that is under way and can be served returns within any long enough sequence of rounds in which no step of either side that remains due is put off: a step is made somewhere in the round, in any order and among any other moves, or there is no reason for it at some point, as for a notification when no index has been moved |
| XenbusProgress.WriteReturns | common/xenbus.c:25-63 | so every `xenbus_write()` returns in such rounds, in any reachable state and whatever the peer has consumed |
| XenbusProgress.ReadReturnsIff | common/xenbus.c:69-107 | and, if the peer composes nothing more, `xenbus_read()` returns if and only if the peer has what it asks for |
| XenbusProgress.NextAdvances | common/xenbus.c:36-45 | no move adds to what is left to be done, and the one that guest or peer is waiting for stays possible until it is made, and then lowers it |
| XenbusProgress.WritesWhatFits | common/xenbus.c:33-51 | a write copies at once exactly as many bytes as fit behind the published ones, belong to the call and do not wrap |
| XenbusProgress.ReadsWhatIsThere | common/xenbus.c:77-95 | a read copies at once exactly as many bytes as are published, belong to the call and do not wrap |
| XenbusTurns.ServedFinishes | common/xenbus.c:29-62 | a call returns if, from some turn on, the peer has what it asks for, and the script falls into enough windows, of any number of parts each, in which nothing that remains due is put off; the turns before are arbitrary |
| XenbusTurns.BusyScriptFinishes | common/xenbus.c:29-62 | if the peer makes every kind of move in any `w` successive parts, a call that can be served returns and uses up no more than `w` parts for each unit of the measure |
| XenbusProtocol.NextInv | common/xenbus.c:25-107 | every step of guest or peer keeps the invariant that relates indices, ring cells, program point and history |
| ByteRing.PutByte | common/xenbus.c:53 | storing a byte behind the unpublished ones disturbs no unread byte |
| XsWire.MaskIsBitwiseAnd | include/xen/io/xs_wire.h:7-10 | masking with the ring size minus one is the remainder the proofs use |
| XsWire.CellContiguous | common/xenbus.c:48 | a chunk limited by the end of the array is contiguous in memory |
| XsWire.HdrRoundTrip | include/xen/io/xs_wire.h:30-35 | decoding an encoded message header gives it back |
| XsWire.HdrLayout | include/xen/io/xs_wire.h:30-35 | a header is decoded from sixteen bytes as type, request id, transaction id and length, little-endian, and in no other way |
| Xenbus.Connection.Write | common/xenbus.c:25-63 | against any peer, the call goes as `Finish` says: one that returns has published exactly its data, one that does not sleeps for space, bit clear, peer notified, with the first bytes published; it returns if it will be served, in the sense of `ServedFinishes` |
| Xenbus.Connection.Read | common/xenbus.c:69-107 | against any peer, the call goes as `Finish` says: it stores the next bytes of the reply stream and touches no cell behind them, and returns when it has all; it returns if it will be served, in the sense of `ServedFinishes` |
| Xenbus.Connection.KickAndWait | common/xenbus.c:39-42 | notify, test and clear, poll: a guest that goes on has found the bit set, at the test or when it wakes; one that does not sleeps with the bit clear and the peer notified |
| Xenbus.Connection.PeerMove | include/xen/io/xs_wire.h:12-19 | the peer changes its own indices and the reply cells only, never what the guest owns |
| Xenstore.Client.SendRequest | common/xenbus.c:139-151 | the bytes of `RequestAsks`, header, path and NUL, go out, and the peer is kicked, unless the script ends while the guest waits for space, with part of that sent; which of both is determined |
| Xenstore.Client.ReceiveReply | common/xenbus.c:153-184 | the outcome of a call is determined by the bytes it took: NULL for another type or an oversized payload, which is drained, and otherwise the payload, NUL-terminated inside the buffer; a call that does not return has taken less than a reply |
| Xenstore.Client.Session | common/xenbus.c:139-184 | any number of calls, which go as `Calls` says: the requests go out in order, and if every reply answers a read or is empty, call i returns the answer in reply i and exactly the replies are consumed; if a call does not return, all of this holds of the calls before it |
| XenstoreProgress.CallAnswered | common/xenbus.c:139-184 | `xenstore_read()` returns if each of its writes and reads will be served, every one at its own time, and if the bytes the peer composed next, before the kick of line 151 or at any time after it, are a reply, it returns the answer in that reply, and takes it off the ring if it is framed |
| XenstoreProgress.SessionAnswers | common/xenbus.c:139-184 | if every call of a session is served in this sense, all return, and if framed replies are what the peer composed next, each of them at any time, every call returns the answer to its request |
| XenstoreProgress.LateReplyAnswered | common/xenbus.c:151-184 | if the reply is there after any number of turns of the header's read, about which nothing is asked, and the peer keeps making its moves from then on, the call returns the answer |
| XenstoreProgress.LateSessionAnswers | common/xenbus.c:139-184 | a session in which every reply comes like this, each at its own time, for example after the kick that wakes the peer, returns all answers |
| XenstoreProgress.BusySession | common/xenbus.c:139-184 | a peer that has all the replies, and whose script is busy for long enough, is such a session |
| XenstoreWire.RequestAsks | common/xenbus.c:141-148 | byte for byte: type 2, ids 0, a length that counts the path and the NUL, and then these; a length beyond 32 bits is cut, and with it what follows |
| XenstoreWire.SessionFraming | common/xenbus.c:153-184 | framing of a whole session as a fact about streams |
| XenstoreWire.OneReplyPerCall | common/xenbus.c:156-157 | a call consumes exactly one reply if and only if the reply answers a read or has no payload |
| XenstoreWire.ErrorReplyDesynchronises | common/xenbus.c:156-157 | after an XS_ERROR reply "ENOENT" the next call takes the error text for a header and fails whatever its own reply is |
| Rendezvous.RunRefines | tests/xsa-472-3/main.c:98-165 | every trace of the barrier, for any number of processors, is a trace of a specification: processors are initialised and started one by one, a disabling write comes only after the enabling write of its round and once per processor, and ballooning only after everybody's |
| Rendezvous.VerdictIs | tests/xsa-472-3/main.c:92-167 | the test ends without success if and only if a hypercall it makes fails, at that call, as a failure if the page could not be taken out and as an error otherwise |
| Rendezvous.Lockstep | tests/xsa-472-3/main.c:128-165 | in every reachable state each processor has done one disabling write for each enabling write, except possibly the current one, and as many as completed rounds between rounds |
| Rendezvous.Exclusion | tests/xsa-472-3/main.c:135-164 | nobody is at a disabling write while the page is enabled, taken out or put back, and the counters never exceed the number of processors |
| Rendezvous.StepInv | tests/xsa-472-3/main.c:33-60 | the inductive invariant of the two counters and two flags |
| Rendezvous.SpecCounts | tests/xsa-472-3/main.c:138-162 | what the specification implies for the numbers of enabling and disabling writes |
| RendezvousProgress.NoDeadlock | tests/xsa-472-3/main.c:42-59 | in every reachable state before the end somebody can do more than spin |
| RendezvousProgress.StepAdvances | tests/xsa-472-3/main.c:128-148 | every step that is not spinning decreases a bound on the steps to come, and spinning changes nothing |
| RendezvousProgress.BarrierCompletes | tests/xsa-472-3/main.c:115-168 | any schedule with enough fair turns runs the test to its end, which is success if and only if no hypercall it makes fails; then all rounds have been run and each processor has disabled the page once per round |
| RendezvousMachine.Machine.Run | tests/xsa-472-3/main.c:92-168 | the processors as mutable state: any interleaving is a run of the barrier, accepted by the specification, with the verdict of `VerdictIs` |
| Vsnprintf.VsnprintfInternal | common/libc/vsnprintf.c:276-482 | for every format, arguments, size and caller flag the result is the full output length, and the buffer holds as much of the output as fits, then NUL, with no other cell changed |
| Vsnprintf.PutPiece | common/libc/vsnprintf.c:281-469 | one pass: the text of what is at the cursor, rewinding included; the cursor moves forward and not past the terminator |
| Vsnprintf.FmtNumber | common/libc/vsnprintf.c:73-169 | the padding loops and the digit buffer produce the number field that the layout prescribes |
| Vsnprintf.FillDigits | common/libc/vsnprintf.c:80-127 | `tmp` ends up with the digits in reverse and never needs more than 22 of its 24 cells |
| Vsnprintf.FmtString | common/libc/vsnprintf.c:171-199 | the string field, cut to the precision, padded on one side, line feeds expanded on request |
| Vsnprintf.PutPointer | common/libc/vsnprintf.c:201-274 | the three pointer forms, and the format characters each uses up |
| Vsnprintf.FmtInt | common/libc/vsnprintf.c:59-71 | the cursor ends behind the digits, with the number they denote |
| Vsnprintf.ReadSpec | common/libc/vsnprintf.c:297-358 | flags, width, precision and length modifier, and the arguments they use |
| Vsnprintf.Put | common/libc/vsnprintf.c:52-57 | the cursor always moves on, and a cell at or behind the end is never written |
| Vsnprintf.BlitAppend | common/libc/vsnprintf.c:52-57 | cutting off commutes with putting one text after another |
| FormatGrammar.FormatPrintsMeaning | common/libc/vsnprintf.c:13-40 | every format composed of literals and directives of the documented grammar prints their meanings in order, each taking its arguments where the last stopped |
| FormatGrammar.DirectiveRead | common/libc/vsnprintf.c:297-358 | the interpreter reads a written directive back: flags in any order, width, precision, modifier |
| FormatGrammar.UnrecognisedPrinted | common/libc/vsnprintf.c:394-397 | a directive that is not recognised is printed as it is written, and the arguments that it has taken stay taken |
| FormatGrammar.NumberRead | common/libc/vsnprintf.c:59-71 | `fmt_int()` recovers every number printed in plain decimal |
| FormatGrammar.SecondLengthCounts | common/libc/vsnprintf.c:346-358 | of two length letters outside the grammar, such as `zl`, the second alone counts |
| FormatSpec.CrlfHomomorphism | common/libc/vsnprintf.c:184-196 | with LF_TO_CRLF the output is the plain output with each line feed preceded by a carriage return, padding and `%pe` texts included |
| FormatText.CrlfFirstLine | common/libc/vsnprintf.c:188-193 | a line stays as it is, its line feed becomes two characters, and so on behind it |
| FormatText.NumberRoundTrip | common/libc/vsnprintf.c:92-169 | whatever base, width, precision, alignment, sign flags and prefix, a number field denotes the 64-bit value it was printed from, as a signed or as an unsigned number, INT64_MIN included |
| FormatStandard.ArgumentRoundTrip | common/libc/vsnprintf.c:420-468 | an integer conversion, read back in base 8 for `o`, 16 for `x` and `X` and 10 otherwise, denotes its argument, converted to the type that conversion and length modifier name, exactly unless a negative `%zd` is widened from 32 bits |
| FormatStandard.LettersOfConversion | common/libc/vsnprintf.c:76-78 | letters among the digits are small with `%x`, capital with `%X`, and there are none otherwise |
| FormatStandard.NumberMeetsStandardIff | common/libc/vsnprintf.c:73-169 | for every value, base, width, precision and flags, the number field is the one that the C standard prescribes if and only if a condition on them holds |
| FormatStandard.DirectiveMeetsStandardIff | common/libc/vsnprintf.c:13-40 | the same for every integer directive of the documented grammar and the arguments it takes |
| FormatStandard.StringMeetsStandardIff | common/libc/vsnprintf.c:171-199 | a string conversion meets the standard's conditions on its text (length of the field, the characters the precision admits, at which end they stand, blanks elsewhere) if and only if it has no bare `.`, or the string is blanks inside the padding |
| FormatStandard.NullString | common/libc/vsnprintf.c:176-177 | a null string is printed as `(NULL)`, cut and padded like any other |
| FormatStandard.CharMeetsStandard | common/libc/vsnprintf.c:367-383 | `%c` prints the character whose code is the argument modulo 256, in a field like that of a string |
| FormatStandard.AddressRoundTrip | common/libc/vsnprintf.c:264-273 | a pointer denotes its address, and plain `%p` prints 8 or 16 lower-case digits and nothing else |
| FormatStandard.AddressIsLongHex | common/libc/vsnprintf.c:264-273 | with width, precision or flags a pointer is printed as `%lx` prints it |
| FormatStandard.HexDumpAt | common/libc/vsnprintf.c:209-255 | a dump has at most 128 bytes, each with two digits that denote it, at its place, and the separator between neighbours |
| FormatStandard.SeparatorIff | common/libc/vsnprintf.c:209-243 | "%*ph" with a separator letter prints the bytes separated by it exactly when the width is not 0, and the letter as text when it is |
| FormatText.DigitsDenote | common/libc/vsnprintf.c:126-127 | the digits of a number denote it, in every base |
| FormatText.SixtyFourBitDigits | common/libc/vsnprintf.c:80 | no 64-bit value has more than 22 digits in base 8, 10 or 16 |
| FormatText.NumberLength | common/libc/vsnprintf.c:129-166 | the length of a number field: the width, or sign, prefix and digits if they are longer |
| Div.DivMod64Split | arch/x86/include/arch/div.h:23-48 | the two narrow divisions give the exact 64-bit quotient and remainder |
| Div.DivL | arch/x86/include/arch/div.h:28-45 | the lower division cannot fault, because its upper half is below the divisor |
| Heapsort.Heapsort | common/heapsort.c:25-39 | for any number of objects the result is a permutation, nothing behind them changes, and it is sorted if the comparator is a total preorder |
| Heapsort.SiftDown | common/heapsort.c:3-23 | restores the heap on its range and permutes only that range |
| Heapsort.CallCompar | common/heapsort.c:14-18 | the comparator can be called only at multiples of the object size below the end of the range at work, never at the slot behind the objects |
| Heapsort.CallSwap | common/extable.c:43-50 | the swap callback exchanges two objects and nothing else |
| Heapsort.FirstIndexIs | common/heapsort.c:29-31 | the size_t arithmetic of the first index, which wraps for fewer than two objects, yields the negative long that skips the loop |
| Heapsort.RootIsLargest | common/heapsort.c:34-38 | the object moved behind the heap is a largest one |
| Extable.ExceptionTable.SortExtable | common/extable.c:52-59 | the table is sorted by fault address and holds the emitted entries; what lies behind it is unchanged |
| Extable.ExceptionTable.SearchExtable | common/extable.c:11-29 | a listed address is found, at an entry of the table; an absent one is reported exactly when the slot past the end holds it and all entries are below it |
| Extable.NullIffNotListed | include/xtf/extable.h:89-95 | when "NULL if no entry" holds |
| Extable.PastEndReported | common/extable.c:13-16 | an empty table can report an entry |
| Traps.DoException | arch/x86/traps.c:22-61 | a fault at a listed address resumes at the fixup or runs the handler of an entry for that address, which records vector and error code in the fields of `Records`, with the hook and the panic as fallbacks |
| Traps.ExinfoRecords | arch/x86/include/arch/exinfo.h:11-26 | the one word with the top bit set, the vector in bits 16 to 23, the error code in bits 0 to 15, and nothing else set |
| Traps.FaultAfterBoot | arch/x86/traps.c:27-37 | from any link order through sorting and searching: a fault is redirected by an entry emitted for its address, the only one if there is one; at an address that is not listed it goes to the hook, unless the words behind the table pass for an entry |
| ConsoleRun.CorrectIffItFits | common/console.c:79-107 | the write is correct against every consumer exactly when the buffer fits into the free part of the ring or has at most one byte |
| ConsoleRun.WritesForever | common/console.c:87 | once a split write has counted one byte, the second byte of the buffer is written again and again, as often as there is room |
| ConsoleRun.WholeOrNothing | common/console.c:84-107 | a buffer that fits is published once and whole |
| ConsoleRun.FittingCallReturns | common/console.c:104-106 | a call with a buffer that fits returns exactly when the consumer gets to take all there is |
| Console.PvConsole.Write | common/console.c:79-107 | what the code publishes and whether it returns, against any consumer; a call that returns leaves the ring drained, and the consumer has been notified after all that was published |
| Console.PvConsole.WriteSome | common/console.c:35-46 | the bytes published are the first ones that fit, across index wrap, and overwrite nothing unread |
| Console.Vprintk | common/console.c:119-132 | on a drained ring exactly the formatted output is sent, every line feed made a carriage return and a line feed, and the ring is drained again; too long an output panics; whether the call returns, and what is left of the consumer's schedule, is determined |
| Console.PrintRun | common/console.c:119-132 | over any run of calls the consumer receives the concatenation of the outputs with their line feeds expanded; if a call panics, those of the calls before it; if one waits for ever, the consumer has done all it will and has received part of that call's buffer at most |
| Console.RunCompletes | common/console.c:119-132 | a run without overlong outputs completes against every consumer that keeps taking |
| Console.PrintedExactlyIff | common/console.c:125-128 | the output is sent unchanged exactly when it is shorter than the buffer, or its 2048th character is NUL |
| ConsoleInput.InputRing.ReadSome | common/console.c:55-74 | against xenconsoled acting before every access: the next bytes in order, as many as asked for unless there are fewer, and whether and after how many sleeps the call returns |
| ConsoleInput.WithDataReturnsIff | common/console.c:60-62 | with data in the ring, a call returns if and only if an event is pending or still to come |
| ConsoleInput.AnnouncedIsRead | common/console.c:60-62 | a call returns if text is put into the ring and an event is sent after it, at whichever points of the call |
| ConsoleInput.ShortReadThenSleep | common/console.c:60-62 | after a short read the next read never returns although data are left |
| Cpuid.DumpLeaves | tests/cpuid/main.c:16-135 | the walk visits exactly the leaf and subleaf pairs that should be visited, in strictly increasing lexicographic order |
| Cpuid.WalkEndsIff | tests/cpuid/main.c:25-134 | the walk ends if and only if leaf 4 has a subleaf of type 0 and the leaf-7 and extended maxima are not 2^32 - 1 |
| Cpuid.StepIsSuccessor | tests/cpuid/main.c:29-134 | each pass goes to the next pair that should be visited, and the walk breaks when there is none |
| Cpuid.ScanXstate | tests/cpuid/main.c:57-61 | the scan stops at the next valid component below 63 |
| Cpuid.BitsMakeWord | tests/cpuid/main.c:60 | a word is the sum of the powers of two whose bits are found set |
| Cpuid.XstateBitsAre | tests/cpuid/main.c:56 | components 0 to 31 are the bits of eax and 32 to 63 those of edx |
| Cpuid.SignatureSpells | include/xen/arch-x86/cpuid.h:26-28 | Xen is recognised if and only if the registers read XenVMMXenVMM |
| TestNames.ReprRoundTrip | xtf-runner:100-104 | parsing the printed form gives an instance back exactly when its variation is not the empty string |
| TestNames.ReprInjective | xtf-runner:109-110 | equality by printed form is equality of environment, name and variation |
| TestNames.BareName | xtf-runner:208-225 | a bare test name is read as one exactly when it does not begin like a longer form |
| TestNames.EnvironmentAndName | xtf-runner:217-246 | an environment, a `-` and a name, which may hold further ones, with or without a variation, are read as such if the name is known and its test has the environment and the variation, and rejected otherwise |
| TestNames.FullForm | xtf-runner:213-246 | the same of the form with `test-` in front |
| TestNames.OnlyAcceptable | xtf-runner:230-246 | whatever is accepted, in any form, has a known name and an environment and a variation of its test |
| Selection.TestsFromSelection | xtf-runner:299-370 | the result is the selection filtered by capabilities, rearranged into order by name, environment and variation; no instance occurs twice if none does in the arguments and descriptions |
| Selection.SortRefines | xtf-runner:366-369 | a stable sort keeps an earlier order among equal keys |
| Selection.SortResultIsLexicographic | xtf-runner:366-370 | the three sorts give a lexicographically ordered permutation |
| Selection.OrderDetermines | xtf-runner:366-370 | the order in which the selection was put together does not show in the result |
| Selection.LessEqIff | xtf-runner:367-369 | the order of keys compares the first place where two strings differ, a prefix coming first |
| Selection.AndWiseIff | xtf-runner:308-310 | with any two or all three parameters given, exactly when the result is their intersection; a parameter that is not given does not constrain |
| Selection.AndWiseFails | xtf-runner:334-361 | a selection whose result does not match its environment parameter |
| Selection.AndWiseFailsForTwo | xtf-runner:308-310 | a category and an environment, as in the documentation's example, yield a test of another category |
| Selection.EnvironmentsPick | xtf-runner:334-351 | environments pick from the functional and XSA tests, and from the other categories exactly if a category or a test refers to one of them |
| Selection.OneParameter | xtf-runner:312-316 | a single parameter gives all that matches it, environments alone leaving the non-default categories out |
| Selection.CapableIff | xtf-runner:64-91 | what a host must be capable of for each environment and for the paging variations |
| Selection.ChosenOnce | xtf-runner:323-361 | no instance is chosen twice |

## Left out

- Vsnprintf.FmtInt: width and precision are unbounded integers; signed overflow of `res`, `width` and the returned length is undefined in C and not modelled.
- Vsnprintf.VsnprintfInternal: an argument of the wrong kind, which is undefined in C, reads as 0, NULL or no memory; formats and strings are C strings, so they contain no NUL.
- FormatSpec.CrlfHomomorphism: the texts of `%pe` (arch/x86/decode.c) are a parameter and may be any.
- Xenbus.Connection.Write: lengths are below 2^32; the C code casts `len` to 32 bits in every pass and its callers pass 32-bit lengths.
- Xenbus.Connection.Read: the same bound on the length.
- Xenbus.Connection.PeerMove: the peer is any program that moves only its own indices and notifies after it has; its own protocol above the rings is not modelled.
- Xenstore.Client.Session: the string returned lives in a static buffer that the next call reuses; the model returns its value at the time of the call.
- Heapsort.Heapsort: the array holds objects rather than bytes; offsets are those of the C code, and arrays so large that twice their size overflows a long are excluded.
- Traps.DoException: handlers and the unhandled-exception hook are functions on the register values; the text of the panic is not modelled.
- RendezvousProgress.BarrierCompletes: fairness is stated on turns in which every processor runs at least once.
- FormatStandard.DirectiveMeetsStandardIff: integer conversions only; `#` on a decimal conversion, undefined in the standard, is taken to have no effect.
- Console.PrintRun: the other console callbacks, and what panic() prints.
- Selection.TestsFromSelection: Python sets are lists in some order; category, environment and capability sets are sets.
- x86 memory ordering: accesses are sequentially consistent, in the order in which the code makes them; the barriers themselves are not modelled.
- Hypercall stubs, inline assembly, MSR and port access, entry and boot code: no semantics in the source; poll, send and the pending bit are the only effects kept.
- `xenstore_init()`, `init_xenbus()` and the domid parsing in common/lib.c: single branches.
- The remaining tests, descriptor and page-table packing, string functions and decode tables: each fact is immediate.
- `xtf-runner` option parsing, process spawning, log files and reading of info.json.
