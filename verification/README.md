# Verified model of the ASID codec, the bus trace and the keyboard-matrix injector

This project models three stateful C cores and the adapter state machines around
them, and proves what they promise over whole runs.

`dafny verify dfyconfig.toml` verifies everything. It turns on the warning about proofs
from contradictory assumptions; the proofs do not depend on that option.

## How it is laid out

Every area has the same two layers. A state machine on values says what each
operation does, and the theorems are about its runs. Beside it the program's own form,
classes whose methods update fields, arrays and buffers in place with the loops
the program has, is proved to do exactly one step of that state machine per call.
So every theorem about runs is a theorem about the imperative code.

**ASID over MIDI** (`asid/`). `AsidProtocol` has the wire format: the packing
order and writable-bit tables, both encodings as functions of a chip's contents, and
an independent receiver that decodes either of them; `AsidWire` has their bytes one by
one. `AsidModel` has the codec as a
state machine, the remote SID it drives, and the run theorems: the remote mirrors the
shadow, no gate edge is lost, every message is legal and as short as permitted.
`AsidDump` adds the per-interrupt flush policy of the sound device and shows that
messages never mix interrupt windows. `AsidCore` is the code in place: two working
buffers per chip, the shadow and the dirty flags, and the narrowing of the message
length to eight bits. Every run of the device is shown to be a run of the codec, so
the codec's theorems hold of the device.

**Bus trace** (`bustrace/`). `Gf2` has polynomials over GF(2) and long division by
the generator of IEEE Std 802.3-2018, clause 3.2.9. `Crc32` proves that the bitwise
loop computes that remainder, and what follows for composition, linearity, burst
detection and the residue. `TraceFormat` has the file format with a reader written
from its documentation, the round trip and the clock drift; `TraceLayout` has its bytes
by offset. `TraceWriter` is the
streaming core in place. `TraceAdapter` is the life of the output file under changes
of target, failing opens and shutdown.

**Keyboard matrix** (`keymatrix/`). `Text` has tokens, case-insensitive comparison
and `strtol`; `KeyList` the key table and the grammar of key lists as a fold over
tokens; `KeyGrammar` and `KeyMatrix` the language of key lists said without the parser;
`KeyParser` the parser that cuts tokens in place. `KmModel` is the injector
with its host (a set of matrix bits, a clock, one alarm); `KmVerbs` says what each of its
operations does without the functions that do it; `KmInvariants` proves alarm
safety, bounded release and that no key is left stuck; `KmReports` that release
reports are truthful; `KmFrames` that frames add up; `KmBinary` that text and binary
taps agree; `KmResponse` that the status response can be read back. `KmCore` is the
code in place.

## Reading the model

- Calls the program makes to its surroundings are parameters or fields: the schedule
  time `nsec`, the host clock, whether `fopen` succeeds, the machine's cycles per
  second and per frame.
- Clocks and the record counter are 64 bits wide in the program and unbounded here,
  except where a 64-bit difference is taken (`ShouldFlushOnIrq`). The 32-bit read
  counters and `bytes_saved` wrap as they do in C; `frames_held` and
  `frames_until_timeout` saturate at 65535.
- Bit operations on the ASID bytes are written as the arithmetic they amount to:
  `& 0x7f` is `% 128`, `>> 7` is `/ 128`, and `|=` of a bit that is still clear is
  addition. `& 0x1f` on the address is `% 32`. Masking by the register table is done
  on bit-vectors, and so is everything in the CRC and the trace records.
- `put_u64` keeps `v >> (8 * i)` in a variable that is shifted as it goes.
- `strtol` is written out for bases 10 and 0 in the C locale (base 0 as in C11, so
  without a binary prefix). It does not clip at the range of `long`: each caller
  rejects clipped and unclipped values alike. As in the program, the empty column of
  `7,` is read as column 0.
- The host's matrix is one set of (row, col) positions that includes the keys outside
  the matrix, which have negative rows. Clearing the matrix drops the others.
- The alarm fires through an explicit operation. The invariant and the truth of
  reports hold however late it is served; the bounds on a hold's length are for hosts
  that serve an alarm when the clock reaches it (`TimelyRun`).
- Long C functions are split into several methods; the README table gives the lines of
  each part.

## Where code and documentation disagree

Each has its exact condition and an input that shows it.

- README.md:144 of the repository says `frames_until_timeout` is 0 outside an active
  tap. The code tests only `active`, and a press leaves an earlier tap's deadline in
  place. `KmFrames.StaleFramesExactly` says exactly when a non-zero value is reported,
  in terms of the calls made; in `KmFrames.StaleFramesReported` a five-frame tap and
  `press 7,7` do it.
- libs/bustrace/include/revice_bustrace.h:43-48 calls a delta beyond 32 bits
  impossible and the absolute cycle reconstructable. The code saturates such a delta,
  and sends a clock that goes back as delta 0. `TraceFormat.TraceRoundTrip` says
  exactly which traces keep their clocks, `TraceFormat.ClockDrift` by how much the
  others are off; `TraceFormat.SaturatedGapLost` and `TraceFormat.BackwardClockLost`
  are two that are off.

## Late alarms

An alarm may be served late: libs/keymatrix/vice/mon_keymatrix.c:57 is told by how
much. A read that comes between the deadline and the service then moves the deadline
back instead of forward. `KmInvariants.RearmNeverPostpones` says exactly when,
`KmInvariants.LateRearm` is a run that does it, and `KmInvariants.LateTapIsBounded`
bounds what it can cost.

## Model

| member | source | states |
|---|---|---|
| AsidProtocol.PackingOrder | libs/asid/src/asid_core.c:28-33 | the packing table is a permutation of the 25 registers whose last three places, and no others, are the control registers 4, 11, 18 |
| AsidProtocol.PackingAscends | libs/asid/src/asid_core.c:28-33 | both the first 22 registers and the last three come in the order of their numbers, which with `PackingOrder` leaves only one table |
| AsidProtocol.WritableBits | libs/asid/src/asid_core.c:35-43 | what masking does to every register: low 4 bits for 3, 10, 17, low 3 for 21, the whole byte elsewhere |
| AsidProtocol.WritesInOrder | libs/asid/src/asid_core.c:82-128 | an update carries every dirty register exactly once with its current value, in packing order, and nothing else |
| AsidProtocol.NothingToWrite | libs/asid/src/asid_core.c:78-80 | an update is empty exactly if no register is dirty |
| AsidProtocol.PairsRoundTrip | libs/asid/src/asid_core.c:88-102 | decoding the (register, value) pairs with the top bit folded into the register byte gives back the writes |
| AsidProtocol.GroupsRoundTrip | libs/asid/src/asid_core.c:122-127 | splitting a word into seven-bit groups loses nothing if it fits |
| AsidProtocol.PackedRoundTrip | libs/asid/src/asid_core.c:109-121 | mask word, top-bit word and payload decode to exactly the dirty registers' writes |
| AsidProtocol.ShortFormDecodes | libs/asid/src/asid_core.c:82-103 | the receiver decodes the per-register message to the chip's pending writes in order |
| AsidProtocol.StandardFormDecodes | libs/asid/src/asid_core.c:105-128 | the receiver decodes the mask/MSB/payload message to the chip's pending writes in order |
| AsidProtocol.FormsAgree | libs/asid/src/asid_core.c:82-128 | for every dirty set and contents both encodings decode to the same ordered writes for the same chip |
| AsidWire.ShortFormBytes | libs/asid/src/asid_core.c:82-103 | every byte of the per-register message by number: f0 2d, 6c or 6d, the pairs, f7 |
| AsidWire.StandardFormBytes | libs/asid/src/asid_core.c:105-128 | every byte of the standard message by number: f0 2d, 4e or 50, bit i of the two 7-bit-per-byte fields for packing position i, the payload, f7 |
| AsidModel.FlushArrives | libs/asid/src/asid_core.c:61-139 | what one flush changes at the receiver, register by register: exactly the flushed chip's dirty registers receive their value, once |
| AsidModel.FlushSends | libs/asid/src/asid_core.c:61-139 | a flush sends one message, for its chip and with its time, exactly if something is dirty |
| AsidModel.SetRegSends | libs/asid/src/asid_core.c:141-162 | a write sends one message, with time 0, exactly if it gives register 4, 11 or 18 another value while the last is unsent |
| AsidModel.FlushMirrors | libs/asid/src/asid_core.c:61-139 | after a flush the chip is clean, the receiver equals it on all 25 registers, and the other chip and its receiver are untouched |
| AsidModel.StepMirrors | libs/asid/src/asid_core.c:61-162 | every set_reg or flush call keeps the receiver equal to the shadow on clean registers |
| AsidModel.RemoteMirrorsShadow | libs/asid/src/asid_core.c:61-162 | over every run of both calls on both chips and either form setting, a receiver starting at zero agrees with the shadow on every clean register, and on all of them right after a flush of that chip |
| AsidModel.ControlsLast | libs/asid/src/asid_core.c:82-86 | when the receiver comes to a control register within an update, the dirty registers among the others already have their new values |
| AsidModel.GateAfterTheRest | libs/asid/src/asid_core.c:82-86 | over every run the next update reaches a control register only when every non-control register of the receiver is what the shadow says |
| AsidModel.FlushDelivers | libs/asid/src/asid_core.c:61-139 | flushing moves the unsent value to the receiver: values applied plus value pending is unchanged |
| AsidModel.StepFaithful | libs/asid/src/asid_core.c:141-162 | one call extends what is applied plus what is pending exactly as it extends the register's history of value changes |
| AsidModel.NoGateEdgeLost | libs/asid/src/asid_core.c:155-161 | over every run, for registers 4, 11, 18 the values the receiver applies then the pending one are exactly the value-changing masked writes in order; for every other register they are a subsequence ending with the last |
| AsidModel.EncodeIsWellFormed | libs/asid/src/asid_core.c:82-138 | the chosen message is legal SysEx for its chip, carries 1..25 registers, and is short exactly if enabled and fewer than 8 |
| AsidModel.FlushIsWellFormed | libs/asid/src/asid_core.c:61-139 | a flush sends nothing, or one well-formed message whose saving is credited modulo 2^32 |
| AsidModel.MessagesWellFormed | libs/asid/src/asid_core.c:61-162 | over every run all messages are legal SysEx of at most 37 bytes, short iff enabled and n < 8, and bytes_saved is the sum of 8 - n over the short ones modulo 2^32 |
| AsidDump.SetRegEffect | libs/asid/src/asid_core.c:141-162 | a register write changes only its own register, and marks dirty only a register whose masked value changed |
| AsidDump.FlushFromWindow | libs/asid/vice/soundasid.c:338-358 | what a flush sends was recorded in the interrupt window in force before it |
| AsidDump.NewWindowStartsSynced | libs/asid/vice/soundasid.c:338-358 | when a write opens a new window the receiver holds the result of everything recorded before |
| AsidDump.AtMostOneMessage | libs/asid/vice/soundasid.c:327-367 | a callback sends at most one message, for its own chip and from one window |
| AsidDump.AlwaysInWindow | libs/asid/vice/soundasid.c:327-367 | over every sequence of callbacks whatever is dirty was recorded in the chip's current window and holds the latest write |
| AsidDump.IrqWindowsSeparate | libs/asid/vice/soundasid.c:338-365 | over every sequence of callbacks no message mixes windows, and a call that opens a window finds the receiver holding all earlier windows |
| AsidDump.StaysInWindow | libs/asid/vice/soundasid.c:338-365 | a call at most 256 cycles (mod 2^64) past last_irq leaves last_irq and start_clock alone and sends only if it overwrites an unsent control register |
| AsidDump.LeavesWindow | libs/asid/vice/soundasid.c:338-358 | a later call sets last_irq, start_clock if that was 0, and sends what is dirty with its schedule time |
| AsidDump.WindowsEndAfter256Cycles | libs/asid/vice/soundasid.c:338-365 | over every sequence of callbacks: after one, its interrupt clock is at most 256 cycles past last_irq; one more than 256 past it leaves the receiver holding everything written before; one within keeps last_irq and sends nothing else than a forced flush |
| AsidDump.DeviceRunsCodec | libs/asid/vice/soundasid.c:327-367 | over every sequence of callbacks the codec is where the set_reg and flush calls they make would take it |
| AsidDump.ChangesOfCalls | libs/asid/vice/soundasid.c:360-365 | the value changes of those calls are the ones the callbacks record |
| AsidDump.DeviceLosesNothing | libs/asid/vice/soundasid.c:327-367 | over every sequence of callbacks the receiver mirrors the shadow, no gate edge is lost, and all messages are legal and accounted for |
| AsidCore.MidiQueue.Emit | libs/asid/vice/soundasid.c:237-242 | the length is narrowed to eight bits; shorter than 256 bytes nothing is cut |
| AsidCore.ChipState.constructor | libs/asid/src/asid_core.c:49-57 | both buffers carry the chip's three-byte prefix and the shadow is zero and clean |
| AsidCore.ChipState.EncodePairs | libs/asid/src/asid_core.c:87-103 | the buffer's first t bytes are the per-register message of the pending writes, within 54 bytes |
| AsidCore.ChipState.PackRegisters | libs/asid/src/asid_core.c:107-121 | the loop leaves the payload in place and accumulates exactly the two 25-bit words |
| AsidCore.ChipState.PutGroups | libs/asid/src/asid_core.c:122-127 | four seven-bit groups overwrite four bytes and nothing else |
| AsidCore.ChipState.EncodePacked | libs/asid/src/asid_core.c:105-128 | the buffer's first p bytes are the standard message of the pending writes, within 37 bytes |
| AsidCore.ChipState.BuildForms | libs/asid/src/asid_core.c:82-131 | both buffers hold the pending update and the dirty set is cleared; the register values stay |
| AsidCore.AsidCodec.constructor | libs/asid/src/asid_core.c:45-59 | two zero, clean chips with disjoint footprints |
| AsidCore.AsidCodec.Send | libs/asid/src/asid_core.c:133-138 | one message is emitted, the shorter permitted one, and bytes_saved wraps at 32 bits |
| AsidCore.AsidCodec.Flush | libs/asid/src/asid_core.c:61-139 | the code in place does exactly the flush step, including bad chip numbers and clean chips |
| AsidCore.AsidCodec.SetReg | libs/asid/src/asid_core.c:141-162 | the code in place does exactly the set_reg step: guards, masking, forced flush, store |
| AsidCore.AsidDevice.OnWrite | libs/asid/vice/soundasid.c:327-367 | the callback in place does exactly the device step on last_irq, start_clock and the codec |
| Gf2.QuotientAndRemainderUnique | libs/bustrace/src/bustrace_core.c:42-55 | division by the generator has only one quotient and remainder |
| Gf2.RunDivides | libs/bustrace/src/bustrace_core.c:47-53 | what was fed to the shift register is a multiple of the generator plus the register |
| Gf2.RunIsTheRemainder | libs/bustrace/src/bustrace_core.c:47-53 | the register, and nothing else, is the remainder of what was fed |
| Gf2.RunLinear | libs/bustrace/src/bustrace_core.c:47-53 | the register is linear in its start and its input |
| Gf2.RunInjective | libs/bustrace/src/bustrace_core.c:47-53 | equal input leads different registers to different registers |
| Gf2.BurstChangesRemainder | libs/bustrace/src/bustrace_core.c:47-53 | inputs that differ only inside 32 consecutive bits leave different remainders |
| Crc32.ShiftByte | libs/bustrace/src/bustrace_core.c:49-52 | the inner loop with its mask is eight single shifts of the register |
| Crc32.Compute | libs/bustrace/src/bustrace_core.c:42-55 | the two loops compute the checksum function for every seed and buffer |
| Crc32.PolyIsGenerator | libs/bustrace/src/bustrace_core.c:51 | 0xedb88320 is the standard's generator reflected, term by term |
| Crc32.BitsShift | libs/bustrace/src/bustrace_core.c:50-51 | one shift is one step of polynomial division |
| Crc32.BitsAbsorbAll | libs/bustrace/src/bustrace_core.c:47-53 | the byte loop is division fed the transmitted bits, least significant first |
| Crc32.CrcIsRemainder | libs/bustrace/src/bustrace_core.c:42-55 | a word is the checksum of a byte string iff its complement, reflected, is the remainder the standard defines: of the message shifted up 32 places with its first 32 bits complemented, by the generator |
| Crc32.CrcComposes | libs/bustrace/src/bustrace_core.c:109 | continuing a checksum over any split gives the checksum of the whole |
| Crc32.CrcAffine | libs/bustrace/src/bustrace_core.c:42-55 | the checksum is XOR-affine in equal-length inputs |
| Crc32.BurstDetected | libs/bustrace/src/bustrace_core.c:42-55 | strings whose bits differ only inside a window of 32 have different checksums |
| Crc32.FourByteChangeDetected | libs/bustrace/src/bustrace_core.c:42-55 | any change confined to four consecutive bytes changes the checksum |
| Crc32.PutU32Bits | libs/bustrace/src/bustrace_core.c:24-30 | a little-endian word is transmitted in the order of its own bits |
| Crc32.CrcResidue | libs/bustrace/src/bustrace_core.c:24-55 | a stream followed by its own checksum always has checksum 0x2144df1c |
| TraceFormat.U16RoundTrip | libs/bustrace/src/bustrace_core.c:18-22 | 16-bit fields read back, both ways |
| TraceFormat.U64RoundTrip | libs/bustrace/src/bustrace_core.c:32-38 | 64-bit fields read back |
| TraceFormat.U32RoundTrip | libs/bustrace/src/bustrace_core.c:24-30 | 32-bit fields read back |
| TraceFormat.CastValue | libs/bustrace/src/bustrace_core.c:99-103 | the cast of the saturated delta to uint32_t keeps its value |
| TraceFormat.Word64Value | libs/bustrace/src/bustrace_core.c:130 | the uint64_t holding a record count below 2^64 has its value |
| TraceFormat.DeltaRoundTrip | libs/bustrace/src/bustrace_core.c:99-103 | the four bytes stored for a delta are worth the delta, weighted by powers of 256 |
| TraceFormat.RecordRoundTrip | libs/bustrace/src/bustrace_core.c:103-107 | every field of a record reads back, the clock advanced by the delta |
| TraceFormat.TrailerFields | libs/bustrace/include/revice_bustrace.h:59-65 | marker, count and checksum read out of a trailer are the expected ones iff its bytes are those written for them (`Word64Value` says what the count stands for) |
| TraceFormat.StoredCount | libs/bustrace/src/bustrace_core.c:130 | the count read out of a trailer is the number of records it was written for |
| TraceFormat.ReadBackReconstructs | libs/bustrace/include/revice_bustrace.h:28-70 | whatever is recorded, the documented reader accepts the file, count and CRC included, and gets every field with the clocks summed from the deltas |
| TraceFormat.TraceRoundTrip | libs/bustrace/include/revice_bustrace.h:40-57 | the file reads back as exactly the accesses recorded iff every gap, the first from 0, goes forward by less than 2^32 |
| TraceFormat.SaturatedGapLost | libs/bustrace/src/bustrace_core.c:99-101 | an input that does not read back: one access 2^32 cycles after 0 |
| TraceFormat.BackwardClockLost | libs/bustrace/src/bustrace_core.c:95-98 | an input that does not read back: a second access one cycle earlier than the first |
| TraceFormat.AcceptedIffWritten | libs/bustrace/include/revice_bustrace.h:59-70 | the reader accepts a file exactly if it is what the writer makes of the accesses it reads |
| TraceLayout.FileLayout | libs/bustrace/include/revice_bustrace.h:28-65 | every byte of a recording by offset and number: RBT1, version, sizes, record k at 16 + 10k with its delta, address, value, flags and pc, RBTe, count and checksum |
| TraceFormat.AlteredRecordsRejected | libs/bustrace/include/revice_bustrace.h:59-70 | a complete file whose records were altered inside four consecutive bytes is rejected |
| TraceFormat.LostRecordsRejected | libs/bustrace/include/revice_bustrace.h:61-65 | a file with any other number of records than its trailer was written for is rejected, whatever the checksum |
| TraceFormat.ClockDrift | libs/bustrace/src/bustrace_core.c:95-101 | for arbitrary clocks the reconstructed clock never goes back and equals the true one plus all backward movement minus all saturated excess so far |
| TraceWriter.AccessRecords | libs/bustrace/src/bustrace_core.c:84-115 | each access extends the recording by itself: baseline, count, running CRC and emitted bytes stay those of the whole list |
| TraceWriter.EndCompletes | libs/bustrace/src/bustrace_core.c:117-136 | header, streamed records and the trailer are the complete file of the accesses recorded |
| TraceWriter.OnlyWhileStarted | libs/bustrace/src/bustrace_core.c:84-136 | outside begin and end nothing is recorded or written |
| TraceWriter.StoreU64 | libs/bustrace/src/bustrace_core.c:32-38 | the byte loop stores the little-endian field and nothing else |
| TraceWriter.BusTrace.Begin | libs/bustrace/src/bustrace_core.c:57-82 | a fresh core, and the header is emitted if there is a sink |
| TraceWriter.BusTrace.Record | libs/bustrace/src/bustrace_core.c:84-115 | exactly the access step and its record bytes; nothing before begin or after end |
| TraceWriter.BusTrace.End | libs/bustrace/src/bustrace_core.c:117-136 | exactly the end step and the trailer bytes; nothing if not started |
| TraceAdapter.ObserveKeeps | libs/bustrace/vice/soundbustrace.c:70-109 | an observation extends its session, opens at most once and never retries a failed open |
| TraceAdapter.RetargetKeeps | libs/bustrace/vice/soundbustrace.c:116-149 | a change of target closes a complete trace of the session, or leaves no file if there was none |
| TraceAdapter.Lifecycle | libs/bustrace/vice/soundbustrace.c:70-149 | over every run: phase, core and open handle agree, the closed handles are in order the complete traces of the recording sessions, and each target setting has at most one attempt to open |
| TraceAdapter.ClosedFilesReadBack | libs/bustrace/vice/soundbustrace.c:70-149 | over every run the documented reader accepts each closed handle and gets from it its own session's accesses in order, every field as observed and the clocks as summed from the deltas |
| TraceAdapter.BusTraceAdapter.EnsureOpen | libs/bustrace/vice/soundbustrace.c:70-92 | the statics after an open attempt, failed or not |
| TraceAdapter.BusTraceAdapter.Observe | libs/bustrace/vice/soundbustrace.c:96-109 | the code in place does exactly the observe step |
| TraceAdapter.BusTraceAdapter.SetFilename | libs/bustrace/vice/soundbustrace.c:136-149 | the code in place does exactly the retarget step |
| TraceAdapter.BusTraceAdapter.Stop | libs/bustrace/vice/soundbustrace.c:116-132 | the code in place does exactly the shutdown step |
| Text.StrCaseCmp | libs/keymatrix/src/keymatrix_core.c:118-130 | zero exactly for strings equal up to letter case, otherwise the difference of the lower-cased characters where they first differ, the end counting as NUL |
| Text.CaseFolding | libs/keymatrix/src/keymatrix_core.c:118-130 | folding identifies exactly the capital and small form of a letter, and goes to the small one |
| Text.SameNoCaseIsRecased | libs/keymatrix/src/keymatrix_core.c:118-130 | equal up to case means equal length and at each place the same character or the two forms of one letter, 32 apart |
| Text.StrtolHex | libs/keymatrix/src/keymatrix_core.c:229 | with base 0, 0x before hexadecimal digits |
| Text.StrtolOctal | libs/keymatrix/src/keymatrix_core.c:229 | with base 0, 0 before octal digits |
| Text.TokensOfJoin | libs/keymatrix/src/keymatrix_core.c:132-157 | words joined with single spaces split into the same words |
| Text.TokensKeepLetters | libs/keymatrix/src/keymatrix_core.c:132-157 | splitting drops the spaces and tabs and nothing else |
| Text.FirstWordSplits | libs/keymatrix/src/keymatrix_core.c:132-157 | the tokens of a string are its first word and the tokens after the blank that ends it |
| KeyGrammar.TokensAreWords | libs/keymatrix/src/keymatrix_core.c:132-157 | the tokens of a string are ts iff it is ts with gaps of spaces and tabs around them, none empty between words |
| Text.KmTok | libs/keymatrix/src/keymatrix_core.c:132-157 | cuts the first word out of the buffer, whatever the blanks, leaving the remaining string unchanged |
| KeyList.TableTypeable | libs/keymatrix/src/keymatrix_core.c:33-99 | every name in the key table is one short plain word other than "for", and every position is in range with the right kind |
| KeyList.LookupAgain | libs/keymatrix/src/keymatrix_core.c:161-175 | a found key's own name finds the same key again |
| KeyList.StrtolDecimal | libs/keymatrix/src/keymatrix_core.c:181-195 | strtol reads every printed number back, up to a comma or the end |
| KeyList.PairAgain | libs/keymatrix/src/keymatrix_core.c:177-197 | the printed name of every valid position parses to that key |
| KeyGrammar.PairsAccepted | libs/keymatrix/src/keymatrix_core.c:177-197 | of all pairs of numbers exactly those with row -8..15 and column 0..7 are keys, an empty column counting as 0 |
| KeyGrammar.FramesAccepted | libs/keymatrix/src/keymatrix_core.c:229-233 | a number in decimal, hexadecimal or octal is a frame count iff it is in 1..65535 |
| KeyMatrix.EveryPlaceNamed | libs/keymatrix/src/keymatrix_core.c:33-91 | all 64 places of the matrix have their keycap in the table |
| KeyList.AcceptedReprintable | libs/keymatrix/src/keymatrix_core.c:209-250 | an accepted list has at most 16 keys, all in range with kind 1 exactly for negative rows, and each name is one token that names its key |
| KeyGrammar.AcceptedLines | libs/keymatrix/src/keymatrix_core.c:209-250 | a line is accepted iff its tokens are keys, at most 16, and `for` clauses; it yields the keys in order and the last clause |
| KeyGrammar.CaseDoesNotMatter | libs/keymatrix/src/keymatrix_core.c:118-130 | re-casing any letters of an accepted line changes neither keys nor frames |
| KeyGrammar.PrintedListParsesAgain | libs/keymatrix/src/keymatrix_core.c:209-262 | printing the names of any accepted list fits the 256-byte buffer and parses to the same keys |
| KeyGrammar.PrintedTapParsesAgain | libs/keymatrix/src/keymatrix_core.c:209-262 | with `for n` printed after the names, n in 1..65535, the line still fits and parses to the same keys and n |
| KeyParser.FindKeyByName | libs/keymatrix/src/keymatrix_core.c:161-175 | the first table entry equal up to letter case, if any |
| KeyParser.CopyArgs | libs/keymatrix/src/keymatrix_core.c:252-262 | copies with its NUL exactly if it fits |
| KeyParser.TakeToken | libs/keymatrix/src/keymatrix_core.c:132-157 | takes the head of the buffer's token list and leaves the tail |
| KeyParser.ParseKeyList | libs/keymatrix/src/keymatrix_core.c:207-250 | the loop over the buffer, for every input string, is the fold over its tokens: same keys, last `for` wins, same first error; it terminates |
| KmBinary.PairBytesRoundTrip | libs/keymatrix/src/keymatrix_core.c:777-785 | decoding the (row, col) bytes of a key list, negative rows included, gives back the keys up to their names |
| KmBinary.BinaryPositions | libs/keymatrix/src/keymatrix_core.c:777-785 | the keys of an accepted binary tap are all in the text parser's range iff every row byte is at most 15 or at least 0xf8 and every column byte at most 7; others are accepted too |
| KmInvariants.RequestsGood | libs/keymatrix/src/keymatrix_core.c:362-412 | every accepted request, text or binary, names 1..16 keys with kind 1 exactly for negative rows and, for a tap, 1..65535 frames |
| KmVerbs.TapHoldsItsKeys | libs/keymatrix/src/keymatrix_core.c:362-412 | from any state a tap of an accepted line holds all its keys: they are tracked and their bits set, only the superseded hold's other bits are cleared, and the alarm is n or 60 frames on; any other line does nothing |
| KmVerbs.PressHoldsItsKeys | libs/keymatrix/src/keymatrix_core.c:420-461 | the same for press, which sets no alarm and leaves timeout_clk |
| KmVerbs.BinTapHoldsItsKeys | libs/keymatrix/src/keymatrix_core.c:751-801 | the same for a binary tap, key i being at the signed bytes 4 + 2i and 5 + 2i; bodies with no or more than 16 pairs, or too short, do nothing |
| KmVerbs.ReleaseReleasesItsKeys | libs/keymatrix/src/keymatrix_core.c:484-526 | release of an accepted line clears exactly its bits; the hold goes on, with the other keys in order, iff there are any, and else is over and reported as manual unless an observation is pending |
| KmVerbs.ReleaseAloneReleasesAll | libs/keymatrix/src/keymatrix_core.c:475-482 | release alone ends the hold and leaves only keys outside the matrix that were not held |
| KmVerbs.AlarmEndsTheHold | libs/keymatrix/src/keymatrix_core.c:339-344 | a due alarm ends the hold, clears its bits and records observation or timeout |
| KmVerbs.ReadsSample | libs/keymatrix/src/keymatrix_core.c:655-711 | a port A read samples iff a held matrix key has its row bit 0 in the mask, a port B read iff its column bit, bits taken as numbers; what each read then counts and re-arms |
| KmInvariants.StepInv | libs/keymatrix/src/keymatrix_core.c:296-529 | every operation keeps the alarm invariant |
| KmInvariants.AlarmSafety | libs/keymatrix/src/keymatrix_core.c:296-529 | over every interleaving: active iff not idle, 1..16 keys while active, an alarm pending iff a tap, at timeout_clk while nothing was sampled |
| KmInvariants.DeadlineNeverExceedsTimeout | libs/keymatrix/src/keymatrix_core.c:409-412 | over every run of a timely host the pending deadline has not passed and never exceeds timeout_clk |
| KmInvariants.RearmNeverPostpones | libs/keymatrix/src/keymatrix_core.c:655-665 | an observation moves the deadline to the next cycle, which is no later than before iff the alarm was not already due |
| KmInvariants.LateRearm | libs/keymatrix/src/keymatrix_core.c:655-665 | a run that postpones: a one-frame tap due at 100 and unserved at 500 is sampled there, and the alarm moves to 501 |
| KmInvariants.TapIsBounded | libs/keymatrix/src/keymatrix_core.c:362-412 | in every reachable state an n-frame tap made at clock c is over by c + n*cpf on a timely host, whatever happens in between short of a new request |
| KmInvariants.LateTapIsBounded | libs/keymatrix/src/keymatrix_core.c:362-412 | in every reachable state, on a host that serves alarms at most `late` cycles late, an n-frame tap made at clock c is over by c + n*cpf + 2*late + 1 |
| KmInvariants.ObservedTapIsBounded | libs/keymatrix/src/keymatrix_core.c:655-665 | in every reachable state of a timely host an observed tap first sampled at clock t is over by t + 1 |
| KmInvariants.ReleaseNothingStuck | libs/keymatrix/src/keymatrix_core.c:467-529 | a full or partial release leaves exactly the remaining tracked keys down, duplicates included |
| KmInvariants.NoStuckKeys | libs/keymatrix/src/keymatrix_core.c:266-529 | from a clear matrix, over every run without raw bit writes, the set bits are exactly the tracked keys while active and none while idle |
| KmReports.CountsAreTrue | libs/keymatrix/src/keymatrix_core.c:655-711 | over every run the counters are the true numbers of reads and sampling reads of the current hold modulo 2^32, and OBSERVED is pending iff an observed tap was sampled |
| KmReports.EndIsReported | libs/keymatrix/src/keymatrix_core.c:296-344 | whatever ends a hold records its keys (none after a release by name), its mode, its true counts and the true reason |
| KmReports.ReleaseReportTruthful | libs/keymatrix/src/keymatrix_core.c:308-344 | in every reachable state: OBSERVED iff an observed tap with a sampling read, TIMEOUT only from an alarm at or after timeout_clk, MANUAL for every sticky press |
| KmFrames.FramesAddUp | libs/keymatrix/src/keymatrix_core.c:845-853 | up to the deadline frames left plus frames held is n on a frame boundary and n - 1 between boundaries |
| KmFrames.FramesHeldAtDeadline | libs/keymatrix/src/keymatrix_core.c:319-327 | a release at the deadline or less than a frame late records n |
| KmFrames.FramesAreWhole | libs/keymatrix/src/keymatrix_core.c:319-327 | frames held and frames left are the whole frames since the press and to the deadline, up to 65535, and 0 otherwise |
| KmFrames.FrameAccounting | libs/keymatrix/src/keymatrix_core.c:319-327 | in every reachable state, and over every run after an n-frame tap made there on an unchanged machine, both of the above hold as long as the tap lasts |
| KmFrames.FramesLeftOutsideTaps | libs/keymatrix/src/keymatrix_core.c:845-853 | outside taps non-zero frames are reported iff a sticky press still has a whole frame of an old deadline ahead |
| KmFrames.DeadlineIsLastTaps | libs/keymatrix/src/keymatrix_core.c:409-411 | over every run timeout_clk is the deadline of the last tap, or 0 before any, computed from the calls alone |
| KmFrames.StaleFramesExactly | libs/keymatrix/src/keymatrix_core.c:845-853 | in every reachable state outside taps non-zero frames are reported iff a press is held and a whole frame is left to the deadline of the last tap, as the calls give it |
| KmFrames.StaleFramesReported | libs/keymatrix/src/keymatrix_core.c:455-461 | an input that shows it: the five-frame binary tap 01 05 00 01 01 02 then `press 7,7` on the same cycle reports five frames left |
| KmBinary.TextAndBinaryAgree | libs/keymatrix/src/keymatrix_core.c:751-801 | from any state a text tap and the binary tap of the same keys and frames reach the same state up to key names |
| KmResponse.RowBitSet | libs/keymatrix/src/keymatrix_core.c:816-818 | bit c of a row byte is set iff the position is |
| KmResponse.ResponseReadsBack | libs/keymatrix/src/keymatrix_core.c:803-857 | in every reachable state all matrix bits, custom keys, counters, reason (0 none, 1 observed, 2 timeout, 3 manual), number of keys and frames left can be read out of the 24 bytes |
| KmCore.MatrixHost.ApplyBits | libs/keymatrix/src/keymatrix_core.c:266-272 | the loop sets or clears exactly the places of the listed keys |
| KmCore.Keyboard.HeldFrames | libs/keymatrix/src/keymatrix_core.c:319-327 | whole frames held, 0 for an unknown frame length, capped at 65535 |
| KmCore.Keyboard.RecordRelease | libs/keymatrix/src/keymatrix_core.c:308-327 | the record is the report of the hold and nothing else changes |
| KmCore.Keyboard.ReleaseNow | libs/keymatrix/src/keymatrix_core.c:296-337 | the code in place does exactly the release step |
| KmCore.Keyboard.OnAlarm | libs/keymatrix/src/keymatrix_core.c:339-344 | the code in place does exactly the alarm step |
| KmCore.Keyboard.Hold | libs/keymatrix/src/keymatrix_core.c:388-407 | supersedes, takes over the keys, sets their bits and starts counting |
| KmCore.Keyboard.Arm | libs/keymatrix/src/keymatrix_core.c:409-412 | deadline and alarm at press_clk plus frames times the frame length, PAL if unknown |
| KmCore.Keyboard.Tap | libs/keymatrix/src/keymatrix_core.c:362-418 | the code in place, parser included, does exactly the tap step and nothing on every error |
| KmCore.Keyboard.Press | libs/keymatrix/src/keymatrix_core.c:420-465 | the code in place does exactly the press step, leaving the old deadline |
| KmCore.Keyboard.IsDropped | libs/keymatrix/src/keymatrix_core.c:507-514 | true exactly if the position is among those released |
| KmCore.Keyboard.Survivors | libs/keymatrix/src/keymatrix_core.c:503-518 | the nested loops keep exactly the tracked keys not released, in order |
| KmCore.Keyboard.Release | libs/keymatrix/src/keymatrix_core.c:467-529 | the code in place does exactly the release step, full, partial or refused |
| KmCore.Keyboard.AnyRowSelected | libs/keymatrix/src/keymatrix_core.c:674-686 | true exactly if a held matrix key lies on a selected row |
| KmCore.Keyboard.AnyColSelected | libs/keymatrix/src/keymatrix_core.c:697-709 | true exactly if a held matrix key lies on a selected column |
| KmCore.Keyboard.PaRead | libs/keymatrix/src/keymatrix_core.c:667-688 | the code in place does exactly the port A read step |
| KmCore.Keyboard.PbRead | libs/keymatrix/src/keymatrix_core.c:690-711 | the code in place does exactly the port B read step |
| KmCore.Keyboard.BinmonTap | libs/keymatrix/src/keymatrix_core.c:751-801 | 0 exactly for the bodies accepted, then the tap step; -1 and no change otherwise |
| KmCore.Keyboard.LeftFrames | libs/keymatrix/src/keymatrix_core.c:845-853 | the frames left as reported, capped at 65535 |
| KmCore.Keyboard.BinmonGet | libs/keymatrix/src/keymatrix_core.c:803-857 | writes the 24-byte response and its length and nothing past it, or refuses and changes nothing |

## Left out

- MIDI ports, ALSA scheduling and message delivery: messages arrive in order of emission.
- `asid_clock_to_nanos` and the slip arithmetic around it are floating point and wall clock: the schedule time is an arbitrary parameter.
- The ASID start and stop messages are constants outside the update protocol.
- Emulator glue: resources, command line, patches, shell wiring, and the read hooks themselves.
- Printed text: the monitor messages of all verbs, `show` and `names`; of a parse failure the model keeps which error it was.
- `poke` and the binary SET body are not parsed. Their effect on the matrix is the `RawBit` operation, which every invariant but `NoStuckKeys` allows for.
- The emulator's own keyboard driver, which may also set and clear matrix bits, is seen only as `RawBit` operations.
- Failed writes to the trace file: an open handle accepts every byte.
- Wrap-around of 64-bit clocks and of the trace's record counter.
- libs/screen, libs/video, libs/driveattach and libs/checkpoint are not modelled.
