# Verified model of bios-bmc-smm-error-logger

The daemon runs on a BMC.  The BIOS writes error logs into a ring buffer in shared memory; once per
timer tick the daemon reads what is new, checks it and feeds it to an RDE command handler, which
receives BEJ dictionaries in several parts under a CRC-32 and stores decoded log entries as files.
This project models that path from shared-memory bytes to stored dictionaries and files, and proves
what the pieces promise together.

| file | what it holds |
|---|---|
| `Wrappers`, `Arithmetic`, `Bytes`, `Bits` | results and errors, quotients, little-endian bytes, machine words as bit strings |
| `PciHandler`, `Header` | the mapped region with its clipped byte loops; the packed 0x30-byte header |
| `Ring` | wraparound reads, entry framing with its XOR checksum, draining up to a write-pointer snapshot |
| `Buffer` | the class `BufferImpl` over the region, each method proved against `Ring` and `Header` |
| `Interleaving`, `Tearing` | reader and writer on the ring at the same time, one byte access of the BMC per step; exactly when half-read and half-stored pointers do no harm, and runs in which they do |
| `Gf2`, `Crc` | polynomials over GF(2), the shift register, CRC-32 and its table-driven form |
| `Dictionaries`, `Transfer`, `RdeHandler` | the dictionary store with its maintained count, the transfer state machine, the handler class |
| `Runs`, `Pieces`, `Coverage` | facts about all runs of commands; sender and receiver of a multi-dictionary transfer; which dictionaries a checksum covered |
| `Polling`, `ReadLoop` | one pass of the read loop as a function, and the loop body as a method that computes it |
| `Handshake`, `Delivery` | whole runs with the BIOS between polls; delivery from ring bytes to retrievable dictionaries |
| `Concurrent`, `PollSteps` | the whole loop step by step with the BIOS acting anywhere in it, re-initialization byte by byte; a poll as one of its runs |
| `Wire` | the formats and answers in numbers: which bytes mean what, and what each value of them leads to |
| `Retention`, `PathGuard` | which log files are kept; which paths stay below the base directory |

Throughout, M is the size of the queue in bytes (`getMaxOffset`).  Methods of the source's classes
are methods here, specified by functions on values; the theorems are about those functions.

## Main results

* **Ring, both sides at once** (`Interleaving`, `Tearing`).  Every access of the BMC is a byte loop, so
  BIOS steps can fall between the two bytes of a pointer.  For every interleaving of byte accesses in
  which each snapshot of the write pointer is where an entry ends and each entry the BIOS starts fits
  what is really free, `returned ++ still in the ring == published`, in order, the reader never fails,
  and no BIOS step touches a byte still to be read (`FifoSafety`, `NothingOverwritten`); a poll ends
  with exactly the BMC step its snapshot says (`EveryPollEnds`).  Both conditions are exact
  (`SnapshotExactly`, `AppendExactly`).  The first holds whenever at most one byte of the write pointer
  changes between their readings (`OneByteIsSound`), the second whenever the BIOS leaves 256 bytes free
  (`BlockFreeIsSound`).  Alone, that stepwise reader is `readErrorLogs` on any ring contents
  (`ReaderRefinesReadLogs`).
* **Loop and BIOS at once** (`Concurrent`).  With BIOS steps between any two steps of the loop,
  `initialize` byte by byte included: UE logs are handed on in the order posted, unaltered, each at
  most once (`HandedAtMostOnce`); a posted log is handed on if and only if the next header read for
  UE logs comes before an `initialize` stores the BIOS's flags (`PostedLogFate`); the fields the BMC
  owns are the same in cache and region after every completed store outside `initialize`
  (`OwnFieldsAlwaysAgree`).  The poll function is one of these runs (`PollSteps.PollIsRun`).
* **Parser and printer** (`Ring.ParserInvertsPrinter`).  With both pointers below M, a poll
  returns es normally, no entry longer than the ring, if and only if the segment between the
  pointers is the encoding of es, each XORing to zero.
* **Arbitrary queue bytes** (`Ring.DrainBounds`).  At most ceil(n/6) passes through the loop; a
  normal return consumed n or exactly n + M bytes, and n if and only if no entry is longer than M.
* **CRC-32** (`Crc`).  The table-driven loop equals the bit-serial register, which holds the one
  and only remainder of the IEEE Std 802.3 clause 3.2.9 division; equal-length messages that differ
  only inside four consecutive bytes never share a checksum.
* **Transfers** (`Runs`, `Pieces`).  The register always covers exactly the accepted data; the
  verdict on the closing command; every dictionary ends as its last group of pieces; how the bytes
  were cut does not matter; a burst of up to four wrong bytes anywhere clears every dictionary.
* **Checked dictionaries** (`Coverage`).  Exactly when a command makes an id yield new data without an
  accepted checksum (`UncheckedExactly`), exactly when a dictionary is retrievable so after a run
  (`UncoveredExactly`), what the opposite means (`VouchedIsCovered`), and the senders for which
  complete does mean checked (`OrderlyCompleteIsChecked`).
* **Polls** (`Polling.PollOutcome`, `ReadLoop.ReadLoop`, `Handshake.EveryRunSettles`).  A poll
  re-initializes exactly if the UE log is refused, the drain fails or decoding an entry throws; in
  the last case exactly the entries before it took effect.  A poll is all or nothing if and only if
  no entry behind the first is the first to throw (`Polling.PollIsAtomic`).
* **End to end** (`Delivery`).  Dictionary of any size, any cut, framing, any ring offset, any number
  of polls: exactly the original bytes are retrievable and the ready bit is set; and such rounds
  always exist (`AnyDictionaryDeliverable`).
* **Bytes and answers** (`Wire`).  For every byte string given as a command, from any state: exactly which
  answer it gets and what it leaves, by the values of its bytes.
* **Retention** (`Retention.EveryRunRetains`).  Pinned prefix, bounded window and disk agree.

## Model

| member | source | states |
|---|---|---|
| PciHandler.ReadBack | src/pci_handler.cpp:27-85 | What a write stored is what a read of the same range returns; every disjoint range reads as before |
| PciHandler.WriteCount | src/pci_handler.cpp:71-84 | A write never stores past the region, and stores all bytes whenever they fit and number below 2^16 |
| PciHandler.ReadBytes | src/pci_handler.cpp:27-56 | Exactly how many and which bytes a read returns, also where it runs past the end of the region |
| PciHandler.WriteCounts | src/pci_handler.cpp:61-84 | Exactly how many bytes a write stores, also where they run past the end of the region |
| PciHandler.PciDataHandler.constructor | src/pci_handler.cpp:19-25 | The handler owns a fresh region of the given size |
| PciHandler.PciDataHandler.Read | src/pci_handler.cpp:27-56 | The byte loop returns the region's bytes at offset, clipped at the end, and nothing for an offset outside; the 32-bit sum may wrap as long as the loop stays inside the region |
| PciHandler.PciDataHandler.Write | src/pci_handler.cpp:58-85 | The byte loop stores exactly the first bytes that fit (count narrowed to 16 bits) at offset and changes no other byte |
| Header.DecodeEncode | include/buffer.hpp:36-66 | Every header survives printing and parsing of its packed layout |
| Header.EncodeDecode | include/buffer.hpp:36-66 | Every 0x30 bytes are the print of the header they parse to, so the layout has no gap and no overlap |
| Header.DecodeWithFlags | src/buffer.cpp:122-143 | Storing the flags at 0x1d changes that one field of the parsed header |
| Header.DecodeWithReadPtr | src/buffer.cpp:99-120 | Storing a 24-bit read pointer at 0x21 changes that one field of the parsed header |
| Buffer.InitializedRegion | src/buffer.cpp:27-75 | Zeroing, then storing the header, leaves header, zeros up to queueSize, and the old rest; the header parses back |
| Buffer.InitializedBytes | src/buffer.cpp:27-75 | The bytes initialize leaves: version at 0x0, magic number at 0x8, sizes at 0x18 and 0x1b, zeros elsewhere up to queueSize and in the rest of the header, the old bytes behind |
| Buffer.SetReadPtrFrame | src/buffer.cpp:99-120 | A read-pointer store leaves the queue and every byte outside 0x1d-0x23 alone; a later store overrides it completely |
| Buffer.SetFlagsFrame | src/buffer.cpp:122-143 | A flags store leaves the queue, the pointer and every byte outside 0x1d-0x23 alone |
| Buffer.SetSameReadPtr | src/buffer.cpp:99-120 | Storing the pointer already in the region changes nothing |
| Buffer.ReadPieces | src/buffer.cpp:164-208 | In a region that holds the queue, the one or two clipped region reads concatenate to the ring's bytes and are never short |
| Buffer.EntryAtIsRing | src/buffer.cpp:302-328 | In a region that holds the queue, the entry parser over clipped reads is the ring's |
| Buffer.RegionLogsIsReadLogs | src/buffer.cpp:330-394 | In a region that holds the queue, the drain over clipped reads is the ring's |
| Buffer.EntryAtFrame | src/buffer.cpp:99-120 | Publishing the read pointer does not change what the next entry reads |
| Buffer.BufferImpl.constructor | src/buffer.cpp:24-25 | A new buffer caches an all-zero header |
| Buffer.BufferImpl.Initialize | src/buffer.cpp:27-75 | Succeeds exactly if queue and header fit; then every byte of the region is as stated for `InitializedBytes`, and the cache is what the region parses to |
| Buffer.BufferImpl.ReadBufferHeader | src/buffer.cpp:77-92 | Succeeds exactly if the region holds a header; then the cache is what the region parses to |
| Buffer.BufferImpl.UpdateReadPtr | src/buffer.cpp:99-120 | Region and cache get the pointer modulo 2^24 in that field and nothing else |
| Buffer.BufferImpl.UpdateBmcFlags | src/buffer.cpp:122-143 | Region and cache get the flags in that field and nothing else |
| Buffer.BufferImpl.GetMaxOffset | src/buffer.cpp:396-419 | Fails exactly if the cached sizes differ from the build's; otherwise it is the ring size |
| Buffer.BufferImpl.GetQueueOffset | src/buffer.cpp:421-434 | If it succeeds it is where the queue starts |
| Buffer.BufferImpl.WraparoundRead | src/buffer.cpp:145-212 | On a region of any size: the one or two clipped reads, or the reason they fail; then the advanced pointer is published and cached, and a failure leaves everything alone |
| Buffer.BufferImpl.ReadEntryHeader | src/buffer.cpp:214-224 | On a region of any size: parses the six bytes at the cached pointer and moves past them, failing as the read fails |
| Buffer.BufferImpl.ReadEntry | src/buffer.cpp:302-328 | On a region and a cached header of any size: equals the entry parser, including the pointer it leaves when the entry is rejected |
| Buffer.BufferImpl.Accumulate | src/buffer.cpp:313-319 | The accumulate loop is the XOR of all bytes |
| Buffer.BufferImpl.DrainEntries | src/buffer.cpp:374-385 | The drain loop terminates and equals the drain with that entry parser: entries, failure reason and pointer |
| Buffer.BufferImpl.ReadErrorLogs | src/buffer.cpp:330-394 | On a region of any size: result, region and cache equal the drain of the snapshot, which is the ring's where the region holds the queue; only the read pointer changes, and nothing if the sizes are wrong |
| Buffer.BufferImpl.ReadUeLogFromReservedRegion | src/buffer.cpp:226-270 | Returns the reserved region exactly if the switch bits differ; the cache equals the region's header |
| Buffer.BufferImpl.CheckForOverflowAndAcknowledge | src/buffer.cpp:272-300 | Reports and acknowledges an overflow exactly if the overflow bits differ; the cache equals the region's header |
| Ring.Seal | src/buffer.cpp:313-325 | A sender can always choose the checksum byte so that the entry XORs to zero |
| Ring.ReadIsModular | src/buffer.cpp:164-208 | Byte i of a wraparound read is the queue's byte (offset + i) mod M |
| Ring.AdvanceIsModular | src/buffer.cpp:184-209 | The new pointer is (offset + length) mod M, and below M, except for a whole-ring read from M, which leaves M |
| Ring.ReadWritten | src/buffer.cpp:164-208 | Bytes stored around the ring are read back and the rest of the ring is as before |
| Ring.HeaderRoundTrip | include/buffer.hpp:68-83 | Every entry header survives printing and parsing |
| Ring.HeaderReprint | include/buffer.hpp:68-83 | Every six bytes are the print of the entry header they parse to |
| Ring.EntryParsed | src/buffer.cpp:302-328 | An accepted entry no longer than the ring is a sealed entry whose encoding the ring shows; the pointer stays below M |
| Ring.EntryReasons | src/buffer.cpp:302-328 | Exactly when an entry is refused for its size and when for its XOR |
| Ring.PointerReasons | src/buffer.cpp:336-393 | Exactly when a poll of the queue is refused for one of the pointers, and that it is otherwise the drain |
| Ring.EntryPrinted | src/buffer.cpp:302-328 | A sealed entry the ring shows is accepted as exactly that entry |
| Ring.SegmentShows | src/buffer.cpp:374-385 | A segment encodes a list of sealed entries if and only if the ring shows them one after the other |
| Ring.DrainSegment | src/buffer.cpp:374-385 | Draining a segment that encodes es returns es and stops behind it |
| Ring.DrainedSegment | src/buffer.cpp:374-385 | What a drain returned, if no longer than the ring, is what the consumed segment encodes |
| Ring.DrainCount | src/buffer.cpp:374-385 | Any drain makes a bounded number of passes and stays inside the ring |
| Ring.DrainConsumed | src/buffer.cpp:374-385 | A completed drain consumed bytes congruent to its pointer's movement, and less than one entry beyond the budget |
| Ring.DrainBounds | src/buffer.cpp:355-393 | Whatever the queue holds: at most ceil(n/6) passes through the loop, the failing one included; pointer below M; and a normal return consumed n or exactly n + M bytes, the latter only for an oversized last entry |
| Ring.OverReadHappens | src/buffer.cpp:355-393 | A concrete ring on which the extra turn occurs |
| Ring.OverReadExactly | src/buffer.cpp:355-393 | A normal return consumed exactly the announced bytes if and only if no entry is longer than the ring |
| Ring.ExactReturnExactly | src/buffer.cpp:355-393 | Before the call: it returns normally after exactly the announced bytes if and only if the segment is the encoding of some list of sealed entries |
| Ring.WritePtrAtEndFails | src/buffer.cpp:338-344 | A write pointer of M passes the range check and is never matched by a reader below M |
| Ring.LongDistanceDrained | src/buffer.cpp:355-393 | Six bytes or more between the pointers: some ring is drained normally |
| Ring.ShortDistanceDrained | src/buffer.cpp:355-393 | Fewer than six: some ring is drained normally too, by an entry that covers the ring and its own first bytes |
| Ring.WritePtrExactly | src/buffer.cpp:338-344 | Among the write pointers that pass the range check, some ring is drained normally if and only if the pointer is below M |
| Ring.ParserInvertsPrinter | src/buffer.cpp:330-394 | readErrorLogs returns es normally, each entry fitting the ring, if and only if the segment is the encoding of es, each XORing to zero; then the pointers are equal |
| Interleaving.BiosWriteKeeps | src/buffer.cpp:145-212 | A byte stored into free space changes nothing between the pointers and keeps the invariant |
| Interleaving.BiosPublishKeeps | src/buffer.cpp:145-212 | Publishing the write pointer last adds exactly the finished entry, also between the two bytes of a snapshot |
| Interleaving.PublishHeaderKeeps | src/buffer.cpp:302-311 | Releasing an entry's header before its body is read, with the first byte of the pointer stored, keeps the invariant |
| Interleaving.PublishBodyKeeps | src/buffer.cpp:302-328 | Releasing a body, with the first byte of the pointer stored, returns exactly the next published entry, and ends the poll exactly at its snapshot |
| Interleaving.SnapshotKeeps | src/buffer.cpp:336-372 | A snapshot that is where an entry ends, however it was put together, starts a correct poll |
| Interleaving.SecondByteKeeps | src/pci_handler.cpp:79-83 | Storing the second byte shows the whole pointer |
| Interleaving.StepKeeps | src/buffer.cpp:302-394 | Every sound byte access of either side keeps the invariant |
| Interleaving.FifoSafety | src/buffer.cpp:302-394 | Under every interleaving of byte accesses with sound steps the reader never fails, returned ++ remaining == published in order, and the ring encodes the remaining entries |
| Interleaving.NothingOverwritten | src/buffer.cpp:145-212 | After such a run no BIOS step changes a byte the reader has still to read |
| Interleaving.PollReturnsSnapshot | src/buffer.cpp:336-393 | When such a poll ends, everything its snapshot covers has been returned, no less and no more |
| Interleaving.StepCounts | src/buffer.cpp:374-385 | Each BMC step of a poll in progress brings its end one step nearer |
| Interleaving.PollEnds | src/buffer.cpp:374-393 | Under every such interleaving a poll in progress ends with exactly the step its counters say, having returned everything its snapshot covers |
| Interleaving.PollIsShort | src/buffer.cpp:355-385 | A poll that finds n bytes takes at most 5n/3 BMC byte accesses |
| Interleaving.EveryPollEnds | src/buffer.cpp:374-393 | From an empty queue, under every such interleaving: every poll ends, as early as its snapshot says |
| Interleaving.ReaderRefinesReadLogs | src/buffer.cpp:330-394 | Without BIOS steps, on any ring contents, the stepwise reader ends with the entries, pointer and failure of the atomic drain |
| Tearing.TornBytes | src/pci_handler.cpp:48-83 | What a pointer reads as when its first byte is of one value and the rest of another; below 2^16 the third byte never matters |
| Tearing.TornIsOneOfBoth | src/buffer.cpp:77-92 | The value read is the pointer at the first or at the second byte's reading if and only if one of the two bytes is the same in both |
| Tearing.BoundaryExactly | src/buffer.cpp:336-372 | A snapshot is where entries end if and only if it is the pointer behind some number of the published ones |
| Tearing.OneByteIsSound | src/buffer.cpp:336-372 | If at most one byte of the write pointer changed between the readings, the snapshot is where an entry ends |
| Tearing.SnapshotExactly | src/buffer.cpp:330-394 | For any snapshot, while the BIOS publishes nothing: a poll that ends normally returned published entries only if and only if the snapshot is where some of them end |
| Tearing.TornSnapshotInvents | src/buffer.cpp:336-393 | A concrete run: both bytes of the write pointer change, and the poll returns 40 entries nobody published and stops beyond the write pointer |
| Tearing.HalfStoreExactly | src/buffer.cpp:99-120 | With half of the new read pointer stored, the BIOS sees at least the bytes still to be read if and only if the shown value is not before the old pointer, or reaches it without going around the ring, or is the new one; values past the end of the ring included |
| Tearing.HalfStoredSees | src/buffer.cpp:99-120 | The same for every reachable half-stored state |
| Tearing.TooMuchRoomExactly | src/buffer.cpp:99-120 | The BIOS would start an entry that does not fit if and only if it sees at least its gap too few bytes in use |
| Tearing.AppendExactly | src/buffer.cpp:302-394 | After the BIOS appended an entry it saw room for, the ring still holds all unreturned ones if and only if the entry left a byte free of what was really free |
| Tearing.TornStoreOverwrites | src/buffer.cpp:99-120 | A concrete run: the BIOS sees 0xd0 bytes in use where there are 0x3d0, and an entry it appends destroys unread ones |
| Tearing.BlockFreeIsSound | src/buffer.cpp:99-120 | With 256 bytes always left free no half-stored read pointer misleads the BIOS: every run with steady snapshots is sound |
| Gf2.StepsLinear | src/rde/rde_handler.cpp:212-223 | Shifting is linear over GF(2) |
| Gf2.StepInjective | src/rde/rde_handler.cpp:212-223 | A shift loses nothing if the generator has a constant term |
| Gf2.ShiftWord | src/rde/rde_handler.cpp:225-231 | Feeding up to a register's width of bits one by one equals adding them at once and shifting that often |
| Gf2.BurstChangesRegister | src/rde/rde_handler.cpp:225-236 | Messages that differ only inside one register-wide window leave different registers |
| Gf2.RegisterIsTheRemainder | src/rde/rde_handler.cpp:225-236 | The register after a message is a remainder of its long division, and no other word is one |
| Crc.DivisorIsGenerator | src/rde/rde_handler.cpp:13-18 | The divisor constant is, bit for bit, the reflected generator of IEEE Std 802.3 clause 3.2.9 |
| Crc.ChecksumIsComplementedRemainder | src/rde/rde_handler.cpp:225-236 | The checksum is the complement of the remainder of the message with complemented first word and 32 appended zeros, for every message |
| Crc.RegisterConcat | src/rde/rde_handler.cpp:225-231 | The register of two parts is that of their concatenation |
| Crc.ChecksumInjective | src/rde/rde_handler.cpp:233-236 | Two registers have one checksum only if they are equal |
| Crc.BurstDetected | src/rde/rde_handler.cpp:212-236 | Equal-length messages differing only inside four consecutive bytes have equal checksums if and only if they are equal |
| Crc.IntegerStep | src/rde/rde_handler.cpp:214-221 | The conditional shift of calcCrcTable is one shift of the register |
| Crc.TableStep | src/rde/rde_handler.cpp:225-231 | Eight shifts are a shift by one byte plus eight shifts of the low byte alone |
| Crc.TableByte | src/rde/rde_handler.cpp:225-231 | One table look-up equals eight bits through the serial register |
| Dictionaries.SetEntry | src/rde/rde_dictionary_manager.cpp:106-123 | Storing an entry moves the number of complete dictionaries by exactly its change of the flag |
| Dictionaries.DictionaryManager.constructor | src/rde/rde_dictionary_manager.cpp:12 | Starts without dictionaries and with a correct count |
| Dictionaries.DictionaryManager.StartDictionaryEntry | src/rde/rde_dictionary_manager.cpp:14-34 | The id holds the data and is incomplete, others are untouched, the count is that of complete entries |
| Dictionaries.DictionaryManager.MarkDataComplete | src/rde/rde_dictionary_manager.cpp:36-46 | A known id becomes complete with its data kept, and the answer says whether it was known; the count stays correct |
| Dictionaries.DictionaryManager.AddDictionaryData | src/rde/rde_dictionary_manager.cpp:48-62 | A known id becomes incomplete with the data appended, and the answer says whether it was known; the count stays correct |
| Dictionaries.DictionaryManager.GetDictionary | src/rde/rde_dictionary_manager.cpp:64-82 | Yields the data exactly of complete dictionaries |
| Dictionaries.DictionaryManager.GetDictionaryCount | src/rde/rde_dictionary_manager.cpp:90-93 | The maintained counter is the number of complete dictionaries |
| Dictionaries.DictionaryManager.InvalidateDictionaries | src/rde/rde_dictionary_manager.cpp:95-104 | Every dictionary is incomplete with its data kept and the count is zero |
| Dictionaries.DictionaryManager.InvalidateDictionaryEntry | src/rde/rde_dictionary_manager.cpp:106-114 | One flag is cleared; the decrement never underflows and the count stays correct |
| Dictionaries.DictionaryManager.ValidateDictionaryEntry | src/rde/rde_dictionary_manager.cpp:116-123 | One flag is set and the count stays correct |
| Wire.EntryHeaderBytes | include/buffer.hpp:68-83 | Which bytes of an entry header are sequence number, size, checksum and command type |
| Wire.BufferHeaderBytes | include/buffer.hpp:36-66 | Which bytes of the buffer header are sizes, pointers, flags and magic number |
| Wire.SwitchMasks | include/buffer.hpp:25-34 | Bit 0 of the flags is the UE switch, bit 1 the overflow switch |
| Wire.UeLogBytes | src/buffer.cpp:226-270 | By the bytes of the region: no UE log, the log from 0x30 on, or a short read |
| Wire.ShortMultipart | src/rde/rde_handler.cpp:151-171 | A multi-part command shorter than its header or its announced data is malformed and changes nothing |
| Wire.StartCommand | src/rde/rde_handler.cpp:181-284 | Flag byte 0 is answered Ok, opens the transfer under the id at byte 2 and stores exactly the data from byte 10 on |
| Wire.MiddleCommand | src/rde/rde_handler.cpp:181-321 | Flag byte 1: out of order exactly if no transfer is open, a dictionary error exactly if the current one is missing, otherwise Ok with the data added or the previous dictionary completed |
| Wire.EndCommand | src/rde/rde_handler.cpp:181-367 | Flag byte 2: the same, and then by the four bytes behind the data malformed, accepted or rejected, with what each leaves |
| Wire.StartAndEndCommand | src/rde/rde_handler.cpp:181-393 | Flag byte 3: by the four bytes behind the data malformed, accepted or rejected, with what each leaves |
| Wire.StartAndEndStores | src/rde/rde_handler.cpp:369-393 | Flag byte 3 with the CRC-32 of the data behind it is answered by the stop flag and the data can be had under its id |
| Wire.OtherFlag | src/rde/rde_handler.cpp:200-208 | Any larger flag byte is refused; only the previous id moves |
| Wire.OtherKind | src/rde/rde_handler.cpp:29-43 | Command types other than 1 and 2 are refused and change nothing |
| Wire.OperationCommand | src/rde/rde_handler.cpp:50-149 | A command of type 2 changes nothing; each of its answers, and the exception, exactly by its bytes, the dictionaries and the external answers |
| Wire.PrintedOperationRefusals | src/rde/rde_handler.cpp:86-149 | Each refusal of a request with payload exactly by its fields |
| Transfer.MultipartRoundTrip | include/rde/rde_handler.hpp:107-113 | Every multi-part command survives printing and parsing, trailer included |
| Transfer.PrintedOperationVerdict | src/rde/rde_handler.cpp:50-149 | A well-formed operation-init request is answered Ok if and only if it has no payload or it reaches the storer and is published; it throws if and only if it reaches the storer and that throws; it is never called malformed |
| Transfer.TruncatedOperationVerdict | src/rde/rde_handler.cpp:53-91 | Every proper prefix of a request is malformed, except that one without payload needs only its header |
| Transfer.RunConcat | src/rde/rde_handler.cpp:29-43 | Two runs in a row are one run of both, unless the first is cut short by an exception |
| Transfer.RunStops | src/main.cpp:90-104 | A run is the run of the commands before the first one that throws |
| Transfer.MultipartCompletes | src/rde/rde_handler.cpp:151-210 | Multi-part commands never throw |
| RdeHandler.RdeCommandHandler.constructor | src/rde/rde_handler.cpp:20-27 | Starts idle, without dictionaries, with the all-ones register and a correct table |
| RdeHandler.RdeCommandHandler.CalcCrcTable | src/rde/rde_handler.cpp:212-223 | The nested loops store eight register shifts of each byte value |
| RdeHandler.RdeCommandHandler.UpdateCrc | src/rde/rde_handler.cpp:225-231 | The table-driven loop leaves the bit-serial register, for every stream and start |
| RdeHandler.RdeCommandHandler.FinalChecksum | src/rde/rde_handler.cpp:233-236 | XOR with all ones is the register's complement |
| RdeHandler.RdeCommandHandler.HandleCrc | src/rde/rde_handler.cpp:238-271 | Accepts exactly a four-byte trailer equal to the checksum; a wrong one invalidates everything, a missing one nothing |
| RdeHandler.RdeCommandHandler.HandleFlagStart | src/rde/rde_handler.cpp:273-284 | Refines the transfer machine's Start |
| RdeHandler.RdeCommandHandler.HandleFlagMiddle | src/rde/rde_handler.cpp:286-321 | Refines the transfer machine's Middle, order and dictionary errors included |
| RdeHandler.RdeCommandHandler.HandleFlagEnd | src/rde/rde_handler.cpp:323-367 | Refines the transfer machine's End, which completes the dictionary before the checksum is looked at |
| RdeHandler.RdeCommandHandler.HandleFlagStartAndEnd | src/rde/rde_handler.cpp:369-393 | Refines the transfer machine's StartAndEnd |
| RdeHandler.RdeCommandHandler.MultiPartReceiveResp | src/rde/rde_handler.cpp:151-210 | Under-length commands change nothing; every other one is a step of the transfer machine, which moves the previous id even when it refuses |
| RdeHandler.RdeCommandHandler.OperationInitRequest | src/rde/rde_handler.cpp:50-149 | The guard sequence as the function that `Wire.OperationCommand` describes answer by answer, an exception of the storer included; nothing changes |
| RdeHandler.RdeCommandHandler.DecodeRdeCommand | src/rde/rde_handler.cpp:29-43 | Every command is a step of the transfer machine with the answered status, or leaves by the exception of the storer with the state unchanged |
| Runs.Stuttering | src/rde/rde_handler.cpp:29-171 | Erasing operation-init, unknown and under-length commands from any run, cut short or not, changes neither the final state nor any remaining status |
| Runs.NoDictionaryError | src/rde/rde_handler.cpp:183-209 | With flags 0 to 3 only, an open transfer's dictionary exists and is incomplete, and a dictionary error never occurs |
| Runs.MissingDictionaryIsStray | src/rde/rde_handler.cpp:200-208 | An open transfer lacks its dictionary only after an unknown flag under that id, followed at most by Middles under it |
| Runs.DictionaryErrorExactly | src/rde/rde_handler.cpp:299-354 | Over all runs and flags: exactly which commands report a dictionary error |
| Runs.DictionaryErrorOccurs | src/rde/rde_handler.cpp:183-209 | A concrete run that reports it |
| Runs.RegisterCovers | src/rde/rde_handler.cpp:225-321 | In every reachable open state the register covers exactly the latest Start's data and every Middle since that was accepted |
| Runs.EndVerdict | src/rde/rde_handler.cpp:323-367 | After any run, an End that passes its checks is answered by the stop flag if and only if exactly four bytes follow its data and they are the CRC-32 of all accepted data |
| Runs.BadChecksumClears | src/rde/rde_handler.cpp:263-269 | After a wrong checksum no dictionary is retrievable |
| Runs.ClosedUnlessBadChecksum | src/rde/rde_handler.cpp:249-261 | The dictionary a closing command names is retrievable if and only if the answer is not a wrong checksum; so it is when the checksum is missing |
| Runs.UncheckedDictionaryExists | src/rde/rde_handler.cpp:369-393 | A concrete command that leaves a retrievable dictionary no checksum was compared for |
| Coverage.StatusByGuards | src/rde/rde_handler.cpp:238-271 | The stop flag and the wrong-checksum answer by guards on state and command |
| Coverage.RetrievableAfter | src/rde/rde_handler.cpp:273-393 | Exactly which dictionaries can be had after a command, by guards on the state before it |
| Coverage.YieldAfter | src/rde/rde_handler.cpp:273-393 | Exactly what every id yields after a command, by guards on the state before it |
| Coverage.RetrievableExactly | src/rde/rde_handler.cpp:238-367 | Exactly when an id that yielded nothing becomes retrievable by a command not answered by the stop flag |
| Coverage.UncheckedExactly | src/rde/rde_handler.cpp:238-367 | A command not answered by the stop flag makes some id yield data it did not yield before if and only if it is a Middle that moves on from an incomplete dictionary, or a closing command without a four-byte trailer that completes its own or the previous dictionary, or replaces or extends a complete one |
| Coverage.RegisterIsWritten | src/rde/rde_handler.cpp:225-231 | In every reachable state the register covers exactly the data stored since its reset |
| Coverage.FreshIsCovered | src/rde/rde_handler.cpp:273-367 | All data of a dictionary written only since the reset went through the register |
| Coverage.AcceptedCovers | src/rde/rde_handler.cpp:238-271 | The stop flag means that the trailer is the CRC-32 of everything stored since the reset, and the vouched-for dictionaries consist of that |
| Coverage.VouchedIsCovered | src/rde/rde_handler.cpp:238-271 | An id is vouched for only if some command was answered by the stop flag, its trailer is the CRC-32 of everything stored since the reset, and all data the id still has is among that |
| Coverage.UncoveredExactly | src/rde/rde_handler.cpp:151-393 | Over every run: a dictionary is retrievable without an accepted checksum covering it if and only if some command completed it unchecked and none since rewrote, rejected or vouched for it |
| Coverage.OrderlyCovers | src/rde/rde_handler.cpp:273-393 | With known flags, four-byte trailers and no transfer inside another, only dictionaries of the open transfer are retrievable and uncovered |
| Coverage.OrderlyCompleteIsChecked | src/rde/rde_handler.cpp:273-393 | Between transfers of such a sender every retrievable dictionary was covered, with exactly the data it still has, by the CRC-32 of a command answered by the stop flag |
| Coverage.MiddleCompletesUnchecked | src/rde/rde_handler.cpp:299-305 | A concrete run without any closing command that leaves a retrievable dictionary |
| Coverage.ReplacedUnchecked | src/rde/rde_handler.cpp:369-393 | A concrete command that replaces a complete dictionary by unchecked data |
| Coverage.RejectedComesBack | src/rde/rde_handler.cpp:200-208 | From any state: a dictionary whose checksum was found wrong is retrievable again three commands later |
| Coverage.StoppedButUncovered | src/rde/rde_handler.cpp:338-367 | A concrete run in which even the stop flag completes data its checksum did not cover |
| Pieces.AppendPiece | src/rde/rde_handler.cpp:307-317 | A piece under the current id extends its last group |
| Pieces.SwitchPiece | src/rde/rde_handler.cpp:299-305 | A piece under another id completes the current dictionary and opens that one afresh |
| Pieces.OpeningOpens | src/rde/rde_handler.cpp:273-321 | A Start and any Middles are answered Ok and leave every group but the last complete |
| Pieces.EndCloses | src/rde/rde_handler.cpp:323-367 | The End command's reply and state, for any checksum |
| Pieces.StartAndEndCloses | src/rde/rde_handler.cpp:369-393 | The single StartAndEnd command's reply and state, for any checksum |
| Pieces.TransmissionVerdict | src/rde/rde_handler.cpp:151-393 | From any state, for any pieces and checksum: every status and the final state of the whole transfer |
| Pieces.TransmissionDelivers | src/rde/rde_handler.cpp:273-393 | A correct transfer ends with the stop flag; each id is complete and holds its last consecutive group of pieces; other ids are untouched |
| Pieces.BurstRejected | src/rde/rde_handler.cpp:238-271 | Up to four wrong consecutive bytes anywhere in the transfer are answered by a wrong checksum and no dictionary is retrievable |
| Pieces.CoalesceKeeps | src/rde/rde_handler.cpp:273-367 | Joining neighbouring pieces of one id keeps all data, ids and the last group |
| Pieces.CuttingDoesNotMatter | src/rde/rde_handler.cpp:273-393 | Two ways of cutting the same groups leave the same state, register included |
| Pieces.SingleDictionary | src/rde/rde_handler.cpp:273-367 | A transfer under one id delivers the concatenation of its pieces |
| Polling.FreshDecodes | src/buffer.cpp:27-75 | A re-initialized region announces the build's sizes and a read pointer of 0 |
| Polling.DecodeAllCases | src/main.cpp:89-104 | The decode loop ends behind the last entry or at the first one that throws, with the run of the entries before it |
| Polling.FirstThrow | src/main.cpp:89-104 | A run whose first k commands complete and whose next one throws stops there |
| Polling.QueuePolled | src/main.cpp:82-104 | The queue part of a poll fails exactly if the drain fails or decoding an entry throws; otherwise it stores flags and read pointer and nothing else, and the pointers meet below M |
| Polling.PollOutcome | src/main.cpp:50-135 | A poll re-initializes exactly if the UE log is refused, the drain fails, or decoding throws; the region is then fresh and nothing was decoded, or in the last case exactly the entries before the throwing one; otherwise all entries were decoded in order and only flags and read pointer change |
| Polling.UeRefusedExactly | src/main.cpp:52-70 | A UE log is accepted exactly if, as a command of type 2, it is answered Ok |
| Polling.CorruptIsReinitialized | src/main.cpp:106-135 | A header with other sizes or pointers outside the ring, whatever else the region holds: the next poll re-initializes and decodes nothing |
| Polling.PollIsAtomic | src/main.cpp:50-135 | Either every drained entry took effect or none did, if and only if the UE log is refused or no entry behind the first is the first to throw |
| ReadLoop.DecodeReady | src/main.cpp:96-103 | Setting the ready bit sets bit 2 of the flags and changes no other bit and no other field; again is a no-op |
| ReadLoop.DecodeEntries | src/main.cpp:89-104 | The loop is a run of the transfer machine over the entries in order, left at the first that throws; it succeeds if and only if none does; the ready bit is stored if and only if some answer was the stop flag |
| ReadLoop.ProcessUeLog | src/main.cpp:52-80 | An unread UE log is decoded and its switch toggled, or the pass fails with the region unchanged, by status or by exception; the transfer state is unchanged either way |
| ReadLoop.ProcessQueue | src/main.cpp:82-104 | The queue part of the try block computes the poll function, exceptions while decoding included; on failure only BMC-owned bytes differ |
| ReadLoop.ReadLoop | src/main.cpp:39-169 | One call computes the poll function on region and handler, leaves the cached header equal to the region's, and goes on unless the timer failed |
| Handshake.AcknowledgeFlipsOnlyOverflow | src/buffer.cpp:285-296 | Acknowledging flips the overflow bit and no other, exactly on disagreement, and then the sides agree |
| Handshake.AcknowledgeTwice | src/buffer.cpp:272-300 | Acknowledging twice is acknowledging once |
| Handshake.PolledBits | src/main.cpp:52-104 | After an uninterrupted poll the switch bits agree, and the ready bit is the old one or set by a stop flag |
| Handshake.PolledMasks | src/main.cpp:52-104 | After an uninterrupted poll bit 1 is the BIOS's, so is bit 0 if there is a UE region, bit 2 is set if it was or a transfer was completed, and all other bits are as before |
| Handshake.TogglesBitZero | src/main.cpp:72-80 | Acknowledging a UE log flips bit 0 to the BIOS's and no other bit |
| Handshake.AcknowledgesBitOne | src/buffer.cpp:285-296 | Acknowledging an overflow flips bit 1 to the BIOS's and no other bit |
| Handshake.ReadySetsBitTwo | src/main.cpp:96-103 | A completed transfer sets bit 2 and no other bit |
| Handshake.FreshBytes | src/buffer.cpp:27-75 | The bytes of a region that a poll has re-initialized |
| Handshake.FreshIsQuiet | src/main.cpp:50-104 | The next poll of a re-initialized region drains no entry, finds no UE log and no overflow, and leaves the region and the transfer as they are |
| Handshake.NextSettles | src/main.cpp:50-135 | One round of BIOS and poll keeps all of the run invariant |
| Handshake.EveryRunSettles | src/main.cpp:50-135 | Over every run with the BIOS acting between polls: sizes intact, read pointer below M, each posted UE log handed to the decoder exactly once in order, ready bit set if and only if a stop flag came since the last initialize |
| Handshake.EveryRunFromBoot | src/main.cpp:201-206 | The same from power-up, for any previous memory contents |
| Concurrent.StepKeeps | src/main.cpp:39-169 | Every step of the loop, of initialize and of the BIOS keeps the invariant |
| Concurrent.HandedAtMostOnce | src/main.cpp:52-80 | Under every interleaving from power-up: the UE logs handed on are posted ones, unaltered, in order, each at most once |
| Concurrent.OwnFieldsAlwaysAgree | src/buffer.cpp:77-143 | Under every interleaving, after every completed store outside initialize: flags, read pointer and sizes agree in cache and region, and the ready bit says whether a transfer was completed since the last initialize |
| Concurrent.SeenIsHanded | src/main.cpp:52-70 | A log whose header read found it is handed on, whatever the BIOS does meanwhile |
| Concurrent.LostStaysLost | src/buffer.cpp:27-75 | A log erased unread is never handed on |
| Concurrent.HandedExactly | src/main.cpp:50-135 | A waiting log is handed on if and only if the daemon reads the header for UE logs before an initialize stores the BIOS's flags |
| Concurrent.PostedLogFate | src/main.cpp:50-135 | From power-up, for a log posted at any point of the loop: exactly once under that condition, and never otherwise |
| PollSteps.InitializeRun | src/buffer.cpp:27-75 | initialize byte by byte, left alone, gives the fresh region |
| PollSteps.PollIsRun | src/main.cpp:39-169 | Without BIOS steps in between, the stepwise loop can do exactly what the poll function says |
| Delivery.PollDecodesBatch | src/main.cpp:82-104 | A poll decodes exactly the batch laid in the ring, if no entry of it throws |
| Delivery.PollsDecodeAll | src/main.cpp:82-104 | Batches laid over several polls, none of which throws, are decoded as one run of commands |
| Delivery.TransmissionThroughRing | src/main.cpp:82-104 | A transfer laid over any polls, at any offset and between other commands that do not throw, ends as a direct one, with the ready bit set in shared memory |
| Delivery.DictionaryDelivered | src/main.cpp:82-104 | One dictionary, any cut, any framing, any polls: exactly its bytes are retrievable, other dictionaries are unchanged, the ready bit is set |
| Delivery.LayOutWorks | src/buffer.cpp:330-372 | From every settled state, at whatever offset, the BIOS can lay out any sealed batch that leaves a byte free |
| Delivery.OnePollRoundTrip | src/main.cpp:82-104 | Cut, frame, lay out, poll: the dictionary is retrievable, others are unchanged, the ready bit is set |
| Delivery.FirstDictionary | src/main.cpp:201-206 | From power-up with any memory contents: one StartAndEnd frame of any data that fits, one poll, and exactly that data is retrievable |
| Delivery.OneFramePerPoll | src/main.cpp:82-104 | Frames of any total size, each smaller than the ring, can be delivered one per poll |
| Delivery.AnyCutDeliverable | src/main.cpp:82-104 | Any cut of a dictionary of any size into pieces whose frames fit can be delivered from any settled state, and then exactly its bytes are retrievable |
| Delivery.AnyDictionaryDeliverable | src/main.cpp:82-104 | Every dictionary, whatever its size, can be delivered through a ring of 22 bytes or more |
| Delivery.PartialPollHappens | src/main.cpp:89-135 | From any settled state with the two dictionaries a request needs: a batch whose first entry takes effect and whose second throws, so that the poll is neither all nor nothing |
| Retention.MakeRoomRetains | src/rde/external_storer_file.cpp:187-201 | Dropping the oldest path keeps queues and disk in agreement, also when its file could not be removed |
| Retention.ProcessRetains | src/rde/external_storer_file.cpp:176-239 | Storing one entry keeps them in agreement, whatever the file system answers and wherever an exception leaves |
| Retention.ProcessAnswers | src/rde/external_storer_file.cpp:187-238 | In every reachable state: the answer and all queues and files after storing one entry, by room, removal and creation; a failed removal stores nothing and answers false |
| Retention.EveryRunRetains | src/rde/external_storer_file.cpp:187-238 | Over every run: saved is the first stored paths, the queue a contiguous bounded suffix of the rest and empty until saved is full, and the files are those of both plus the ones whose removal failed or whose creation ended in an exception |
| Retention.FailureFreeRunsFillWindow | src/rde/external_storer_file.cpp:187-238 | Without failures every entry is stored and the window holds exactly the latest paths that fit |
| Retention.LogStorer.constructor | src/rde/external_storer_file.cpp:226-238 | Starts with empty queues and no service |
| Retention.LogStorer.ProcessLogEntry | src/rde/external_storer_file.cpp:176-239 | Refused without a service; otherwise one step of the retention machine under the path built from service and identifier, exceptions included |
| Retention.SubPathsDiffer | src/rde/external_storer_file.cpp:203-206 | Different identifiers of one length give different paths under any services, so fresh identifiers give fresh paths |
| Retention.SubPathExample | src/rde/external_storer_file.cpp:203-206 | The path of one entry, spelled out |
| PathGuard.IsValidPath | src/rde/external_storer_file.cpp:31-54 | The walk accepts exactly if its counter is negative after no prefix |
| PathGuard.ValidStaysBelow | src/rde/external_storer_file.cpp:31-54 | The walk accepts exactly the paths whose resolution stays below the base directory |
| PathGuard.InnerEmptyComponentMiscounts | src/rde/external_storer_file.cpp:35-51 | A concrete component list showing that this needs empty components to occur only last |

## Where statements the code might be expected to meet are false

* "A complete dictionary had its checksum verified."  The code completes a dictionary when a Middle
  moves on from it, before it looks at the checksum, and keeps it complete when the trailer has the
  wrong size (`Coverage.MiddleCompletesUnchecked`, `Runs.UncheckedDictionaryExists`); one that was
  rejected can come back (`Coverage.RejectedComesBack`), a complete one can be replaced
  (`Coverage.ReplacedUnchecked`), and the stop flag can complete data it does
  not cover (`Coverage.StoppedButUncovered`).  `Coverage.UncheckedExactly` says for one command, and
  `Coverage.UncoveredExactly` for every run, exactly when.
* "Either all entries of a batch are decoded or none."  The decode loop is inside the try block and
  publishing lets exceptions through (`Delivery.PartialPollHappens`); `Polling.PollIsAtomic` says
  exactly when it holds.
* "Each posted UE log is decoded."  One that is posted while a poll is failing is erased by
  `initialize`; `Concurrent.PostedLogFate` says exactly which ones are.
* "What a poll returns was published, and what is unread is never overwritten."  The BMC reads and
  stores pointers byte by byte: a write pointer read while both bytes change lets it return entries
  nobody published (`Tearing.TornSnapshotInvents`; exactly when: `Tearing.SnapshotExactly`), and a
  half-stored read pointer lets the BIOS overwrite unread ones (`Tearing.TornStoreOverwrites`; exactly
  when: `Tearing.HalfStoreExactly`, `Tearing.AppendExactly`).
* "A normal return consumed exactly the announced bytes."  A last entry that declares more than
  M - 6 bytes can read one whole ring more and still meet the pointer check
  (`Ring.OverReadHappens`); `Ring.OverReadExactly` and, before the call, `Ring.ExactReturnExactly`
  say when it does not.
* "Every write pointer the range check lets through can be reached."  M passes and cannot be
  (`Ring.WritePtrAtEndFails`); exactly the ones below it can (`Ring.WritePtrExactly`).
* "A transfer's dictionary can always be found."  The previous id moves even when a command is
  refused for its flag (`Runs.DictionaryErrorOccurs`, `Runs.DictionaryErrorExactly`).
* `include/rde/rde_handler.hpp:196-207` says the CRC covers whole response packets; the code feeds it
  the data part only, and so does the model.
* `nextDataTransferHandle` is used as the resource id, as the code does.

## Assumptions

* Little-endian host, 64-bit `size_t`; the C++ packed structs have the layouts of the headers.
* `0x30 + UE_REGION_SIZE + 6 <= QUEUE_REGION_SIZE < 65536` and a region at least that large
  (`Config.Valid`, `BufferImpl.RegionFits`); `maxNumLogEntries >= 1`; a 16-byte magic number.
* The BIOS leaves the BMC's header bytes alone and follows the UE switch protocol
  (`Handshake.BiosStep`, `Concurrent.BiosMay`, `Concurrent.BiosFlips`); queue bytes and all its own
  fields are otherwise arbitrary.
* `std::filesystem` yields an empty path component only for a trailing separator.

## Left out

- BEJ decoding and JSON content: external libraries; each operation-init command carries two answers,
  whether it decodes, and whether it is published, refused or leaves by an exception.
- D-Bus objects, timers, `/dev/mem` mapping, volatile semantics and printing: the region is a byte array
  and a timer error a parameter.
- The real file system and UUID generation: removal answers yes or no, creation yes, no or an exception
  with or without a file, and the identifier is a parameter; `removeAll` removes one log file or nothing.
- Interleaving.FifoSafety: of the header only the write pointer's bytes are read one by one, as no other
  byte of it changes under the drain; the BIOS's own accesses to a pointer are one step each, and it
  takes a read pointer past the end of the ring modulo the ring size.
- Concurrent.HandedAtMostOnce: a header read, a flags or pointer store and the read of an unread UE log
  are one step each; the bytes that initialize stores are single steps.  Half-stored and half-read
  pointers are the subject of `Tearing`.
- Concurrent.OwnFieldsAlwaysAgree: says so after every completed store, not between the bytes of one.
- Handshake.EveryRunSettles: the BIOS acts between polls, not inside one; inside a poll its queue writes
  are the subject of `Interleaving` and its flags and UE logs that of `Concurrent`.
- Handshake.NextSettles: likewise.
- Handshake.EveryRunFromBoot: likewise.
- Delivery.TransmissionThroughRing: the BIOS lays out its batches between polls.
- A BIOS that corrupts the BMC's flags, read pointer or sizes: the drain and the read loop are
  specified for such regions too, but the run theorems exclude them.
- PciHandler.PciDataHandler.Read: offsets and lengths whose 32-bit sum wraps to a value inside the region
  are excluded by precondition, as the source's loop would leave the region for them.
- Dictionaries.DictionaryManager.GetDictionaryCount: the counter and the resource ids are unbounded
  naturals; 2^32 dictionaries would be needed to overflow the former.
- RdeHandler.RdeCommandHandler.UpdateCrc: the uint32_t register and table are naturals below 2^32 with
  XOR defined on their bits.
- Dictionary entries are values in the map, not separately owned heap objects.
- ReadLoop.ReadLoop: the try block is two methods and the loop of readErrorLogs is one of its own
  (`DrainEntries`); catch blocks with equal bodies are one branch.
- `processLogService`, `processOtherTypes`, `getSchemaType`, `getRelativePath`: single checks on JSON
  fields that would only add easy members.
