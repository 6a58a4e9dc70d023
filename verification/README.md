# Verified models of a debug-probe firmware

This project models, in Dafny, the engines that sit under the I/O of a standalone debug probe built
on the Black Magic firmware, and proves what each of them is for. Every engine is a small stateful or
bit-level machine with a simple meaning it should agree with; the proofs are that agreement, over all
inputs and all runs.

| engine | files | what is proved |
|---|---|---|
| mass-storage write-back cache | SectorCache, SectorCacheRuns, DiskCaches | every run refines a plain array of sectors; sync makes flash that array; residency is least-recently-written |
| RTT up-channel and control block search | RttChannel, RttSearch | exactly-once delivery while the target keeps producing; the rolling hash is the window's hash and the first match is found |
| GDB remote framing | Hex, GdbPacket, GdbReceiver, GdbStreams, GdbSender | framing round trip on any data and split; soundness of the receiver on arbitrary bytes, and what each shape of stream does to it; chunked replies reassemble |
| ELF and raw image loader | FlashLoader, ElfLayout, NorFlash, FlashSinks, FlashLoads | a successful load leaves the file in NOR flash, blank gaps, and nothing else touched |
| CRC-32 | Crc32Words, Crc32Table, Crc32, Crc32Check | table loop, hardware words with bitwise tail, and the polynomial definition agree on the message at any base; the check value |
| FTDI MPSSE generator | BitStreams, Mpsse, MpsseShift, MpsseHost | queued commands mean the shift and the replies reassemble TDO, for any count, with the exact exceptions |
| JTAG port | JtagTap, JtagProbe | both timing variants drive the same edges, and fault exactly without an output buffer; scans shift exactly their bits and return to idle |
| DAP request ring | DapRing | at most eight unread, none overwritten, FIFO across wraps; where it stalls |
| UART transmit double buffer | UartTx | the line carries what USB sent, in order and once, and a refusing endpoint recovers, exactly in the builds whose packet fits the buffer |
| ITM decoder | Itm | a stream decodes throughout to exactly its stimulus packets, if and only if no timestamp breaks it |
| CMSIS-DAP memory read | DapPackets, DapTiling, DapAdaptor | a read returns memory across the 1 KiB auto-increment limit, for every address and length, exactly with adaptors of suitable packets; how it ends with the others |

`Common` holds the few types and functions that several of them share.

Conventions. Pure datatypes and functions say what a step does; a class with the source's own fields
does the same step in place, its methods' contracts equate the two, and the lemmas are about the
functions. Failures of flash, target accesses, sinks and block reads are arguments or oracles that may
answer anything, so the statements cover every pattern of failure. Integer widths are explicit
wherever the source wraps. Automatic induction is off in every lemma, so each proof is the one written
out.

Where the code does less than its documentation or its natural property, the code is modelled as it is
and the exact condition is proved:

- an eviction whose flush fails (its result is ignored) exposes old flash contents: `SectorCache.WriteRefinesIff`, `SectorCache.EvictionExample`;
- a range whose 32-bit sum of offset and length wraps may pass the test and leave its sector: `SectorCache.TestIff`, `SectorCache.SlipExample`;
- the 32-bit stride address of the control block search may wrap and never pass the end: `RttSearch.ExitsIff`, `RttSearch.TopRangeNeverExits`;
- an identifier found at address 0 is reported as none: `RttSearch.FastSearch`, `RttSearch.MatchAtZero`;
- a segment that ends at the very top of the address space is left out of the erased span if there are others: `NorFlash.SpanCoversIff`, `NorFlash.LoadRightIff`, `NorFlash.TopExample`;
- input of more than 4096 whole bytes is copied past the end of the FTDI command buffer: `MpsseHost.Host.BufferWrite`, `MpsseHost.Host.TdiTdoSeq`;
- a read-only shift of more than 65536 whole bytes clocks fewer bits than asked: `MpsseShift.ShiftClocksIff`;
- the host waits for a reply that never comes in that case, and when TMS is raised on a bit that is first in its byte: `MpsseHost.RepliesShort`, `MpsseHost.Host.TdiTdoSeq`;
- `include/jtagtap.h` lets the output of a shift be null, the code stores all the same and faults at the first byte: `JtagProbe.Port.TdiTdoSeq`;
- queued commands across a pointer wrap stall the request ring: `DapRing.StalledIff`, `DapRing.TwoQueuedStall`;
- in the high-speed build a packet is larger than the UART buffer, which may be overrun and after the first packet takes no other: `UartTx.NeverOverrunsIff`, `UartTx.EveryRefusalEndsIff`, `UartTx.HighSpeedStops`;
- a stimulus header whose size bits are clear swallows the next byte: `Itm.EmptyStimulus`;
- a timestamp that ends in a zero may swallow what follows: `Itm.StreamDecodesIff`, `Itm.StampSwallows`;
- a full block read is one byte too long for packets of size 3 modulo 4: `DapPackets.FitsIff`;
- the host receives CMSIS-DAP answers into 65 bytes, which answers of packets over 66 bytes (65 on HID) overrun: `DapPackets.NeverOverrunsIff`, `DapAdaptor.LargePacketOverruns`, `DapAdaptor.ReadsWorkIff`;
- a CMSIS-DAP command that fails in USB is taken for answered, from a buffer that was never filled: `DapPackets.AcceptsIff`, `DapAdaptor.Adaptor.ReadBlock`;
- a block read loop of which no block fits a transfer goes nowhere: `DapTiling.LoopEndsIff`, `DapAdaptor.Adaptor.ReadChunk`.

`dafny verify dfyconfig.toml` checks the whole project.

## Model

| member | source | states |
|---|---|---|
| SectorCache.FlushKeepsOverlay | components/tinyusb/drivers/msc_disk.c:103-117 | flushing a slot, whether flash takes it or fails in any way, leaves the visible disk (slots over flash) and the invariant as they were; the slot is clean exactly if the flush succeeded or it was clean |
| SectorCache.FlushTouches | components/tinyusb/drivers/msc_disk.c:103-117 | a flush changes no flash but the slot's own sector, and that only if the slot is dirty and the flash is there; then it holds the slot's data, or, after a failed erase or write, anything |
| SectorCache.BindFacts | components/tinyusb/drivers/msc_disk.c:125-139 | taking over a slot gives it the new sector, clean, touches no other slot and no flash but the evicted sector's |
| SectorCache.StoreEffect | components/tinyusb/drivers/msc_disk.c:252-254 | storing into a resident slot patches exactly that sector of the visible disk |
| SectorCache.WriteMissEffect | components/tinyusb/drivers/msc_disk.c:242-255 | a write that misses patches exactly its sector, whatever the recycled buffer held; a failed fill changes nothing visible |
| SectorCache.WriteEffect | components/tinyusb/drivers/msc_disk.c:216-256 | for every write: rejected ones change nothing; accepted ones change the sector named and, only if an eviction flush failed, the evicted sector; no sector is ever in two slots and no free slot is dirty |
| SectorCache.WriteSucceedsIff | components/tinyusb/drivers/msc_disk.c:240-255 | a write succeeds if and only if it is in range and the sector is in the cache, or the whole of it is written, or it can be read from flash; the eviction flush has no part in it |
| SectorCache.WriteRefinesIff | components/tinyusb/drivers/msc_disk.c:125-139 | a write behaves like one to a plain disk if and only if it is not the case that the evicted slot is dirty, its flush fails, and flash differs from it |
| SectorCache.EvictionExample | components/tinyusb/drivers/msc_disk.c:135 | a concrete lost write: the evicted slot is dirty and its flush fails |
| SectorCache.TestIff | components/tinyusb/drivers/msc_disk.c:240 | for 32-bit offset and length the range test accepts exactly the ranges inside the sector, if and only if their sum does not wrap to something no larger than a sector |
| SectorCache.SlipExample | components/tinyusb/drivers/msc_disk.c:240 | one byte at offset 2^32 - 1 of a 512-byte sector passes the test |
| SectorCacheRuns.FlushFromEffect | components/tinyusb/drivers/msc_disk.c:119-123 | flushing all slots, with any pattern of failures, keeps the visible disk and leaves dirty exactly the slots whose flush failed |
| SectorCacheRuns.SyncMakesFlashTheDisk | components/tinyusb/drivers/msc_disk.c:169-176 | a sync or eject whose flushes all succeed leaves flash alone equal to the visible disk, with no dirty slot |
| SectorCacheRuns.StepSyncs | components/tinyusb/drivers/msc_disk.c:169-267 | a sync and an eject bring flash up to the visible disk if no flush fails; a read, and any other start or stop, change nothing |
| SectorCacheRuns.ReadAnswers | components/tinyusb/drivers/msc_disk.c:198-207 | a read succeeds if and only if it is in range and in the cache or readable from flash, and returns the visible disk's bytes |
| SectorCacheRuns.StepRefines | components/tinyusb/drivers/msc_disk.c:169-267 | one callback of any kind, from any good state, whose range does not slip through the test and whose eviction flush does not fail: the visible disk follows a plain array changed only by accepted writes, and whether the callback succeeds follows from the plain array, from what flash answers and from whether the sector is cached |
| SectorCacheRuns.RunRefinesPlainDisk | components/tinyusb/drivers/msc_disk.c:95-267 | over every run of read, write, sync and eject in which no eviction flush fails and no range slips through the 32-bit test, the cache and the plain array agree throughout, every callback succeeds exactly if it should, and every successful read returns the array's bytes |
| SectorCacheRuns.RunKeepsLru | components/tinyusb/drivers/msc_disk.c:125-139 | over failure-free runs of fewer than 2^32 accepted writes, no range slipping through the test, the ticks are exactly the write history, so no absent sector was written after a resident one |
| SectorCacheRuns.EvictionIsLeastRecentlyWritten | components/tinyusb/drivers/msc_disk.c:125-139 | after any such run from a fresh cache the resident sectors are the most recently written distinct ones that fit; reads do not matter |
| SectorCacheRuns.MostRecentUnique | components/tinyusb/drivers/msc_disk.c:125-139 | only one set of sectors can meet that description |
| DiskCaches.DiskCache.CacheReady | components/tinyusb/drivers/msc_disk.c:72-93 | the cache set up on first use is the fresh one, in memory or in the one-slot fallback; afterwards nothing changes |
| DiskCaches.DiskCache.SlotFind | components/tinyusb/drivers/msc_disk.c:95-101 | the slot found is the one holding the sector, or none does |
| DiskCaches.DiskCache.FlushSlot | components/tinyusb/drivers/msc_disk.c:103-117 | new state and result are those of the flush step for every flash outcome |
| DiskCaches.DiskCache.FlushAll | components/tinyusb/drivers/msc_disk.c:119-123 | new state is that of flushing slot after slot |
| DiskCaches.DiskCache.PickVictim | components/tinyusb/drivers/msc_disk.c:125-134 | the first free slot, else the least recently used |
| DiskCaches.DiskCache.SlotBind | components/tinyusb/drivers/msc_disk.c:125-139 | new state is that of the takeover, the flush result being ignored |
| DiskCaches.DiskCache.Read10 | components/tinyusb/drivers/msc_disk.c:178-208 | result is that of the read step and the state does not change, except on a range that passes the wrapped test and leaves its sector, which is flagged exactly then |
| DiskCaches.DiskCache.WriteSector | components/tinyusb/drivers/msc_disk.c:240-255 | new state and result are those of the write step, with the same flag |
| DiskCaches.DiskCache.Write10 | components/tinyusb/drivers/msc_disk.c:216-256 | the same from any state, setting the cache up first |
| DiskCaches.DiskCache.StartStop | components/tinyusb/drivers/msc_disk.c:169-176 | only an eject flushes |
| RttChannel.RunsKeep | components/blackmagic/blackmagic-fw/src/rtt.c:283-326 | bytes unread in the ring stay there, at the same places, however long the target keeps writing |
| RttChannel.RunsConserve | components/blackmagic/blackmagic-fw/src/rtt.c:283-326 | the target's writes keep ring contents equal to what was produced but not acknowledged |
| RttChannel.AdvanceConserves | components/blackmagic/blackmagic-fw/src/rtt.c:317-320 | moving the tail on by n acknowledges exactly the n oldest bytes |
| RttChannel.Link.AlignedRead | components/blackmagic/blackmagic-fw/src/rtt.c:266-280 | the word-aligned read delivers the bytes asked for, at any alignment, although the target runs between any two of its bytes; nothing before the destination is touched |
| RttChannel.Link.ReadSegment | components/blackmagic/blackmagic-fw/src/rtt.c:296-315 | one contiguous read extends the bytes gathered by the next ones of the ring and moves the probe's tail |
| RttChannel.Link.Gather | components/blackmagic/blackmagic-fw/src/rtt.c:293-315 | both reads together give the oldest min(unread, buffer - 8) bytes, across the wrap |
| RttChannel.Link.Commit | components/blackmagic/blackmagic-fw/src/rtt.c:317-325 | bytes are passed on if and only if the tail write succeeded; otherwise the target's tail and the output are unchanged |
| RttChannel.Link.PrintRtt | components/blackmagic/blackmagic-fw/src/rtt.c:283-326 | idle, error and success cases; on success exactly the oldest min(unread, buffer - 8) bytes are passed on |
| RttChannel.Link.CopyDescriptor | components/blackmagic/blackmagic-fw/src/rtt.c:377-383 | the copy of head and tail, taken while the target runs, describes bytes that are really unread |
| RttChannel.Link.Poll | components/blackmagic/blackmagic-fw/src/rtt.c:377-401 | whatever accesses fail and whatever the target does meanwhile, delivered bytes stay a gap-free, duplicate-free prefix of those produced; a successful poll delivers exactly min(unread, buffer - 8); a poll succeeds exactly if something is unread, the reads it makes for that succeed and so does the tail write, and is idle exactly if the descriptor was read and nothing is unread or there is no ring |
| RttChannel.Session | components/blackmagic/blackmagic-fw/src/rtt.c:335-401 | the same over any session of polls and target activity, and bytes once delivered never change |
| RttSearch.RollIsHash | components/blackmagic/blackmagic-fw/src/rtt.c:104-105 | one step of the two-line update turns the hash of a 16-byte window into the hash of the next, for every window and byte |
| RttSearch.RollFits | components/blackmagic/blackmagic-fw/src/rtt.c:104-105 | no intermediate value overflows 64 bits |
| RttSearch.WeightOfOldest | components/blackmagic/blackmagic-fw/src/rtt.c:86-89 | the constant r is the weight 256^15 of the oldest byte modulo q |
| RttSearch.HashOfIdent | components/blackmagic/blackmagic-fw/src/rtt.c:86-89 | the constant p is the hash of the identifier padded to 16 bytes |
| RttSearch.HashesRoll | components/blackmagic/blackmagic-fw/src/rtt.c:96-109 | after every inner step t is the hash of the last 16 bytes, zero-padded before the start |
| RttSearch.IdentifierNotPassed | components/blackmagic/blackmagic-fw/src/rtt.c:103-108 | a true identifier in the range always makes its window match, so the first match is never past it |
| RttSearch.FastSearch | components/blackmagic/blackmagic-fw/src/rtt.c:84-112 | for every 32-bit range: the first window that hashes to p is found across stride boundaries, if and only if no read fails before it; the search goes on below the range exactly when neither a match nor a failed read ends it and the stride address wraps; the caller, to whom 0 means none, sees a match if and only if its address is not 0 |
| RttSearch.MatchAtZero | components/blackmagic/blackmagic-fw/src/rtt.c:157-169 | the identifier at the start of a range at 0 is the first match, and its address is 0 |
| RttSearch.ScanStride | components/blackmagic/blackmagic-fw/src/rtt.c:103-108 | one stride carries the rolling hash on and stops at the first match in it |
| RttSearch.ExitsIff | components/blackmagic/blackmagic-fw/src/rtt.c:96 | the outer loop ends without a match if and only if the last stride address does not wrap 2^32 |
| RttSearch.TopRangeNeverExits | components/blackmagic/blackmagic-fw/src/rtt.c:96 | for 240 bytes at 0xffffff00 every stride address stays below the end |
| Hex.DigitRoundTrip | components/blackmagic/blackmagic-fw/src/hex_utils.c:28-59 | every digit decodes to the value it was made from |
| Hex.DigitDecodes | components/blackmagic/blackmagic-fw/src/hex_utils.c:51-59 | digits of either case decode to a value that prints as the upper-case digit |
| Hex.UnhexOfAny | components/blackmagic/blackmagic-fw/src/hex_utils.c:51-59 | what the two subtractions make of every character, digits or not |
| Hex.OrBits | components/blackmagic/blackmagic-fw/src/hex_utils.c:65 | the digits of a pair are combined bit by bit |
| Hex.Hexify | components/blackmagic/blackmagic-fw/src/hex_utils.c:37-49 | two digits a byte, a terminator, and nothing beyond it |
| Hex.Unhexify | components/blackmagic/blackmagic-fw/src/hex_utils.c:61-67 | each pair of characters decodes to one byte, in order |
| Hex.HexRoundTrip | components/blackmagic/blackmagic-fw/src/hex_utils.c:37-67 | decoding what was encoded gives every buffer back |
| Hex.HexStringToNum | components/blackmagic/blackmagic-fw/src/hex_utils.c:69-80 | the value of the digits before the first other character, at most so many |
| Hex.PrintedIsParsed | components/blackmagic/blackmagic-fw/src/hex_utils.c:69-80 | a number printed in hexadecimal is read back whatever non-digit follows it |
| Hex.CollectDigits | components/blackmagic/blackmagic-fw/src/remote.c:72-83 | the digit array holds the digits lowest first, and one zero for zero |
| Hex.RemoteRespond | components/blackmagic/blackmagic-fw/src/remote.c:66-90 | the response is the code, the number's digits highest first, and the end marker |
| Hex.RemoteDecode | components/blackmagic/blackmagic-fw/src/platforms/hosted/bmp_remote.c:42-50 | the value accumulated is the value of the digit string |
| Hex.NumberRoundTrip | components/blackmagic/blackmagic-fw/src/remote.c:66-90 | every 64-bit value printed is the value decoded, zero included |
| Hex.NoLeadingZero | components/blackmagic/blackmagic-fw/src/remote.c:66-90 | a number is printed in upper-case digits without leading zeros, zero as one digit |
| GdbPacket.EscapeRoundTrip | components/blackmagic/blackmagic-fw/src/gdb_packet.c:250-265 | unescaping an escaped body gives any byte string back |
| GdbPacket.FeedBody | components/blackmagic/blackmagic-fw/src/gdb_packet.c:159-195 | while a body is being received the receiver holds exactly its unescaped bytes and its sum |
| GdbPacket.FeedFrame | components/blackmagic/blackmagic-fw/src/gdb_packet.c:120-248 | a whole frame fed from idle ends as its last digit decides |
| GdbPacket.FramingRoundTrip | components/blackmagic/blackmagic-fw/src/gdb_packet.c:120-307 | for every byte string shorter than the buffer, feeding its wire form from idle returns it and answers with an acknowledgement in ack mode, leaving the rest of the stream unread |
| GdbReceiver.ReceiverSound | components/blackmagic/blackmagic-fw/src/gdb_packet.c:120-248 | on any byte stream, what is returned is the end-of-transmission packet or the unescaped body since the last restart of a frame the stream really ends with, whose sum equals its check digits in ack mode, and it fits the buffer |
| GdbReceiver.OverlongDropped | components/blackmagic/blackmagic-fw/src/gdb_packet.c:244-246 | an over-long packet is dropped together with all that follows up to the next start marker |
| GdbStreams.GoodFrame | components/blackmagic/blackmagic-fw/src/gdb_packet.c:205-228 | a frame whose check digits hold, or any in no-ack mode, returns its unescaped body and is acknowledged, or in no-ack mode is not |
| GdbStreams.BadFrame | components/blackmagic/blackmagic-fw/src/gdb_packet.c:205-234 | a frame whose check digits do not hold is dropped and answered with a negative acknowledgement |
| GdbStreams.BadFrameExample | components/blackmagic/blackmagic-fw/src/gdb_packet.c:212 | `$g#00` is answered `-` |
| GdbStreams.FrameRestarts | components/blackmagic/blackmagic-fw/src/gdb_packet.c:160-165 | a start marker in a body starts it over, silently |
| GdbStreams.IdleBytes | components/blackmagic/blackmagic-fw/src/gdb_packet.c:132-157 | from idle the end of transmission is returned, and a byte that starts nothing is passed over |
| GdbStreams.RemoteEnds | components/blackmagic/blackmagic-fw/src/gdb_packet.c:72-108 | a remote-control packet is handed on byte for byte at its end marker; another start marker starts it over, a frame's start begins that frame, the end of transmission is returned, and a byte too many drops it |
| GdbStreams.SumIsTotal | components/blackmagic/blackmagic-fw/src/gdb_packet.c:175-190 | the running checksum is the sum of the raw body bytes modulo 256 |
| GdbStreams.FlipBit5 | components/blackmagic/blackmagic-fw/src/gdb_packet.c:191 | unescaping flips bit 5 and nothing else |
| GdbStreams.EscapedBody | components/blackmagic/blackmagic-fw/src/gdb_packet.c:250-265 | an escaped body has no `$`, `#` or `*` in it, is longer by one for each byte that had to be escaped, and is the data itself if none had |
| GdbStreams.FrameLooks | components/blackmagic/blackmagic-fw/src/gdb_packet.c:267-287 | a frame is `$`, the escaped body, `#` and its sum in two upper-case digits |
| GdbStreams.FrameOfOk | components/blackmagic/blackmagic-fw/src/gdb_packet.c:267-287 | `OK` goes out as `$OK#9A` |
| GdbStreams.Characters | components/blackmagic/blackmagic-fw/src/include/gdb_packet.h:30-40 | the markers are the characters of the protocol |
| GdbReceiver.PacketReader.Store | components/blackmagic/blackmagic-fw/src/gdb_packet.c:174-195 | a byte is stored in bounds, and buffer, offset and running sum follow the body |
| GdbReceiver.PacketReader.ConsumeRemote | components/blackmagic/blackmagic-fw/src/gdb_packet.c:65-118 | a remote-control packet is swallowed, processed or abandoned as the receiver's specification says |
| GdbReceiver.PacketReader.GetPacket | components/blackmagic/blackmagic-fw/src/gdb_packet.c:120-248 | the loop over states and buffer returns what the specification of the receiver returns, with every store in bounds |
| GdbSender.NextChar | components/blackmagic/blackmagic-fw/src/gdb_packet.c:250-265 | a character goes out escaped if it must be, and the sum covers what went out |
| GdbSender.PutFrame | components/blackmagic/blackmagic-fw/src/gdb_packet.c:274-285 | both halves are sent as one frame with one checksum |
| GdbSender.PutPacket2 | components/blackmagic/blackmagic-fw/src/gdb_packet.c:267-307 | one frame, repeated up to three times until acknowledged, once in no-ack mode |
| GdbSender.SentIsReceived | components/blackmagic/blackmagic-fw/src/gdb_packet.c:267-288 | whatever the split and however often it was repeated, what was sent is received |
| GdbSender.QStringReplyIs | components/blackmagic/blackmagic-fw/src/gdb_main.c:408-430 | a chunk begins with `m` and has as many bytes as asked for or as are left; at the end the reply is `l`, beyond it or on a malformed request `E01` |
| GdbSender.FetchAll | components/blackmagic/blackmagic-fw/src/gdb_main.c:408-430 | a client that advances by what it got always ends at the last chunk with the whole reply, through the framing layer |
| GdbSender.Exchange | components/blackmagic/blackmagic-fw/src/gdb_packet.c:267-288 | a reply packet survives framing and unframing |
| Crc32Words.DivNLinear | components/blackmagic/blackmagic-fw/src/crc32.c:98-101 | division steps are linear over exclusive or, for any number of steps |
| Crc32Words.FeedAllIsDivN | components/blackmagic/blackmagic-fw/src/crc32.c:172-180 | feeding bits one by one is adding them to the top and dividing |
| Crc32Words.DivNSplits | components/blackmagic/blackmagic-fw/src/crc32.c:98-101 | dividing splits into the part of the top bits and the shifted rest, which is what a table look-up uses |
| Crc32Table.TableCorrect | components/blackmagic/blackmagic-fw/src/crc32.c:29-94 | every one of the 256 table entries is eight division steps of its index |
| Crc32Table.TableEntry | components/blackmagic/blackmagic-fw/src/crc32.c:29-94 | the same as words of bits |
| Crc32.CalcFeeds | components/blackmagic/blackmagic-fw/src/crc32.c:98-101 | one table look-up does what feeding the byte's eight bits does |
| Crc32.UnitFeeds | components/blackmagic/blackmagic-fw/src/crc32.c:160-164 | one word through the hardware unit does what feeding its four bytes does |
| Crc32.TailByte | components/blackmagic/blackmagic-fw/src/crc32.c:172-180 | the bitwise tail does what feeding the byte's bits does |
| Crc32.CrcOfMessage | components/blackmagic/blackmagic-fw/src/crc32.c:103-134 | the CRC is that of the bits of the message at the base, fed from the initial value |
| Crc32Check.CheckValue | components/blackmagic/blackmagic-fw/src/crc32.c:103-134 | of the characters `123456789`, wherever they lie, it is 0x0376e6e7, the check value of CRC-32/MPEG-2 |
| Crc32.ByteLoop | components/blackmagic/blackmagic-fw/src/crc32.c:117-131 | the chunked loop folds its step over all bytes in order, for any chunk size |
| Crc32.WordLoop | components/blackmagic/blackmagic-fw/src/crc32.c:147-162 | the word loop folds the unit over all whole words |
| Crc32.GenericCrc32 | components/blackmagic/blackmagic-fw/src/crc32.c:103-134 | the CRC of the message that lies in memory from the base on, all of it as one string of bits, for every memory, base and length, if and only if its reads succeed |
| Crc32.Stm32Crc32 | components/blackmagic/blackmagic-fw/src/crc32.c:140-184 | the same CRC of the same message from words and tail, if and only if its reads succeed |
| FlashLoader.BytesIsSum | components/ui/bmp_standalone_load.c:133-152 | the 32-bit byte count is the sum of the segments' sizes when that fits |
| ElfLayout.EhdrIs | components/ui/bmp_standalone_load.c:11-26 | of a file that begins with an ELF header as the specification lays it out, the loader reads machine, entry and the program header table's place, entry size and count; it takes it if and only if it is ELF, 32-bit, little-endian, for ARM and has entries that are large enough |
| ElfLayout.NoEhdr | components/ui/bmp_standalone_load.c:100-101 | a file shorter than the header is refused |
| ElfLayout.PhdrIs | components/ui/bmp_standalone_load.c:28-37 | of an entry laid out so, the loader reads type, file offset, physical address and size in the file |
| ElfLayout.NoPhdr | components/ui/bmp_standalone_load.c:120-122 | an entry cannot be read if and only if it is not all in the file or lies beyond a signed 32-bit offset |
| ElfLayout.ImageIs | components/ui/bmp_standalone_load.c:63-71 | of a file with such a header and table the segments to flash are, in order, the loadable entries with bytes in the file that the range filter lets through |
| ElfLayout.NoImage | components/ui/bmp_standalone_load.c:120-122 | one entry that cannot be read spoils the load |
| NorFlash.WritesEffect | components/ui/bmp_standalone_load.c:145-152 | a range written in chunks is and-ed into flash once at each of its bytes and nowhere else |
| NorFlash.AndBits | components/ui/bmp_standalone_load.c:144 | a bit survives a write only where flash and data both have it |
| NorFlash.ProgramsInside | components/ui/bmp_standalone_load.c:132-156 | with disjoint segments, a byte of one is and-ed with its file byte exactly once |
| NorFlash.SpanCoversIff | components/ui/bmp_standalone_load.c:110-130 | the erased span covers every segment if and only if none of several ends at the top of the address space |
| NorFlash.SpanIsTight | components/ui/bmp_standalone_load.c:110-130 | the span begins and ends where a segment does, where the top is free |
| NorFlash.LoadedFlash | components/ui/bmp_standalone_load.c:110-172 | after the calls of a load whose segments are disjoint, none of several ending at the very top of memory, in any flash with any sector size: every segment byte is the file's, the rest of the erased sectors is blank, everything else is as it was |
| NorFlash.LoadRightIff | components/ui/bmp_standalone_load.c:110-156 | a load is right at a byte of a segment, whatever flash held before, if and only if the byte is in an erased sector or its file byte is zero |
| NorFlash.TopFreeErased | components/ui/bmp_standalone_load.c:110-130 | every byte of every segment is in an erased sector unless one of several segments ends at the top of memory |
| NorFlash.TopExample | components/ui/bmp_standalone_load.c:123-130 | two one-byte segments at both ends of memory: the upper one is not erased and keeps its old bits |
| NorFlash.SumFits | components/ui/bmp_standalone_load.c:133-151 | the reported byte count cannot overflow unless one of several disjoint segments ends at the top of memory |
| NorFlash.SumFitsIff | components/ui/bmp_standalone_load.c:133-151 | the sizes of disjoint segments add up to less than 2^32 if and only if some address is in none of them |
| NorFlash.OutsideUntouched | components/ui/bmp_standalone_load.c:129-152 | calls that only erase the span and write segments leave all other flash alone, however the segments lie |
| FlashSinks.RanIff | components/ui/bmp_standalone_load.c:97-180 | a load succeeds exactly when the sink would pass every call it makes |
| FlashSinks.Loader.ProgramRange | components/ui/bmp_standalone_load.c:143-152 | the chunk loop writes the range in order up to the first refused call or missing file byte; success means all of it |
| FlashSinks.Loader.VerifyRange | components/ui/bmp_standalone_load.c:73-95 | the range is read back in order and compared; success means all of it matched |
| FlashSinks.Loader.Survey | components/ui/bmp_standalone_load.c:114-126 | the span is from the least start to the greatest 32-bit end of the flashable segments |
| FlashSinks.Loader.ProgramAll | components/ui/bmp_standalone_load.c:132-156 | pass 2 programs every flashable segment in order, with byte and segment counts |
| FlashSinks.Loader.VerifyAll | components/ui/bmp_standalone_load.c:160-172 | pass 3 verifies every flashable segment in order |
| FlashSinks.Loader.LoadElf | components/ui/bmp_standalone_load.c:97-180 | a bad header asks nothing of the sink; otherwise the calls are erase, program, complete, verify up to the first refused, the result reports segments, bytes and entry, and nothing but the span is erased and nothing but the segments written, on every outcome |
| FlashSinks.Loader.LoadBin | components/ui/bmp_standalone_load.c:182-218 | a raw image loads like one segment at its base, including one that ends at the top of memory |
| FlashLoads.SuccessfulLoad | components/ui/bmp_standalone_load.c:97-180 | success on disjoint segments that do not wrap, none of several ending at the very top of memory: flash holds the file on every segment and blank in the gaps, all else unchanged, and the reported byte count is exact |
| FlashLoads.AnyLoad | components/ui/bmp_standalone_load.c:97-180 | on any outcome, for any segments that do not wrap, overlapping or not, flash outside the segments and outside the sectors of the span is untouched |
| FlashLoads.VerifiedLoad | components/ui/bmp_standalone_load.c:160-172 | with a read callback and an arbitrary sink, success means every byte of every segment was read back as the file's |
| FlashLoads.RawLoad | components/ui/bmp_standalone_load.c:184-216 | a raw image whose load succeeded is in flash byte for byte from the base on, its sectors blank otherwise, and everything else as it was |
| FlashLoads.PlanShape | components/ui/bmp_standalone_load.c:128-172 | one erase, then the writes of at most 2048 bytes, one completion, and then, with a read callback, the reads of at most 256 bytes |
| Mpsse.EncodeRoundTrip | components/blackmagic/blackmagic-fw/src/platforms/hosted/ftdi_bmp.c:747-787 | the device parses each encoded command back to itself |
| Mpsse.RunThen | components/blackmagic/blackmagic-fw/src/platforms/hosted/ftdi_bmp.c:682-698 | the device does not care where a stream of complete commands is cut |
| Mpsse.EncodedRun | components/blackmagic/blackmagic-fw/src/platforms/hosted/ftdi_bmp.c:747-787 | running the encoded bytes executes the commands in order |
| MpsseShift.ShiftedIsWanted | components/blackmagic/blackmagic-fw/src/platforms/hosted/ftdi_bmp.c:751-769 | a data command clocks the next bits of the input, or holds TDI |
| MpsseShift.TmsMeaning | components/blackmagic/blackmagic-fw/src/platforms/hosted/ftdi_bmp.c:771-787 | the last bit goes out with TMS raised |
| MpsseShift.CommandsMeaning | components/blackmagic/blackmagic-fw/src/platforms/hosted/ftdi_bmp.c:727-787 | for every count, final-TMS flag and input the host can queue, the queued bytes clock the input's bits in order, TMS raised only on the last and only if asked, with one reply per part; as many bits as asked unless the 16-bit length wraps |
| MpsseShift.ShiftClocksIff | components/blackmagic/blackmagic-fw/src/platforms/hosted/ftdi_bmp.c:751-755 | the bytes queued for a read-only shift clock the count asked for if and only if its whole bytes are at most 65536 |
| MpsseHost.CollectedBits | components/blackmagic/blackmagic-fw/src/platforms/hosted/ftdi_bmp.c:789-807 | the bytes read back, shifted and joined, hold TDO at every one of the edges |
| MpsseHost.RepliesShort | components/blackmagic/blackmagic-fw/src/platforms/hosted/ftdi_bmp.c:762-805 | the device sends as many replies as the host reads, if and only if the length did not wrap and TMS was not raised on a bit that is first in its byte; otherwise fewer |
| MpsseHost.Host.Flush | components/blackmagic/blackmagic-fw/src/platforms/hosted/ftdi_bmp.c:667-680 | flushing moves the queue to the device and loses nothing |
| MpsseHost.Host.BufferWrite | components/blackmagic/blackmagic-fw/src/platforms/hosted/ftdi_bmp.c:682-698 | bytes are appended to the queue in order, wherever the flush falls; after the flush test there is room if and only if they would fit an empty buffer |
| MpsseHost.Host.FlushNow | components/blackmagic/blackmagic-fw/src/platforms/hosted/ftdi_bmp.c:700-706 | everything queued is sent; asking for the replies at once changes nothing else |
| MpsseHost.Host.TakeReplies | components/blackmagic/blackmagic-fw/src/platforms/hosted/ftdi_bmp.c:708-724 | replies are taken in order, or waited for if there are not that many |
| MpsseHost.Host.QueueShift | components/blackmagic/blackmagic-fw/src/platforms/hosted/ftdi_bmp.c:738-787 | exactly the commands of the shift are queued, if and only if its input fits the command buffer |
| MpsseHost.Host.ReadShift | components/blackmagic/blackmagic-fw/src/platforms/hosted/ftdi_bmp.c:789-807 | the output is assembled from the replies, and only its first bytes are touched; it waits exactly when replies are short |
| MpsseHost.Host.TdiTdoSeq | components/blackmagic/blackmagic-fw/src/platforms/hosted/ftdi_bmp.c:727-808 | the whole shift for any count, in place or not: edges as asked, output equal to TDO, no reply left over; overruns exactly on input of more than 4096 whole bytes, waits exactly when replies are short |
| JtagTap.ShiftOut | components/blackmagic/blackmagic-fw/src/platforms/common/jtagtap.c:142-232 | n bits with TMS on the last leave the shift state having clocked just those |
| JtagTap.ShiftStays | components/blackmagic/blackmagic-fw/src/platforms/common/jtagtap.c:142-232 | without TMS on the last bit the controller stays in the shift state, having clocked just those |
| JtagTap.Entry | components/blackmagic/blackmagic-fw/src/include/jtagtap.h:67-71 | the entry sequences reach Shift-IR and Shift-DR from idle, clocking nothing in |
| JtagTap.Leaving | components/blackmagic/blackmagic-fw/src/include/jtagtap.h:73-74 | return to idle ends in idle, or in update if asked for no cycles, after one edge and as many as asked for |
| JtagTap.Scan | components/blackmagic/blackmagic-fw/src/include/jtagtap.h:67-74 | a scan clocks exactly the data's n bits and is back in Run-Test/Idle if and only if it returns with at least one cycle |
| JtagTap.SoftReset | components/blackmagic/blackmagic-fw/src/include/jtagtap.h:64-65 | the reset sequence reaches Run-Test/Idle from every state |
| JtagProbe.PackedBits | components/blackmagic/blackmagic-fw/src/platforms/common/jtagtap.c:142-175 | the output read bit by bit is TDO at each edge, then zeros to the end of the byte |
| JtagProbe.Port.NextState | components/blackmagic/blackmagic-fw/src/platforms/common/jtagtap.c:72-100 | one edge with the levels given, and the answer at it |
| JtagProbe.Port.TmsSeqDelay | components/blackmagic/blackmagic-fw/src/platforms/common/jtagtap.c:102-115 | TMS takes the bits of the word, lowest first, one edge each |
| JtagProbe.Port.TmsSeqNoDelay | components/blackmagic/blackmagic-fw/src/platforms/common/jtagtap.c:117-131 | the same edges |
| JtagProbe.Port.TmsSeq | components/blackmagic/blackmagic-fw/src/platforms/common/jtagtap.c:133-140 | the same edges in either variant |
| JtagProbe.Port.TdiTdoSeqDelay | components/blackmagic/blackmagic-fw/src/platforms/common/jtagtap.c:142-175 | the input's bits at n edges, TMS on the last if asked, the answers packed, also in one shared buffer; it faults if and only if there is no output buffer and n > 0, after the first eight edges |
| JtagProbe.Port.TdiTdoSeqNoDelay | components/blackmagic/blackmagic-fw/src/platforms/common/jtagtap.c:177-221 | the same edges, the same bytes and the same fault |
| JtagProbe.Port.TdiTdoSeq | components/blackmagic/blackmagic-fw/src/platforms/common/jtagtap.c:223-232 | both variants alike, for a null output as well |
| JtagProbe.Port.TdiSeqDelay | components/blackmagic/blackmagic-fw/src/platforms/common/jtagtap.c:234-251 | the same edges without answers |
| JtagProbe.Port.TdiSeqNoDelay | components/blackmagic/blackmagic-fw/src/platforms/common/jtagtap.c:253-282 | the same edges without answers |
| JtagProbe.Port.TdiSeq | components/blackmagic/blackmagic-fw/src/platforms/common/jtagtap.c:284-291 | both variants alike |
| JtagProbe.Port.ScanRegister | components/blackmagic/blackmagic-fw/src/include/jtagtap.h:64-74 | a whole scan through the port: the controller, wherever it started, clocks just the data and ends idle |
| DapRing.CanArmIff | components/tinyusb/drivers/dap-link/vendor_device.c:77-81 | the promoted subtraction allows a transfer if and only if there is room and both pointers are in the same run of 256 |
| DapRing.ArmedSlotIsFree | components/tinyusb/drivers/dap-link/vendor_device.c:77-81 | an armed transfer never targets an unread slot |
| DapRing.ReadyIff | components/tinyusb/drivers/dap-link/vendor_device.c:84-99 | a packet is available exactly when a non-queue packet is among the unread |
| DapRing.ExecutedIs | components/tinyusb/drivers/dap-link/vendor_device.c:101-111 | just the leading run is made executable |
| DapRing.ReceiveKeeps | components/tinyusb/drivers/dap-link/vendor_device.c:240-250 | a received packet joins the unread, an abort or an empty one does not |
| DapRing.AcquireKeeps | components/tinyusb/drivers/dap-link/vendor_device.c:84-114 | queued commands become executable only once a non-queue packet has followed them |
| DapRing.AcquireHands | components/tinyusb/drivers/dap-link/vendor_device.c:112-113 | the oldest unread packet is handed out |
| DapRing.HandedIs | components/tinyusb/drivers/dap-link/vendor_device.c:101-111 | of a packet handed out nothing is changed but the command byte 0x7e, which becomes 0x7f |
| DapRing.ReleaseKeeps | components/tinyusb/drivers/dap-link/vendor_device.c:116-120 | releasing frees the oldest and re-arms where it can |
| DapRing.RunGood | components/tinyusb/drivers/dap-link/vendor_device.c:71-120 | every reachable state: at most eight unread, none overwritten, and what was handed out is what came, in order, across any number of wraps |
| DapRing.LogIs | components/tinyusb/drivers/dap-link/vendor_device.c:240-250 | over any run what came is what was sent while the endpoint was armed, empty packets and aborts left out, in order |
| DapRing.StepGives | components/tinyusb/drivers/dap-link/vendor_device.c:84-120 | a packet is given by a take that finds a non-queue packet unread, and by nothing else |
| DapRing.StalledIff | components/tinyusb/drivers/dap-link/vendor_device.c:71-120 | nothing can move any more if and only if all unread are queued commands and they fill the ring or lie across a wrap |
| DapRing.StalledForever | components/tinyusb/drivers/dap-link/vendor_device.c:71-120 | and then nothing ever does |
| DapRing.TwoQueuedStall | components/tinyusb/drivers/dap-link/vendor_device.c:77-81 | two queued commands as packets 255 and 256 are enough |
| DapRing.Requests.PrepOut | components/tinyusb/drivers/dap-link/vendor_device.c:71-82 | arms exactly as the occupancy test says |
| DapRing.Requests.OnOut | components/tinyusb/drivers/dap-link/vendor_device.c:240-250 | new state is that of the receive step |
| DapRing.Requests.AcquireRequest | components/tinyusb/drivers/dap-link/vendor_device.c:84-114 | new state and result are those of the acquire step, with its two wrapping walks |
| DapRing.Requests.ReleaseRequest | components/tinyusb/drivers/dap-link/vendor_device.c:116-120 | new state is that of the release step |
| UartTx.OnPacketKeeps | components/blackmagic/blackmagic-fw/src/platforms/common/usb_serial.c:313-340 | where a packet is no larger than the buffer, every packet taken fits, and afterwards the endpoint refuses exactly if the next might not |
| UartTx.OnByteKeeps | components/blackmagic/blackmagic-fw/src/platforms/common/aux_serial.c:339-350 | DMA takes the oldest byte not yet sent |
| UartTx.OnDoneKeeps | components/blackmagic/blackmagic-fw/src/platforms/common/aux_serial.c:407-428 | where a packet is no larger than the buffer, the interrupt sends what has gathered or goes idle, and the endpoint takes packets again |
| UartTx.Reachable | components/blackmagic/blackmagic-fw/src/platforms/common/aux_serial.c:325-362 | for all sizes with a packet no larger than the buffer, in every interleaving: DMA never has the buffer being filled, the fill count is within it, and the line is a prefix of what was received with the rest in the two buffers, in order |
| UartTx.ReceivedIs | components/blackmagic/blackmagic-fw/src/platforms/common/usb_serial.c:322-332 | over any run, for any sizes, what was received is the data of the packets of the run, in order |
| UartTx.Drains | components/blackmagic/blackmagic-fw/src/platforms/common/aux_serial.c:407-428 | for all such sizes, from every state DMA alone sends all that was received and ends any refusal |
| UartTx.Delivers | components/blackmagic/blackmagic-fw/src/platforms/common/aux_serial.c:325-362 | from the start, over any run, the line carries a prefix of just what USB sent, and once DMA has drained the buffers all of it |
| UartTx.NeverOverrunsIff | components/blackmagic/blackmagic-fw/src/platforms/common/usb_serial.c:322-323 | every packet taken in any run fits the buffer, if and only if the packet size is at most the buffer size |
| UartTx.EveryRefusalEndsIff | components/blackmagic/blackmagic-fw/src/platforms/common/aux_serial.c:419-425 | every refusal in any run can be ended by DMA, if and only if the packet size is at most the buffer size |
| UartTx.RefusesForever | components/blackmagic/blackmagic-fw/src/platforms/common/aux_serial.c:419-425 | an endpoint that refuses with nothing gathered does so for ever |
| UartTx.HighSpeedStops | components/blackmagic/blackmagic-fw/src/platforms/common/usb_serial.c:335-339 | with 128-byte buffers and 512-byte packets: after one byte the line is idle and no packet is ever taken again |
| UartTx.AuxSerial.SwitchTransmitBuffers | components/blackmagic/blackmagic-fw/src/platforms/common/aux_serial.c:339-350 | DMA gets the filled buffer and the other one is filled next |
| UartTx.AuxSerial.SendLen | components/blackmagic/blackmagic-fw/src/platforms/common/aux_serial.c:352-362 | new bytes are counted and started if the line is idle |
| UartTx.AuxSerial.ReceiveCallback | components/blackmagic/blackmagic-fw/src/platforms/common/usb_serial.c:313-340 | for any sizes: the packet fits or is said to overrun the buffer, exactly; if it fits, the new state is that of the packet step; where a packet is no larger than the buffer the invariant makes it fit and is kept |
| UartTx.AuxSerial.DmaTransmitIsr | components/blackmagic/blackmagic-fw/src/platforms/common/aux_serial.c:407-428 | for any sizes, new state is that of the interrupt step, and keeps the invariant where a packet is no larger than the buffer |
| Itm.Feed | components/blackmagic/blackmagic-fw/scripts/swolisten.c:215-338 | on any byte in any state every buffer index is in range, also on the fall-through from a timestamp |
| Itm.StimDecodes | components/blackmagic/blackmagic-fw/scripts/swolisten.c:271-295 | a stimulus packet is handed on with its channel and payload, from any idle state |
| Itm.SyncDecodes | components/blackmagic/blackmagic-fw/scripts/swolisten.c:238-331 | a sync sequence hands on nothing and ends idle |
| Itm.StampDecodesIff | components/blackmagic/blackmagic-fw/scripts/swolisten.c:297-331 | a timestamp hands on nothing and ends idle, if and only if it does not end in a zero or is not shorter than the count left over |
| Itm.HeaderIgnored | components/blackmagic/blackmagic-fw/scripts/swolisten.c:262-283 | reserved headers, and hardware source headers, are passed over |
| Itm.EmptyStimulus | components/blackmagic/blackmagic-fw/scripts/swolisten.c:269-278 | a stimulus header with clear size bits swallows a byte and hands on an empty packet |
| Itm.SyncEnds | components/blackmagic/blackmagic-fw/scripts/swolisten.c:317-332 | a sync is over with its first other byte, or a sixth zero |
| Itm.StampGivenUp | components/blackmagic/blackmagic-fw/scripts/swolisten.c:297-312 | a timestamp that does not end with its fifth byte is given up |
| Itm.StreamDecodesIff | components/blackmagic/blackmagic-fw/scripts/swolisten.c:215-338 | after every item of a stream the decoder is idle with exactly the stimulus packets so far handed on, if and only if no timestamp ends in a zero while being shorter than the count left by the packet before |
| Itm.StreamDecodes | components/blackmagic/blackmagic-fw/scripts/swolisten.c:215-338 | any sequence of stimulus, overflow, sync and timestamp packets with non-zero last bytes hands on exactly its stimulus packets, in order |
| Itm.StampSwallows | components/blackmagic/blackmagic-fw/scripts/swolisten.c:297-331 | from the start, a sync, a two-byte timestamp ending in zero and a stimulus packet hand on nothing |
| Itm.Decoder.ProtocolPump | components/blackmagic/blackmagic-fw/scripts/swolisten.c:215-338 | new state is that of the feed step |
| Itm.Decoder.PumpAll | components/blackmagic/blackmagic-fw/scripts/swolisten.c:508-513 | the same over a whole read |
| DapTiling.Unit | components/blackmagic/blackmagic-fw/src/include/align.h:45-46 | the widest access that divides both address and length |
| DapPackets.LimitIs | components/blackmagic/blackmagic-fw/src/platforms/hosted/cmsis_dap.c:158-167 | the number of blocks to a transfer, for every packet size; sizes 0 to 2 wrap to a limit that no read reaches |
| DapPackets.FitsIff | components/blackmagic/blackmagic-fw/src/platforms/hosted/cmsis_dap.c:158-167 | a block response fits the adaptor's packet if and only if the packet holds the header and, for a full block, its size is not 3 modulo 4, on bulk and HID alike |
| DapPackets.AcceptsIff | components/blackmagic/blackmagic-fw/src/platforms/hosted/cmsis_dap.c:531-538 | a result is accepted if and only if it is long enough, empty or an error: the subtraction is compared as unsigned |
| DapPackets.NeverOverrunsIff | components/blackmagic/blackmagic-fw/src/platforms/hosted/cmsis_dap.c:294-299 | no block within the limit is answered past the host's 65 bytes, if and only if the packet is smaller than 67 bytes, or 66 on HID |
| DapPackets.BlockEndsIff | components/blackmagic/blackmagic-fw/src/platforms/hosted/dap_command.c:146-180 | how a block ends, by the number of accesses, the kind and size of the answer and the packet size alone |
| DapPackets.SingleEndsIff | components/blackmagic/blackmagic-fw/src/platforms/hosted/dap.c:382-396 | how a single access ends, in the same terms |
| DapPackets.SetUpEndsIff | components/blackmagic/blackmagic-fw/src/platforms/hosted/dap.c:332-348 | how a set-up ends, in the same terms |
| DapTiling.UnpackReads | components/blackmagic/blackmagic-fw/src/target/adiv5.c:1031-1064 | the lanes an aligned address picks from the data word hold memory's bytes, whatever the other lanes hold |
| DapAdaptor.UnpackAll | components/blackmagic/blackmagic-fw/src/platforms/hosted/dap.c:263-282 | all words of a block, picked apart by an address that counts on its own, give the bytes of the accesses in order |
| DapTiling.BurstReads | components/blackmagic/blackmagic-fw/src/platforms/hosted/cmsis_dap.c:556-572 | accesses that stay within 1 KiB read memory in order although only ten address bits count up |
| DapTiling.ChunkWhole | components/blackmagic/blackmagic-fw/src/platforms/hosted/cmsis_dap.c:557-564 | what is read after each address set-up is a whole number of accesses and ends at or before the boundary |
| DapTiling.LoopEndsIff | components/blackmagic/blackmagic-fw/src/platforms/hosted/cmsis_dap.c:565-573 | the counter of the inner loop reaches its end if and only if at least one block fits a transfer |
| DapAdaptor.ReadsWorkIff | components/blackmagic/blackmagic-fw/src/platforms/hosted/cmsis_dap.c:502-576 | with good answers a read of any address and length gets all its memory, if and only if the packet suits: 7 to 66 bytes on bulk, 19 to 65 on HID, and not 3 modulo 4 |
| DapAdaptor.LargePacketOverruns | components/blackmagic/blackmagic-fw/src/platforms/hosted/cmsis_dap.c:510 | a bulk adaptor of 512-byte packets asked for 1 KiB |
| DapAdaptor.Adaptor.ReadBlock | components/blackmagic/blackmagic-fw/src/platforms/hosted/dap_command.c:146-180 | each of a good answer, a fault of any size and no answer ends as the test of the count, the receive buffer and the acceptance of results have it; only a good one within 256 accesses and 65 bytes is unpacked |
| DapAdaptor.Adaptor.ReadChunk | components/blackmagic/blackmagic-fw/src/platforms/hosted/cmsis_dap.c:565-573 | the loop goes through exactly those counter values; the blocks of one page come in order, each once; if it is not done, the last answer did it, or no block fits a transfer and the empty read succeeded; with good answers its first block tells how it ends |
| DapAdaptor.Adaptor.ReadPage | components/blackmagic/blackmagic-fw/src/platforms/hosted/cmsis_dap.c:555-573 | one set-up, if the packet is large enough for it and not too large, reads on from the offset to the end of the page or of the read |
| DapAdaptor.Adaptor.ReadSingle | components/blackmagic/blackmagic-fw/src/platforms/hosted/dap.c:382-396 | a read of one access gives memory, or zeros where it fails, for every packet size and answer |
| DapAdaptor.Adaptor.MemRead | components/blackmagic/blackmagic-fw/src/platforms/hosted/cmsis_dap.c:540-576 | for every adaptor and every pattern of answers: done means all of target memory from the address on, each unit accessed once; failed means a correct prefix, and that the last answer failed; it is stuck exactly when no block fits and the empty read succeeds; with good answers it ends just as `ReadEnds` foretells |

## Left out

- Crc32.GenericCrc32: the keep-alive and timing calls inside the loop are not modelled.
- RttSearch.FastSearch: what the code reads after wrapping to the bottom of memory is flagged and not followed.
- DapAdaptor.Adaptor.MemRead: an address set-up is always answered well (the host ends itself otherwise), the retry of a single access counts with it, the exception raised on an invalid acknowledgement is not modelled, and what an overrun or a never-filled answer leads to is not followed.
- GdbReceiver.PacketReader.GetPacket: the build that runs on a host, where '!' is ignored (`gdb_packet.c:111-117`), is not modelled.
- FlashLoads.SuccessfulLoad: segments that overlap are not covered, and a segment at the very top of memory beside others is covered by `NorFlash.LoadRightIff` instead.
- MpsseHost.Host.TdiTdoSeq: what an overrun of the command buffer does to the memory behind it is not modelled.
- DiskCaches.DiskCache.Write10: slot buffers are one sequence per slot rather than one flat allocation, and an access that leaves its sector is flagged and not followed.
- UartTx.AuxSerial.ReceiveCallback: a packet that overruns the buffer is not followed; each callback is one step; redirection to RTT and the build that drops packets while the UART is off are not modelled.
- DapRing.Requests.OnOut: a transfer is one packet, packets are sequences rather than 64-byte slots with a length.
- GdbSender.FetchAll: parsing of the request's two numbers is not modelled; a malformed request is one case of the reply function.
- The SD-card path, inquiry, capacity and readiness callbacks of the mass-storage driver: thin calls.
- Sharing of the storage partition between the host and the application: the cache is modelled for host-only runs.
- The RTT down-channel, the plain memory search and the control block's channel set-up: easy beside the two engines modelled.
- The responses of the DAP vendor interface.
- Block writes, read-back of JTAG sequences through CMSIS-DAP and raw SWD output through FTDI.
- JTAG idle cycling and the tables of cable and device descriptions.
- Remote-control commands beyond their number format, monitor commands, target drivers and all user interface code.
- GPIO, clocks, delays and dividers: only the order of pin edges is kept.
