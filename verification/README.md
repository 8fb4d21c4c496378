# A verified model of libhdhomerun's protocol and streaming core

libhdhomerun finds HDHomeRun network TV tuners, controls them, and receives the streams they send.
This project models the parts of the library that carry state or do the arithmetic: the packet
codec and its CRC, the control connection's framing, the video receive ring and its statistics, the
PID filter printer, the plot decoder that overwrites its own input, the channel list and the scan
over it, the debug message queue, and discovery's socket table and result list. Where the library
changes things in place the model does so too: a class over an array with cursors, doubly linked
entries, a table compacted in place. Each such method is proved against a function of the old
state, and what the library promises is proved about that function, over all inputs and all runs.

| file | models |
|---|---|
| `Bytes.dfy` | bytes, machine words, `Option` |
| `LinearRegister.dfy`, `Crc32.dfy`, `FrameCheck.dfy` | shift registers in general; the CRC-32 of section 3.2.9 of IEEE 802.3, bit by bit, and the library's byte step (section 8 of RFC 1952 gives both forms); the frame trailer and burst errors |
| `Frame.dfy`, `Tlv.dfy`, `Packet.dfy` | frames and tag-length-value payloads as byte sequences, and the packet buffer with its four cursors |
| `Control.dfy` | get/set requests, and the receive loop over a TCP stream |
| `VideoModel.dfy`, `VideoStats.dfy`, `VideoRuns.dfy`, `VideoChecks.dfy`, `VideoStream.dfy`, `Video.dfy` | the receiver as a state machine, what its error counters count, the ring over whole runs, the counters when unlocked checks and flushes interleave, what datagrams become, and the class over the ring buffer |
| `PidFilter.dfy`, `PlotSample.dfy` | the PID filter text; plot samples decoded over their own text |
| `ChannelOrder.dfy`, `Channels.dfy` | the order of the channel list on values; the linked list |
| `ScanRuns.dfy`, `ChannelScan.dfy` | scans as runs over a list; the scan object |
| `DebugRuns.dfy`, `DebugQueue.dfy` | producers, consumer and flush as a protocol; the linked queue |
| `SocketTable.dfy`, `DeviceList.dfy` | discovery's sockets; discovery's result list |

Concurrency is modelled by steps: what the library does under a lock is one step, what it does
without one is a step for every access to shared memory, and so is every write under a lock that such
an access can meet. The theorems about runs hold for every interleaving of steps. Outcomes the
library does not decide (received bytes, what a recv call finds, whether a send, a bind or a tuner
lock succeeds, when a deadline passes) are parameters over which every theorem quantifies. Machine
arithmetic is written out where it can wrap: packet counters, frequencies, the skip bound of the
scan, the progress percentage, the depth of the queue, the length field of a frame.

Five behaviours of the code are easy to miss, and the model follows the code:

- The RTP check takes no lock, and a flush from the other thread can fall into it. If the check has
  read the last number and sees a gap, and the whole flush comes before it stores the error counter,
  the counter is wrong until the next flush: one too high, or the old count comes back one higher
  (`VideoChecks.RaceHappens`, `VideoChecks.OldCountComesBack`). `VideoChecks.NetworkCounterIsRightIff`
  gives the exact condition; the other counters are always right. A header belongs to the history
  since a flush if its number is written after the flush forgot the last one.
- The bounded printf offers the C library one byte less than there is, so a text one character too
  long is cut and still reported as printed (`PidFilter.Sprintf`). In the PID filter this cannot
  happen, because all lengths are multiples of seven and 1023 is not.
- A scan result below 5.5 MHz hides nothing: the skip bound wraps round (`ScanRuns.Hides`).
- Tokens of one or two digits make the plot decoder overwrite text it has not read.
  `PlotSample.SameAsCopy` gives the exact condition under which the result is still right, and
  `PlotSample.ShortTokensAreLost` a text for which it is not.
- With no PID selected the filter buffer is sent as it was found, uninitialised
  (`PidFilter.SetTunerFilterByArray`).

`dafny verify dfyconfig.toml` checks the project.

## Model

| member | source | states |
|---|---|---|
| LinearRegister.BurstIsDetected | libhdhomerun/hdhomerun_pkt.c:48-65 | two inputs that differ only inside a window no longer than the register leave any linear, injective, shifting register in different states, whatever surrounds the window |
| Crc32.ByteStepIsBitSerial | libhdhomerun/hdhomerun_pkt.c:53-62 | one byte step, eight conditional XORs with table words, equals eight clocks of the bit-serial reflected CRC register, for every register value and byte |
| Crc32.RegisterIsLinear | libhdhomerun/hdhomerun_pkt.c:48-65 | clocking the CRC register is linear over XOR, which makes it an instance of the general register |
| FrameCheck.CalcCrc | libhdhomerun/hdhomerun_pkt.c:48-65 | the loop over the buffer computes the bit-serial CRC-32 of the bytes from start to end |
| FrameCheck.CheckValue | libhdhomerun/hdhomerun_pkt.c:48-65 | the CRC of the digits one to nine is 0xCBF43926, the usual check value of CRC-32 |
| FrameCheck.CheckTrailer | libhdhomerun/hdhomerun_pkt.c:232-236 | those digits are followed on the wire by 26 39 F4 CB, the lowest byte first |
| FrameCheck.MatchesOnlyTheCrc | libhdhomerun/hdhomerun_pkt.c:208-215 | the four trailer bytes are accepted iff they are the CRC, lowest byte first |
| FrameCheck.AcceptanceByResidue | libhdhomerun/hdhomerun_pkt.c:206-215 | the trailer is accepted iff the register, run on over the trailer, ends in one fixed residue that does not depend on the frame |
| FrameCheck.BurstBreaksMatch | libhdhomerun/hdhomerun_pkt.c:206-215 | of two different strings that agree outside 32 consecutive bits, at most one carries an accepted trailer |
| Frame.OpenIffSealed | libhdhomerun/hdhomerun_pkt.c:189-239 | opening yields type and payload iff the bytes start with exactly the frame sealed from them, for every payload up to 65535 bytes and whatever follows |
| Frame.OpenedIsSealed | libhdhomerun/hdhomerun_pkt.c:189-221 | whatever is accepted starts with the seal of what it was opened to |
| Frame.SealLayout | libhdhomerun/hdhomerun_pkt.c:223-239 | on the wire: type and length high byte first, the payload, and the CRC of all that |
| Frame.OpenCases | libhdhomerun/hdhomerun_pkt.c:189-221 | for every byte string: incomplete iff shorter than its length field says, and otherwise accepted with type and payload iff the trailer is the CRC, damaged iff not |
| Frame.ProperPrefixIncomplete | libhdhomerun/hdhomerun_pkt.c:193-204 | every proper prefix of a frame opens as incomplete, never as a frame or an error |
| Frame.BurstIsCorrupt | libhdhomerun/hdhomerun_pkt.c:206-215 | every change of an accepted frame inside 32 consecutive bits that spares the length field makes opening fail |
| Frame.FourBytesDamaged | libhdhomerun/hdhomerun_pkt.c:206-215 | every change of up to four consecutive bytes of type, payload or trailer makes opening fail |
| Frame.U32RoundTrip | libhdhomerun/hdhomerun_pkt.c:81-89 | a 32-bit word reads back from its big-endian bytes |
| Tlv.LengthRoundTrip | libhdhomerun/hdhomerun_pkt.c:91-110 | a variable-length number reads back, whatever follows, as itself up to 127 and otherwise modulo 32768 |
| Tlv.LengthLayout | libhdhomerun/hdhomerun_pkt.c:165-177 | a length is one byte up to 127, else the low seven bits under a set top bit and then the higher bits |
| Tlv.ReadFieldMeaning | libhdhomerun/hdhomerun_pkt.c:91-126 | for every byte string what the reader takes for a field: tag, either spelling of a length, and that many bytes that must all be there |
| Tlv.DecodeEncoded | libhdhomerun/hdhomerun_pkt.c:112-126 | the walk over any encoded fields with values under 32768 bytes, followed by anything that holds no field, visits exactly those fields |
| Tlv.RoundTrip | libhdhomerun/hdhomerun_pkt.c:112-126 | any list of such fields decodes to itself |
| Tlv.ReadsBackIffShort | libhdhomerun/hdhomerun_pkt.c:165-177 | a single field reads back iff its value is shorter than 32768 bytes |
| Packet.Pkt.constructor | libhdhomerun/hdhomerun_pkt.c:23-33 | a new packet has all its cursors 1024 bytes into the buffer |
| Packet.Pkt.ReadU16 | libhdhomerun/hdhomerun_pkt.c:73-79 | reads the next two bytes as a big-endian number and moves past them |
| Packet.Pkt.ReadU32 | libhdhomerun/hdhomerun_pkt.c:81-89 | reads the next four bytes as a big-endian number and moves past them |
| Packet.Pkt.ReadVarLength | libhdhomerun/hdhomerun_pkt.c:91-110 | reads exactly what the length grammar says, moving past the bytes read, with the error value if the packet ends inside |
| Packet.Pkt.ReadTlv | libhdhomerun/hdhomerun_pkt.c:112-126 | returns tag, length and the position behind the value iff a field is there; a length cut off by the end gives the all-ones length and a pointer one byte back |
| Packet.Pkt.WriteVarLength | libhdhomerun/hdhomerun_pkt.c:165-177 | writes one or two bytes at the write position, leaves every other byte, and raises the end only if needed |
| Packet.Pkt.WriteU32 | libhdhomerun/hdhomerun_pkt.c:153-163 | writes four bytes, highest first, and leaves every other byte |
| Packet.Pkt.WriteMem | libhdhomerun/hdhomerun_pkt.c:179-187 | writes the bytes and leaves every other byte |
| Packet.Pkt.AppendField | libhdhomerun/hdhomerun_control.c:268-270 | writing tag, length and value at the end appends the encoding of the field to the content |
| Packet.Pkt.SealFrame | libhdhomerun/hdhomerun_pkt.c:223-239 | in the buffer, the payload between start and end becomes the sealed frame, using the space before it and four bytes behind it |
| Packet.Pkt.OpenFrame | libhdhomerun/hdhomerun_pkt.c:189-221 | in the buffer, returns 0, -1 or 1 as the bytes are incomplete, damaged or a frame, and leaves exactly the payload between the cursors in the last case and the cursors alone otherwise |
| Control.BuildRequest | libhdhomerun/hdhomerun_control.c:260-291 | refuses iff a size check fails; otherwise the packet holds the fields of the request and stays inside the limit |
| Control.SealRequest | libhdhomerun/hdhomerun_control.c:213-215 | a request that fits goes out as the sealed frame of its fields |
| Control.RequestDecodes | libhdhomerun/hdhomerun_control.c:261-291 | every request that is not refused opens and decodes to name, optional value and optional lockkey exactly as given, and leaves room for the CRC |
| Control.RequestLayout | libhdhomerun/hdhomerun_control.c:268-291 | the decoded request is field 3 with the name and a zero byte, then field 4 with the value and a zero byte if there is one, then field 21 with the four bytes of the lockkey, high byte first, if it is not zero |
| Control.WhichRequestsFit | libhdhomerun/hdhomerun_control.c:263-287 | which requests are refused, as sums of string lengths against 2046 bytes |
| Control.SplitDoesNotMatter | libhdhomerun/hdhomerun_control.c:179-211 | for a stream that starts with a frame of at most 2046 bytes, the receive loop returns its type and payload iff the pieces delivered add up to the frame, whatever the split; it never reports damage |
| Control.ReceivedIsSealed | libhdhomerun/hdhomerun_control.c:179-211 | for every stream and split, what is received is a sealed frame the stream starts with, of at most 2046 bytes |
| Control.DamagedIsRefused | libhdhomerun/hdhomerun_control.c:201-206 | a frame damaged inside 32 consecutive bits, the length spared, ends in a frame error iff all of it arrives, whatever the split, and is never received |
| Control.LongFrameNeverReceived | libhdhomerun/hdhomerun_control.c:192-197 | a frame larger than the receive buffer is never received, however it arrives |
| Control.ControlSock.RecvSock | libhdhomerun/hdhomerun_control.c:179-211 | the loop over the packet buffer yields what the receive function says, and the socket stays open iff a good frame arrived |
| Video.VideoSock.Create | libhdhomerun/hdhomerun_video.c:65-71 | a request for fewer than 1316 bytes is refused; otherwise the ring holds the whole packets requested and one more |
| Video.VideoSock.StatsTsPkt | libhdhomerun/hdhomerun_video.c:161-191 | the statistics of one transport packet read from the ring update the tables as in the state machine |
| Video.VideoSock.ReadNumber | libhdhomerun/hdhomerun_video.c:196-199 | the check's read of the last sequence number, in whatever state the consumer has left things |
| Video.VideoSock.WriteNumber | libhdhomerun/hdhomerun_video.c:200-210 | its write of the new number; the check goes on iff the number read is neither none nor the one before |
| Video.VideoSock.LoadErrorCount | libhdhomerun/hdhomerun_video.c:213 | its load of the network error counter |
| Video.VideoSock.StoreErrorCount | libhdhomerun/hdhomerun_video.c:213 | its store of one more than was loaded, modulo 2^32, whatever the counter is by then |
| Video.VideoSock.ForgetChecking | libhdhomerun/hdhomerun_video.c:216-219 | each of its 8192 writes to the continuity counters |
| Video.VideoSock.ParseRtp | libhdhomerun/hdhomerun_video.c:193-220 | with nothing in between, the accesses in order: the number is updated, and after a gap one error counted and all 8192 continuity counters forgotten |
| Video.VideoSock.CopyIn | libhdhomerun/hdhomerun_video.c:251-254 | copying a packet to the head, even one that will be dropped, disturbs neither what is held nor the region on loan |
| Video.VideoSock.StorePacket | libhdhomerun/hdhomerun_video.c:249-281 | the locked part of the thread is one store step of the state machine on the array, and the loaned bytes are unchanged |
| Video.VideoSock.ThreadExecute | libhdhomerun/hdhomerun_video.c:222-285 | with nothing in between, any sequence of datagrams of any sizes fills the ring with their data in order, except for those that find it full, and counts each that has data; the loaned bytes are unchanged |
| Video.VideoSock.RecvRegion | libhdhomerun/hdhomerun_video.c:287-333 | one receive step; the pointer and size returned denote the region on loan, and there is none iff the region is empty |
| Video.VideoSock.EmptyRing | libhdhomerun/hdhomerun_video.c:339-342 | the flush's first writes: the ring is emptied at the head and the last number forgotten |
| Video.VideoSock.ForgetFlushing | libhdhomerun/hdhomerun_video.c:344-347 | each of its 8192 writes to the continuity counters |
| Video.VideoSock.ZeroErrorCounts | libhdhomerun/hdhomerun_video.c:349-353 | its zeroing of the counts |
| Video.VideoSock.FlushAll | libhdhomerun/hdhomerun_video.c:335-356 | with nothing in between, the writes in order leave an empty ring and fresh statistics, at whatever point of a check |
| VideoRuns.FirstInFirstOut | libhdhomerun/hdhomerun_video.c:249-333 | in every run in which no flush begins, the bytes handed out followed by those waiting are the bytes waiting before followed by those accepted |
| VideoRuns.SinceFlush | libhdhomerun/hdhomerun_video.c:335-356 | since the latest flush began, whatever came before it, bytes handed out followed by bytes waiting are the bytes accepted |
| VideoRuns.LoanIsStable | libhdhomerun/hdhomerun_video.c:251-279 | the region handed out is unchanged by any number of producer steps, overflowing ones included |
| VideoRuns.HandsOut | libhdhomerun/hdhomerun_video.c:294-328 | for every size asked: a call hands out the front of what waits, in whole packets, no more than asked and not across the ring's end, and as much as one of these allows; it is not empty if a packet waits and one was asked for |
| VideoRuns.CallsDrain | libhdhomerun/hdhomerun_video.c:287-333 | as many calls as packets wait hand out all of them, for every size of at least one packet |
| VideoRuns.ExactCapacity | libhdhomerun/hdhomerun_video.c:65-71 | in every run of a receiver made for a requested size, a packet is dropped iff exactly floor(requested size / 1316) packets are held, loaned ones included, and is appended otherwise; more are never held |
| VideoRuns.TwoCallsDrain | libhdhomerun/hdhomerun_video.c:294-328 | two receive calls for the whole ring hand out everything that waits, in spite of the wrap-around |
| VideoRuns.Conservation | libhdhomerun/hdhomerun_video.c:257-274 | since the latest flush, packet_count is packets returned plus packets waiting plus overflow_error_count, modulo 2^32, whatever check is going on |
| VideoChecks.StepKeeps | libhdhomerun/hdhomerun_video.c:193-356 | every access of a check and every step of either thread keeps the relation between the tables, the counters and the history since the latest flush began |
| VideoChecks.TsCountersAreReferenceCounts | libhdhomerun/hdhomerun_video.c:161-191 | in every interleaving, also inside a check, the sequence and transport error counters are the number of such errors in the history since the latest flush began, modulo 2^32 |
| VideoChecks.NetworkCounter | libhdhomerun/hdhomerun_video.c:193-220 | in every interleaving, between checks, the network error counter is the number of network errors in that history and what a check that the latest flush fell into adds to it, modulo 2^32 |
| VideoChecks.NetworkCounterIsRightIff | libhdhomerun/hdhomerun_video.c:193-220 | between checks the network error counter is the number of network errors since the latest flush began iff no check that saw a gap had yet to store the counter when that flush ended, or the check had loaded 2^32-1 |
| VideoChecks.RaceBeganBefore | libhdhomerun/hdhomerun_video.c:339-353 | such a check had read the last number before that flush began |
| VideoChecks.RaceHappens | libhdhomerun/hdhomerun_video.c:199-213 | a run from the start with numbers 5 and 10 and a flush inside the second check counts one network error where the history has none |
| VideoChecks.OldCountComesBack | libhdhomerun/hdhomerun_video.c:213 | a flush between load and store leaves the count from before it, one higher, with nothing arrived since |
| VideoChecks.RecvInsideCheck | libhdhomerun/hdhomerun_video.c:287-333 | a recv at any point of a check is as good as one behind the check, and changes none of the statistics |
| VideoChecks.CheckAlone | libhdhomerun/hdhomerun_video.c:193-220 | the accesses of a check with nothing in between amount to one update of number, error counter and continuity counters |
| VideoChecks.FlushAlone | libhdhomerun/hdhomerun_video.c:335-356 | the writes of a flush with nothing in between amount to an empty ring and fresh statistics |
| VideoStats.RtpTest | libhdhomerun/hdhomerun_video.c:199-213 | comparing with the remembered number reports an error iff the history holds an earlier header that this one does not follow (section 5.1 of RFC 3550) |
| VideoStats.SequenceTest | libhdhomerun/hdhomerun_video.c:175-190 | comparing with the table entry reports an error iff the PID's latest packet since its last restart has a counter neither equal to nor one below this one (section 2.4.3.3 of ISO/IEC 13818-1) |
| VideoStream.StreamFills | libhdhomerun/hdhomerun_video.c:232-264 | from datagrams to bytes: those of 1316 bytes and the last 1316 of the first 1328 bytes of longer ones enter the ring as they came if there is room; the history gains the number in bytes 2 and 3, high byte first, of each with a header, and every 188 bytes of data; other sizes add nothing |
| VideoModel.HeaderFields | libhdhomerun/hdhomerun_video.c:163-175 | a transport stream header assembled from its fields reads back as PID, error indicator and counter (section 2.4.3.2 of ISO/IEC 13818-1) |
| PidFilter.RunsAreUnique | libhdhomerun/hdhomerun_device.c:903-928 | a selection has only one list of sorted, disjoint, maximal runs |
| PidFilter.RunsAreRuns | libhdhomerun/hdhomerun_device.c:903-935 | the scan over the array finds exactly that list |
| PidFilter.ReadText | libhdhomerun/hdhomerun_device.c:888-895 | any list of ranges is read back from its text |
| PidFilter.HexLayout | libhdhomerun/hdhomerun_device.c:891-893 | a number is "0x" and four hexadecimal digits from the highest down |
| PidFilter.TextLayout | libhdhomerun/hdhomerun_device.c:888-895 | one number for a single PID, two with a minus sign between for a range, one space between ranges and none at the end |
| PidFilter.FilterMeaning | libhdhomerun/hdhomerun_device.c:897-943 | the text for a nonempty selection reads back as its maximal runs, which cover exactly the selected PIDs |
| PidFilter.Sprintf | libhdhomerun/hdhomerun_os_posix.c:100-119 | success and the whole buffer afterwards, for every buffer position and text, on success and failure; an empty text at the last byte leaves the buffer as it was |
| PidFilter.PrintoutString | libhdhomerun/hdhomerun_os_posix.c:106-116 | with at least two bytes of room the buffer then holds as much of the text as keeps its terminator off the last byte, and what was before it |
| PidFilter.Append | libhdhomerun/hdhomerun_device.c:888-895 | appending a range succeeds iff at most 146 units of seven characters result, and then nothing is cut |
| PidFilter.SetTunerFilterByArray | libhdhomerun/hdhomerun_device.c:897-943 | the text sent is that of the runs iff single runs plus twice the longer ones are at most 146; nothing is sent otherwise |
| PlotSample.ExtendIsSigned | libhdhomerun/hdhomerun_device.c:711-722 | extending bit 11 and storing 16 bits in memory gives the 12-bit two's complement value |
| PlotSample.SampleLayout | libhdhomerun/hdhomerun_device.c:711-722 | of a number of 8, 12 and 12 bits the middle field is the real part and the low one the imaginary part; the memory written holds them in this order, as 16-bit numbers |
| PlotSample.DecodeSpaced | libhdhomerun/hdhomerun_device.c:699-727 | a text of tokens, each followed by a space, means one sample for each in order, up to the first that does not convert or has no space behind it |
| PlotSample.SameAsCopy | libhdhomerun/hdhomerun_device.c:699-727 | decoding over the text itself gives the samples of an untouched copy iff every sample that another one follows fits into the text already read |
| PlotSample.ThreeDigitsAreRoomy | libhdhomerun/hdhomerun_device.c:699-727 | tokens of at least three characters always leave that room |
| PlotSample.ShortTokensAreLost | libhdhomerun/hdhomerun_device.c:699-727 | for two one-digit tokens the condition fails and one sample of two is lost |
| PlotSample.DecodeInPlace | libhdhomerun/hdhomerun_device.c:695-730 | the loop over the buffer it overwrites yields exactly the samples up to the first that runs into unread text, signed tokens included |
| ChannelOrder.RoundingLaws | libhdhomerun/hdhomerun_channels.c:270-279 | while the sum does not overflow, rounding gives the nearest multiple of 125 kHz, the upper of two, and keeps order |
| ChannelOrder.RoundedIsFixed | libhdhomerun/hdhomerun_channels.c:270-279 | rounding a multiple of the resolution changes nothing, up to the largest 32-bit one |
| ChannelOrder.RangeMeaning | libhdhomerun/hdhomerun_channels.c:344-360 | a range gives one channel for each of its numbers, with the frequency at its place in the spacing, in 32 bits, moved to the nearest multiple of 125 kHz |
| ChannelOrder.NameLayout | libhdhomerun/hdhomerun_channels.c:356 | a name is the map, a colon and the number in decimal, cut to fourteen characters |
| ChannelOrder.DecimalRoundTrip | libhdhomerun/hdhomerun_channels.c:356 | the decimal digits read back as the number |
| ChannelOrder.ContainsMeaning | libhdhomerun/hdhomerun_channels.c:391 | a record is meant iff its map stands somewhere in the text asked for |
| ChannelOrder.OneRecord | libhdhomerun/hdhomerun_channels.c:390-398 | a record contributes the channels of its ranges if it is meant and nothing otherwise |
| ChannelOrder.TableAppend | libhdhomerun/hdhomerun_channels.c:390-398 | records contribute each for itself, in the order of the table |
| ChannelOrder.RangesAppend | libhdhomerun/hdhomerun_channels.c:362-369 | ranges contribute each for itself, in order |
| ChannelOrder.OneRange | libhdhomerun/hdhomerun_channels.c:365-368 | a range without a frequency ends the record, any other contributes its channels |
| ChannelOrder.BuildSorts | libhdhomerun/hdhomerun_channels.c:314-369 | inserting any sequence of channels gives its stable sort by frequency |
| ChannelOrder.StableSortIsUnique | libhdhomerun/hdhomerun_channels.c:314-342 | there is only one stable sort |
| ChannelOrder.BuildKeepsEntries | libhdhomerun/hdhomerun_channels.c:344-369 | every generated entry is in the list exactly as often as it was generated |
| ChannelOrder.BuiltList | libhdhomerun/hdhomerun_channels.c:382-406 | a list built from any table is the stable sort of the generated channels, all at multiples of 125 kHz |
| ChannelOrder.NumberAtMeaning | libhdhomerun/hdhomerun_channels.c:295-312 | a full scan for a frequency finds the number of the first channel there, or zero |
| ChannelOrder.FrequencyOfFirst | libhdhomerun/hdhomerun_channels.c:281-293 | the lookup by number finds the frequency of the first entry with it, or zero |
| ChannelOrder.ThereAndBack | libhdhomerun/hdhomerun_channels.c:281-312 | from a channel number to its frequency and back gives a number some channel of that frequency has |
| ChannelOrder.FrequencyCountIsDistinct | libhdhomerun/hdhomerun_channels.c:252-268 | on an ordered list the count of changes is the number of distinct frequencies other than zero |
| Channels.ChannelList.BuildInsert | libhdhomerun/hdhomerun_channels.c:314-342 | linking an entry in keeps head, tail, next and prev in agreement and inserts it behind all entries of its frequency |
| Channels.ChannelList.BuildRange | libhdhomerun/hdhomerun_channels.c:344-360 | the list afterwards is the old one with every channel of the range inserted in order |
| Channels.CreateList | libhdhomerun/hdhomerun_channels.c:382-406 | for any table the list is the insertion of all matching records' channels, well linked, or null iff there are none |
| Channels.ChannelList.FrequencyCount | libhdhomerun/hdhomerun_channels.c:252-268 | the loop counts the changes of frequency along the list |
| Channels.ChannelList.NumberToFrequency | libhdhomerun/hdhomerun_channels.c:281-293 | finds the frequency of the first entry with the number |
| Channels.ChannelList.FrequencyToNumber | libhdhomerun/hdhomerun_channels.c:295-312 | on an ordered list the walk that stops early agrees with the full scan |
| ChannelScan.Scan.Advance | libhdhomerun/hdhomerun_channelscan.c:224-257 | reports the next frequency down with the names of all its channels and leaves the next channel just below; reports nothing iff none is left |
| ChannelScan.NamesMeaning | libhdhomerun/hdhomerun_channelscan.c:236-254 | the names stand from the last entry of the frequency down, with a comma and a space between two |
| ChannelScan.ClipMeaning | libhdhomerun/hdhomerun_channelscan.c:236-253 | of which the first 62 characters are kept |
| ChannelScan.Scan.Detect | libhdhomerun/hdhomerun_channelscan.c:259-322 | counts the call, and iff it gets that far skips to the first channel at or below the wrapped bound |
| ChannelScan.Scan.GetProgress | libhdhomerun/hdhomerun_channelscan.c:324-347 | the percentage from the scanned count and the distinct frequencies left, in 32-bit arithmetic |
| ChannelScan.CreateScan | libhdhomerun/hdhomerun_channelscan.c:30-47 | a scan over the list built from any table starts at its last entry |
| ChannelScan.Scan.ScanRound | libhdhomerun/hdhomerun_config.c:287-298 | one advance and any number of detects on the object are one round of the run, and the result carries the report's frequency and names |
| ChannelScan.Scan.ScanRounds | libhdhomerun/hdhomerun_config.c:287-298 | any number of rounds on the object are the run: position, scanned count and reports, with one result for each report |
| ChannelScan.EveryBuiltScan | libhdhomerun/hdhomerun_channelscan.c:224-347 | for every table, every run and every pattern of locks: the list is ordered, the scan's guarantees hold, it ends within one round per distinct frequency, and up to 42915312 detects progress has not fallen, has not overflowed, and is below 100 iff a channel remains |
| ScanRuns.RunScans | libhdhomerun/hdhomerun_channelscan.c:224-318 | in every run reports are whole frequencies and fall strictly, the next channel is null or the last of its frequency, and a passed channel is reported iff no locked report lies less than 5.5 MHz above it |
| ScanRuns.HidesMeaning | libhdhomerun/hdhomerun_channelscan.c:307-318 | a locked report hides the channels less than 5500000 Hz below it, and none if it is itself below that |
| ScanRuns.LockedIfReached | libhdhomerun/hdhomerun_channelscan.c:259-318 | every round until the end gives one report, which is locked iff some detect of that round got to the skip |
| ScanRuns.WholeScan | libhdhomerun/hdhomerun_channelscan.c:224-318 | a scan of as many rounds as there are distinct frequencies has dealt with every channel that way |
| ScanRuns.ScanEnds | libhdhomerun/hdhomerun_channelscan.c:229-231 | after at most one round per remaining distinct frequency no channel is left |
| ScanRuns.RemainingIsDistinct | libhdhomerun/hdhomerun_channelscan.c:331-344 | the channels counted as remaining are the distinct frequencies below the next channel |
| ScanRuns.CallProgress | libhdhomerun/hdhomerun_channelscan.c:324-347 | progress falls neither at an advance nor at any of the detects after it |
| ScanRuns.ProgressIsShare | libhdhomerun/hdhomerun_channelscan.c:346 | progress is what was scanned of scanned and remaining, in per cent, rounded down |
| ScanRuns.ProgressNeverFalls | libhdhomerun/hdhomerun_channelscan.c:324-347 | over every run, however often detect is called, progress never falls and is below 100 iff a channel remains, as long as scanned and distinct frequencies together stay within 42949672 |
| ScanRuns.CountsDistinct | libhdhomerun/hdhomerun_channelscan.c:259-261 | with at most one detect per advance, scanned plus remaining stays within the number of distinct frequencies |
| ScanRuns.FewRoundedFrequencies | libhdhomerun/hdhomerun_channels.c:354-355 | a built list has at most 34360 distinct frequencies |
| DebugQueue.Debug.Enqueue | libhdhomerun/hdhomerun_debug.c:313-325 | linking a message at the head is the enqueue step, with both directions of links in agreement |
| DebugQueue.Debug.Look | libhdhomerun/hdhomerun_debug.c:425-438 | the locked look at the tail and the depth is the look step |
| DebugQueue.Debug.Remove | libhdhomerun/hdhomerun_debug.c:401-417 | unlinking the tail needs no check for an empty queue and removes the message looked at |
| DebugRuns.NextKeeps | libhdhomerun/hdhomerun_debug.c:401-446 | every step of any producer or the consumer keeps the protocol's invariant |
| DebugRuns.RemovedIsLookedAt | libhdhomerun/hdhomerun_debug.c:425-445 | in every interleaving the message looked at stays the oldest in the queue while the consumer uses it, and is the one removed |
| DebugRuns.OutputsInOrder | libhdhomerun/hdhomerun_debug.c:440-445 | successful outputs stand in the order of the enqueues, at strictly rising positions |
| DebugRuns.Conservation | libhdhomerun/hdhomerun_debug.c:425-445 | enqueued is output plus dropped plus queued, with one message counted twice while it is output and not yet removed |
| DebugRuns.LatestAreKept | libhdhomerun/hdhomerun_debug.c:435-438 | only a message with more than a thousand later ones is dropped: the latest 1024 never are |
| DebugRuns.FlushedIsDone | libhdhomerun/hdhomerun_debug.c:237-247 | when flush sees the queue empty, every earlier message was removed in order, and output or dropped |
| DebugRuns.TurnWrites | libhdhomerun/hdhomerun_debug.c:425-445 | with up to 1024 messages queued a turn whose output succeeds writes and removes exactly the oldest, and one whose output fails leaves everything as it was |
| DebugRuns.TurnDrops | libhdhomerun/hdhomerun_debug.c:435-438 | with more queued a turn removes exactly the oldest, unwritten |
| DebugRuns.TurnsEmpty | libhdhomerun/hdhomerun_debug.c:419-449 | while outputs succeed, a turn for each message of a queue of up to 1024 empties it and writes all of it in order |
| DebugRuns.AllAreWritten | libhdhomerun/hdhomerun_debug.c:310-449 | up to 1024 messages enqueued from the start are all written, in order, and flush then sees an empty queue |
| SocketTable.Discover.SockAdd | libhdhomerun/hdhomerun_discover.c:40-77 | marks the slot of a known address, else adds a bound socket if there is room; on failure the table is unchanged and no socket stays open |
| SocketTable.Discover.Compact | libhdhomerun/hdhomerun_discover.c:134-151 | the two-pointer loop keeps slot 0 and exactly the detected slots in order, closing each other socket once |
| SocketTable.Discover.SockDetect | libhdhomerun/hdhomerun_discover.c:109-152 | a detection with any report and any failures leaves a well-formed table whose sockets are exactly the open ones |
| SocketTable.UsableReport | libhdhomerun/hdhomerun_discover.c:118-126 | the report is the first entries of the list up to the number found, all sixteen if more were found, and none after an error |
| SocketTable.Discover.Destroy | libhdhomerun/hdhomerun_discover.c:98-107 | every open socket is closed once |
| SocketTable.CreateDiscover | libhdhomerun/hdhomerun_discover.c:79-96 | slot 0 is the routable socket, or creation fails |
| SocketTable.KeptMeaning | libhdhomerun/hdhomerun_discover.c:137-149 | a slot behind the first survives the compaction iff it was detected |
| SocketTable.Detects | libhdhomerun/hdhomerun_discover.c:109-152 | afterwards the old slots are those now reported, in order; new ones are reported, were not present and never repeat; every reported address is present unless its socket could not be had or sixteen slots were in use before the compaction |
| SocketTable.ManyDetections | libhdhomerun/hdhomerun_discover.c:109-152 | after any number of detections slot 0 is unchanged, every other slot is an address of the latest report, no address or socket repeats, and the table begins with the old slots whose address every round reported, in order and with their sockets |
| SocketTable.AlwaysMeaning | libhdhomerun/hdhomerun_discover.c:128-132 | those are the addresses that are in every report |
| SocketTable.Discover.DetectRepeatedly | libhdhomerun/hdhomerun_discover.c:406-408 | any number of detections on the object leave a well-formed table whose sockets are exactly the open ones, and the tables in between are such rounds |
| DeviceList.Collect | libhdhomerun/hdhomerun_discover.c:418-452 | one attempt's loop over the caller's array appends exactly the new matching replies, stops at the limit, and writes nothing beyond it |
| DeviceList.FindDevices | libhdhomerun/hdhomerun_discover.c:406-456 | -1 iff a send fails before the limit is reached; otherwise the list is the first replies, up to the limit, of the distinct matching ones of both attempts, where a limit below one counts as one |
| DeviceList.ListIsSound | libhdhomerun/hdhomerun_discover.c:430-449 | such a list has no record twice and only replies of the type and identifier asked for, all ones asking for any, and on an uncut return all of those |
| DeviceList.FirstComeFirst | libhdhomerun/hdhomerun_discover.c:442-451 | the records stand in the order in which each first arrived |

## Left out

- Sockets, poll, name lookup, clocks, sleeps, threads, memory allocation and its failure: their outcomes are parameters or are left out.
- The retry and type check around a control request (libhdhomerun/hdhomerun_control.c:213-248), the reading of its reply, and the upgrade transfer.
- The fields of a discovery reply (libhdhomerun/hdhomerun_discover.c:286-374): a reply is a record, compared as a whole. The choice of sockets to send a probe from is a parameter.
- Video.VideoSock.ParseRtp: accesses to the shared fields take effect in program order and whole; what a processor or compiler may reorder, the fields being volatile only, is not modelled.
- Packet.Pkt.ReadTlv: addresses are flat numbers, so that adding the all-ones length moves one byte back; C leaves that sum undefined.
- Control.ControlSock.RecvSock: bytes that arrive behind the first frame are dropped by the next call, as in the code; the model says nothing about them.
- Control.BuildRequest: strings of 2^31 bytes or more, whose length the code takes as a 32-bit number.
- PidFilter.SetTunerFilterByArray: the device's acceptance of the text; the text is the result.
- PlotSample.DecodeInPlace: samples are laid out in little-endian memory; the C library's conversion is a parameter, of which only the size of one- and two-character numbers is assumed and that byte 0xFF does not convert; one byte behind the terminator belongs to the buffer, and with a minus sign in the text a zero byte somewhere behind it, where the code would otherwise read on beyond the buffer.
- Channels.ChannelList.BuildRange: not for a range that ends at 65535, for which the code's 16-bit counter never ends.
- Channels.CreateList: over any table of records rather than the constant tables of the library, which would add finite checks only.
- ChannelScan.Scan.Advance: a percent sign in a channel map's name, which the code would take as a format for the first name.
- ChannelScan.Scan.Detect: tuning, waiting for lock and reading the program list are the parameter that says whether the skip is reached.
- ChannelScan.Scan.GetProgress: not when scanned plus remaining wraps to zero, for which the code divides by zero.
- ScanRuns.ProgressNeverFalls: not beyond some forty million detects, where the 32-bit product overflows.
- DebugQueue.Debug.Enqueue: the formatting of the message, and messages left behind at destruction.
- DebugQueue.Debug.Output: files and sockets; whether the output succeeded is a parameter.
- SocketTable.Discover.SockAdd: socket handles are numbered by creation and never reused.
- DeviceList.FindDevices: the time limit of an attempt, which is the list of its polls.
- The command-line proxy in src, configuration, Windows code, device selection, and the one-line wrappers of device variables.
