# diagmunge, verified

A Dafny model of the parts of diagmunge whose correctness is hard to see: the DGE1 sequence tracker with
its reorder buffer, HDLC framing and its CRC, the streaming frame filter, the request and reply loops of the
DIAG client, the save, zero and restore of the F3 and event masks, the two UDP transports, QSH-trace
masksets and the IPv4 checksum. `dafny verify dfyconfig.toml` checks everything.

Objects whose methods update fields are classes here, loops are loops, and each method is proved equal to a
function of its inputs or of the old state; the theorems are about those functions, over every input, every
run and every chunking.

| files | what they hold |
|---|---|
| `Circular`, `TrackerModel`, `Dge1` | circular 32-bit numbers, the tracker's transitions, the tracker object |
| `TrackerRuns`, `TrackerWindow`, `TrackerOrder`, `Resequencing`, `Lossless`, `LossAndReordering`, `Copies` | what holds over whole runs of it |
| `UdpListen`, `EndToEnd` | the listening transport around the tracker; packets to packets |
| `Bytes`, `Crc`, `Hdlc`, `Sequences` | bytes and bits, the frame check sequence, splitting and stuffing, the ends of a sequence |
| `Peek`, `FrameFilter`, `SentPackets` | the verdict on one frame, the filter over a stream, and over a stream of packets built and sent |
| `Client`, `Replies`, `Subscribe` | the reading loops, what they return, subscribing to log codes |
| `EventMask`, `StoredMask`, `F3Mask`, `MaskState`, `Recording`, `MaskWrites`, `MaskRoundTrip`, `RangeModem`, `LostReply`, `MaskLink` | both masks, their protocol against an arbitrary modem, what it sends, two modems, and the procedures as they run |
| `UdpRecords`, `UdpBroadcast` | records, fragments and re-framing of the broadcast transport |
| `Maskset`, `MasksetPairs`, `Rearm` | the SET command and its harvest, legal lists of pairs, re-arming what was seen |
| `Ipv4`, `Wrappers` | the header checksum and the frame around it; optional values |

Modelling choices. Bytes are integers below 256; 32-bit numbers wrap explicitly. Python's exceptions are `None`
or `Raised`. The socket is a list of datagrams or a script of ticks, each tick one pass of a reading loop with
what the clock, the stop event and the socket say; a clock that runs backwards is included. A modem is any
state machine that answers requests; what a theorem trusts it with is a named predicate in its `requires`.

What the proofs found in the code:

- The number of datagrams the reorder buffer holds never exceeds the window (`TrackerWindow.RunSize`), but the span it
  covers does, exactly when a number that is still buffered arrives again while it is the one expected next. The copy left
  behind is then almost 2^32 ahead, and the next early arrival, or the flush, counts as many losses (`TrackerWindow.RunWithin`,
  `TrackerWindow.EarlyAfterRepeat`).
- The peek reads a frame with its CRC still attached. A filter departs from classifying the checked body exactly on frames
  that check but whose body is too short for the fields, where check bytes are read as opcode or log code
  (`Peek.AgreesWithBodyPath`, `FrameFilter.ChunksAgreeWithBodyPath`; `Peek.ShortLogAccepted` is a family of them).
- A zeroing write that is applied although its reply is lost leaves the mask zeroed while save and restore both report that
  nothing was changed, and this is the only way for it to happen (`MaskState.SaveThenRestore`, `LostReply`).
- The broadcast transport passes a log packet of eight bytes or fewer on with its CRC (`UdpRecords.UnchangedWhenLong`).

## Model

| member | source | states |
|---|---|---|
| `Dge1.Dge1SeqTracker.constructor` | src/diagmunge/transport.py:810-836 | A new tracker expects nothing, has counted nothing and buffers nothing. |
| `Dge1.Dge1SeqTracker.MarkSeen` | src/diagmunge/transport.py:838-844 | Remembers a number once, forgetting the oldest of 8192. |
| `Dge1.Dge1SeqTracker.Track` | src/diagmunge/transport.py:849-905 | The unbuffered decision in every branch: restart, in order, loss, second stream, late arrival and copy, with the whole new state. |
| `Dge1.Dge1SeqTracker.Feed` | src/diagmunge/transport.py:909-979 | The resequencing decision in every branch: the whole new state and the payloads released, in order. |
| `Dge1.Dge1SeqTracker.DrainContiguous` | src/diagmunge/transport.py:981-988 | Hands out the contiguous run buffered at the base. |
| `Dge1.Dge1SeqTracker.FurthestAhead` | src/diagmunge/transport.py:1000-1000 | The exact circular distance of the buffered number furthest ahead. |
| `Dge1.Dge1SeqTracker.EnforceWindow` | src/diagmunge/transport.py:990-1010 | Advances the base until the buffer fits the window, delivering what it passes and counting holes as missing. |
| `Dge1.Dge1SeqTracker.Flush` | src/diagmunge/transport.py:1012-1023 | Empties the buffer; the loop ends although the measure is circular. |
| `TrackerRuns.AdvanceByPending` | src/diagmunge/transport.py:1001-1010 | After k single advances exactly the numbers at distance k or more are still buffered, with their payloads. |
| `TrackerRuns.DrainIsAdvance` | src/diagmunge/transport.py:981-988 | Draining is a number of single advances and stops at a number that is not buffered. |
| `TrackerRuns.FlushLength` | src/diagmunge/transport.py:1012-1023 | A flush advances exactly one beyond the furthest buffered number. |
| `TrackerRuns.ShrinkLength` | src/diagmunge/transport.py:999-1010 | The distance measured once and lowered by one a turn stays the exact maximum, so the size test never acts alone and the base moves exactly max - window + 1. |
| `TrackerRuns.FeedEarly` | src/diagmunge/transport.py:955-969 | An early arrival is buffered and forces the base exactly far enough to fit the window. |
| `TrackerRuns.FeedKeeps` | src/diagmunge/transport.py:909-979 | One datagram keeps the books: delivered, dropped as late, buffered or thrown away; and the base stands where received + missing says. |
| `TrackerRuns.LedgerConservation` | src/diagmunge/transport.py:849-1023 | Over every run with restarts, stream switches, copies and flushes: payloads handed out = received; fed = received + dups + buffered + thrown away; dups = reordered + true duplicates; the base is the origin plus received + missing. |
| `TrackerRuns.CutsCounted` | src/diagmunge/transport.py:927-956 | Over every run the restarts are the restart datagrams after the first, and every fresh numbering is the first datagram, a counted restart or a counted switch of streams. |
| `TrackerRuns.SeenConsistent` | src/diagmunge/transport.py:838-844 | Over every run the queue and the set of recent numbers hold the same numbers, each once, at most 8192. |
| `TrackerWindow.WithinSize` | src/diagmunge/transport.py:814-824 | When all distances are below the window there are no more datagrams than the window, nor than the switch floor, by pigeonhole. |
| `TrackerWindow.RunSize` | src/diagmunge/transport.py:909-1010 | Over every run, repeats at the base included, no more datagrams are buffered than the window. |
| `TrackerWindow.FeedWithin` | src/diagmunge/transport.py:909-1010 | After a datagram the buffer is inside the window if and only if the datagram does not repeat, at the base, a number still buffered. |
| `TrackerWindow.RunWithin` | src/diagmunge/transport.py:909-1023 | Along every run the buffer stays inside the window throughout exactly when no input repeats a buffered number at the base. |
| `TrackerWindow.FlushWithin` | src/diagmunge/transport.py:1012-1023 | Inside the window a flush counts fewer losses than the window. |
| `TrackerWindow.FlushAfterRepeat` | src/diagmunge/transport.py:940-944 | After a repeat at the base a flush counts at least 2^32 - 2^25 losses. |
| `TrackerWindow.EarlyAfterRepeat` | src/diagmunge/transport.py:940-969 | And so does, without any flush, the next ordinary early arrival: at least 2^32 - 2^26 losses for every window up to the switch floor. |
| `TrackerWindow.RepeatExample` | src/diagmunge/transport.py:940-944 | Window 2 and the arrivals 9, 11, 12, 11 leave 11 behind the base. |
| `TrackerOrder.FeedPlaced` | src/diagmunge/transport.py:909-979 | What one datagram releases lies at rising positions between the old and the new base. |
| `TrackerOrder.DeliveredInOrder` | src/diagmunge/transport.py:909-1023 | Whatever the network reorders, repeats or loses, and however often a restart or a second stream sets the numbering anew: the output is cut into the epochs, and each hands out strictly rising positions, those the base passed in it, every payload the one sent with the number of its position. |
| `TrackerOrder.DeliveredOnce` | src/diagmunge/transport.py:909-1023 | No epoch delivers a number twice while the base has not gone once round the 32-bit circle in it. |
| `Resequencing.TrailsStep` | src/diagmunge/transport.py:909-1010 | The buffered tracker trails the unbuffered one by at most the window, and advancing it by that much makes up exactly the difference. |
| `Resequencing.BufferedEqualsUnbuffered` | src/diagmunge/transport.py:849-1023 | On every rising stream with gaps below the switch floor, feeding with any window and flushing delivers and counts exactly what the unbuffered tracker does. |
| `Lossless.HoldsDrain` | src/diagmunge/transport.py:981-988 | Draining releases exactly the payloads of the arrived positions up to the first missing one. |
| `Lossless.ResequencesLosslessly` | src/diagmunge/transport.py:909-979 | Any shuffle of a block of numbers in which every arrival is less than the window ahead of the least missing one comes out in order, nothing missing, duplicated or reordered. |
| `Lossless.LosslessExactlyWhenTimely` | src/diagmunge/transport.py:909-1010 | A shuffle of a block loses nothing if and only if every arrival is that timely. |
| `LossAndReordering.KeptExactly` | src/diagmunge/transport.py:909-1010 | The kept positions are the first one and those that arrive not before it and less than the window behind the newest one so far. |
| `LossAndReordering.DeliversWhatIsInTime` | src/diagmunge/transport.py:909-1023 | Loss and reordering together: of distinct positions within one turn, none so far off that it looks like another stream, the buffer and a final flush hand out exactly the kept ones, in rising order; the others are counted as reordered, and every position of the span not handed out as missing. |
| `LossAndReordering.OnlyTheLostAreMissing` | src/diagmunge/transport.py:909-1023 | If all arrive in time every payload comes out in rising order, and missing is the span less the datagrams. |
| `Copies.CopyOnlyCounts` | src/diagmunge/transport.py:960-979 | A datagram changes nothing besides the count of copies if and only if it is one: not a fresh start, not the number expected, and remembered, or ahead and still buffered; every other datagram changes something else. |
| `Copies.CopiesOnlyCount` | src/diagmunge/transport.py:909-1023 | Over every run, whatever the window, with restarts, switches and flushes: without its copies the same payloads come out at the same places and every counter is the same, except that the copies are no longer counted. |
| `Copies.DeliversDespiteCopies` | src/diagmunge/transport.py:909-1023 | Loss, reordering and copies together: if each repeat can be recognised - ahead of the base, or behind it and among the last 8192 different numbers - the stream is delivered and counted as without the repeats, which are exactly the true duplicates. |
| `UdpListen.ParseOfBuild` | src/diagmunge/transport.py:755-776 | A well-formed datagram gives back payload, number and restart flag, whatever follows the payload. |
| `UdpListen.ParsedIsBuilt` | src/diagmunge/transport.py:755-776 | Whatever is accepted is such a datagram: payload, number and restart flag are the ones it was built with. |
| `UdpListen.UdpListenTransport.Receive` | src/diagmunge/transport.py:1113-1127 | One datagram: end of socket flushes, malformed is counted, anything else goes through the tracker. |
| `UdpListen.UdpListenTransport.Read` | src/diagmunge/transport.py:1104-1127 | Hands out the next released payload after as many datagrams as it takes, of which only the last released any; over every sequence of calls what was handed out and what is ready are exactly what the tracker released. |
| `UdpListen.ListenerRuns` | src/diagmunge/transport.py:1104-1127 | The listener is a run of the tracker over the well-formed datagrams; every datagram is an input or counted as malformed. |
| `UdpListen.StreamRestored` | src/diagmunge/transport.py:1104-1127 | A stream cut into numbered slices that arrive shuffled but in time is released slice by slice in order. |
| `EndToEnd.PacketsThroughShuffledDatagrams` | src/diagmunge/transport.py:1061-1127 | Packets framed into one stream, cut anywhere, sent in datagrams shuffled within the window, are returned by successive receive calls unchanged and in order. |
| `Crc.TableStepIsEightBitSteps` | src/diagmunge/transport.py:48-52 | For every register and byte one table look-up equals eight bitwise shift steps. |
| `Crc.BuildTable` | src/diagmunge/transport.py:35-45 | Entry i of the table is eight bit steps of i. |
| `Crc.Crc16ByTable` | src/diagmunge/transport.py:48-52 | The table form computes the bitwise check sequence of every message. |
| `Crc.BurstChangesCrc` | src/diagmunge/transport.py:48-52 | Any change confined to two neighbouring bytes, anywhere in any message, changes the CRC. |
| `Crc.ChecksByResidue` | src/diagmunge/transport.py:1519-1520 | A frame passes the transport's comparison if and only if running the register over data and CRC leaves 0xF0B8. |
| `Crc.BurstRejected` | src/diagmunge/transport.py:1519-1520 | A frame that passes no longer does after a change confined to two neighbouring bytes, its CRC included. |
| `Hdlc.UnescapeIsScan` | src/diagmunge/transport.py:1513-1515 | The two replacements, in this order, equal one left-to-right scan on every byte string. |
| `Hdlc.ScanOfEscape` | src/diagmunge/transport.py:1495-1499 | Unstuffing undoes stuffing on every byte string, and the stuffed form has no flag. |
| `Hdlc.SplitConcat` | src/diagmunge/framefilter.py:81-85 | Splitting a stream at flags can go on from the open part alone. |
| `Hdlc.SplitOfJoin` | src/diagmunge/framefilter.py:81-85 | There is one way to read a stream as flag-free parts. |
| `Hdlc.DecapsulateOfEncapsulate` | src/diagmunge/transport.py:1489-1520 | What is encapsulated is decapsulated to the same payload, with or without the CRC check. |
| `Hdlc.CorruptionRejected` | src/diagmunge/transport.py:1489-1520 | A frame in which two neighbouring bytes were changed before stuffing is rejected. |
| `Peek.ScanPrefix` | src/diagmunge/framefilter.py:100-110 | Cutting after n escaped bytes leaves the first n/2 unescaped ones as they were. |
| `Peek.PeekSeesWholeFrame` | src/diagmunge/framefilter.py:100-138 | Peeking at the 32-byte escaped head equals classifying the whole unescaped frame, for every non-empty frame. |
| `Peek.Wanted.Matches` | src/diagmunge/framefilter.py:206-212 | The match rules by outer opcode, wrapped opcode, kind and log code, as one condition. |
| `Peek.FirstByteRejectIsSound` | src/diagmunge/framefilter.py:157-162 | Every frame that would match begins with an accepted escaped byte, for every configuration, escaped and wrapped opcodes included. |
| `Peek.FastVerdictIsExact` | src/diagmunge/framefilter.py:214-240 | First-byte reject, peek, match and CRC give the verdict and the counter of unescaping and classifying the whole frame. |
| `Peek.AgreesUnlessCheckBytes` | src/diagmunge/framefilter.py:113-138 | For one filter that verifies: on a misread frame it accepts and the CRC-first body path does not; on every other frame both say the same, with the same match. |
| `Peek.AgreesWithBodyPath` | src/diagmunge/framefilter.py:113-138 | All filters that verify agree with classifying the CRC-checked body of a frame if and only if the frame does not check with a body too short for the fields read from it. |
| `Peek.ShortLogAccepted` | src/diagmunge/framefilter.py:113-138 | Every log frame with a body of 6 or 7 bytes is accepted by a verifying filter for all logs, on check bytes read as a log code. |
| `Peek.ShortExactly` | src/diagmunge/framefilter.py:214-235 | Exactly which frames are counted as short: those without the fields of their opcode, unless it is a bare log and no log is wanted, and wanted ones of another kind under three bytes. |
| `FrameFilter.FrameSplitter.Feed` | src/diagmunge/framefilter.py:81-85 | A chunk completes exactly the frames of carry and chunk; the open part is carried. |
| `FrameFilter.FrameSplitter.Flush` | src/diagmunge/framefilter.py:87-90 | Gives up the carried part and forgets it. |
| `FrameFilter.FrameFilter.Wants` | src/diagmunge/framefilter.py:214-225 | A frame is wanted when its first byte is accepted and its peek matches; one too short is counted. |
| `FrameFilter.FrameFilter.Process` | src/diagmunge/framefilter.py:227-240 | Match and counters of one frame. |
| `FrameFilter.FrameFilter.Feed` | src/diagmunge/framefilter.py:242-254 | Matches and all five counters of one chunk. |
| `FrameFilter.FrameFilter.Finish` | src/diagmunge/framefilter.py:256-267 | The open part counts as a frame at the end. |
| `FrameFilter.FrameFilter.Reset` | src/diagmunge/framefilter.py:269-275 | Throws the open part away, counting it as short. |
| `FrameFilter.FeedsSeeTheStream` | src/diagmunge/framefilter.py:73-90 | After any chunks the filter stands where one look at their concatenation would leave it. |
| `FrameFilter.ChunkInvariant` | src/diagmunge/framefilter.py:214-267 | For every cutting into chunks the matches and every counter equal those of splitting the whole stream and classifying every frame in full. |
| `FrameFilter.ChunksAgreeWithBodyPath` | src/diagmunge/framefilter.py:214-267 | However the stream is cut, the matches of a verifying filter are those of the CRC-first body path on every frame of the whole stream if and only if no frame in it is misread. |
| `FrameFilter.TallyCounts` | src/diagmunge/framefilter.py:227-240 | What the counters mean for any frames: all of them, the matches, the wanted ones that fail their check, and the short ones. |
| `FrameFilter.FilterChunks` | src/diagmunge/framefilter.py:242-267 | The filter object, fed chunk by chunk and finished, returns exactly that. |
| `SentPackets.FindsWhatWasSent` | src/diagmunge/framefilter.py:113-267 | From any packets - logs built from their code, low byte first, and other opcodes, bare or behind an eight-byte 0x98 wrapper - encapsulated and cut into any chunks: the filter finds exactly those its sets name, in order, each with its body, its opcodes and its log code, and counts nothing as bad or short. |
| `SentPackets.FilterSent` | src/diagmunge/framefilter.py:242-267 | The filter object, fed such a stream, returns exactly those matches. |
| `Client.DiagClient.Send` | src/diagmunge/transport.py:1524-1526 | Writes exactly the encapsulated request. |
| `Client.DiagClient.Recv` | src/diagmunge/transport.py:1528-1582 | The receive loop: outcome, buffer and unread script for every script of clock, stop event and socket. |
| `Client.DiagClient.SendRecv` | src/diagmunge/transport.py:1612-1707 | Sends once, then the matching loop: outcome, buffer and unread script. |
| `Replies.ListenAnswersFirst` | src/diagmunge/transport.py:1646-1707 | A call returns the verdict on the first frame in stream order that has one and leaves exactly the bytes after it; otherwise it keeps exactly the open frame. |
| `Replies.ListenSpendsTicks` | src/diagmunge/transport.py:1650-1680 | Only the last clock reading or socket result a call takes can have ended it. |
| `Replies.DeadlineEndsCall` | src/diagmunge/transport.py:1646-1656 | The first clock reading at or after the deadline is the last one taken, and nothing is read from then on. |
| `Replies.TimesOutUnderFlood` | src/diagmunge/transport.py:1646-1656 | A modem that never stops sending frames that answer nothing cannot keep the call beyond its deadline. |
| `Replies.NeverBindsOtherOperation` | src/diagmunge/transport.py:73-89 | A log-configuration request is answered by a packet of opcode 0x73 with its operation in bytes 4 to 7, low byte first, or by the rejection opcode, never by another operation's reply. |
| `Replies.OneFrame` | src/diagmunge/transport.py:1528-1582 | However the stream is cut, its first frame is judged and the rest still lies ahead. |
| `Replies.CallsReturnVerdicts` | src/diagmunge/transport.py:1528-1582 | Successive calls return the verdicts of a stream's frames in order, whatever the chunks. |
| `Replies.PacketsSurvive` | src/diagmunge/transport.py:1489-1582 | After any garbage closed by a flag, in any chunks and with quiet reads in between, the calls return every packet unchanged and in order, in both CRC modes. |
| `Replies.HowCallsEnd` | src/diagmunge/transport.py:1545-1680 | What ends a call that nothing has answered, for either loop: the first tick that is not passed over, with the outcome of its kind; a quiet read is passed over in `recv` and ends `_send_recv`, a transient error the other way round. |
| `Replies.ReplyIsReturned` | src/diagmunge/transport.py:1612-1707 | A request is answered: after any packets of other opcodes, or of its own that its predicate refuses, in any chunks before the deadline, the first packet of its opcode that the predicate accepts - any, without a predicate - or of opcode 0x13 is returned, and all that follows is left to read. |
| `Replies.EmptyPacketFails` | src/diagmunge/transport.py:1568-1582 | A packet without an opcode ends either call in an error. |
| `Subscribe.BuildMask` | src/diagmunge/transport.py:1783-1787 | The mask loop computes the group's mask. |
| `Subscribe.GroupMaskArms` | src/diagmunge/transport.py:1783-1787 | Bit k of a mask, its byte k / 8 divided by 2^(k % 8) being odd, is set exactly for the requested codes of its group; the padding is clear. |
| `Subscribe.SubscribeLogs` | src/diagmunge/transport.py:1753-1805 | The handshake: sizes, then one mask for each group that has any, stopping at the first error. |
| `Subscribe.SubscriptionIsExact` | src/diagmunge/transport.py:1753-1805 | A subscription that ends without an error has armed exactly the requested codes in every announced group and left the others alone. |
| `Subscribe.SubscriptionSends` | src/diagmunge/transport.py:1753-1805 | Whatever the modem answers: byte for byte the size request, then for each group with bits, in order, one request with group, size and exact mask, until one is not confirmed by operation 3 and status 0; the subscription succeeds if and only if all are. |
| `Subscribe.CodesDistinct` | src/diagmunge/transport.py:1785-1785 | Within the twelve bits of a code, bit `b` of group `g` is code 4096 g + b, so different groups name different codes. |
| `EventMask.Edit` | src/diagmunge/diag_cmd.py:155-176 | Arming is union and clearing is difference on the armed ids, id i being armed when byte i / 8 divided by 2^(i % 8) is odd; an id outside the mask is refused, and only then. |
| `Bytes.BitIsTest` | src/diagmunge/diag_cmd.py:147-164 | The mask `1 << k` tests the binary digit k of a byte. |
| `EventMask.ParseOfBuildSet` | src/diagmunge/diag_cmd.py:190-226 | Parsing a built set request gives the mask with status 0, for every number of ids, a multiple of 8 or not. |
| `EventMask.ParseOfReply` | src/diagmunge/diag_cmd.py:190-212 | Parsing a reply of the narrower width gives the mask. |
| `StoredMask.RunningOr` | src/diagmunge/f3mask.py:206-212 | The loop computes the running OR of the bytes. |
| `StoredMask.PrefixOrExtends` | src/diagmunge/f3mask.py:176-212 | Extensive: no requested bit is lost. |
| `StoredMask.PrefixOrMonotone` | src/diagmunge/f3mask.py:176-212 | Monotone: asking for more stores more. |
| `StoredMask.FixedPointsRise` | src/diagmunge/f3mask.py:176-212 | Stored verbatim are exactly the rising chains of bytes. |
| `StoredMask.StoredIsClosed` | src/diagmunge/f3mask.py:176-212 | Idempotent on 32-bit masks, with the fixed points characterised. |
| `StoredMask.StoredBits` | src/diagmunge/f3mask.py:183-212 | Bit k of byte i of the stored mask is set if and only if the request has it in byte i or a lower one. |
| `StoredMask.MeasuredStore` | src/diagmunge/f3mask.py:196-200 | 0x08040201 is stored as 0x0F070301. |
| `F3Mask.TableOnWire` | src/diagmunge/f3mask.py:153-173 | Exactly which reply bodies are mask tables, and each mask as the number in its four bytes, low byte first. |
| `F3Mask.RangesOnWire` | src/diagmunge/f3mask.py:230-271 | The ranges in a reply: as many as announced and complete, each two 16-bit numbers from byte 7 on. |
| `F3Mask.WordsOfPack` | src/diagmunge/f3mask.py:153-173 | The words of a packed table are the masks packed. |
| `F3Mask.ReadRangesTruthful` | src/diagmunge/f3mask.py:436-448 | From a modem that tells the truth on the ranges asked for, the reads give, range by range in the order asked, exactly the advertised length of the masks held. |
| `F3Mask.SnapshotTruthful` | src/diagmunge/f3mask.py:412-452 | So does a snapshot of the ranges advertised; a complete one has read all of them, and the fallback to range 0 is never complete. |
| `F3Mask.RestoreIsTruthful` | src/diagmunge/f3mask.py:501-576 | Whatever the modem does with the writes, if it tells the truth on the ranges of the snapshot, a restore that returns True leaves the saved mask on every SSID of every range, and the snapshot was complete. |
| `F3Mask.SetAllValueRestores` | src/diagmunge/f3mask.py:483-498 | A snapshot is put back with one SET_ALL of v if and only if it is complete, v is every one of its masks and v is a rising chain of bytes; v is then stored verbatim. |
| `MaskRoundTrip.ArraysRestore` | src/diagmunge/f3mask.py:527-542 | Writing one array a range puts every range back, overlaps included. |
| `MaskRoundTrip.RestoreSucceeds` | src/diagmunge/f3mask.py:501-576 | With a modem that answers the ranges of the snapshot and applies the writes that fit them, a complete snapshot is put back and verified, whatever the masks became meanwhile. |
| `MaskRoundTrip.RestoreEventsExactly` | src/diagmunge/maskstate.py:134-143 | With a modem that answers, the restore of the event mask reports success if and only if the modem then holds it byte for byte, padding bits included. |
| `MaskRoundTrip.CooperativeRoundTrip` | src/diagmunge/maskstate.py:90-144 | A modem that answers and applies gets (True, True) from save then restore, whatever became of the masks in between, and what was zeroed is as it was found. |
| `MaskRoundTrip.SaveQuiets` | src/diagmunge/maskstate.py:90-121 | After the save of such a modem no F3 mask is set on any advertised SSID and no event is armed. |
| `RangeModem.MeasuredCooperates` | src/diagmunge/f3mask.py:412-436 | A modem with any advertised ranges and any number of events, which answers a read with the whole range that begins there, stores the running OR of a SET_ALL, and keeps no padding bits, meets every hypothesis of these theorems in every state. |
| `RangeModem.MeasuredRoundTrip` | src/diagmunge/maskstate.py:90-144 | Such a modem makes the round trip: the save leaves no mask set, the restore returns (True, True) whatever happened in between, and what was zeroed is as it was found. |
| `MaskLink.TakeRanges` | src/diagmunge/f3mask.py:230-271 | As many complete pairs as the reply announces and holds. |
| `MaskLink.Link.QueryRanges` | src/diagmunge/f3mask.py:274-287 | The query: new modem state and pairs. |
| `MaskLink.Link.ReadMask` | src/diagmunge/f3mask.py:310-348 | One table read: new modem state and table, or the error of a range out of 16 bits. |
| `MaskLink.Link.ReadSnapshot` | src/diagmunge/f3mask.py:412-452 | The reading loop over all ranges, the fallback to range 0 included. |
| `MaskLink.Link.Restore` | src/diagmunge/f3mask.py:501-576 | The writes in order up to the first refusal, then the readback and the comparison. |
| `MaskLink.Link.ReadEvents` | src/diagmunge/maskstate.py:63-81 | The two request forms in order; the first answer settles it. |
| `MaskLink.Link.WriteEvents` | src/diagmunge/maskstate.py:84-87 | One set request, accepted when the reply has its opcode. |
| `MaskLink.Link.SaveAndZero` | src/diagmunge/maskstate.py:90-121 | The whole save: new modem state and what was read and zeroed. |
| `MaskLink.Link.RestoreMasks` | src/diagmunge/maskstate.py:124-144 | The whole restore: new modem state and the two verdicts. |
| `MaskWrites.CompleteReadsEverything` | src/diagmunge/f3mask.py:436-452 | Whatever the modem answers, a complete snapshot has read exactly the ranges that were advertised. |
| `MaskWrites.SaveWritesOnlyWhatWasRead` | src/diagmunge/maskstate.py:90-121 | Whatever the modem answers, a save sends byte for byte the range query, one read for each advertised range in order, one SET_ALL of zero only if the snapshot was complete with a mask set, the event reads, and one empty event mask only if an event was armed; each mask counts as zeroed if and only if its write was acknowledged. |
| `MaskWrites.F3ZeroedIfAcknowledged` | src/diagmunge/maskstate.py:98-104 | The F3 masks are reported as zeroed if and only if the SET_ALL of zero was sent and answered by a reply whose opcode is not 0x13. |
| `MaskWrites.RestoreStopsAtRefusal` | src/diagmunge/f3mask.py:527-547 | Whatever the modem answers, a restore sends one SET_ALL, or one array for each range with masks that names its first and last SSID, stops at the first write that is rejected or not answered, and otherwise reads every range back. |
| `MaskWrites.RejectedSaveLeavesAll` | src/diagmunge/maskstate.py:98-144 | From a modem that rejects every write the save reports nothing as zeroed, and the restore sends nothing and reports success. |
| `MaskState.SaveIsRight` | src/diagmunge/maskstate.py:90-121 | What was saved is what was held, and a mask not zeroed is as found if and only if its zeroing write was not applied without an acknowledgement. |
| `MaskState.SaveThenRestore` | src/diagmunge/maskstate.py:90-144 | After save, zero and restore: a mask that was zeroed is as it was found or its restore reports failure, whatever became of it in between; one that was not, and was not touched, is as found if and only if its zeroing write was not applied without an acknowledgement - for the F3 masks and for the event mask. |
| `LostReply.LossyIsTrusted` | src/diagmunge/maskstate.py:90-144 | A modem that obeys zeroing writes in silence is everything those theorems ask of a modem: reads change nothing and tell the truth, in full, and the masks are separate. |
| `LostReply.LostReplyLosesTheMasks` | src/diagmunge/maskstate.py:98-116 | With it every save of a state with an F3 mask and an event set leaves both zeroed, reports both as left alone, and the restore reports success. |
| `UdpRecords.Unstuff` | src/diagmunge/transport.py:718-726 | The unstuffing loop that flips the byte after an escape. |
| `UdpRecords.FlipScanOfEscape` | src/diagmunge/transport.py:718-726 | On properly stuffed bytes it is the usual unstuffing. |
| `UdpRecords.ExtractFromRecord` | src/diagmunge/transport.py:700-737 | What a record adds to the output. |
| `UdpRecords.LogsReceived` | src/diagmunge/transport.py:700-737 | Receive calls on the output, in any chunks, return the log frames' packets in order, whatever the frames. |
| `UdpRecords.BroadcastPreservesLogs` | src/diagmunge/transport.py:700-737 | For properly stuffed frames these are the log packets without their CRC, except that one of eight bytes or fewer keeps it. |
| `UdpRecords.UnchangedWhenLong` | src/diagmunge/transport.py:732-732 | All log packets come through unchanged if and only if none has eight bytes or fewer. |
| `UdpRecords.ShortPacketChanged` | src/diagmunge/transport.py:732-732 | The shortest log packet reaches the client with its CRC attached. |
| `UdpBroadcast.UdpBroadcastTransport.Receive` | src/diagmunge/transport.py:656-673 | One datagram: number, fragment or record. |
| `UdpBroadcast.UdpBroadcastTransport.Read` | src/diagmunge/transport.py:651-676 | Hands out all there is up to n bytes, after as many datagrams as it takes, of which only the last brought any; over every sequence of reads the bytes handed out and those still held are exactly the output of the datagrams taken, and the statistics those of the numbers they carried. |
| `UdpBroadcast.RecordsReassembled` | src/diagmunge/transport.py:656-673 | Numbered or not, whole or in pieces, records come out as if handed over one by one. |
| `UdpBroadcast.ValidIsUnambiguous` | src/diagmunge/transport.py:656-673 | A datagram with a whole record is admitted there exactly when the receiver takes it for that record. |
| `UdpBroadcast.MisreadSendings` | src/diagmunge/transport.py:656-673 | The sendings excluded there are misread: a record that begins like a last fragment is glued to what was kept, one that begins like a number loses four bytes, a fragment without data is no fragment. |
| `UdpBroadcast.BroadcastDelivers` | src/diagmunge/transport.py:651-737 | End to end: receive calls return the log packets of every record sent, in order. |
| `UdpBroadcast.BroadcastDeliversLogs` | src/diagmunge/transport.py:651-737 | And when the records are properly stuffed frames, these are the log packets that were sealed, in order; one of eight bytes or fewer keeps its CRC. |
| `UdpBroadcast.HolesCounted` | src/diagmunge/transport.py:678-698 | Over every run of numbers, repeats and steps back included, the drops are the numbers left out by its forward steps. |
| `UdpBroadcast.SentNumbersCounted` | src/diagmunge/transport.py:656-698 | From datagrams numbered by a sender with 16 bits, the low byte first, the receiver counts exactly the holes of that numbering. |
| `UdpBroadcast.ShortDatagramIsRecord` | src/diagmunge/transport.py:656-673 | A datagram of four bytes or fewer is a record without a number, whatever it begins with. |
| `UdpBroadcast.NumbersAccounted` | src/diagmunge/transport.py:678-698 | Over every ascending run without an implausible gap, received + dropped is the span of the numbers. |
| `Maskset.BuildSet` | src/diagmunge/diag_cmd.py:375-426 | The command of the pairs to a subsystem, or the error, exactly when a pair, the count, a header word or the subsystem does not fit its field. |
| `Maskset.CommandOnWire` | src/diagmunge/diag_cmd.py:375-426 | The command byte by byte: opcode, subsystem, sub-command, four words, and each pair as two 16-bit numbers, low bytes first. |
| `Maskset.HarvestCfg` | src/diagmunge/qsh_maskset.py:115-132 | The harvest loop over all parts of a file. |
| `Maskset.ParsesExactlyCommands` | src/diagmunge/qsh_maskset.py:122-131 | A frame is harvested if and only if it is a SET command of some pairs with some trailer. |
| `Maskset.ParsedIsCommand` | src/diagmunge/qsh_maskset.py:122-131 | What is harvested from a frame is what the command was built from: a frame is never misread. |
| `Maskset.HarvestInverts` | src/diagmunge/qsh_maskset.py:115-132 | From any file of stuffed commands with any trailers, interleaved with any other frames, exactly the masksets built are harvested, in file order. |
| `MasksetPairs.ValidatePairs` | src/diagmunge/qsh_maskset.py:214-234 | Accepts exactly the lists that are in range, within the cap and strictly ascending, and returns them unchanged. |
| `MasksetPairs.Check` | src/diagmunge/qsh_maskset.py:257-265 | The cap and the ranges. |
| `MasksetPairs.Merge` | src/diagmunge/diag_cmd.py:429-472 | The merge is strictly ascending and gives every ssid of any group the level of its last mention. |
| `MasksetPairs.LevelIsLastMention` | src/diagmunge/diag_cmd.py:429-472 | The level of an ssid is that of the last pair that names it. |
| `MasksetPairs.MergeIsUnique` | src/diagmunge/diag_cmd.py:429-472 | There is one such list. |
| `MasksetPairs.MergeInStages` | src/diagmunge/diag_cmd.py:429-472 | Merging more groups into a merged maskset is merging them all. |
| `MasksetPairs.SweepCovers` | src/diagmunge/qsh_maskset.py:68-74 | Exactly the sizes 1 to 110 are accepted; the windows start at ssid 1 or later, are no larger than the size and cut the ssids up to the last: each once, in order, none left out. |
| `MasksetPairs.SweepPairs` | src/diagmunge/qsh_maskset.py:77-82 | For any collection of ssids: one pair at the level for each, in order, or the error exactly when the modem would refuse them. |
| `MasksetPairs.SweepIsUnique` | src/diagmunge/qsh_maskset.py:77-82 | There is one such list. |
| `MasksetPairs.SweepIsAccepted` | src/diagmunge/qsh_maskset.py:68-82 | Every window of a sweep up to ssid 65535, at any level, gives a maskset the modem accepts. |
| `Rearm.DerivePairs` | src/diagmunge/qsh_maskset.py:96-112 | The derived maskset arms exactly the sub-streams observed that a level and an ssid can express, sub-stream b being armed when the level divided by 2^b is odd. |
| `Ipv4.ComputeChecksum` | src/diagmunge/pcap.py:179-186 | Both loops: the word sum and the folding, which ends. |
| `Ipv4.FoldKeepsResidue` | src/diagmunge/pcap.py:184-185 | Folding keeps the sum modulo 0xFFFF and gives zero only for zero. |
| `Ipv4.ChecksumVerifies` | src/diagmunge/pcap.py:179-186 | Put where the word was zero, the checksum makes the checksum of the whole header 0, for every even-length header. |
| `Ipv4.WordChangeDetected` | src/diagmunge/pcap.py:179-186 | Changing one word of a verifying header is noticed, except for 0 against 0xFFFF. |
| `Ipv4.DissectOfFrame` | src/diagmunge/pcap.py:189-209 | A frame is built exactly for legal lengths and ports, and a receiver that checks lengths and checksum takes ports and payload from it unchanged. |

## Left out

- Serial, raw-descriptor, TCP and libusb transports, `select`, sockets, reader threads and broker dialling: device and operating-system I/O, replaced by scripts of what a read brings.
- Clocks: a tick carries the reading of the clock; the one-second cadence at which `recv` polls its stop event is not modelled, nor the back-off sleep after a transient error.
- `max_gap`, `first_seq`, `last_seq`, `loss_pct`, every log line and every human-readable description: no decision depends on them.
- The `munge` tools, gsmtap, exported PDUs, presets, pcap and pcapng files with their timestamps, QSH metrics, QTrace, SPC and NV commands: command-line plumbing, tables and one-shot packing.
- JSON profiles, bundled masksets and their union: data loading; only the checks and the merge they rely on are here. `wire_key` is two bit fields.
- Type checks of `validate_pairs` on values that are not integers: the model's pairs are integers.
- An empty DGE1 payload is handed to the client like any other, which then takes it for the end of the stream; the end-to-end theorem asks for non-empty slices.
- An empty decapsulated payload, which the source indexes at 0, is an outcome of its own here (`NoOpcode`).
- TrackerOrder.DeliveredInOrder: says nothing across epochs, whose numberings are unrelated; the memory of recent numbers is not cleared by a restart, so numbers of a new epoch may be taken for copies and not delivered.
- Lossless.ResequencesLosslessly: a fresh tracker and a block whose least number comes first, which is what the tracker takes for the start.
- MaskState.SaveThenRestore: for a mask that was zeroed it speaks of the SSIDs the modem advertised; a zeroing SET_ALL also reaches others, and only a SET_ALL restore can reach them again. It trusts readbacks to change nothing and to tell the truth.
- F3Mask.RestoreIsTruthful: trusts that a table that arrives for a range of the snapshot is the answer to that request and holds at least the entries of the range; the code does not compare the range echoed in the reply. Other requests are not trusted.
- MaskRoundTrip.RestoreSucceeds: trusts the modem to answer the ranges it advertised and to apply the writes that fit them; a range whose first number exceeds its last stops the source with an error before anything is written.
- LossAndReordering.DeliversWhatIsInTime: a step of 2^24 or more ahead looks like another stream, and a late arrival 2^31 or more behind looks ahead; both are excluded by `Admits`.
- Copies.DeliversDespiteCopies: a repeat of the number expected next while it is still buffered breaks the bound of the buffer (`TrackerWindow.RunWithin`); one of a number behind the base that 8192 others have followed is no longer known and counts as reordered. `Copies.CopiesOnlyCount` has no such condition.
- Lossless.LosslessExactlyWhenTimely: blocks of at most 2^24 numbers, since in a longer one an untimely arrival can look like another stream, whose gap is not counted.
- UdpBroadcast.RecordsReassembled: a record that begins like a fragment or a numbered datagram, or a fragment without data, is misread by the source (`MisreadSendings`) and is excluded by `Sending.Valid`; lost fragments are not modelled.
- UdpBroadcast.BroadcastDelivers: the same sendings are excluded.
- UdpBroadcast.HolesCounted: a step back by more than 64534 or forward by more than 1001 is indistinguishable from another step in 16 bits and is left out.
- Subscribe.SubscriptionIsExact: a modem that announces more than 4096 bits in a group makes codes of different groups coincide; the model computes the same codes, and `Subscribe.CodesDistinct` says when they are distinct.
- Rearm.DerivePairs: an observed subsystem appears once, as in a mapping.
