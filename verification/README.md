# A verified model of the RakNet shim

The shim translates between RakNet 3.25, which runs its own reliability layer over UDP, and a plain
protocol over TCP and UDP. This project models both ends in Dafny, branch by branch, and proves what
they promise: that messages come out complete, once and in order over any rearrangement of packets,
that every codec gives back what it was given, and that acknowledgements are neither invented nor lost.
Where the code falls short of such a promise, the proofs say when it holds and when it does not.

`dafny verify dfyconfig.toml` checks everything.

## How it is built

The parts of the program that update state are classes with the program's own fields and loops
(`RangeList`, `Items`, `BitWriter`, `BitReader`, `SendPart`, `ReceivePart`, the two `Connection`s). Each
of their methods is proved equal to a function on values (`Inserted`, `ReadPacket`, `Wire`, `Run`,
`DatagramsOf`, `Handle`, `Deframe` and so on), and the theorems are lemmas about those functions.

- `Words`, `Packets`: machine words, the wrapping window, packets.
- `RangeLists`: the acknowledgement list. `Bits`, `Compressed`, `PacketCodec`, `AckCodec`: the bit-level
  wire format. A stream is a sequence of bits, most significant bit first within a byte, integers as
  little-endian bytes, zero padding at the end; alignment counts from the start of the datagram.
- `Sending`, `Receiving`: the two halves of the reliability layer.
- `Sessions`, `Ordering`, `Reassembly`, `Delivery`, `Unordered`, `Completing`, `Permutations`, `InOrder`,
  `Latest`: the protocol theorems. A `Session` is a sender's starting counters and all the messages it
  ever sends, in however many calls (`Sending.CallsConcatenate`), with unbounded ordering numbers; a run
  is any list of `Arrival`s of their fragments, so loss, duplication and reordering are all there.
  `Orderly` runs are those in which an ordered fragment arrives inside the 32-bit window and a split id
  is not in use by another message; ids and indices may wrap for ever.
- `Datagrams`, `Connections`, `AckConservation`, `Acknowledging`, `RemoteTime`, `EndToEnd`,
  `Conversations`, `Fresh`: whole datagrams and whole connections, from new ones on. `Fitting`, `WireRuns`, `Panics`: what the garbled split headers do to messages of
  many chunks. `Reuse`: what a split id does that comes round again too early.
- `Layout`: the wire format spelled out, bit and byte orders, ids, and whole examples in bytes.
- `Framing`, `TcpUdp`, `UdpRuns`: the other protocol. `Sequenced`, `Numbering`: the filter both share.

A failed assertion, an index out of range or an explicit panic in the program is an outcome of its own
(`Panic`, `Fault`, `ParsePanic`); methods ask only that it does not occur.

## What the proofs say about the code

- Compressed 32-bit integers are read back shifted by their leading zero bytes, because the decoder puts
  the first byte at position `i` instead of 0 (src/raknet/comp.rs:76-78, against the description at
  src/raknet/comp.rs:65). Only values below 2^8 and from 2^24 on survive (`Compressed.RoundTripIff`). In
  consequence a message of more than 255 chunks never completes: what is sent in a call comes out
  unchanged if and only if no message is one of these or a disconnect notification
  (`EndToEnd.EndToEndIff`). Such messages disturb no others up to 65535 chunks (`WireRuns.WirePrefixSafety`).
- What the sender puts on the wire can make the receiver panic if and only if a garbled index of some split
  message runs past the garbled count of a split message with the same id, itself included
  (`Panics.NeverPanicsIff`). As long as there are at most 65536 split messages, that takes a message of
  65536 chunks or more (`Panics.FewNeverPanicIff`).
- The merge step of the range list compares with `item - 1` (src/raknet/rangelist.rs:68), so touching
  ranges are never joined, and inserting repeated numbers can drop others: `RangeLists.RepeatsLoseMembers`
  is an example. One insertion drops numbers if and only if two ranges share `item - 1` and the second
  reaches beyond `item` (`RangeLists.InsertIsSetInsertIff`); over a run, and so over the acknowledgements
  between two sends, exactly those numbers are kept that no later insertion drops
  (`RangeLists.MembersAfterRun`, `AckConservation.AcksAreConserved`).
- The header length used to decide about splitting leaves out the length field and two flag bits, so an
  unsplit packet can make a datagram of up to 1202 bytes (`Datagrams.UnsplitFitsIff`, reached in
  `Datagrams.LargestDatagram`). It also takes compressed fields to be at most 32 bits
  (src/raknet/send.rs:130-131) where they can take 33, so beyond 2^24 chunks a full chunk of an unordered
  message makes a datagram of 1201 bytes (`Datagrams.FragmentFitsIff`, `Datagrams.LargestFragment`).
- A split id comes round again after 65536 split messages. If the receiver still holds part of the
  previous one, halves of the two are delivered as one message (`Reuse.ReuseMixesMessages`), which may
  never have been sent (`Reuse.NeverSentIsDelivered`).
- A datagram with acknowledgements only lacks the flag the receiver reads next. The receiver takes the
  padding for it, or fails to read the header if there is none, as with a single range; either way the
  connection is unchanged (`Connections.AcksAloneChangeNothing`).

## Model

| member | source | states |
|---|---|---|
| Permutations.AnyPermutationDelivers | src/raknet/recv.rs:31-125 | For every session of at most 2^31-1 ordered and 65536 split messages without a disconnect notification, and every rearrangement and batching of the sender's packets, a receiver in step delivers all ordered messages in order, every message that needs no order exactly once, stays open, and ends with both queues empty. |
| Delivery.AnyOrderIdentity | src/raknet/recv.rs:41-118 | If all messages are ReliableOrdered, the output of any permutation and batching is exactly the list that was sent. |
| Delivery.PrefixSafety | src/raknet/recv.rs:41-118 | On every run with loss, duplication and reordering inside the window, across any wraparound, no assertion fails and what is delivered in order is a prefix of what was sent in order. |
| Delivery.CompleteDelivery | src/raknet/recv.rs:91-118 | Once every fragment has arrived at least once, repeats included, exactly the ordered messages have been delivered and the ordering queue is empty. |
| Delivery.ClosedIff | src/raknet/recv.rs:77-80 | On every such run the connection is closed if and only if all fragments of some sent disconnect notification have arrived. |
| Delivery.SmallIsOrderly | src/raknet/recv.rs:107 | A session of at most 2^31-1 ordered and 65536 split messages never leaves the window nor reuses a split id, whatever arrives in whatever order. |
| Ordering.DeliverOrdered | src/raknet/recv.rs:91-118 | An ordered message inside the window releases exactly the next stretch of the unbounded stream, and is itself delivered or queued from then on. |
| Reassembly.FragmentArrives | src/raknet/recv.rs:41-75 | Whatever fragment arrives while its split id is not held by another message, reassembly never fails its assertion or indexing, a reassembled message is the one sent, and a message is whole at the latest when its last missing fragment arrives. |
| Reassembly.ReuseFaultsIff | src/raknet/recv.rs:50-53 | A fragment that finds an entry under its split id fails the indexing exactly if its index is past the fragment count of the message the entry belongs to. |
| Reuse.IdComesRoundIff | src/raknet/send.rs:59-63 | Two messages have the same split id if and only if a multiple of 65536 split messages lies between. |
| Reuse.ReuseMixesMessages | src/raknet/recv.rs:42-75 | If only the first half of one message arrives, and a multiple of 65536 split messages later only the second half of another, the receiver delivers the two halves as one message. |
| Reuse.NeverSentIsDelivered | src/raknet/recv.rs:42-75 | A concrete session and run on which the message delivered is none of those sent. |
| Unordered.AnyOrderDeliversAll | src/raknet/recv.rs:119-122 | In any permutation and batching every Unreliable and Reliable message is delivered exactly once. |
| Completing.PlainDelivery | src/raknet/recv.rs:119-122 | On every run with loss, repeats and reordering, the messages that become whole are, disconnect notifications aside, exactly those all of whose fragments have arrived, and of those that need no order exactly what becomes whole is delivered, in that order, repeats included. |
| Completing.CompletionCounts | src/raknet/recv.rs:54-75 | A message becomes whole no more often than each of its fragments has arrived, and an unsplit one exactly as often as it has arrived. |
| Latest.SequencedDelivery | src/raknet/recv.rs:83-90 | On every run of a session with loss, duplication and reordering, mixed with all other traffic and across any wraparound, the sequenced messages delivered are exactly those that become whole later than all before them: in the order sent, each at most once, the latest that arrived among them. |
| Latest.AnyPermutationKeepsLatest | src/raknet/recv.rs:83-90 | In any permutation and batching the sequenced messages delivered are some of those sent, in order, each at most once, and the last one sent is among them. |
| InOrder.InOrderIdentityIff | src/raknet/recv.rs:31-125 | For every list of messages of all four reliabilities, receiving what was sent returns the list, open and with both sides in step again, if and only if no message is a disconnect notification. |
| InOrder.WholeMessage | src/raknet/send.rs:82-118 | The packets one message was sent as, received in order, act on the receiver exactly like the whole message, whatever else it holds, unless a split message finds its id in use. |
| Receiving.QueueAheadOnEveryRun | src/raknet/recv.rs:91-118 | With no assumption on indices, after every packet every queued index is 1 to 2^31-2 ahead of the expected one, so the expected one is never queued. |
| Receiving.ClosesOnWholeMessages | src/raknet/recv.rs:41-80 | On every run the flag is set if and only if some unsplit or fully reassembled message starts with byte 19; a fragment alone never sets it. |
| Receiving.WholeDecides | src/raknet/recv.rs:77-80 | A packet closes the connection exactly if it makes a message whole that starts with byte 19; it then delivers nothing and changes nothing but reassembly. |
| Receiving.UnsplitDecides | src/raknet/recv.rs:77-80 | An unsplit packet never panics, closes exactly if its data starts with byte 19, and then delivers nothing and changes nothing. |
| Receiving.PanicsIff | src/raknet/recv.rs:41-53 | A packet makes the receiver panic exactly if it is a fragment with a count below two or an index past its entry. |
| Receiving.OrderedStep | src/raknet/recv.rs:91-118 | An unsplit ordered message is delivered first at distance 0, kept in place of an earlier one at distance 1 to 2^31-2, and dropped beyond. |
| Receiving.AckNumbersAre | src/raknet/recv.rs:34-39 | The numbers of Reliable and ReliableOrdered packets are put on the list, in the order of arrival, those of other packets are not. |
| Receiving.AcknowledgedIff | src/raknet/recv.rs:34-39 | A number is to be acknowledged if and only if some packet that carries it is Reliable or ReliableOrdered. |
| Receiving.BatchingIsIrrelevant | src/raknet/recv.rs:31-33 | Processing packets in consecutive calls has the outcome of one call with all of them. |
| Receiving.ReceivePart.ProcessIncomingPackets | src/raknet/recv.rs:31-125 | The new state, the delivered packets, the closed flag and the acknowledgement list are those of the run function. |
| Receiving.ReceivePart.TryAssemble | src/raknet/recv.rs:54-68 | The two loops find out whether all parts are there and concatenate them in index order. |
| Receiving.ReceivePart.DrainQueue | src/raknet/recv.rs:96-104 | Releases the maximal run of consecutive queued packets and ends because the queue shrinks. |
| Sending.PiecesAreExact | src/raknet/send.rs:94-113 | The chunks of a message concatenate to its data, a split message has at least two, none empty or above the chunk size. |
| Sending.FragmentsAreExact | src/raknet/send.rs:92-123 | Fragments share ordering index and split id, have indices 0 to count-1 and the true count, and consecutive wrapping message numbers. |
| Sending.CallsConcatenate | src/raknet/send.rs:82-118 | Messages sent in two calls leave the counters and make the packets they would in one. |
| Sending.NumbersCount | src/raknet/send.rs:53-57 | The k-th packet on the wire of any list of messages, split or not, has the wrapped number k after the first, and the counter moves on by the number of packets. |
| Sending.SplitIff | src/raknet/send.rs:86 | A message is split if and only if it has more than 1190 bytes with an ordering index, 1195 without. |
| Sending.ChunkCount | src/raknet/send.rs:96-98 | A message takes at most k chunks if and only if its data is at most k times the chunk size. |
| Sending.SendPart.ProcessOutgoingPackets | src/raknet/send.rs:82-118 | The packets produced and the counters afterwards are those of the wire functions, for every list of messages. |
| Sending.SendPart.RelData | src/raknet/send.rs:65-80 | Hands out the ordering index of the reliability and advances only that index, wrapping. |
| Words.WindowIsExact | src/raknet/recv.rs:84 | The wrapping test decides the unbounded order exactly for distances -(2^31+1) to 2^31-2, and answers the opposite one step further on either side. |
| EndToEnd.EndToEndIff | src/raknet/connection.rs:36-62 | What one connection sends in a call the other receives unchanged, and is then open and in step, if and only if no message is a disconnect notification and none takes more than 255 chunks; never more packets come out than there are messages without these faults. |
| Fitting.RunGrows | src/raknet/recv.rs:41-75 | Of messages received in the order sent, packets delivered or queued number at most those that are neither disconnect notifications nor of more than 255 chunks, which never complete. |
| WireRuns.WirePrefixSafety | src/raknet/recv.rs:41-118 | On every orderly run of packets off the wire whose garbled indices stay in range, no assertion fails, the output is what the messages of at most 255 chunks alone would give, and in order it is a prefix of what was sent. |
| Panics.NeverPanicsIff | src/raknet/recv.rs:41-53 | For every session of any length, and whatever is lost, repeated and reordered, the receiver never panics, if and only if no two split messages with the same id, the same one included, are such that an index of the one off the wire runs past the count of the other. |
| Panics.FewNeverPanicIff | src/raknet/recv.rs:41-53 | With at most 65536 split messages, if and only if every split message has at most 65535 chunks or one of the counts from 0xffff01 to 0xffffff or above 0xffffff00. |
| EndToEnd.PrefixSafetyOverDatagrams | src/raknet/connection.rs:36-42 | Prefix safety for lost, repeated and reordered datagrams carrying any acknowledgements, whatever the size of the messages as long as no garbled index runs past its count. |
| EndToEnd.AnyPermutationOverDatagrams | src/raknet/connection.rs:36-42 | Any-order delivery for the datagrams of a session, through their bytes. |
| EndToEnd.DropClosesPeer | src/raknet/connection.rs:65-69 | The notification sent by a dropped connection closes its peer and delivers nothing, whatever the peer holds. |
| Conversations.RunIsSession | src/raknet/connection.rs:36-62 | Over any run of sends and receives, with nothing to send included, the datagrams of a connection carry exactly the packets of one session of all its messages, in order, or acknowledgements alone. |
| Conversations.AllIsHeard | src/raknet/connection.rs:36-62 | All datagrams of such a run, rearranged at will, deliver all ordered messages in order and every message that needs no order exactly once, and leave the peer holding nothing. |
| Conversations.PrefixIsHeard | src/raknet/connection.rs:36-62 | Any of the datagrams of such a run, lost, repeated and reordered at will, deliver a prefix of the ordered messages. |
| Fresh.StartsAtZero | src/raknet/send.rs:27-35 | All counters of a new connection are zero, and it holds nothing. |
| Fresh.NewAreInStep | src/raknet/recv.rs:11-17 | Two new connections are in step. |
| Fresh.FirstCallIff | src/raknet/connection.rs:26-62 | What a new connection sends in its first call a new peer receives unchanged if and only if no message is a disconnect notification and none takes more than 255 chunks. |
| Fresh.AllIsHeardFromTheStart | src/raknet/connection.rs:26-62 | All that a new connection says, its datagrams rearranged at will, a new peer delivers. |
| Fresh.PrefixIsHeardFromTheStart | src/raknet/connection.rs:26-62 | And with datagrams lost and repeated, a prefix of the ordered messages. |
| Fresh.FirstNotice | src/raknet/connection.rs:65-69 | A new connection that is dropped sends the seven bytes 0, 0, 0, 0, 3, 0x80, 0x13. |
| AckConservation.AcksAreConserved | src/raknet/connection.rs:36-62 | On every run of a connection, the next send acknowledges exactly the numbers of reliable packets received since the previous one that no later number dropped from the list, the latest among them, none more often than it was received, so each that was not repeated exactly once; in increasing order if none was repeated; in the first datagram, the others acknowledge nothing and nothing stays pending. |
| AckConservation.UnacknowledgedWasReceived | src/raknet/recv.rs:34-39 | The numbers pending at any moment of a run are numbers of reliable packets received in it. |
| Acknowledging.PeerAcknowledges | src/raknet/recv.rs:34-39 | A peer that received fragments of a session, lost, repeated and reordered at will, acknowledges with its next send the numbers of those that belong to Reliable and ReliableOrdered messages, and no others. |
| Acknowledging.EachIsAcknowledged | src/raknet/recv.rs:34-39 | In a session of at most 2^32 packets different packets have different numbers: if none arrived twice, every reliable one that arrived is acknowledged exactly once. |
| RemoteTime.TimeIsLast | src/raknet/connection.rs:50-53 | Over any run the remote time is that of the last datagram whose header has one. |
| RemoteTime.SendEchoesTime | src/raknet/send.rs:160-169 | A send that acknowledges anything has the flag set and the last remote time received in bits 1 to 32 of its first datagram. |
| Connections.ClosedForEver | src/raknet/connection.rs:57-62 | Once closed, a connection stays closed over every further run and produces no datagram. |
| Connections.AcksAloneChangeNothing | src/raknet/send.rs:148-158 | A datagram with acknowledgements only delivers nothing and leaves the receiving connection as it was; its header cannot be read exactly if it fills whole bytes. |
| Connections.Connection.HandleDatagram | src/raknet/connection.rs:36-42 | Header, parsing and processing of one datagram, or an error that changes nothing. |
| Connections.Connection.HandleHeader | src/raknet/connection.rs:44-55 | Skips the acknowledgements and takes over the remote time exactly if there is one. |
| Connections.Connection.SendPackets | src/raknet/connection.rs:57-62 | Refuses once closed; otherwise returns the datagrams, clears the acknowledgements and advances the sender. |
| Datagrams.DatagramCarries | src/raknet/send.rs:137-146 | A packet's datagram is read as its acknowledgements and exactly that packet, only the split header garbled. |
| Datagrams.ReadTimedHeaderAt | src/raknet/connection.rs:44-55 | A header with acknowledgements and a remote time is read back exactly. |
| Datagrams.UnsplitFitsIff | src/raknet/send.rs:120-135 | Without acknowledgements an unsplit packet's datagram takes at most 1202 bytes, and at most 1200 if and only if header length plus data leave two bytes to spare. |
| Datagrams.LargestDatagram | src/raknet/send.rs:120-135 | 1195 bytes sent Reliable are not split and make a datagram of 1202 bytes. |
| Datagrams.FragmentFitsIff | src/raknet/send.rs:86-135 | Every chunk makes a datagram of at most 1200 bytes, except exactly those above 1182 bytes of messages without ordering index whose index and count both take 33 bits. |
| Datagrams.LargestFragment | src/raknet/send.rs:120-135 | The last of 0x1000001 full chunks sent Reliable makes a datagram of 1201 bytes. |
| Datagrams.SendRakPackets | src/raknet/send.rs:36-47 | One datagram per packet, acknowledgements in the first only, or alone if there is no packet; the list is empty afterwards. |
| Datagrams.WriteAcks | src/raknet/send.rs:160-169 | Writes the flag, and the time and list if there are any, then clears the list. |
| PacketCodec.ReadPacketAt | src/raknet/packet.rs:111-144 | A packet written at any bit offset, whatever surrounds it, is read back whole and exactly its bits are consumed, alignment included; only split index and count may differ. |
| PacketCodec.PacketRoundTripIff | src/raknet/packet.rs:77-144 | The packet read back is the one written if and only if its split index and count are in the codec's exact range. |
| PacketCodec.ParseRoundTripIff | src/raknet/recv.rs:20-29 | Parsing any concatenation of packets returns exactly the list if and only if all split headers are in the exact range. |
| PacketCodec.ReadPacket | src/raknet/packet.rs:111-130 | A packet that is read has consumed at least 42 bits and ends inside the data, so parsing terminates. |
| PacketCodec.ReadRelAt | src/raknet/packet.rs:28-69 | Reliability and ordering index are read back as written, at any offset. |
| Layout.ReliabilityIds | src/raknet/packet.rs:28-69 | The ids are 0, 1, 2 and 3 in three bits for Unreliable, UnreliableSequenced, Reliable and ReliableOrdered; an ordering index follows five zero bits. |
| Layout.MostSignificantFirst | src/raknet/comp.rs:12-35 | Numbers of less than a byte are written with their most significant bit first. |
| Layout.LittleEndian | src/raknet/comp.rs:38-61 | Numbers of several bytes are written with their least significant byte first. |
| Layout.CompressedExamples | src/raknet/comp.rs:108-170 | 14, 47975 and 3925837394 are written as the bytes the program's tests give. |
| Layout.RangeListExample | src/raknet/rangelist.rs:157 | The list of the program's test is written as the bytes that test gives. |
| PacketCodec.WritePacket | src/raknet/packet.rs:132-144 | The serialiser appends exactly the packet's bits for the offset it starts at. |
| PacketCodec.ReadPacketFrom | src/raknet/packet.rs:111-130 | The deserialiser returns what the reading function returns and moves the reader to where it ends. |
| PacketCodec.ParseAll | src/raknet/recv.rs:20-29 | The loop collects exactly the packets up to the first failed read. |
| Compressed.RoundTripIff | src/raknet/comp.rs:38-88 | Decoding an encoded 32-bit value gives it back and consumes exactly its bits if and only if it is below 2^8 or at least 2^24. |
| Compressed.CompressedU32At | src/raknet/comp.rs:67-88 | Any other value comes back times 2^16 (below 2^16) or 2^8, and still exactly its bits are consumed. |
| Compressed.CompressedU16At | src/raknet/comp.rs:12-35 | Every 16-bit value is read back as written and exactly its bits are consumed, at any offset. |
| Compressed.WriteCompressed | src/raknet/comp.rs:38-61 | The encoder's loop with early return writes exactly the specified bits, at either width. |
| Compressed.ReadCompressedFrom | src/raknet/comp.rs:67-88 | The decoder's loops return exactly the specified value and position, or the end of data. |
| AckCodec.ReadListAt | src/raknet/rangelist.rs:115-147 | A list of at most 65535 ranges written at any bit offset is read back as written and exactly its bits are consumed. |
| AckCodec.WriteList | src/raknet/rangelist.rs:115-127 | The serialiser writes the count cut to 16 bits and every range. |
| AckCodec.ReadListFrom | src/raknet/rangelist.rs:129-147 | The deserialiser returns what the reading function returns, or the end of data. |
| RangeLists.InsertIsSetInsertIff | src/raknet/rangelist.rs:39-79 | On a sorted list an insertion adds exactly the item, unless two neighbouring ranges share `item - 1`, the second reaches beyond `item` and no third starts at `item + 1`; then it drops numbers. |
| RangeLists.MembersAfterRun | src/raknet/rangelist.rs:39-79 | After every run, repeats included, a number is present if and only if some insertion of it is followed by none that drops it. |
| RangeLists.NoMoreThanInserted | src/raknet/rangelist.rs:39-104 | After every run, repeats included, no number is enumerated more often than it was inserted. |
| RangeLists.NewRangeIff | src/raknet/rangelist.rs:39-79 | An insertion makes a new range if and only if the item is in none there is and next to none. |
| RangeLists.FourRanges | src/raknet/rangelist.rs:191-198 | Inserting 1, 2, 3, 5, 6, 8, 14, 15, 16, 17 makes four ranges. |
| RangeLists.InsertedMembers | src/raknet/rangelist.rs:39-79 | An insertion keeps the list sorted and changes membership by exactly the item and the numbers the removal branch drops. |
| RangeLists.EveryRun | src/raknet/rangelist.rs:39-79 | Over every run, repeats included, mins strictly increase, neighbours share at most one number, the last item is present and nothing is present that was not inserted. |
| RangeLists.DuplicateFreeRun | src/raknet/rangelist.rs:39-79 | Over every run without repeats the ranges are disjoint and enumerate exactly the inserted numbers, each once, in increasing order. |
| RangeLists.RepeatsLoseMembers | src/raknet/rangelist.rs:67-72 | Inserting 1, 3, 4, 5, 2, 3, 4 ends as the one range from 1 to 4: the number 5 is lost. |
| RangeLists.RangeList.Insert | src/raknet/rangelist.rs:39-79 | The scan with its early exits has the effect of the insertion function on any list, and `item - 1` never underflows. |
| RangeLists.RangeList.Len | src/raknet/rangelist.rs:23-29 | The sum over the ranges is the number of numbers the list enumerates. |
| RangeLists.Items.Next | src/raknet/rangelist.rs:87-104 | Each call yields the next number of the enumeration, and nothing once it is exhausted. |
| TcpUdp.Connection.ReceiveTcp | src/tcpudp/mod.rs:131-161 | However reads cut up the stream and whenever one returns nothing, the bytes pending before plus the bytes consumed are exactly the encoding of the delivered packets plus the bytes pending after, which are no whole frame; every packet is ReliableOrdered. |
| TcpUdp.Connection.ReceiveUdp | src/tcpudp/mod.rs:109-128 | The sequence number and packets after any list of datagrams are those of the filter function. |
| TcpUdp.Connection.Send | src/tcpudp/mod.rs:59-84 | Reliable packets become frames on the stream, unreliable ones datagrams with wrapping sequence numbers, each in order. |
| TcpUdp.SentIsReceived | src/tcpudp/mod.rs:59-161 | Everything sent is received: all reliable data in order with no byte left over, all unreliable packets in order, both sides in step. |
| Layout.FrameBytes | src/tcpudp/mod.rs:77-80 | A frame is its length in four bytes, the least significant first, and the data. |
| Layout.DatagramIds | src/tcpudp/mod.rs:62-75 | An Unreliable datagram starts with 0, a sequenced one with 1 and its number in four bytes, the least significant first. |
| UdpRuns.UdpDelivery | src/tcpudp/mod.rs:109-128 | Whichever of the sent datagrams arrive, lost, repeated and reordered inside the window, the sequenced packets delivered are exactly those later than all before them, and every Unreliable packet is delivered as often as it arrives. |
| Framing.CutsDoNotMatter | src/tcpudp/mod.rs:131-161 | Resuming on the pieces of a stream, however it was cut, agrees with parsing it at once. |
| Framing.DeframeFrames | src/tcpudp/mod.rs:77-80 | Parsing framed messages gives back exactly the messages, empty ones included. |
| Framing.DeframeIff | src/tcpudp/mod.rs:131-161 | The parser delivers given messages and keeps given bytes if and only if the input is the encoding of the messages followed by those bytes and they hold no whole frame. |
| Framing.ParsesOn | src/tcpudp/mod.rs:131-161 | That equation carries over from one call to the next, so it holds of everything consumed and delivered so far. |
| Framing.ReceivedSoFar | src/tcpudp/mod.rs:131-161 | After any part of a framed stream exactly the messages have been delivered whose frames are complete: the first ones sent, with a byte of the next one missing, and the rest is pending. |
| Sequenced.SequencedIncrease | src/raknet/recv.rs:83-90 | On every run of the receiver, whatever the mix of packets, fragments and notifications, the sequenced messages delivered are exactly the whole ones later than all before them in the in-window reading of their indices, with strictly increasing unbounded numbers. |
| Sequenced.ReadingIsUnique | src/raknet/recv.rs:84 | A list of machine indices has only one reading with unbounded numbers inside the window (`Sequenced.Reading`: it has one). |
| Sequenced.RunFilters | src/raknet/recv.rs:31-125 | On every run the receiver treats the whole sequenced messages, among anything else, as the machine filter does. |
| Sequenced.FiltersAgree | src/tcpudp/mod.rs:119-125 | Given the same sequenced messages among any other traffic, RakNet's receiver and the UDP receiver let through the same ones and end with the same index. |
| Sequenced.FilterIsNewest | src/tcpudp/mod.rs:119-125 | Inside the window the wrapping filter keeps exactly the newest items of the unbounded sequence and expects the wrapped successor of the largest. |
| Sequenced.NewestIncrease | src/raknet/recv.rs:83-90 | The numbers of accepted packets strictly increase. |
| Sequenced.KeptIff | src/raknet/recv.rs:83-90 | A packet is newest if and only if its number exceeds all that arrived before it. |

## Left out

- src/main.rs, src/bridge.rs: the event loop, packet scanning and relays, which are sockets and name lookup; only the packet types are taken.
- src/tcpudp/tls.rs, src/log.rs, src/string.rs: a wrapper around a library, a name table, and a fixed-width string codec.
- Sockets: datagrams are the byte strings handed to them, writes are complete, and errors other than a read that would block do not occur. The shared receive buffer is the datagram itself.
- The bit library: its readers and writers are modelled from their use and the byte vectors in the tests (src/raknet/comp.rs:102-171, src/raknet/rangelist.rs:157).
- Capacity hints and log output have no effect on the result and are not modelled.
- Memory: an allocation always succeeds, also that of a reassembly entry for a garbled count of up to 2^32-1 parts.
- RangeLists.RangeList.Len: asks for a sorted list without the full 32-bit range, on which the program's arithmetic overflows.
- PacketCodec.WritePacket: asks for at most 8191 bytes of data, beyond which the program's 16-bit length in bits overflows; the sender never produces more (`Datagrams.FragmentsEncodable`).
- Receiving.ReceivePart.ProcessIncomingPackets: asks that no assertion of the program fails; on the sender's own fragments this is proved (`Delivery.PrefixSafety`).
- TcpUdp.Connection.ReceiveUdp: asks for datagrams of this protocol; the program panics on others.
- AckConservation.AcksAreConserved: asks for at most 65535 ranges, because the program cuts the count to 16 bits.
- Delivery.PrefixSafety: a split id may be reused, but not while the receiver still holds fragments of its previous message.
- Reassembly.FragmentArrives: likewise; what happens otherwise is `Panics.NeverPanicsIff` and `Reuse.ReuseMixesMessages`.
- Conversations.AllIsHeard: asks, like `Conversations.RunIsSession` and `Conversations.PrefixIsHeard`, for at most 65535 ranges to acknowledge per send. The peer goes on after a datagram whose header it cannot read; that the event loop drops the connection then (src/main.rs:132-135) is not modelled.
