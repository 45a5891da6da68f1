# A verified model of the i2pcpp router

i2pcpp is a router for the anonymous network I2P. This project models the parts of it
that carry state or arithmetic worth proving something about, and proves what they are for.
Sockets, clocks, random numbers and ciphers are parameters; timers are steps that may happen
at any time; a handler runs to its end before the next one starts.

- **SSU messages** (`Ssu*.dfy`): the sender cuts a message into fragments of 1120 bytes, tracks
  sent and acknowledged flags and retransmits; the receiver reassembles, posts complete messages
  and flushes acknowledgements. `SsuProtocol` puts both sides together over a network that loses,
  repeats, delays and reorders packets; every packet crosses the wire format of `SsuPacket`.
- **Tunnel builds** (`BuildRecords`, `TunnelBuild`, `TunnelManager`, `TunnelSafety`): the creator's
  layered records, what every hop does with them or refuses, and the path data takes afterwards.
  The ciphers are any functions with `enc(k, dec(k, r)) == r` and a key pair law.
- **Tunnel messages** (`TunnelFragments`, `TunnelMessages`, `TunnelReassembly`): the splitter, the
  codec, the padded 1008-byte message and the reassembler. Whether `I2NP::Message::fromBytes`
  accepts some bytes is a parameter.
- **DHT** (`DhtSearch`, `DhtActions`, `Kademlia`): event-driven searches, what they ask for, and the
  bucket index.
- **Codecs and fast forms** (`Utf8`, `Masking`, `Dates`, `Mappings`, `RouterInfos`, `Base64`).
- `Bytes` and `Lists` hold what they share: machine words, and lists of values in a byte stream.

Each state-changing method is proved equal to a function on values (`OnEvent`, `Participate`,
`OnFragment`, `OnConnectionFailure`, ...); the theorems are about those functions and about all
runs made of them. Formats are stated twice: reader and writer undo each other, and each is given
by the positions of bits and bytes, so that on any input the reader finds a value iff its bytes
stand there. A read past the end of the input that the C++ code does not check for is an
error result (`Overrun`).

Where a property does not hold of the code on all inputs, the model keeps the code as it is and
the condition is exact:

- a packet with several fragments is read back iff the bytes seven, fourteen, ... further on, where
  the reader looks for the next header, are those of the next fragment (`DataExact`,
  `TwoFragmentsExact`);
- a message whose fragments arrive in order is delivered iff its length is not a multiple of 1120
  and below 128 * 1120 (`DeliveredIffDeliverable`); in any order of arrival, what completes is the
  message that was sent iff it has at most 128 fragments or none is flagged last
  (`CompletesIffNumbered`);
- a message of up to 128 fragments can be dropped as acknowledged by bitfields without ever being
  posted iff it has at least 1120 bytes (`LostIffFull`): one of several fragments because a receiver
  state times out in between, one whose length is a multiple of 1120 in a run without any timeout or
  loss (`FlatDropped`), since no run ever posts it (`NeverPosted`);
- a message is posted once for every arrival that finds it complete, so again with every repeat until
  a flush or a timeout (`PostCount`);
- flushes that list n complete and m partial messages can make the sender drop a message that was
  never posted, with no timeout involved, iff n > 256 and neither count is a multiple of 256, as long
  as n + m < 2^32 leaves an id for that message (`MisleadIffTooLong`). In runs without such flushes,
  a message that has one fragment, or of which no incomplete state timed out, is posted if it is
  dropped as acknowledged (`AckSafety`);
- transmissions are bounded iff the message has at most 256 fragments or more than 16383 * 127
  bytes, in which case nothing is sent (`BoundedIff`); n <= 256 fragments are transmitted at most
  n + 6 times, and that is reached (`BoundedTransmission`, `BoundReached`);
- a hop finds its record iff no record in front of it has the same header (`FindsOwn`);
- tunnel fragmentation is faithful iff the message has at most 64 * 996 bytes
  (`FragmentationExact`; longer ones throw, or are cut off after 1000 bytes, because the length is
  compared in 16 bits);
- fragments and tunnel messages are read back iff no first fragment is in local or router mode
  (`CodecExact`, `MessageRoundTrip`). The fragments `fragmentMessage` makes are in local mode, so
  a first fragment made by a gateway of this code is refused by its own reader (`LocalRejected`);
- delivery instructions are followed in a run of the reassembler iff every message that was not
  cut names a tunnel: others are wrapped in a `TunnelGateway` message all the same, with a tunnel
  id that was never set (`FollowedIffTunnels`); the reassembler throws iff a first or last fragment
  comes again before its message is complete, or a complete message for a router cannot be parsed
  (`TunnelReassembly.Reassembly`);
- the flush of acknowledgements comes to its end iff every peer with an entry still exists
  (`FlushAckCallback`);
- two keys of a bucket are closer to each other than to the reference iff neither is the reference
  (`Closeness`);
- a mapping is printed as it was read iff its keys were strictly increasing and its separators '='
  and ';' (`MappingCanonical`);
- a RouterInfo followed by other bytes is read back iff the last 40 bytes are its signature
  (`TrailingBytes`).

The comments of `receiveData` on bitfields speak of the low bit marking a further byte; the code
tests bit 7, and so does the model.

## Model

| member | source | states |
|---|---|---|
| `SsuPacket.BuildBitByte` | lib/ssu/PacketBuilder.cpp:147-158 | the byte built bit by bit has the binary digits [more, b0..b6], missing bits 0 |
| `SsuPacket.BuildBitfield` | lib/ssu/PacketBuilder.cpp:144-159 | seven fragments per byte, bit 7 on all bytes but the last |
| `SsuPacket.BuildAcks` | lib/ssu/PacketBuilder.cpp:130-136 | the bytes of all ids in order and their number modulo 256 |
| `SsuPacket.BuildPartials` | lib/ssu/PacketBuilder.cpp:138-162 | id and bitfield of every entry in order and their number modulo 256 |
| `SsuPacket.BuildFragments` | lib/ssu/PacketBuilder.cpp:180-203 | header and data of every fragment, or an error iff one is over 16383 bytes |
| `SsuPacket.BuildData` | lib/ssu/PacketBuilder.cpp:116-206 | the whole data message, a list left out and its flag clear iff its one-byte count is 0 |
| `SsuPacket.ParseAcks` | lib/ssu/InboundMessageFragments.cpp:32-43 | the complete acknowledgements read and the input left, or none if they do not fit |
| `SsuPacket.ParseBitfield` | lib/ssu/InboundMessageFragments.cpp:54-67 | the fragment numbers of one bitfield, byte by byte while bit 7 is set |
| `SsuPacket.ParseBitfields` | lib/ssu/InboundMessageFragments.cpp:45-72 | one acknowledgement event per bitfield, in order |
| `SsuPacket.ParseFragments` | lib/ssu/InboundMessageFragments.cpp:74-97 | one fragment per header; the reader advances over headers only |
| `SsuPacket.ParseData` | lib/ssu/InboundMessageFragments.cpp:29-97 | the events of the message up to the first error |
| `SsuPacket.BitfieldRoundTrip` | lib/ssu/InboundMessageFragments.cpp:54-67 | reading a written bitfield of up to 256 bits gives exactly the numbers of its set bits |
| `SsuPacket.DataRoundTrip` | lib/ssu/InboundMessageFragments.cpp:29-97 | reading a built packet gives exactly its acks, the acked fragment numbers per message and its fragments, for fewer than 256 of each, bitfields of 1..256 bits and data in the last fragment only |
| `SsuPacket.DataExact` | lib/ssu/InboundMessageFragments.cpp:74-97 | any number of fragments, with or without data: all are read back iff the bytes found in steps of seven are their ids, numbers, sizes and data |
| `SsuPacket.TwoFragmentsExact` | lib/ssu/InboundMessageFragments.cpp:74-97 | two fragments are read back iff the data of the first followed by the second begins with the id, number, size and data of the second |
| `SsuPacket.SecondFragmentGarbled` | lib/ssu/InboundMessageFragments.cpp:78-97 | no packet is read back whose first fragment begins with four bytes other than the id of the second |
| `SsuPacket.CompletesWritten` | lib/ssu/PacketBuilder.cpp:130-136 | however many acknowledgements a packet has, the complete ones read are among those written |
| `SsuPacket.FieldsWritten` | lib/ssu/PacketBuilder.cpp:138-178 | so are the bitfields, unless more than 256 complete ones precede them and neither count is a multiple of 256 |
| `SsuPacket.FragmentAlone` | lib/ssu/OutboundMessageFragments.cpp:51-57 | a packet with one fragment is read as that fragment, its number taken modulo 128 |
| `SsuFormat.BitfieldLayout` | lib/ssu/PacketBuilder.cpp:144-159 | a written bitfield has a byte for every seven fragments begun, bit 7 iff another follows, and bit 6 - r of byte q iff fragment 7q + r arrived |
| `SsuFormat.FieldReads` | lib/ssu/InboundMessageFragments.cpp:54-67 | in any input, up to the first byte without bit 7, fragment x is named iff bit 6 - x % 7 of byte x / 7 is set |
| `SsuFormat.FieldRunsOut` | lib/ssu/InboundMessageFragments.cpp:54-67 | a bitfield without such a byte is not read |
| `SsuFormat.AckLayout` | lib/ssu/PacketBuilder.cpp:130-136 | id i stands in bytes 4i to 4i + 3, most significant first |
| `SsuFormat.AckPartExact` | lib/ssu/InboundMessageFragments.cpp:32-43 | in any input the ids are read iff all that the count names are there, four bytes each |
| `SsuFormat.PartialLayout` | lib/ssu/PacketBuilder.cpp:138-162 | an entry is its id and its bitfield |
| `SsuFormat.DataLayout` | lib/ssu/PacketBuilder.cpp:164-180 | bit 7 of the flags for acks, bit 6 for bitfields, bit 2 for a reply; the two lists behind their counts, the number of fragments, the fragments |
| `SsuFormat.FieldsIncremental` | lib/ssu/InboundMessageFragments.cpp:45-72 | the bitfields read before an error stand, and there are as many as counted iff there is none |
| `SsuFormat.FragmentsIncremental` | lib/ssu/InboundMessageFragments.cpp:74-97 | the same for fragments |
| `SsuFormat.DataIncremental` | lib/ssu/InboundMessageFragments.cpp:29-97 | acks, bitfields and fragments in this order, up to the part that fails, what came before kept |
| `Bytes.BigEndian` | include/i2pcpp/datatypes/ByteArray.h:29-45 | both word readers are big-endian |
| `SsuOutbound.OutboundMessageState.FragmentMessage` | lib/ssu/OutboundMessageState.cpp:16-43 | cuts the message into the fragments given by position and length; refuses iff over 16383 * 127 bytes |
| `SsuOutbound.OutboundMessageState.GetNextFragment` | lib/ssu/OutboundMessageState.cpp:45-55 | the first fragment not sent, cutting on first use |
| `SsuOutbound.OutboundMessageState.GetNextUnackdFragment` | lib/ssu/OutboundMessageState.cpp:57-64 | the first fragment not acknowledged, if any |
| `SsuOutbound.OutboundMessageState.AllFragmentsSent` | lib/ssu/OutboundMessageState.cpp:83-91 | true iff every fragment is flagged sent |
| `SsuOutbound.OutboundMessageState.AllFragmentsAckd` | lib/ssu/OutboundMessageState.cpp:93-101 | true iff every fragment is flagged acknowledged |
| `SsuOutbound.OutboundMessageState.MarkFragmentSent` | lib/ssu/OutboundMessageState.cpp:66-72 | exactly that fragment is flagged sent; a number out of range changes nothing |
| `SsuOutbound.OutboundMessageState.MarkFragmentAckd` | lib/ssu/OutboundMessageState.cpp:74-81 | exactly that fragment is flagged acknowledged; a number out of range changes nothing |
| `SsuOutbound.OutboundMessageFragments.SendData` | lib/ssu/OutboundMessageFragments.cpp:16-29 | a new entry, or nothing if the id is in use |
| `SsuOutbound.OutboundMessageFragments.SendDataCallback` | lib/ssu/OutboundMessageFragments.cpp:36-62 | transmits and flags the first unsent fragment; throws iff there is none or the message is too large; posts itself again iff one is left |
| `SsuOutbound.OutboundMessageFragments.TimerCallback` | lib/ssu/OutboundMessageFragments.cpp:64-96 | gives up after six tries, else retransmits the first unacknowledged fragment and counts a try |
| `SsuOutbound.OutboundMessageFragments.AckFragments` | lib/ssu/InboundMessageFragments.cpp:52-70 | flags the acknowledged fragments and drops the message iff all are |
| `SsuAcking.AcksApplied` | lib/ssu/InboundMessageFragments.cpp:32-72 | for every packet and table: a message leaves the table iff its id is among the complete acks read, or a bitfield for it was read and all of them with the marks already there cover it; what stays has exactly the named fragments marked; what is not mentioned is unchanged |
| `SsuInbound.InboundMessageState.AddFragment` | lib/ssu/InboundMessageState.cpp:13-33 | the new state, with the byte total equal to the stored bytes; reports the write past the vector, which happens iff the number is 255 and not ignored before |
| `SsuInbound.AddKeepsCount` | lib/ssu/InboundMessageState.cpp:13-33 | every addition keeps the byte total equal to the sum of the stored sizes |
| `SsuInbound.AddLaw` | lib/ssu/InboundMessageState.cpp:13-33 | a fragment is ignored behind the last one or in a filled slot; else exactly its slot is filled, the slots extended up to it, flag and total updated |
| `SsuInbound.InboundMessageState.Assemble` | lib/ssu/InboundMessageState.cpp:35-49 | fills the buffer exactly with the stored fragments in slot order |
| `SsuInbound.InboundMessageState.AllFragmentsReceived` | lib/ssu/InboundMessageState.cpp:61-70 | true iff the last fragment was seen and no slot is empty |
| `SsuInbound.FragmentsReceived` | lib/ssu/InboundMessageState.cpp:72-80 | one bit per slot, set iff the slot is filled |
| `SsuInbound.Extend` | lib/ssu/InboundMessageFragments.cpp:141-148 | adds a fragment and assembles the message iff it is complete |
| `SsuInbound.InboundMessageFragments.FileFragment` | lib/ssu/InboundMessageFragments.cpp:99-111 | the entry keeps its first peer, and the message is posted iff complete and not empty |
| `SsuInbound.FileLaw` | lib/ssu/InboundMessageFragments.cpp:99-113 | the entry belongs to the peer that began the message, other entries stay, and a post is made for that peer iff every slot up to the last is filled and there are any bytes |
| `SsuInbound.InboundMessageFragments.ReceiveData` | lib/ssu/InboundMessageFragments.cpp:25-113 | the effect of a packet is that of its events in order; fails iff reading fails |
| `SsuInbound.InboundMessageFragments.TimerCallback` | lib/ssu/InboundMessageFragments.cpp:133-139 | forgets the message and nothing else |
| `SsuAck.AcknowledgementManager.FlushPeer` | lib/ssu/AcknowledgementManager.cpp:38-48 | names every message of the peer once, complete ones apart, the others with their bitfield; complete ones leave the table |
| `SsuAck.AcknowledgementManager.FlushAckCallback` | lib/ssu/AcknowledgementManager.cpp:22-58 | done after some rounds iff every peer with an entry exists and there is a round for each; then one packet per peer has been sent and exactly the incomplete messages stay; else it stands at a peer not served |
| `SsuReassembly.ArrivalOrderIrrelevant` | lib/ssu/InboundMessageState.cpp:13-33 | for any order and repetition of the fragments the state is that of the set that arrived |
| `SsuReassembly.KnowsUnique` | lib/ssu/InboundMessageState.cpp:13-33 | there is one state per set of arrivals |
| `SsuReassembly.CompleteIffWhole` | lib/ssu/InboundMessageState.cpp:61-70 | complete iff every fragment arrived |
| `SsuReassembly.JoinedCut` | lib/ssu/OutboundMessageState.cpp:16-43 | the fragments put one after the other are the message |
| `SsuReassembly.Reassembly` | lib/ssu/InboundMessageState.cpp:13-70 | complete iff all fragments were seen; then the bytes are the message; the total is the stored size |
| `SsuReassembly.DeliveredIffDeliverable` | lib/ssu/OutboundMessageState.cpp:26-42 | fragments delivered in order give the message back iff its length is not a multiple of 1120 and below 128 * 1120 |
| `SsuReassembly.CompletesIffNumbered` | lib/ssu/InboundMessageState.cpp:13-70 | in every order of arrival, with repeats and losses, what the receiver takes for complete is the message, iff there are at most 128 fragments or no last one |
| `SsuProtocol.StepKeeps` | lib/ssu/InboundMessageFragments.cpp:25-148 | every step of sender, receiver and network keeps the protocol invariant, acknowledgement packets of any size included |
| `SsuProtocol.RunKeeps` | lib/ssu/OutboundMessageFragments.cpp:16-96 | so does every run |
| `SsuProtocol.PostSafety` | lib/ssu/InboundMessageFragments.cpp:99-131 | in every run over a lossy, duplicating, reordering network, every post is a message that was sent, with its bytes, and a message dropped on a complete ack was posted |
| `SsuProtocol.AckSafety` | lib/ssu/AcknowledgementManager.cpp:38-57 | in every such run a message dropped on a complete ack was posted with exactly its bytes; so was one dropped because bitfields covered it, if it has one fragment or no incomplete state of it expired and the flushes of the run are legible |
| `SsuPosts.PostCount` | lib/ssu/InboundMessageFragments.cpp:99-111 | in every run, the posts of a message of n fragments are as many as the arrivals after which all n have come since its state was last erased by a timeout or by a flush that found it complete |
| `SsuExpiry.SeveralCanBeLost` | lib/ssu/InboundMessageFragments.cpp:133-139 | for every deliverable message of more than one fragment a run drops it as covered while it is never posted |
| `SsuUnflagged.NeverPosted` | lib/ssu/OutboundMessageState.cpp:26-42 | in every run, with other messages of any length, a message whose length is a multiple of 1120 is never posted |
| `SsuUnflagged.FlatDropped` | lib/ssu/InboundMessageFragments.cpp:52-70 | for 1 to 128 full fragments, a run without timeout, retransmission or loss ends with all fragments received, the message dropped as covered and nothing posted |
| `SsuUnflagged.LostIffFull` | lib/ssu/InboundMessageFragments.cpp:99-148 | for every message of 1 to 128 fragments: a run exists that drops it as covered while it is never posted, iff it has at least 1120 bytes |
| `SsuOverflow.MisleadIffTooLong` | lib/ssu/PacketBuilder.cpp:122-178 | for every n and m: flushes of n complete and m partial messages can make the sender drop a message that was not posted only if n > 256 and neither is a multiple of 256; and if so, for n + m < 2^32 |
| `SsuTransmission.StepPaid` | lib/ssu/OutboundMessageFragments.cpp:36-96 | every transmission uses up an unsent fragment or one of six tries |
| `SsuTransmission.BoundedTransmission` | lib/ssu/OutboundMessageFragments.cpp:36-96 | every interleaving of callbacks, timers and acks transmits at most n + 6 packets, n <= 256 fragments |
| `SsuTransmission.BoundReached` | lib/ssu/OutboundMessageFragments.cpp:36-96 | some run transmits exactly n + 6 |
| `SsuTransmission.EndlessTransmission` | lib/ssu/OutboundMessageState.cpp:35-72 | above 256 fragments, up to 16383 * 127 bytes, the callback transmits without bound |
| `SsuTransmission.BoundedIff` | lib/ssu/OutboundMessageState.cpp:16-72 | transmissions are bounded over all interleavings iff there are at most 256 fragments or the message is too large to be cut |
| `SsuTransmission.AckedNeverResent` | lib/ssu/OutboundMessageFragments.cpp:78-89 | once a fragment is acknowledged no later retransmission is of it |
| `SsuTransmission.AcknowledgedNeverSent` | lib/ssu/InboundMessageFragments.cpp:37-42 | after a complete ack no step transmits anything of the message |
| `SsuTransmission.CallbackExact` | lib/ssu/OutboundMessageFragments.cpp:36-62 | the callback transmits and flags the first fragment never sent; it throws iff there is none or the message cannot be cut |
| `SsuTransmission.TimerExact` | lib/ssu/OutboundMessageFragments.cpp:64-96 | the timer gives up iff there were six tries, else retransmits the first unacknowledged fragment and counts a try, or does nothing |
| `BuildRecords.OpenSealed` | lib/datatypes/BuildRecord.cpp:32-86 | decryption of an encrypted record passes the hash test and returns the 222 bytes |
| `BuildRecords.PlaintextLayout` | lib/datatypes/BuildRecord.cpp:32-60 | what is sealed is 255, the hash of the first 222 bytes and these |
| `BuildRecords.OpenExact` | lib/datatypes/BuildRecord.cpp:61-86 | a record opens to given bytes iff the cipher yields their hash and them, and keeps the rest |
| `BuildRecords.TypeBits` | lib/datatypes/BuildRequestRecord.cpp:152-167 | gateway is bit 7, endpoint bit 6; setting one leaves the other bits alone |
| `BuildRecords.TypeRoundTrip` | lib/datatypes/BuildRequestRecord.cpp:152-167 | a type set is the type read, unless an endpoint was a gateway before |
| `BuildRecords.RequestRoundTrip` | lib/datatypes/BuildRequestRecord.cpp:38-63 | parsing data whose first 222 bytes are those of a compiled record returns its fields |
| `BuildRecords.RequestLayout` | lib/datatypes/BuildRequestRecord.cpp:65-110 | the position of every field in the 512 bytes |
| `BuildRecords.RequestExact` | lib/datatypes/BuildRequestRecord.cpp:38-63 | data is read as a request iff its first 193 bytes are those of the compiled request |
| `BuildRecords.Compile` | lib/datatypes/BuildRequestRecord.cpp:65-110 | fills all 512 bytes with the fields in order and zeros |
| `BuildRecords.ResponseRoundTrip` | lib/datatypes/BuildResponseRecord.cpp:20-54 | a compiled response passes the hash test and returns its reply |
| `BuildRecords.ResponseExact` | lib/datatypes/BuildResponseRecord.cpp:20-54 | a record is accepted with a reply iff it was compiled with that reply and some padding |
| `BuildRecords.ResponseLayout` | lib/datatypes/BuildResponseRecord.cpp:36-54 | hash in header and data, padding, reply in the last byte |
| `TunnelBuild.SecureRecord` | lib/i2p/tunnel/Tunnel.cpp:67-81 | the record of hop i under the decryptions of hops 0..i-1, the last of them innermost |
| `TunnelBuild.SecureRecords` | lib/i2p/tunnel/Tunnel.cpp:64-83 | all records so, the requests unchanged |
| `TunnelBuild.ChainBack` | lib/i2p/tunnel/OutboundTunnel.cpp:15-34 | hops in the order of the routers, each naming the next, the last the reply tunnel; only the last an endpoint |
| `TunnelBuild.ChainOut` | lib/i2p/tunnel/InboundTunnel.cpp:17-35 | hops in reverse order of the routers, each naming the next, the last our own hash; only the first a gateway |
| `TunnelBuild.Tunnel.Outbound` | lib/i2p/tunnel/OutboundTunnel.cpp:7-37 | a linked and secured outbound chain; operational at once iff it has no hops |
| `TunnelBuild.Tunnel.Inbound` | lib/i2p/tunnel/InboundTunnel.cpp:9-38 | a linked and secured inbound chain; operational at once iff it has no hops |
| `TunnelManager.Manager.ReceiveRecords` | lib/i2p/tunnel/Manager.cpp:82-139 | takes the first record with our header, joins unless shutting down or the id is taken, answers in place, adds a layer to all records and forwards |
| `TunnelSafety.JoinExact` | lib/i2p/tunnel/Manager.cpp:82-139 | a router joins iff a record has its header, it does not shut down, the first such record opens and the id is free; then the table, the answer and its records are as the request says; else nothing changes and the answer says why |
| `TunnelSafety.NotOursIgnored` | lib/i2p/tunnel/Manager.cpp:82-90 | without a record for us nothing happens |
| `TunnelSafety.JoinKeeps` | lib/i2p/tunnel/Manager.cpp:102-118 | any build message leaves tunnels in use as they were and adds at most one |
| `TunnelSafety.TravelKeeps` | lib/i2p/tunnel/Manager.cpp:82-139 | wherever a build message travels, no tunnel in use is altered at any router |
| `TunnelManager.Manager.ReceiveData` | lib/i2p/tunnel/Manager.cpp:200-248 | adds our layer and passes on, delivers or drops by the type of the hop |
| `TunnelSafety.RelayExact` | lib/i2p/tunnel/Manager.cpp:200-248 | data goes on iff we are a participant and arrives iff we are the endpoint, under our layer; gateways and strangers drop it |
| `TunnelManager.Manager.ReceiveGatewayData` | lib/i2p/tunnel/Manager.cpp:141-198 | a gateway cuts the data, packs every fragment into a tunnel message, adds its layer and sends it on, or throws; another hop drops it; data for our own inbound tunnel is handed to ourselves |
| `TunnelSafety.GatewayExact` | lib/i2p/tunnel/Manager.cpp:147-198 | dropped by the other hops and for unknown tunnels, handed to ourselves unchanged iff the tunnel is our own and not served for others, else one message per fragment to the next hop |
| `TunnelManager.Manager.TimerCallback` | lib/i2p/tunnel/Manager.cpp:250-259 | ends that participation and no other |
| `TunnelManager.FindsOwn` | lib/i2p/tunnel/Manager.cpp:82-87 | hop k finds its own record iff no record before it carries its truncated hash |
| `TunnelManager.OwnRequest` | lib/i2p/tunnel/Manager.cpp:97-99 | what hop k decrypts and parses is the request made for it |
| `TunnelManager.OnionPeeling` | lib/i2p/tunnel/Manager.cpp:82-138 | from the message in front of hop k, hop k makes the message in front of hop k+1: later records have one layer less, earlier answers one more, its own is its answer under its key |
| `TunnelManager.SecuredIsStart` | lib/i2p/tunnel/Tunnel.cpp:64-83 | the creator's records are the message in front of hop 0 |
| `TunnelManager.TunnelBuilt` | lib/i2p/tunnel/Manager.cpp:97-138 | a build message started at the first hop visits exactly the hops in order and leaves for the tunnel's end, and the tables link the hops |
| `TunnelManager.OutboundPath` | lib/i2p/tunnel/Manager.cpp:206-245 | data visits the hops in order, gets one layer at each and ends at the endpoint |
| `TunnelManager.InboundPath` | lib/i2p/tunnel/Manager.cpp:147-181 | what the gateway is given passes the other hops in order, gets one layer per hop and leaves for our own hash and id |
| `TunnelManager.GatewayDelivers` | lib/i2p/tunnel/Manager.cpp:164-176 | cutting, packing and path together: the k-th fragment passes the hops in order and leaves under all layers in a message of 1024 bytes from which it is read back unless it is the first; throws iff over 64 * 996 bytes and over 1000 modulo 65536 |
| `TunnelManager.OutboundTunnelWorks` | lib/i2p/tunnel/OutboundTunnel.cpp:18-36 | construction, build and data path together: data visits exactly the chosen routers |
| `TunnelManager.InboundTunnelWorks` | lib/i2p/tunnel/InboundTunnel.cpp:21-37 | the same for inbound tunnels |
| `TunnelFragments.SetPayload` | lib/i2p/tunnel/Fragment.cpp:22-37 | the longest prefix that fits, and the rest of the input |
| `TunnelFragments.FragmentMessage` | lib/i2p/tunnel/Fragment.cpp:49-86 | the fragments given by position, one unfragmented piece, or an error, by the length alone |
| `TunnelFragments.FragmentationExact` | lib/i2p/tunnel/Fragment.cpp:49-86 | payloads concatenate to the message, sizes are header plus payload and at most 1003, numbers 1..n, only the last flagged, several iff over 1000 bytes: all this iff the message has at most 64 * 996 bytes |
| `TunnelFragments.LongMessageCutOff` | lib/i2p/tunnel/FirstFragment.cpp:40-43 | lengths from 65536 that are at most 1000 modulo 65536 lose all but 1000 bytes |
| `TunnelFragments.CompiledSize` | lib/i2p/tunnel/Fragment.cpp:44-47 | a compiled fragment has the size of its header and its payload |
| `TunnelFragments.CodecExact` | lib/i2p/tunnel/FirstFragment.cpp:70-107 | a compiled fragment is read back with the input behind it iff it is a follow-on or in tunnel mode |
| `TunnelFragments.ReadExact` | lib/i2p/tunnel/Fragment.cpp:88-101 | on any input the reader finds a fragment iff its flags, destination, id, size and payload stand at the head, by positions |
| `TunnelFragments.WrittenLayout` | lib/i2p/tunnel/FirstFragment.cpp:12-38 | what is written stands by positions as the reader looks for it; local first fragments are flags, id, size and payload |
| `TunnelFragments.FollowOnRoundTrip` | lib/i2p/tunnel/FollowOnFragment.cpp:31-72 | number, last flag, id and payload of a follow-on survive |
| `TunnelFragments.LocalRejected` | lib/i2p/tunnel/FirstFragment.cpp:78-94 | a first fragment in local mode makes the reader throw |
| `TunnelMessages.NewMessage` | lib/i2p/tunnel/Message.cpp:22-35 | accepted iff every mode is implemented and the sizes sum up to at most 1003 in 16 bits; size and checksum are those of the compiled fragments |
| `TunnelMessages.MeasureAndSum` | lib/i2p/tunnel/Message.cpp:127-143 | the summed sizes are the length of the compiled fragments, modulo 65536, and the checksum is over exactly them and the IV |
| `TunnelMessages.Message.Compile` | lib/i2p/tunnel/Message.cpp:103-125 | fills exactly the 1008 bytes: checksum, padding without zeros, zero, fragments; reports a write past the buffer, which happens iff the sum of the sizes wrapped around |
| `TunnelMessages.ReadWritten` | lib/i2p/tunnel/Message.cpp:145-169 | the first zero behind the checksum is the delimiter and the checksum verifies |
| `TunnelMessages.MessageLayout` | lib/i2p/tunnel/Message.cpp:103-143 | four bytes of the hash of fragments and IV, padding with 255 for zeros, a zero, the fragments |
| `TunnelMessages.BodyExact` | lib/i2p/tunnel/Message.cpp:37-54 | any 1008 bytes are taken for a message with this body iff they are laid out as one, the hash included |
| `TunnelMessages.ParseMessage` | lib/i2p/tunnel/Message.cpp:37-54 | the fragments behind the first zero, if the checksum is right |
| `TunnelMessages.MessageRoundTrip` | lib/i2p/tunnel/Message.cpp:37-54 | for every IV and padding the list of fragments is read back iff no first fragment is local, else the reader throws |
| `TunnelMessages.GatewayMessage` | lib/i2p/tunnel/Manager.cpp:164-176 | every fragment `fragmentMessage` makes fits a message of its own; follow-ons are read back from it, the first fragment makes the reader throw |
| `TunnelReassembly.FragmentState.SetFirstFragment` | lib/i2p/tunnel/FragmentState.cpp:5-11 | stores it, or fails iff there is one |
| `TunnelReassembly.FragmentState.AddFollowOnFragment` | lib/i2p/tunnel/FragmentState.cpp:13-24 | stores a new number, ignores a known one, fails iff a second last one |
| `TunnelReassembly.FragmentState.Compile` | lib/i2p/tunnel/FragmentState.cpp:44-55 | the payloads in the order of the numbers; the list is left sorted |
| `TunnelReassembly.SortSpec` | lib/i2p/tunnel/FragmentState.cpp:46-46 | sorting orders the fragments strictly and keeps exactly them |
| `TunnelReassembly.CompleteIffFull` | lib/i2p/tunnel/FragmentState.cpp:26-42 | complete iff the first and all follow-ons 1..n have arrived |
| `TunnelReassembly.FullAssembles` | lib/i2p/tunnel/FragmentState.cpp:44-55 | a complete state compiles to the pieces of its message in order |
| `TunnelReassembly.FragmentHandler.CheckAndFlush` | lib/i2p/tunnel/FragmentHandler.cpp:73-111 | sends and erases a complete message; throws, keeping its state, iff it is for a router and cannot be parsed; otherwise leaves an entry, even a new one |
| `TunnelReassembly.FragmentHandler.ReceiveFragments` | lib/i2p/tunnel/FragmentHandler.cpp:18-71 | handles the list in order up to the first fragment that throws, and leaves the state reached by then |
| `TunnelReassembly.FragmentHandler.TimerCallback` | lib/i2p/tunnel/FragmentHandler.cpp:113-118 | forgets that message only |
| `TunnelReassembly.SingleStep` | lib/i2p/tunnel/FragmentHandler.cpp:28-33 | a message that was not cut goes out at once and leaves all states as they were; it is handed on as its delivery instructions say iff they name a tunnel |
| `TunnelReassembly.Reassembly` | lib/i2p/tunnel/FragmentHandler.cpp:18-111 | for any interleaving of any messages with any repeats: throws iff a first or last fragment comes again before its message is complete, or a message for a router becomes complete and cannot be parsed, and then leaves what was sent and known; else each message is sent with every arrival that completes it, whole, to the router and tunnel or under the id its first fragment names, and the states hold exactly what arrived since |
| `TunnelReassembly.FollowedIffTunnels` | lib/i2p/tunnel/FragmentHandler.cpp:28-33 | over a whole run the handler sends what the delivery instructions ask for iff every message that was not cut names a tunnel |
| `TunnelReassembly.ExactlyOnce` | lib/i2p/tunnel/FragmentHandler.cpp:18-111 | without repeats: throws iff a complete message cannot be sent; else what the handler sent is made of every message whose fragments all arrived, each once, and the messages that were not cut |
| `TunnelReassembly.BatchesIrrelevant` | lib/i2p/tunnel/FragmentHandler.cpp:18-71 | how fragments are spread over lists makes no difference, up to the first that throws |
| `DhtSearch.SearchState.Copy` | lib/i2p/dht/SearchState.cpp:18-23 | the copy has the same cursor |
| `DhtSearch.CopyKeepsCursor` | lib/i2p/dht/SearchState.cpp:18-34 | finding the cursor by value gives the same position, because alternates have no duplicates |
| `DhtSearch.SearchState.AddAlternate` | lib/i2p/dht/SearchState.cpp:52-57 | appended iff new; no duplicates, cursor kept |
| `DhtSearch.SearchState.PopAlternate` | lib/i2p/dht/SearchState.cpp:59-65 | the cursor moves to the next alternate iff there is one |
| `DhtSearch.SearchManager.CreateSearch` | lib/i2p/dht/SearchManager.cpp:33-69 | fails at once for a cached goal, does nothing for an active one, else starts with the first point |
| `DhtActions.CreateLaw` | lib/i2p/dht/SearchManager.cpp:33-69 | a new search starts at the first point with the others, without repeats and in order, as alternates, one connection and one note; a cached goal is only refused |
| `DhtSearch.SearchManager.Cancel` | lib/i2p/dht/SearchManager.cpp:82-95 | an active goal fails, loses its timer and is cached |
| `DhtActions.CancelLaw` | lib/i2p/dht/SearchManager.cpp:82-95 | only that search ends, with one failure note, cached, and no action |
| `DhtSearch.SearchManager.Connected` | lib/i2p/dht/SearchManager.cpp:97-123 | a search connecting to the router sends its lookup |
| `DhtActions.ConnectedLaw` | lib/i2p/dht/SearchManager.cpp:97-123 | a connecting search at that router asks it for the goal without the excluded routers; nothing else changes |
| `DhtSearch.NextKnown` | lib/i2p/dht/SearchManager.cpp:139-159 | the skip loop ends at the first later alternate the database knows, or gives up |
| `DhtSearch.SearchManager.ConnectionFailure` | lib/i2p/dht/SearchManager.cpp:125-169 | moves on to that alternate and excludes the router, or cancels |
| `DhtActions.FailureLaw` | lib/i2p/dht/SearchManager.cpp:125-169 | the search excludes the router and connects to the first later alternate the database knows, or fails iff there is none |
| `DhtSearch.SearchManager.SearchReply` | lib/i2p/dht/SearchManager.cpp:171-217 | adds the new alternates, moves on to the next or cancels |
| `DhtActions.ReplyLaw` | lib/i2p/dht/SearchManager.cpp:171-217 | new routers become alternates in order, the replier is excluded, and the search goes on: connects iff the next is known, else asks the replier for it; or fails iff none is left |
| `DhtSearch.SearchManager.DatabaseStore` | lib/i2p/dht/SearchManager.cpp:219-266 | ends an active search for the key, or connects to a router waited for |
| `DhtActions.StoreLaw` | lib/i2p/dht/SearchManager.cpp:219-266 | an active search for the key ends, with success iff it is a RouterInfo; else only a RouterInfo from the router a search is at makes us connect |
| `DhtSearch.Bookkeeping` | lib/i2p/dht/SearchManager.cpp:33-95 | in every reachable state timers are those of the active goals, no active goal is cached, every start has exactly one end unless the search is active, and signals are no more than starts |
| `DhtActions.ActionsJustified` | lib/i2p/dht/SearchManager.cpp:33-266 | in every run each event asks for at most one thing, no router is connected to that is not a starting point, known or just stored, and none asked that is not just connected or has not just replied, for a router not known, leaving itself out |
| `DhtSearch.CancelledStaysRefused` | lib/i2p/dht/SearchManager.cpp:35-39 | after a cancellation every later search for the goal fails at once and has no other effect |
| `DhtSearch.NeverRevisits` | lib/i2p/dht/SearchManager.cpp:125-217 | between any two moments of a search it is at the same router iff the cursor has not moved; the routers it was at are pairwise distinct |
| `Kademlia.DeBruijn` | lib/i2p/dht/Kademlia.cpp:74-95 | the multiplication and table lookup give the position of the highest bit of every byte |
| `Kademlia.GetBucket` | lib/i2p/dht/Kademlia.cpp:67-101 | the loop computes the level of the first byte that differs, as a `size_t` |
| `Kademlia.BucketIsLog` | lib/i2p/dht/Kademlia.cpp:67-101 | one more than the bucket is the one and only rounded binary logarithm of the 256-bit distance; distances 0 and 1, and no others, wrap to the largest `size_t` |
| `Kademlia.Closeness` | lib/i2p/dht/Kademlia.cpp:67-101 | keys of one bucket are strictly closer to each other than to the reference iff neither is the reference |
| `Kademlia.RoutingTable.Insert` | lib/i2p/dht/Kademlia.cpp:18-21 | the value is appended to the bucket of its key |
| `Kademlia.RoutingTable.Find` | lib/i2p/dht/Kademlia.cpp:33-40 | the first `count` values of the bucket |
| `Kademlia.FindIsClose` | lib/i2p/dht/Kademlia.cpp:18-31 | a bucket holds exactly the values inserted under its keys, all closer to the key looked for than to the reference |
| `Utf8.ClassIsTable` | frontends/console/websocketpp/utf8_validator.hpp:44-52 | the classes by ranges are the first 256 table entries |
| `Utf8.TransitionIsTable` | frontends/console/websocketpp/utf8_validator.hpp:53-58 | the transitions by cases are the rows of the table |
| `Utf8.Validator.Consume` | frontends/console/websocketpp/utf8_validator.hpp:89-94 | two table lookups are one step of the machine; false iff rejected |
| `Utf8.Validator.DecodeBytes` | frontends/console/websocketpp/utf8_validator.hpp:102-116 | the machine fed up to the first rejected byte |
| `Utf8.Validate` | frontends/console/websocketpp/utf8_validator.hpp:141-147 | true iff the whole input leads from accept to accept |
| `Utf8.RejectAbsorbs` | frontends/console/websocketpp/utf8_validator.hpp:53-58 | nothing leads out of reject |
| `Utf8.ChunkingIrrelevant` | frontends/console/websocketpp/utf8_validator.hpp:102-116 | any chunking ends in the state of the whole input |
| `Utf8.CharAccepted` | frontends/console/websocketpp/utf8_validator.hpp:43-58 | a character ends in accept and passes neither accept nor reject before its end |
| `Utf8.ValidIffOctets` | frontends/console/websocketpp/utf8_validator.hpp:141-147 | accepted iff a concatenation of the sequences of section 4 of RFC 3629 |
| `Utf8.ValidIffScalars` | frontends/console/websocketpp/utf8_validator.hpp:141-147 | accepted iff the encoding of some sequence of Unicode scalar values |
| `Utf8.CodePoint` | frontends/console/websocketpp/utf8_validator.hpp:67-76 | at the end of an encoded character the code point is its scalar value |
| `Utf8.DecodeEncoded` | frontends/console/websocketpp/utf8_validator.hpp:67-76 | after any encoded sequence the machine is in accept with its last scalar value |
| `Masking.ByteMask` | frontends/console/websocketpp/frame.hpp:669-680 | byte i is masked with key byte (offset + i) mod 4; in place or not, nothing else changes |
| `Masking.WordMaskExact` | frontends/console/websocketpp/frame.hpp:727-742 | the same bytes as masking byte by byte from offset 0 |
| `Masking.WordMaskCirc` | frontends/console/websocketpp/frame.hpp:793-814 | masks with the bytes of the key word over and over and returns it rotated by the length |
| `Masking.ByteMaskCirc` | frontends/console/websocketpp/frame.hpp:855-866 | masks with the four low key bytes over and over and returns the key rotated by the length |
| `Masking.PreparedMem` | frontends/console/websocketpp/frame.hpp:623-632 | the prepared word holds the key bytes twice |
| `Masking.RotatedMem` | frontends/console/websocketpp/frame.hpp:640-648 | rotating the word rotates its bytes in memory |
| `Masking.ChunkingIrrelevant` | frontends/console/websocketpp/frame.hpp:793-866 | for every split into chunks, masked by words or bytes with the key threaded through, the bytes are those of one `byte_mask` over the payload |
| `Masking.MaskTwice` | frontends/console/websocketpp/frame.hpp:669-680 | masking twice is the identity |
| `Dates.ParseDate` | lib/datatypes/Date.cpp:18-26 | the big-endian number of eight bytes and the input behind them |
| `Dates.SerializeDate` | lib/datatypes/Date.cpp:28-36 | the eight bytes, most significant first |
| `Dates.DateRoundTrip` | lib/datatypes/Date.cpp:18-36 | a printed date is read back |
| `Dates.DateCanonical` | lib/datatypes/Date.cpp:18-36 | any eight bytes are printed as they were read |
| `Dates.DateIsBigEndian` | lib/datatypes/Date.cpp:18-26 | the number byte by byte; fewer than eight bytes are refused |
| `Mappings.ParseMapping` | lib/datatypes/Mapping.cpp:9-41 | the loop gives the map of the entries read, later ones winning, and the input behind |
| `Mappings.SerializeMapping` | lib/datatypes/Mapping.cpp:64-82 | size and entries in the order of the keys |
| `Mappings.PutSorted` | lib/datatypes/Mapping.cpp:39-39 | assigning keeps the entries sorted and adds nothing else |
| `Mappings.LessIsLexicographic` | lib/datatypes/Mapping.cpp:39-39 | the order of keys is that of the first byte that differs, a prefix first |
| `Mappings.HoldsLast` | lib/datatypes/Mapping.cpp:14-40 | the map read holds exactly the last entry of every key |
| `Mappings.MappingRoundTrip` | lib/datatypes/Mapping.cpp:9-82 | a map of short strings that fits 16 bits is read back |
| `Mappings.EntryExact` | lib/datatypes/Mapping.cpp:22-40 | an entry is read from any input iff length, key, a byte, length, value and a byte stand at its head |
| `Mappings.EntryWritten` | lib/datatypes/Mapping.cpp:64-82 | every entry is written so, with = and ; |
| `Mappings.MappingExact` | lib/datatypes/Mapping.cpp:9-41 | a mapping is accepted iff its size does not exceed the input and covers whole entries |
| `Mappings.MappingCanonical` | lib/datatypes/Mapping.cpp:9-82 | accepted bytes are printed as they were read iff keys strictly increase and separators are '=' and ';' |
| `RouterInfos.CertificateRoundTrip` | lib/datatypes/Certificate.cpp:11-45 | a certificate of type 0..4 is read back |
| `RouterInfos.CertificateExact` | lib/datatypes/Certificate.cpp:11-35 | read iff type 0..4, size and all of the payload stand there |
| `RouterInfos.IdentityRoundTrip` | lib/datatypes/RouterIdentity.cpp:13-43 | keys and certificate are read back |
| `RouterInfos.IdentityExact` | lib/datatypes/RouterIdentity.cpp:13-30 | read iff 256 and 128 bytes of keys and a certificate stand at the head |
| `RouterInfos.RouterIdentity.GetHash` | lib/datatypes/RouterIdentity.cpp:59-75 | the hash of the printed identity, cached or not |
| `RouterInfos.AddressRoundTrip` | lib/datatypes/RouterAddress.cpp:14-41 | cost, expiration, transport and options are read back |
| `RouterInfos.AddressExact` | lib/datatypes/RouterAddress.cpp:14-41 | read iff cost, expiration, transport and a mapping stand at the head |
| `RouterInfos.ParseInfo` | lib/datatypes/RouterInfo.cpp:24-40 | all nested parts in order, the signature from the end of the input |
| `RouterInfos.SerializeInfo` | lib/datatypes/RouterInfo.cpp:126-149 | the signed bytes and the signature |
| `RouterInfos.InfoRoundTrip` | lib/datatypes/RouterInfo.cpp:24-48 | a printed RouterInfo is read back through all nested types |
| `RouterInfos.InfoExact` | lib/datatypes/RouterInfo.cpp:24-40 | read iff the parts stand one behind the other, forty bytes are left, and the signature is the last forty |
| `RouterInfos.InfoLayout` | lib/datatypes/RouterInfo.cpp:126-149 | the position of every part of a printed RouterInfo |
| `RouterInfos.TrailingBytes` | lib/datatypes/RouterInfo.cpp:38-39 | with bytes behind it, iff the last 40 bytes are its signature |
| `Base64.Encode` | lib/util/Base64.cpp:11-50 | three bytes give four characters, a rest of one or two is padded with '=' |
| `Base64.Decode` | lib/util/Base64.cpp:52-91 | groups of four up to the first character outside the alphabet, missing slots decoding as 255 |
| `Base64.CharFind` | lib/util/Base64.cpp:5-9 | the characters accepted are exactly those of the alphabet |
| `Base64.CharIsAlphabet` | lib/util/Base64.cpp:5-9 | the alphabet is the string of the source, in its order |
| `Base64.RoundTrip` | lib/util/Base64.cpp:11-91 | decoding an encoded byte string returns it, and its length is 4 * ceil(n / 3) |
| `Base64.EncodedNumbers` | lib/util/Base64.cpp:11-50 | in every group the four characters are the base-64 digits of the three bytes, zeros for missing ones; = exactly where no bit of the input belongs |
| `Base64.DecodedNumbers` | lib/util/Base64.cpp:52-91 | as many bytes as the bits fill, each the base-256 digit of the number of its group |

## Left out

- SsuInbound.InboundMessageState.AddFragment: what the write past the vector at number 255 destroys; it is reported and the state left as it was.
- SsuInbound.InboundMessageFragments.ReceiveData: a packet is read as a whole before its events take effect, where the code interleaves the two; reading does not depend on the effects.
- SsuAck.AcknowledgementManager.FlushAckCallback: peers are served in any order, not in that of the index; rounds of the outer loop are counted by a parameter, because the loop need not end.
- SsuProtocol.AckSafety: one sender and one receiver; message ids are not reused, messages satisfy `Deliverable`, and the bitfield half asks for legible flushes (`MisleadIffTooLong`).
- SsuUnflagged.LostIffFull: empty messages, which are never sent, and messages of more than 128 fragments, which the receiver mixes up (`CompletesIffNumbered`).
- SsuOverflow.MisleadIffTooLong: the misleading run is given for n + m < 2^32; with 2^32 ids in use the message dropped would have to be one of the partial ones, and more do not exist.
- TunnelManager.Manager.ReceiveRecords: the branch for tunnels of our own (`m_pending`) is not modelled; it goes on to use a tunnel it has moved from.
- TunnelManager.Manager.ReceiveGatewayData: our own tunnels are given by the ids of those that are inbound and operational; what the dispatcher does with recirculated data is outside the model.
- TunnelManager.TunnelBuilt: stops at the layered answers; `Tunnel::handleResponses` skips the last hop's key and parses all records after every layer, so answers do not come back as written.
- TunnelMessages.Message.Compile: what the write past the buffer destroys.
- TunnelReassembly.FragmentHandler.CheckAndFlush: a first fragment in local mode, which the reader never yields, is treated as the code would, with an unset hash.
- DhtSearch.SearchManager.CreateSearch: an empty range of starting points, which the code dereferences, is an error result; `k` in `cancel` is taken by value.
- Kademlia.RoutingTable.Insert: `erase`, `setReference` and `makeKey` are left out.
- Masking.WordMaskCirc: little-endian words of eight bytes only; a rotation by 0, which the code does by an undefined shift of 64 bits, is the identity.
- Expiry of the negative lookup cache and `SearchState::isTried`: neither does what its comment says; the cache is a set that grows on cancellation.
- AES, ElGamal, DSA, SHA-256, HMAC, gzip, random numbers, sockets, real time, mutexes, logging and the databases: parameters, or outside the model.
- The SSU handshake, I2NP messages, dispatchers, peer and profile management, the C and Python interfaces, the web console and the rest of websocketpp: mostly calls into libraries, or easy members.
