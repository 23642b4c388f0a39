# Verification of the lattice mesh firmware

A Dafny model of the firmware of a mesh node, with proofs. A node relays packed radio messages between
battery devices and a master, remembers its peers, its master and its keys in an emulated EEPROM, and at
a master talks to a server over a framed serial line that carries protobuf messages.

The project has four parts.

- **The protobuf codec** (`Varint`, `PbStreams`, `FieldIterator`, `MessageCodec`, `PbMessage`,
  `RecordOrder`, `MeshSchema`, `WireFormat`): the bundled nanopb with the MeshMessage schema. Streams, iterator and the
  encode and decode loops are classes and methods that work in place; they are proved against functions on
  byte sequences, and the laws are proved about those functions, for every descriptor of the field kinds
  the schema uses.
- **The serial bridge** (`SerialFraming`, `SerialBridge`, `ServerLink`): the byte-at-a-time frame receiver and the mapping
  between the radio message and the protobuf struct, composed with the codec end to end.
- **The mesh** (`RecvRing`, `ReplayCache`, `MeshNode`, `Forwarding`, `HandlerLaws`, `QuietNetwork`,
  `RouteLearning`, `MasterLearning`, `MasterHeard`, `Mesh`): the receive ring as a machine of interleaved sub-steps, the replay cache, and
  the handlers of a node. `MeshNode` says what each handler makes of a node as a value; the class in `Mesh`
  does the same in place, on a settings store, and is proved equal to it; networks and runs are state
  machines over `MeshNode`.
- **The settings store** (`Crc16`, `EepromImage`, `EepromMigration`, `EepromStore`,
  `SettingsLayout`, `PeerTable`): the 512-byte
  image, its migration, deferred and immediate commits, the keypair checksum and the peer list.

`WireFormat`, `ServerLink`, `HandlerLaws` and `SettingsLayout` say what the operations do in the numbers of the
protocol: bytes on the wire and on the serial line, message types, milliseconds and hop counts, addresses in the
image. Each law names the operation it is about, and otherwise none of the definitions that operation is made of.

`Basics` and `MeshTypes` hold integers, addresses, the radio message and the protocol constants. C's
unsigned types are subset types of `int`, so every wrap-around and truncation is written out. The radio,
the adapter and the serial line are lists of what was sent; clock readings and random jitter are parameters.

Some findings the proofs rest on:

- Comments speak of twelve data bytes; the packed struct has 64 and the encoder sends all of them, while the
  decoder of the bridge keeps twelve. The model follows the code.
- A route's distance is the least since the last *reset*, not the least ever: a beacon of another origin or
  a timeout starts afresh.
- A new master should be accepted exactly when nine seconds have passed since boot and since the last accepted
  beacon. The code compares 32-bit times, so this fails once they wrap: when the silence is long but less than nine
  seconds modulo 2^32, or, once a timeout has reset the time stamp to 0, when the clock reads less than nine seconds.
  `MasterLearning.StrangerExactly` gives the exact condition; two lemmas reach the failure by runs, one without and
  one with a reset of the stamp.
- The checksum catches every change of one byte of the stored keypair record and of two adjacent bytes, with a
  single exception: 0x89 flipped in the last key byte together with 0xA1 in the checksum byte next to it
  (`EepromImage.AdjacentBytes`).

## Model

| member | source | states |
|---|---|---|
| Varint.RoundTrip64 | main/src/Mesh/serialization/nanopb/pb_encode.c:573-622 | every unsigned 64-bit value, encoded and followed by anything, decodes to itself and leaves exactly what followed |
| Varint.RoundTrip32 | main/src/Mesh/serialization/nanopb/pb_decode.c:171-240 | the same through the 32-bit decoder, for values below 2^32 |
| Varint.RoundTripSigned | main/src/Mesh/serialization/nanopb/pb_encode.c:625-635 | every signed 64-bit value, the most negative included, comes back through ZigZag and varint in at most ten bytes |
| Varint.ZigZagRoundTrip | main/src/Mesh/serialization/nanopb/pb_decode.c:1356-1368 | ZigZag is a bijection between signed and unsigned 64-bit numbers, in both directions |
| Varint.ZigZagOrder | main/src/Mesh/serialization/nanopb/pb_encode.c:625-635 | the codes go by magnitude, each positive number directly after its negative, from 0 on: with the bijection that leaves one map only |
| Varint.NothingDropped | main/src/Mesh/serialization/nanopb/pb_decode.c:171-263 | what the 32-bit decoder drops is sign extension only: a result below 2^31 is the whole number encoded |
| Varint.Minimal | main/src/Mesh/serialization/nanopb/pb_encode.c:573-605 | no varint of the same value is shorter than the encoder's |
| Varint.EncodeLength | main/src/Mesh/serialization/nanopb/pb_encode.c:573-605 | one byte below 2^7, at most two below 2^14, five below 2^32, ten below 2^64 |
| Varint.Refines64 | main/src/Mesh/serialization/nanopb/pb_decode.c:171-263 | whatever the 32-bit decoder accepts the 64-bit one accepts, over the same bytes and with the same low 32 bits |
| Varint.Accepts32 | main/src/Mesh/serialization/nanopb/pb_decode.c:171-263 | conversely, every 64-bit encoding of a value below 2^32 or of a sign-extended negative 32-bit number is accepted by the 32-bit decoder with the right result |
| Varint.Value64Bound | main/src/Mesh/serialization/nanopb/pb_decode.c:243-263 | the ten-byte limit with its one-bit last byte keeps every accepted value below 2^64 |
| Varint.DecodePrefix | main/src/Mesh/serialization/nanopb/pb_decode.c:171-263 | both decoders look at the varint only, never at what follows it |
| PbStreams.IStream.Read | main/src/Mesh/serialization/nanopb/pb_decode.c:82-121 | hands over exactly the next bytes and advances past them, or fails when fewer are left; the end of the input never moves |
| PbStreams.IStream.DecodeVarint32Eof | main/src/Mesh/serialization/nanopb/pb_decode.c:171-235 | the looped 32-bit decoder agrees with the reference on every input, and reports end of input exactly when nothing was left |
| PbStreams.IStream.DecodeVarint | main/src/Mesh/serialization/nanopb/pb_decode.c:243-263 | the looped 64-bit decoder agrees with the reference on every input |
| PbStreams.IStream.DecodeSvarint | main/src/Mesh/serialization/nanopb/pb_decode.c:1356-1368 | decodes the ZigZag number the reference finds |
| PbStreams.IStream.DecodeTag | main/src/Mesh/serialization/nanopb/pb_decode.c:291-306 | splits the key into wire type and field number; end of input between records is told apart from an error |
| PbStreams.IStream.SkipField | main/src/Mesh/serialization/nanopb/pb_decode.c:308-318 | skips exactly the body that belongs to the wire type, for types 0, 1, 2 and 5, and refuses the others |
| PbStreams.OStream.Write | main/src/Mesh/serialization/nanopb/pb_encode.c:84-111 | appends the bytes if they fit and otherwise writes nothing; what was written before stays |
| PbStreams.OStream.EncodeVarint | main/src/Mesh/serialization/nanopb/pb_encode.c:607-622 | appends the canonical varint, or fails exactly when it does not fit |
| PbStreams.OStream.EncodeVarintHalves | main/src/Mesh/serialization/nanopb/pb_encode.c:573-605 | the encoder that shifts two 32-bit halves writes the canonical varint of the 64-bit value they form |
| PbStreams.OStream.EncodeSvarint | main/src/Mesh/serialization/nanopb/pb_encode.c:625-635 | appends the canonical varint of the ZigZag number |
| PbStreams.OStream.EncodeString | main/src/Mesh/serialization/nanopb/pb_encode.c:716-722 | appends length and bytes, or fails exactly when they do not fit |
| FieldIterator.SliceJoin | main/src/Mesh/serialization/nanopb/pb.h:786-804 | packing bit fields into a word and slicing them out again gives each field back, for all four word layouts |
| FieldIterator.WordsAre | main/src/Mesh/serialization/nanopb/pb.h:757-804 | the words of a field, bit position by bit position, in the four formats of the generator |
| FieldIterator.TypeByte | main/src/Mesh/serialization/nanopb/pb.h:239-304 | the three parts of a type byte; submessages are kinds 8 and 9, required fields have rule 0, extension placeholders kind 10 |
| FieldIterator.UnpackField | main/src/Mesh/serialization/nanopb/pb_common.c:8-120 | reads back every member of a field description from its one, two, four or eight words, tags above 63 included |
| FieldIterator.FieldIter.Begin | main/src/Mesh/serialization/nanopb/pb_common.c:156-164 | starts on the first field with all running indices at zero and its values loaded |
| FieldIterator.FieldIter.AdvanceIterator | main/src/Mesh/serialization/nanopb/pb_common.c:122-154 | steps to the next field, or back to the first after the last, with the word index, the required-field count and the submessage count those of that field |
| FieldIterator.FieldIter.LoadDescriptorValues | main/src/Mesh/serialization/nanopb/pb_common.c:8-120 | loads the values of exactly the current field; past the last field it says so and loads nothing |
| FieldIterator.FieldIter.Next | main/src/Mesh/serialization/nanopb/pb_common.c:188-193 | says whether there was a next field; after the last one the iterator is on the first again |
| FieldIterator.FieldIter.Find | main/src/Mesh/serialization/nanopb/pb_common.c:195-244 | from every position and for every descriptor with rising tags the circular search ends, is true exactly when the current field has the tag or some field that is no extension placeholder has it, stands on that field then, and is back where it started otherwise |
| FieldIterator.FindableIsHasTag | main/src/Mesh/serialization/nanopb/pb_common.c:195-244 | without placeholders that is exactly when the tag exists, wherever the search starts |
| FieldIterator.FieldIter.FindExtension | main/src/Mesh/serialization/nanopb/pb_common.c:246-275 | true exactly when the descriptor has an extension placeholder, then standing on one, and otherwise back where it was |
| MessageCodec.RoundTrip | main/src/Mesh/serialization/nanopb/pb_decode.c:990-1152 | whatever the encoder writes for any message of any descriptor, the decoder reads back, up to bytes that carry no meaning (contents of absent members, bytes beyond the size) |
| MessageCodec.EncodesIff | main/src/Mesh/serialization/nanopb/pb_encode.c:856-875 | encoding fails exactly when a present byte string claims more bytes than it has room for |
| MessageCodec.CutField | main/src/Mesh/serialization/nanopb/pb_encode.c:362-405 | an encoded field followed by anything is cut off again as one record with its tag, wire type and contents |
| MessageCodec.DecodeStep | main/src/Mesh/serialization/nanopb/pb_decode.c:1016-1112 | decoding goes record by record: the first record changes its own member only and the rest is decoded on top |
| RecordOrder.FieldIndependence | main/src/Mesh/serialization/nanopb/pb_decode.c:1016-1112 | decoding succeeds exactly when every member's own records can be read, and gives each member what its own records alone make of it |
| RecordOrder.SameRecordsPerField | main/src/Mesh/serialization/nanopb/pb_decode.c:1016-1112 | inputs that agree field by field decode alike, errors included |
| RecordOrder.UnknownRecordsIgnored | main/src/Mesh/serialization/nanopb/pb_decode.c:266-318 | well-formed records of unknown field numbers, inserted at any record boundary, change nothing |
| RecordOrder.DisjointRecordsCommute | main/src/Mesh/serialization/nanopb/pb_decode.c:1016-1112 | groups of records with no tag in common may trade places anywhere in the input |
| RecordOrder.LastRecordWins | main/src/Mesh/serialization/nanopb/pb_decode.c:1497-1535 | what a member means after several records is what the last one alone would have made of it |
| RecordOrder.CutAllAppend | main/src/Mesh/serialization/nanopb/pb_decode.c:1016-1112 | cutting a concatenation gives the records of both parts |
| PbMessage.CheckProto3Default | main/src/Mesh/serialization/nanopb/pb_encode.c:244-360 | true exactly for members that are left off the wire: absent optional ones, zero numbers and empty byte strings; fixed-length bytes are written even when all zero |
| PbMessage.EncodeFieldAt | main/src/Mesh/serialization/nanopb/pb_encode.c:418-469 | writes the encoding of the current field, nothing for an omitted one, and fails exactly when it is not encodable or does not fit |
| PbMessage.Encode | main/src/Mesh/serialization/nanopb/pb_encode.c:512-534 | succeeds exactly when the message is encodable and fits the space left, and then has appended its encoding |
| PbMessage.DecVarint | main/src/Mesh/serialization/nanopb/pb_decode.c:1425-1495 | reads a number and refuses, exactly, malformed varints and values that do not survive truncation to the member's width |
| PbMessage.DecBytes | main/src/Mesh/serialization/nanopb/pb_decode.c:1497-1535 | reads a bounded byte string, refuses one longer than its buffer, and never claims more bytes than there is room |
| PbMessage.DecFixedLengthBytes | main/src/Mesh/serialization/nanopb/pb_decode.c:1639-1660 | takes exactly the member's length, or an empty string for all zeros, and nothing else |
| PbMessage.DecodeStaticField | main/src/Mesh/serialization/nanopb/pb_decode.c:467-520 | reads the value in place, sets the presence flag of optional members and touches no other member |
| PbMessage.MessageSetToDefaults | main/src/Mesh/serialization/nanopb/pb_decode.c:951-984 | every member is cleared, whatever was in memory, and the iterator is on the first field again |
| PbMessage.Decode | main/src/Mesh/serialization/nanopb/pb_decode.c:990-1152 | on every byte string decoding ends, never reads past the input and keeps every size within its buffer, failures included; it succeeds exactly when the record fold does and then leaves the fold's result |
| PbMessage.KnownRecord | main/src/Mesh/serialization/nanopb/pb_decode.c:1078-1112 | reading a known field's value from the stream is what cutting and folding its record does |
| PbMessage.UnknownRecord | main/src/Mesh/serialization/nanopb/pb_decode.c:1045-1076 | skipping an unknown field by its wire type leaves decoding of the rest unchanged |
| MeshSchema.MeshDescribed | main/src/Mesh/serialization/mesh.pb.h:63-81 | the eleven fields of MeshMessage, packed into descriptor words, form a descriptor with tags 1 to 11 |
| MeshSchema.LargestMessage | main/src/Mesh/serialization/mesh.pb.h:83-86 | the upper bounds of the fields add up to the 160 bytes the header declares |
| MeshSchema.LargestIsReached | main/src/Mesh/serialization/mesh.pb.h:83-86 | a message of exactly 160 bytes exists, so the declared size cannot be smaller |
| MeshSchema.EncodesMessage | main/src/Mesh/serialization/mesh.pb.h:63-87 | a message encodes exactly when the sizes of its present byte strings respect their buffers, and then in at most 160 bytes |
| MeshSchema.MeshRoundTrip | main/src/Mesh/serialization/mesh.pb.h:63-87 | decoding the written bytes gives back the same scalars, the three addresses, the presence flags and the byte strings up to their sizes |
| WireFormat.WireIs | main/src/Mesh/serialization/mesh.pb.h:63-87 | every message on the wire, byte for byte: key bytes, varints with signed numbers in their zigzag codes, lengths and contents, zero numbers and absent byte strings left out |
| WireFormat.UnknownSkipped | main/src/Mesh/serialization/nanopb/pb_decode.c:308-318 | a complete record of a field number above 11, of wire type 0, 1, 2 or 5, in front of anything, changes nothing |
| WireFormat.OtherTypesRefused | main/src/Mesh/serialization/nanopb/pb_decode.c:308-318 | a record of wire type 3, 4, 6 or 7 is an error whatever its field |
| WireFormat.ZeroTagRefused | main/src/Mesh/serialization/nanopb/pb_decode.c:1016-1043 | so is one of field 0 |
| WireFormat.IncompleteRefused | main/src/Mesh/serialization/nanopb/pb_decode.c:82-121 | and an input that ends in the middle of a record |
| WireFormat.NumberRecord | main/src/Mesh/serialization/nanopb/pb_decode.c:1425-1495 | an unsigned number is taken below 2^32 and is an error above, never cut down |
| WireFormat.SignedRecord | main/src/Mesh/serialization/nanopb/pb_decode.c:1425-1495 | a signed number: even codes halved, odd ones negative, an error beyond 32 bits |
| WireFormat.AddressRecord | main/src/Mesh/serialization/nanopb/pb_decode.c:1639-1660 | an address has six bytes, or none for zeros; every other length is an error |
| WireFormat.BytesRecord | main/src/Mesh/serialization/nanopb/pb_decode.c:1497-1535 | data takes up to 64 bytes and a key up to 32, present from then on; longer ones are errors |
| WireFormat.WrongTypeRefused | main/src/Mesh/serialization/nanopb/pb_decode.c:467-520 | a known field under another wire type than its own is an error |
| SerialFraming.FramingRoundTrip | main/src/Adapter/Serial_Adapter/Serial_Adapter.cpp:195-198 | any list of payloads of 1 to 256 bytes, framed and concatenated, is parsed back in order and leaves nothing pending |
| SerialFraming.ParseChunks | main/src/Adapter/Serial_Adapter/Serial_Adapter.cpp:92-140 | input may arrive in any chunks: parsing goes on from the unfinished frame |
| SerialFraming.Receiver.HandleByte | main/src/Adapter/Serial_Adapter/Serial_Adapter.cpp:92-140 | on arbitrary bytes the state machine hands over what the recursive parser finds and keeps what it leaves; the overflow branch cannot be reached |
| SerialFraming.Receiver.Receive | main/src/Adapter/Serial_Adapter/Serial_Adapter.cpp:92-140 | a whole chunk is handled as the parser handles pending bytes and chunk together |
| SerialFraming.Receiver.ReceiveAll | main/src/Adapter/Serial_Adapter/Serial_Adapter.cpp:92-140 | so is any sequence of chunks |
| SerialFraming.Receiver.ReceiveFramed | main/src/Adapter/Serial_Adapter/Serial_Adapter.cpp:92-140 | framed payloads cut into any chunks come out of an idle receiver as they went in, in order, and leave it idle |
| ServerLink.FrameBytes | main/src/Adapter/Serial_Adapter/Serial_Adapter.cpp:92-140 | a frame is its length, low byte first, and that many bytes; 0 and lengths above 256 cost the two bytes of the length and nothing more; an unfinished frame waits |
| ServerLink.SentBytes | main/src/Adapter/Serial_Adapter/Serial_Adapter.cpp:203-254 | the bytes sent for each radio message, all 64 data bytes among them, and the key for types 2 and 4 if it is not all zero |
| ServerLink.ReceivedByType | main/src/Adapter/Serial_Adapter/Serial_Adapter.cpp:256-302 | by message type: 3 and 4 keep origin and last hop, all others get the node's own address; the key comes through for 2 and 4; of the data the first twelve bytes |
| ServerLink.ServerMessage | main/src/Adapter/Serial_Adapter/Serial_Adapter.cpp:256-302 | what a node makes of any message the server encodes, member by member, truncation to the radio widths included |
| ServerLink.EnrollmentBytes | main/src/Adapter/Serial_Adapter/Serial_Adapter.cpp:304-323 | the enrollment relay, byte for byte |
| SerialBridge.BridgeRoundTrip | main/src/Adapter/Serial_Adapter/Serial_Adapter.cpp:203-302 | a message over the bridge keeps twelve data bytes, the key only where it is carried, and the sender addresses only for JOIN_ACK and SERIAL_CMD_BROADCAST |
| SerialBridge.PayloadRoundTrip | main/src/Adapter/Serial_Adapter/Serial_Adapter.cpp:203-302 | the same through the bytes: every message encodes in at most 160 bytes and decodes to its bridged form |
| SerialBridge.EncodeMeshMessage | main/src/Adapter/Serial_Adapter/Serial_Adapter.cpp:203-254 | writes the encoding when the buffer is large enough, and reports 0 exactly when it is not |
| SerialBridge.DecodeMeshMessage | main/src/Adapter/Serial_Adapter/Serial_Adapter.cpp:256-302 | accepts exactly the byte strings that decode, and then gives the message they mean to this node |
| SerialBridge.EnrollmentRelaySize | main/src/Adapter/Serial_Adapter/Serial_Adapter.cpp:304-312 | the enrollment relay is exactly 128 bytes with a key, the size of its buffer, and 94 without, so it always fits |
| SerialBridge.RelayEnrollmentToServer | main/src/Adapter/Serial_Adapter/Serial_Adapter.cpp:304-323 | always sends the framed relay message; the failure branch is never taken |
| SerialBridge.SerialEndToEnd | main/src/Adapter/Serial_Adapter/Serial_Adapter.cpp:195-302 | any list of messages, encoded and framed, parses into one payload for each, and each payload decodes to the bridged form of its message |
| SerialBridge.SendAll | main/src/Adapter/Serial_Adapter/Serial_Adapter.cpp:179-198 | the sending side puts exactly those frames on the line and leaves none out, since every message fits its buffer |
| SerialBridge.ReceiveMessages | main/src/Adapter/Serial_Adapter/Serial_Adapter.cpp:92-140 | end to end: from the frames of any messages, in any chunks, an idle receiver and the decoder give exactly those messages in order, each in its bridged form, and the receiver ends idle |
| RecvRing.StepKeepsInv | main/src/Mesh/Mesh.cpp:544-604 | every sub-step of callback and drain loop keeps the ring consistent whatever the other side is in the middle of |
| RecvRing.RingIsFifo | main/src/Mesh/Mesh.cpp:544-604 | over every interleaving: processed frames are a prefix of the accepted ones, in order and once each; the entry in hand stays intact until it is finished although its slot was already released; a frame is refused exactly when seven wait |
| RecvRing.HeadIsFree | main/src/Mesh/Mesh.cpp:551-559 | the slot being written holds no published frame that is still needed, the one in hand included |
| RecvRing.RoomIff | main/src/Mesh/Mesh.cpp:551-555 | the ring looks full exactly when seven frames wait to be taken |
| RecvRing.RecvQueue.OnDataRecvCallback | main/src/Mesh/Mesh.cpp:544-561 | short frames are ignored; others are accepted exactly when fewer than seven wait, and then stored last |
| RecvRing.RecvQueue.Drain | main/src/Mesh/Mesh.cpp:563-604 | hands over every accepted frame not yet processed, in order, and leaves the ring empty |
| ReplayCache.Cache.IsReplay | main/src/Mesh/Mesh.cpp:524-537 | for epochs above 0 the answer is true exactly when the id is among the last sixteen recorded; otherwise the id is recorded |
| ReplayCache.SlotsAreWindow | main/src/Mesh/Mesh.cpp:524-537 | the sixteen slots hold the last sixteen recorded ids and nothing else but blanks |
| ReplayCache.RunsKeepSpread | main/src/Mesh/Mesh.cpp:524-537 | in any run any seventeen ids recorded in a row are distinct |
| ReplayCache.RepeatNeedsSixteenOthers | main/src/Mesh/Mesh.cpp:524-537 | an id is recorded twice only with sixteen others between, all different from it and from each other |
| Forwarding.ForwardsUnchanged | main/src/Mesh/Mesh.cpp:923-980 | everything a node sends in answer to a frame is that frame one hop further and otherwise unchanged, to known peers and never to itself, and only below the hop limit |
| Forwarding.EveryPeerOnce | main/src/Mesh/Mesh.cpp:969-980 | a downlink relay reaches every peer of a duplicate-free list exactly once, itself excepted, and nobody else |
| Forwarding.DeliveredExactly | main/src/Mesh/Mesh.cpp:923-967 | the adapter gets a message exactly when it is admitted adapter data for this node, for everybody or at a master, and is not a configuration order from anyone but the known master |
| Forwarding.HandledTwice | main/src/Mesh/Mesh.cpp:563-604 | over any sequence of frames a message of the current protocol is handled twice only after sixteen distinct others were recorded in between |
| HandlerLaws.RefusedIsIgnored | main/src/Mesh/Mesh.cpp:563-604 | a frame of another version, or one among the last sixteen, leaves the node as it was |
| HandlerLaws.AdmittedIsNoted | main/src/Mesh/Mesh.cpp:563-604 | every other frame is recorded if it is numbered and marks its sender as heard of, and nothing else in those two places |
| HandlerLaws.UplinkForwarded | main/src/Mesh/Mesh.cpp:923-941 | uplink data goes exactly one hop along the route when its next hop was heard of within eight seconds and the hop limit allows it, and nowhere otherwise |
| HandlerLaws.OutwardToEveryPeer | main/src/Mesh/Mesh.cpp:923-980 | data for everybody or for another node, and acknowledgements for others, go once to every other peer, one hop further, below the hop limit, and to nobody else |
| HandlerLaws.OnlyThose | main/src/Mesh/Mesh.cpp:563-604 | nothing else is ever passed on |
| HandlerLaws.UplinkArrives | main/src/Mesh/Mesh.cpp:923-967 | along a line of nodes with live routes uplink data reaches the adapter of the master at its end, once, changed in hop count and last hop only |
| HandlerLaws.OwnDataIsSent | main/src/Mesh/Mesh.cpp:639-677 | the node's own data goes to the master of its route over the next hop, with version 2, its own address and no hop yet, or nowhere |
| HandlerLaws.UnwelcomeBeacon | main/src/Mesh/Mesh.cpp:831-880 | a beacon that has come ten hops, or of a stranger while the master is fresh, touches neither route nor masters nor relay |
| HandlerLaws.BeaconSetsRoute | main/src/Mesh/Mesh.cpp:880-898 | every other beacon sets the time stamp and the route: its own path if there was no route, one to another master or a longer one, and otherwise the route stays |
| HandlerLaws.BeaconSetsMasters | main/src/Mesh/Mesh.cpp:837-878 | and it settles both masters, in RAM and flash: first use, second master in dual mode, replacement only otherwise |
| HandlerLaws.BeaconKeptForRelay | main/src/Mesh/Mesh.cpp:899-919 | it is kept for one relay, 10 ms and the jitter later, exactly at a node that is no master and when epoch and number are later than those of every beacon kept before |
| HandlerLaws.RelayedOnce | main/src/Mesh/Mesh.cpp:899-919 | over any sequence of frames the beacons kept for relay have rising epoch and number, so none is kept twice |
| HandlerLaws.DueBeaconIsSent | main/src/Mesh/Mesh.cpp:1099-1105 | a due beacon is sent once along a usable route and forgotten in any case; before, nothing happens |
| HandlerLaws.RouteTimesOut | main/src/Mesh/Mesh.cpp:801-815 | a live route is cleared exactly at a node that is no master after more than nine seconds |
| HandlerLaws.AckCounts | main/src/Mesh/Mesh.cpp:1012-1033 | an acknowledgement for this node enrolls it exactly when its first four data bytes are those of the node's key, and gives it a master if it has none; with any other fingerprint it changes nothing |
| HandlerLaws.AckForOthers | main/src/Mesh/Mesh.cpp:1012-1018 | one for somebody else changes nothing here |
| HandlerLaws.RequestIsKept | main/src/Mesh/Mesh.cpp:1001-1010 | a master keeps the sender and the key of an enrollment request; other nodes ignore it |
| QuietNetwork.GoesQuiet | main/src/Mesh/Mesh.cpp:899-980 | from every network state with at most ten peers in each list, cyclic routes and broadcast addresses among the peers included, the number of deliveries, losses, processed frames and relays is bounded by a weight of that state once nobody originates |
| QuietNetwork.StepFalls | main/src/Mesh/Mesh.cpp:899-980 | every such step lowers the weight, and no other step raises it |
| QuietNetwork.FrameRelays | main/src/Mesh/Mesh.cpp:923-980 | a processed frame is answered by at most ten frames of the next hop count, or by one beacon kept for relay, and by nothing at the hop limit |
| QuietNetwork.NoWeightNoFrames | main/src/Mesh/Mesh.cpp:1091-1105 | with no weight left no frame is in the air, queued or waiting |
| QuietNetwork.NotQuietNotStuck | main/src/Mesh/Mesh.cpp:1091-1105 | until then some such step is possible |
| RouteLearning.RoutesAreSound | main/src/Mesh/Mesh.cpp:884-919 | in every run a route of distance d has 1 to 10 hops, leads to a node that is a master, is backed by a chain of d transmissions of one beacon of that master whose last sender is the next hop, and d is the least over all beacons accepted since the route was last reset |
| RouteLearning.StepKeepsInv | main/src/Mesh/Mesh.cpp:831-919 | every step of the network keeps every frame, queue, pending relay and route backed by such chains |
| RouteLearning.StepKeepsMasters | main/src/Mesh/Mesh.cpp:684-704 | only masters start beacons, and no other step makes one with hop count 0 |
| RouteLearning.FrameSendsNoBeacon | main/src/Mesh/Mesh.cpp:563-604 | nothing a node sends at once in answer to a frame is a beacon |
| RouteLearning.BuiltIsBeacon | main/src/Mesh/Mesh.cpp:684-704 | the beacon a master builds is one that may start in these runs: type 1, version 2, for everybody, from the master with no hop yet |
| MasterLearning.RunKeepsInv | main/src/Mesh/Mesh.cpp:831-897 | over all runs, power cuts and clock wrap-arounds included, a live route of a single-master node leads to its known master and flash holds that master |
| MasterLearning.ReplacedOnlyWhenStale | main/src/Mesh/Mesh.cpp:860-878 | only an accepted beacon of a stranger replaces the known master, and only when nine seconds have passed since boot and since the last accepted beacon |
| MasterLearning.StrangerExactly | main/src/Mesh/Mesh.cpp:860-878 | at every moment: when a stranger is accepted, and exactly when that agrees with nine seconds having passed since boot and the last accepted beacon. With the time stamp in place it agrees if and only if the silence is shorter, or is at least nine seconds modulo 2^32; after a reset of the stamp if and only if the 32-bit clock reads at least nine seconds |
| MasterLearning.StrangerBeforeWrap | main/src/Mesh/Mesh.cpp:860-878 | so until the 32-bit clock first wraps it always agrees |
| MasterLearning.BootedThenWrapped | main/src/Mesh/Mesh.cpp:860-878 | a run that reaches the failure without any reset: a node that boots with a known master and never hears of it refuses strangers throughout the first nine seconds of every later lap of the clock |
| MasterLearning.TimedOutThenWrapped | main/src/Mesh/Mesh.cpp:801-815 | and one through the reset: after a route has timed out, strangers are refused again throughout the first nine seconds of every later lap |
| MasterLearning.AcceptedIsKnown | main/src/Mesh/Mesh.cpp:831-880 | in single and in dual mode the origin of an accepted beacon is a known master from then on |
| MasterLearning.FreshMasterStays | main/src/Mesh/Mesh.cpp:860-878 | a master whose beacons keep arriving is never replaced, through any number of power cuts |
| MasterLearning.FactoryRun | main/src/Mesh/Mesh.cpp:417-432 | the run theorem from a factory-fresh node: whatever happens, its live route leads to its known master, and flash holds exactly that master or is blank |
| MasterLearning.FactoryMasterStays | main/src/Mesh/Mesh.cpp:860-878 | a master learned at any point of such a run is kept from then on as long as beacons keep arriving |
| MasterHeard.TakenExactly | main/src/Mesh/Mesh.cpp:831-880 | the beacons a node takes are exactly the admitted ones below ten hops of a known master, a first one, a second one in dual mode, or any after nine seconds |
| MasterHeard.KnownMasterHeard | main/src/Mesh/Mesh.cpp:831-898 | a beacon of a known master, or any at a node that knows none, is always heard: stamp, route and distance are set by it |
| MasterHeard.TimeoutExactly | main/src/Mesh/Mesh.cpp:801-815 | over runs: a timeout clears a live route exactly when the time since the last beacon taken, modulo 2^32, is over nine seconds |
| MasterHeard.RouteSurvives | main/src/Mesh/Mesh.cpp:801-898 | in a run without power cuts in which a beacon of the route's master came within nine seconds before every timeout check, the node has a route at every moment |
| MasterHeard.BootForgets | main/src/Mesh/Mesh.cpp:417-432 | what a boot forgets, what it keeps, and that the masters are those in flash, the second only in dual mode |
| MasterLearning.BootMasters | main/src/persistence/EEPROM_Manager.cpp:469-492 | a power cut and reload give the known master back, exactly when its address is not all 0xFF |
| Mesh.Mesh.PowerUp | main/src/Mesh/Mesh.cpp:417-432 | a node built on a booted store remembers peers and masters as flash has them and has no route |
| Mesh.Mesh.FindNextHopToMaster | main/src/Mesh/Mesh.cpp:337-349 | finds a next hop exactly when the route is live and its next hop is a known peer, heard of within eight seconds, and not the node itself |
| Mesh.Mesh.BuildMessage | main/src/Mesh/Mesh.cpp:351-369 | a message of the node's own carries its address, its epoch and the next sequence number, modulo 2^16 |
| Mesh.Mesh.StartEpoch | main/src/Mesh/Mesh.cpp:377-380 | the epoch messages carry is one above the stored one, and is in flash before the first of them |
| Mesh.Mesh.TransmitCore | main/src/Mesh/Mesh.cpp:639-665 | the message given, or one newly built under the next sequence number, goes one hop along the route or nowhere; adapter data is addressed to the master of the route |
| Mesh.Mesh.TransmitData | main/src/Mesh/Mesh.cpp:667-677 | a master sends its data to every peer but itself, marked for everybody; other nodes send theirs along the route |
| Mesh.Mesh.BroadcastToAllPeers | main/src/Mesh/Mesh.cpp:627-637 | one copy to each peer but the node itself, in peer order |
| Mesh.Mesh.BroadcastMasterBeacon | main/src/Mesh/Mesh.cpp:684-704 | one broadcast every three seconds on the 32-bit clock, from this node, new and with no hop yet: what route learning takes a master's beacon to be |
| Mesh.Mesh.RelayDownlink | main/src/Mesh/Mesh.cpp:969-980 | sends what the relay function lists, in peer order |
| Mesh.Mesh.CheckMaster | main/src/Mesh/Mesh.cpp:837-878 | refuses a stranger exactly when a known master is fresh, and otherwise leaves RAM and flash with the masters trust on first use prescribes |
| Mesh.Mesh.ProcessMasterBeacon | main/src/Mesh/Mesh.cpp:831-919 | the whole new node state after a beacon, unchanged fields included, is the one the network proofs use |
| Mesh.Mesh.CheckMasterTimeout | main/src/Mesh/Mesh.cpp:801-815 | clears route and time stamp after more than nine seconds of silence and touches nothing else |
| Mesh.Mesh.ProcessAdapterData | main/src/Mesh/Mesh.cpp:923-967 | sends and deliveries are those the network proofs use; the node itself does not change |
| Mesh.Mesh.ProcessJoinAck | main/src/Mesh/Mesh.cpp:1012-1033 | relays an acknowledgement for others; takes one for itself only with the right fingerprint, then is enrolled in flash and has a master |
| Mesh.Mesh.ProcessEnrollmentRequest | main/src/Mesh/Mesh.cpp:1001-1010 | a master keeps address and key for the relay; other nodes ignore the request |
| Mesh.Mesh.ProcessEntry | main/src/Mesh/Mesh.cpp:563-604 | one received entry changes the node, the radio and the adapter exactly as the network proofs assume, version and replay checks included |
| Mesh.Mesh.DrainRecvQueue | main/src/Mesh/Mesh.cpp:563-604 | all frames waiting in the receive queue are processed in order of arrival, each at its own reading of the clock, and node, radio and adapter end as that sequence of frames makes them |
| Mesh.Mesh.RelayPendingBeacon | main/src/Mesh/Mesh.cpp:1099-1105 | a due beacon leaves once, along the route or nowhere; one not due stays |
| Crc16.ComputeCrc | main/src/persistence/EEPROM_Manager.cpp:390-398 | the two nested loops compute the checksum of the whole buffer |
| Crc16.CrcIsRemainder | main/src/persistence/EEPROM_Manager.cpp:390-398 | up to a multiple of x^16 + x^12 + x^5 + 1, the checksum is the initial value times x^8n plus the message times x^16: the division of ITU-T V.41 |
| Crc16.RemainderIsUnique | main/src/persistence/EEPROM_Manager.cpp:390-398 | no other sixteen-bit value has that property, so the checksum is the remainder |
| Crc16.ChecksumIs | main/src/persistence/EEPROM_Manager.cpp:390-398 | so the stored checksum is the one word that differs from 0xFFFF times x^8n plus the message times x^16 by a multiple of the generator |
| Crc16.MultiplesOfGenerator | main/src/persistence/EEPROM_Manager.cpp:390-398 | the multiples meant are those of x^16 + x^12 + x^5 + 1 |
| Crc16.StepsInjective | main/src/persistence/EEPROM_Manager.cpp:394-395 | any number of bit steps is one-to-one on sixteen bits |
| Crc16.ByteChange | main/src/persistence/EEPROM_Manager.cpp:390-398 | changing a single byte of a message of any length changes the checksum |
| Crc16.PairChange | main/src/persistence/EEPROM_Manager.cpp:390-398 | so does any change within two adjacent bytes |
| Crc16.UpperHalfClean | main/src/persistence/EEPROM_Manager.cpp:390-398 | the only difference of a last byte that leaves the upper half of the checksum as it was is 0x89 |
| EepromImage.Apart | main/src/persistence/EEPROM_Manager.h:33-61 | the fields of the image fit into 512 bytes and no two share one |
| EepromImage.SaveThenLoad | main/src/persistence/EEPROM_Manager.cpp:199-568 | a saved setting is what its load gives back, exactly when it is none of the values an erased cell stands for; no other load notices |
| EepromImage.SaveLaws | main/src/persistence/EEPROM_Manager.cpp:199-568 | the later of two saves counts, and saving what is there changes nothing |
| EepromImage.OneByteRefused | main/src/persistence/EEPROM_Manager.cpp:401-436 | a saved keypair record with any one of its 66 bytes changed is refused |
| EepromImage.TwoKeyBytesRefused | main/src/persistence/EEPROM_Manager.cpp:401-436 | so is one with two adjacent key bytes changed |
| EepromImage.StraddlingChange | main/src/persistence/EEPROM_Manager.cpp:401-436 | a change of the last key byte and of the low checksum byte stored next to it passes exactly when the one flips the checksum as the other is flipped |
| EepromImage.StraddlingExactly | main/src/persistence/EEPROM_Manager.cpp:401-436 | that is exactly one pattern, whatever the keys: 0x89 in the key byte together with 0xA1 in the checksum byte |
| EepromImage.AdjacentBytes | main/src/persistence/EEPROM_Manager.cpp:401-436 | so any change within any two adjacent bytes of the 66 is refused, but for that pattern in that place |
| EepromImage.HiddenFlipLoads | main/src/persistence/EEPROM_Manager.cpp:401-419 | what the pattern does: another public key is loaded as if it were the stored one |
| EepromMigration.BootIsStable | main/src/persistence/EEPROM_Manager.cpp:36-137 | every 512-byte image boots to version 3 with a reboot count of at most 10 and a reason other than 0, and a second boot changes nothing |
| EepromMigration.MigrationSurvivesPowerCuts | main/src/persistence/EEPROM_Manager.cpp:36-137 | from every image committed on the way, the next boot ends where the first would have |
| EepromMigration.V0Survives | main/src/persistence/EEPROM_Manager.cpp:58-100 | a version-0 image keeps keypair and enrolled flag although both lay inside the new peer list; bytes 0 to 31 stay and the peer list is blank |
| EepromMigration.OthersSurvive | main/src/persistence/EEPROM_Manager.cpp:101-137 | from every other readable version, all settings but version, reboot bytes and the new secondary master survive the boot |
| SettingsLayout.BootedBytes | main/src/persistence/EEPROM_Manager.cpp:36-137 | every byte of the image after boot, for every version byte, by address |
| SettingsLayout.RebootBytesSurvive | main/src/persistence/EEPROM_Manager.cpp:69-137 | a reboot count of at most ten and a reason other than 0 load after boot as before, for version 0 from bytes 93 and 92; others become 0 and 0xFF |
| SettingsLayout.SavedBytes | main/src/persistence/EEPROM_Manager.cpp:199-568 | where each save puts what: the addresses of the header, low byte first, flags as 1 and 0 or 0xFF, a cleared master as 0xFF |
| SettingsLayout.LoadedBack | main/src/persistence/EEPROM_Manager.cpp:199-568 | what each saved value loads as, the erased ones included |
| SettingsLayout.ErasedLoads | main/src/persistence/EEPROM_Manager.cpp:199-568 | what an erased image loads as, but for the keypair, which hangs on its checksum |
| SettingsLayout.SaveReaches | main/src/persistence/EEPROM_Manager.cpp:199-568 | keys, enrolled flag, epoch, both masters and transmit power are in flash at once; the others wait and mark the store dirty |
| SettingsLayout.PreciousSurvives | main/src/persistence/EEPROM_Manager.cpp:421-568 | so each of these six comes back after a power cut right behind its save |
| SettingsLayout.NotSavedExactly | main/src/persistence/EEPROM_Manager.cpp:199-568 | before the store is ready nothing is saved, in development mode only the node id, at byte 496 |
| SettingsLayout.FlushExactly | main/src/persistence/EEPROM_Manager.cpp:169-186 | a periodic flush acts exactly when something is dirty and five seconds have passed, a forced one does not wait |
| SettingsLayout.ClearedBytes | main/src/persistence/EEPROM_Manager.cpp:328-337 | clearing blanks everything, the inclusive range or bytes 32 to 411, and nothing else; the first two at once in flash |
| SettingsLayout.PaddedBytes | main/src/persistence/EEPROM_Manager.cpp:290-314 | a saved peer list is the bytes of its records and 0xFF to the end |
| EepromStore.SaveIsSeen | main/src/persistence/EEPROM_Manager.cpp:199-568 | in production mode every save is seen by its own load, but for the erased values, and by no other |
| EepromStore.FlashIsSomeImage | main/src/persistence/EEPROM_Manager.cpp:165-186 | over any sequence of operations flash holds an image the store once had between two operations, given that a commit is all or nothing |
| EepromStore.RunKeepsCoherent | main/src/persistence/EEPROM_Manager.cpp:165-186 | over any sequence of operations RAM and flash differ only while the store is marked dirty |
| EepromStore.NothingLost | main/src/persistence/EEPROM_Manager.cpp:169-186 | after any run a forced flush, a periodic one once five seconds have passed, or any immediate save leaves the whole image in flash, and a power cut loses no setting |
| EepromStore.DeferredIsLost | main/src/persistence/EEPROM_Manager.cpp:290-314 | a deferred save followed at once by a power cut is as if it had not happened |
| EepromStore.EpochsRise | main/src/Mesh/Mesh.cpp:377-380 | the epoch loaded after a reboot is one above the last, until the one value that reads as erased |
| EepromStore.Store.Init | main/src/persistence/EEPROM_Manager.cpp:36-137 | the in-place migration leaves RAM and flash with the migrated image, committing exactly the images the crash proof considers; a second call does nothing |
| EepromStore.Store.MigrateV0 | main/src/persistence/EEPROM_Manager.cpp:69-97 | the byte-by-byte moves, overlapping regions included, end in the rearranged image |
| EepromStore.Store.FlushIfDirty | main/src/persistence/EEPROM_Manager.cpp:169-178 | commits once the store is dirty and five seconds have passed on the 32-bit clock, and not before |
| EepromStore.Store.ForceFlush | main/src/persistence/EEPROM_Manager.cpp:180-186 | commits whenever the store is dirty |
| EepromStore.Store.SavePeerList | main/src/persistence/EEPROM_Manager.cpp:290-314 | replaces the whole peer region, blank after the last record, without a commit in between; more than ten, an uninitialised store and development mode change nothing, whatever the buffer holds |
| EepromStore.Store.LoadPeerList | main/src/persistence/EEPROM_Manager.cpp:273-288 | gives the records of the peer region; refuses more than ten |
| EepromStore.Store.HasPeers | main/src/persistence/EEPROM_Manager.cpp:316-326 | true exactly when the peer region is not blank |
| EepromStore.Store.ClearPeerList | main/src/persistence/EEPROM_Manager.cpp:328-337 | blanks the peer region in every mode, to be flushed later |
| EepromStore.Store.SaveKeypair | main/src/persistence/EEPROM_Manager.cpp:421-436 | stores keys and checksum as one record and commits at once |
| EepromStore.Store.LoadKeypair | main/src/persistence/EEPROM_Manager.cpp:401-419 | gives the stored pair exactly when its checksum is right |
| EepromStore.Store.SaveKnownMasterMac | main/src/persistence/EEPROM_Manager.cpp:485-492 | stores the address and commits at once, nothing else changed in RAM |
| EepromStore.Store.ClearKnownMasterMac | main/src/persistence/EEPROM_Manager.cpp:494-501 | makes the address unset, in flash at once |
| EepromStore.Store.LoadKnownMasterMac | main/src/persistence/EEPROM_Manager.cpp:469-483 | gives the address, or none when all six bytes are 0xFF |
| EepromStore.Store.SaveKnownMasterMacSecondary | main/src/persistence/EEPROM_Manager.cpp:519-526 | the same for the second master |
| EepromStore.Store.LoadKnownMasterMacSecondary | main/src/persistence/EEPROM_Manager.cpp:504-517 | the same for the second master |
| EepromStore.Store.SaveBootEpoch | main/src/persistence/EEPROM_Manager.cpp:460-466 | stores the epoch, low byte first, and commits at once |
| EepromStore.Store.LoadBootEpoch | main/src/persistence/EEPROM_Manager.cpp:451-458 | gives the epoch, 0 for an erased one |
| EepromStore.Store.SaveNodeId | main/src/persistence/EEPROM_Manager.cpp:555-561 | saved later, and even in development mode |
| EepromStore.Store.ClearAll | main/src/persistence/EEPROM_Manager.cpp:571-580 | erases RAM and flash in every mode |
| EepromStore.Store.ClearRange | main/src/persistence/EEPROM_Manager.cpp:582-596 | erases exactly the range, end included, and commits; an illegal range is ignored |
| PeerTable.RunKeepsTable | main/src/Mesh/Mesh.cpp:184-189 | over any sequence of additions, enrollments, removals and sightings from a duplicate-free list there are at most ten entries with distinct addresses |
| PeerTable.RemovedExactly | main/src/Mesh/Mesh.cpp:310-322 | swap-with-last removal takes away exactly the named peer |
| PeerTable.EnrolledExactly | main/src/Mesh/Mesh.cpp:1035-1052 | enrolling sets the key of the named peer, if it is known or there is room, and of nobody else |
| PeerTable.AddedExactly | main/src/Mesh/Mesh.cpp:706-723 | adding makes an unknown peer known if there is room; a known one keeps its key |
| PeerTable.LearnedExactly | main/src/Mesh/Mesh.cpp:288-308 | adding a sender keeps the time it was heard, and never adds the node itself |
| PeerTable.HeardExactly | main/src/Mesh/Mesh.cpp:818-829 | hearing from a peer sets its time and nothing else |
| PeerTable.RecordBytes | main/src/Mesh/Mesh.cpp:274-286 | entry i of the saved list is six bytes of address and 32 of key from byte 38 i on, with 0xFF after the last |
| PeerTable.LoadsInOrder | main/src/Mesh/Mesh.cpp:233-272 | any ten records, gaps included, load as the entries with an address, in order and closed up |
| PeerTable.NoneLoadsDefaults | main/src/Mesh/Mesh.cpp:233-272 | with none the list is the two default entries |
| PeerTable.JoinAckIs | main/src/Mesh/Mesh.cpp:1061-1074 | the acknowledgement is an unnumbered message of type 4 for the enrolled node with the first four key bytes |
| PeerTable.RecordsRoundTrip | main/src/Mesh/Mesh.cpp:233-286 | the list comes back from its records in the same order with the same keys, exactly when it is not empty and holds no all-0xFF address |
| PeerTable.TableSurvivesPowerCut | main/src/Mesh/Mesh.cpp:233-286 | end to end: a saved list, flushed, is the list after a power cut |
| PeerTable.JoinAckEnrolls | main/src/Mesh/Mesh.cpp:1061-1074 | the acknowledgement an enrollment sends enrolls the node it is for, and makes the sender its master if it has none |
| PeerTable.PeerList.FindPeer | main/src/Mesh/Mesh.cpp:324-330 | the first entry with the address, or none |
| PeerTable.PeerList.LoadPeers | main/src/Mesh/Mesh.cpp:233-272 | the list the records in the image stand for, or the two defaults |
| PeerTable.PeerList.SavePeers | main/src/Mesh/Mesh.cpp:274-286 | the image's peer region becomes the records of the list |
| PeerTable.PeerList.AddPeer | main/src/Mesh/Mesh.cpp:706-723 | adds and saves, or changes nothing; a full list ends in a restart |
| PeerTable.PeerList.AddPeerToEEPROM | main/src/Mesh/Mesh.cpp:288-308 | the same with the time of the sighting, and never for the node's own address |
| PeerTable.PeerList.RemovePeer | main/src/Mesh/Mesh.cpp:310-322 | removes and saves; saves too when the peer was not in the list |
| PeerTable.PeerList.EnrollPeer | main/src/Mesh/Mesh.cpp:1035-1075 | sets or adds the key, saves and acknowledges, or does nothing with a full list |
| PeerTable.PeerList.UpdateLastSeen | main/src/Mesh/Mesh.cpp:818-829 | marks a known sender as heard of; never adds one |

## Left out

- Radio, Wi-Fi, LEDs, buttons, display, logging, error codes and the serial port itself: sends are appended to lists, error reports are not modelled except where they restart the device (`PeerTable.PeerList.AddPeer`).
- Key generation, ECDH and key derivation in mbedTLS, and the registration of peers with ESP-NOW: keys are opaque bytes.
- nanopb features the schema does not use: pointer and callback fields, extensions, oneof, repeated and required fields, submessages, strings, fixed-width and floating-point numbers, UTF-8 validation, descriptor default values, and message types without fields.
- Health reports and enrollment requests as messages of their own: networks allow any frame to be originated, quiet ones none.
- FieldIterator.FieldIter.Begin: message types without fields, for which the code answers false, are not modelled; extensions themselves are not either, only the search for their placeholder.
- The handling of a completed serial frame beyond decoding, the adapters and their factory: small tables over the parts modelled here.
- QuietNetwork.GoesQuiet: peer lists hold at most ten entries, the capacity of the array behind them.
- RouteLearning.RoutesAreSound: assumes that only masters start beacons and that frames are not forged; it does not say that every node learns a route, which the code does not promise either.
- MasterLearning.RunKeepsInv: in production mode, where saves reach flash; the address used only in log messages (the last seen master) is not modelled.
- Mesh.Mesh.DrainRecvQueue: frames that arrive during the loop are the subject of `RecvRing`, not of this method.
- Mesh.Mesh.ProcessEntry: the clock is read once for each message, where the code reads it again in each helper; acknowledgements and enrollment requests carry version and epoch 0 and are not deduplicated, as in the code.
- MeshNode.Dispatch: a delayed relay is due by plain comparison of clock values, as in the code, so no bound on the delay is claimed across a wrap of the clock.
- EepromStore.Store.Commit: commits are taken to succeed, and to be all or nothing as the flash library promises; the code ignores their result.
- EepromStore.FlashIsSomeImage: the wholeness of a single commit is this assumption, not a result.
- EepromStore.Store.Init: opening the emulated EEPROM is taken to succeed; its failure restarts the device.
- EepromStore.Store.SavePeerList: when it does write, it needs a full record for each peer in the buffer, as the code reads one; the first-boot call in main/main.ino:186-190 passes addresses only, so what it reads past its array is outside this model.
- EepromImage.SaveThenLoad: the reboot bytes are loaded as saved, but a reboot makes them sane again.
- Settings that wait for a flush are lost by a restart without one (`EepromStore.DeferredIsLost`), for instance the configuration change that restarts the device; no stronger claim is made.
