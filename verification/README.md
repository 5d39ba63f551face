# Protocol code of the application, modelled and proved

The application vendors BoringSSL and nanopb. This project models the parts of them that carry its data and proves
what those parts are for. Each group has specification functions on values, methods and classes that do what the source
does step by step and are proved against those functions, and theorems about whole runs.

* **DTLS handshake transport** (`ReplayWindow`, `Reassembly`, `HandshakeHeader`, `IncomingMessage`, `IncomingRing`,
  `RingOrigins`, `DtlsRecord`, `DtlsReader`, `DtlsOpening`, `DtlsSeal`, `DtlsFlight`, `FlightProofs`, `FlightCompletion`,
  `DtlsSender`, `DtlsProtocol`, `DtlsProgress`, `DtlsLedger`, `DtlsArrival`, `DtlsJourney`).
  A sender cuts a flight of messages into fragments that fit the MTU, seals them under epochs and record numbers, and can
  rewind and send again. A receiver checks replays with a 64-bit window and reassembles fragments through bitmaps in a
  ring of seven slots. `DtlsProtocol` joins both over a network that keeps every packet ever written and delivers any of
  them at any time, any number of times. `DtlsArrival` follows a flight from the sender's loop through the receiver's
  records and ring to its delivery.
* **Protocol Buffers codec** (`PbVarint`, `PbMessage`, `PbDecoding`, `PbFold`, `PbRequired`, `PbRoundTrip`, `PbLimits`,
  `PbPresence`, `PbMerge`, `PbForward`, `PbRefusals`, `PbIter`, `PbStreams`, `PbEncoder`, `PbDecoder`). A descriptor tree
  says how a message is laid out; a message is a tree of slots. Encoder and decoder are functions
  of these, and the streams, the cyclic field iterator, the two-pass length computation and the bitmap of required fields
  are methods that compute them.
* **TLS write path** (`SslBuffer`, `TlsWriter`). Two queues and the state of a retried write act as one queue over a
  transport that takes any part of what it is given.
* **TLS handshake below TLS 1.3** (`HandshakeCore`, `HandshakeClient`, `HandshakeServer`). Machines that can be left and
  run again at every blocking point, with the transcript in its two forms. A ghost history records what was sent,
  consumed, checked and changed; the invariant says what exactly it is in each state.
* **Sessions** (`Der`, `SessionDer`, `SessionRoundTrip`, `SessionLimits`, `SessionCodec`). The DER form of a session.
* **Algorithms** (`CipherChoice`, `Premaster`, `RefCount`).

Where the code does something other than a reader would expect, the code is kept and the exact condition is proved:
`DtlsProtocol.AcceptGenuine`, `DtlsSeal.WrappedCounterRepeats`, `PbRequired.RequiredTracking`,
`PbRoundTrip.StringRoundTripIffTerminated`, `PbLimits.LosslessIffSettled`, `PbLimits.EarlyEndIff`,
`SslBuffer.KeepsRestIff`, `TlsWriter.Writer.FlushFlight`, `TlsWriter.Writer.WriteAppData`, `CipherChoice.EligibleIff`.
The comment at `ssl/d1_both.cc:380-385` speaks of fragments that are ignored because they are too far ahead; for a message
exactly seven ahead the code raises an error instead, and the model follows the code.

Conventions. An authenticated cipher is a pair of functions of which is only required that opening undoes sealing and
that lengths grow by at most the overhead; the network of `DtlsProtocol` carries only what its sender wrote.
Transports, applications and peers answer from scripts, so that every pattern of partial writes, failures and
blocking is some script. Machine words are bit sequences or integers with their wrap-around written out, octets are integers
below 256, and bits that are ORed into disjoint places are added. A field array of the codec ends where its sequence ends; a
reading of its terminator is a tag of zero.

`dafny verify dfyconfig.toml` checks the project.

## Model

| member | source | states |
|---|---|---|
| ReplayWindow.ReplayProtection | PV239 project/Pods/BoringSSL/ssl/dtls_record.cc:140-175 | over any run, a record number is refused exactly when it was accepted before or lies 64 or more below the largest accepted (RFC 6347 section 4.1.2.6) |
| ReplayWindow.DiscardMeaning | PV239 project/Pods/BoringSSL/ssl/dtls_record.cc:140-153 | a window that represents a set refuses exactly the members of the set and the stale numbers |
| ReplayWindow.RecordMeaning | PV239 project/Pods/BoringSSL/ssl/dtls_record.cc:155-175 | recording a number, with all shifts of the bitmap, adds exactly that number to the set represented |
| ReplayWindow.Bitmap.CheckDiscard | PV239 project/Pods/BoringSSL/ssl/dtls_record.cc:140-153 | the bitmap read in place decides as the window does |
| ReplayWindow.Bitmap.RecordNumber | PV239 project/Pods/BoringSSL/ssl/dtls_record.cc:155-175 | the bitmap updated in place becomes the window with the number recorded |
| DtlsReader.ToU64Be | PV239 project/Pods/BoringSSL/ssl/dtls_record.cc:128-138 | folding in eight octets with 64-bit shifts yields their big-endian value |
| Reassembly.BitRangeBits | PV239 project/Pods/BoringSSL/ssl/d1_both.cc:203-209 | the mask for a range has exactly the bits of the range |
| Reassembly.SetRange | PV239 project/Pods/BoringSSL/ssl/d1_both.cc:219-232 | marking a range octet-wise, with both partial octets, sets exactly its bits and keeps all others |
| Reassembly.AllSet | PV239 project/Pods/BoringSSL/ssl/d1_both.cc:234-251 | scanning whole octets and the last partial one finds all bits of the message set exactly when they are |
| HandshakeHeader.FragmentRoundTrip | PV239 project/Pods/BoringSSL/ssl/d1_both.cc:459-473 | a fragment parsed from its octets is that fragment, and what follows it is left |
| HandshakeHeader.HeaderRoundTrip | PV239 project/Pods/BoringSSL/ssl/d1_both.cc:459-473 | the 12 header octets parse back to the header |
| HandshakeHeader.HeaderLayout | PV239 project/Pods/BoringSSL/ssl/d1_both.cc:459-473 | where each field of the header stands, octet by octet |
| IncomingMessage.KnownIffCovered | PV239 project/Pods/BoringSSL/ssl/d1_both.cc:211-251 | whatever the order, overlap and repetition of fragments, an octet is known exactly when some fragment covered it, and the message is complete exactly when they cover all of it |
| IncomingMessage.HmFragment.Mark | PV239 project/Pods/BoringSSL/ssl/d1_both.cc:211-251 | marking a range keeps the bitmap equal to the known octets and drops it exactly when nothing is missing |
| IncomingMessage.HmFragment.Fill | PV239 project/Pods/BoringSSL/ssl/d1_both.cc:394-403 | copying and marking a fragment in place is filling the assembly with it |
| IncomingMessage.HmFragment.NullIffComplete | PV239 project/Pods/BoringSSL/ssl/d1_both.cc:238-251 | the bitmap is null exactly when every octet of the message is known |
| IncomingMessage.HmFragment.DataIsRaw | PV239 project/Pods/BoringSSL/ssl/d1_both.cc:152-199 | once complete, the buffer holds the message with its 12-octet header as if it had come in one fragment |
| IncomingRing.AdvanceKeepsPlaces | PV239 project/Pods/BoringSSL/ssl/d1_both.cc:426-432 | after the current message is released every occupied slot still holds a message of the seven-wide window in its own slot |
| IncomingRing.Incoming.GetIncomingMessage | PV239 project/Pods/BoringSSL/ssl/d1_both.cc:265-295 | an occupied slot holds the very message asked for, so its assertion never fires; a lookup outside the window or with other header data fails as specified |
| IncomingRing.Incoming.AcceptFragment | PV239 project/Pods/BoringSSL/ssl/d1_both.cc:361-403 | one fragment changes the ring as Accept says: dropped if old or too far ahead, refused with the right alert, or filled in |
| IncomingRing.Incoming.ProcessRecord | PV239 project/Pods/BoringSSL/ssl/d1_both.cc:361-406 | all fragments of a record in turn, stopping at the first refused |
| IncomingRing.Incoming.NextMessage | PV239 project/Pods/BoringSSL/ssl/d1_both.cc:426-438 | releases the current message and advances the window, keeping the ring well placed |
| RingOrigins.RefusedIff | PV239 project/Pods/BoringSSL/ssl/d1_both.cc:361-403 | any fragment, forged or not, is refused exactly if it leaves its message, is too long, is out of turn in the encrypted epoch, lies exactly seven ahead, or contradicts the type or length of octets held of its message; refused and ignored fragments change nothing |
| RingOrigins.NeverMixed | PV239 project/Pods/BoringSSL/ssl/d1_both.cc:265-295 | over any run of fragments, however contradictory, every octet of a message under assembly was brought by a fragment of that very message, type and length |
| RingOrigins.CompleteIsFinal | PV239 project/Pods/BoringSSL/ssl/d1_both.cc:393-397 | a complete message stays as it is until it is read |
| DtlsRecord.RecordRoundTrip | PV239 project/Pods/BoringSSL/ssl/dtls_record.cc:177-210 | a record parses back from its octets, and what follows it is left |
| DtlsRecord.RecordLayout | PV239 project/Pods/BoringSSL/ssl/dtls_record.cc:190-206 | where each field of a record stands, octet by octet |
| DtlsRecord.SequenceInjective | PV239 project/Pods/BoringSSL/ssl/dtls_record.cc:317-330 | epoch and record number together determine the eight sequence octets, and conversely |
| DtlsReader.ReadState.Open | PV239 project/Pods/BoringSSL/ssl/d1_both.cc:297-359 | opening a record and dispatching it by type, epoch and cipher, in place, is OpenHandshake |
| DtlsReader.ReadState.OpenRecordHere | PV239 project/Pods/BoringSSL/ssl/dtls_record.cc:177-272 | epoch, replay and authentication checks, with the number recorded only after the record was authentic |
| DtlsReader.ReadState.SetReadState | PV239 project/Pods/BoringSSL/ssl/dtls_method.cc:81-95 | the epoch changes, and the window is cleared, unless unprocessed handshake data is left over |
| DtlsOpening.OpensIff | PV239 project/Pods/BoringSSL/ssl/dtls_record.cc:177-272 | exactly the authentic records of the epoch, of a good version, with a number neither recorded before nor stale and within both length limits, are opened, with their plaintext and type, and recorded; what is taken off the packet in every case |
| DtlsOpening.CutShortIsDropped | PV239 project/Pods/BoringSSL/ssl/dtls_record.cc:190-206 | any proper part of a record is dropped |
| DtlsOpening.SealedIsOpened | PV239 project/Pods/BoringSSL/ssl/dtls_record.cc:294-351 | a record sealed under the current or previous epoch is opened by a receiver of that epoch that has not met its number, and exactly it is consumed |
| DtlsOpening.AcceptsAllFragments | PV239 project/Pods/BoringSSL/ssl/d1_both.cc:361-406 | every fragment in a record goes into the ring in turn; octets behind them that are no fragment are an error but undo nothing |
| DtlsOpening.DispatchMeaning | PV239 project/Pods/BoringSSL/ssl/d1_both.cc:307-359 | only handshake records reach the ring, only a well-formed unencrypted ChangeCipherSpec is noted, and only encrypted application data is ignored |
| DtlsOpening.EpochChangesIff | PV239 project/Pods/BoringSSL/ssl/dtls_method.cc:81-95 | the epoch changes exactly if nothing is held but octets of the message being processed |
| DtlsSeal.SealedRecordsUnique | PV239 project/Pods/BoringSSL/ssl/dtls_record.cc:294-351 | over any interleaving of seals in both epochs and of cipher changes, until a counter wraps, no two records carry the same epoch and number, nor the same sequence octets |
| DtlsSeal.WrappedCounterRepeats | PV239 project/Pods/BoringSSL/ssl/tls_record.cc:154-163 | the seal that wraps the counter fails but leaves it at zero, so the next one reuses number zero |
| DtlsSeal.SealKeepsFresh | PV239 project/Pods/BoringSSL/ssl/dtls_record.cc:294-351 | each seal keeps all records distinct and the counters ahead of them |
| DtlsSeal.ChangeMeaning | PV239 project/Pods/BoringSSL/ssl/dtls_method.cc:97-107 | after a change of cipher the new epoch starts at number zero and the old one goes on with its numbers and its cipher |
| DtlsLedger.RunOrderly | PV239 project/Pods/BoringSSL/ssl/dtls_record.cc:294-351 | over any run every record on the network is in the sender's log, where no two share epoch and number, with a version that the cipher of its epoch takes |
| DtlsSender.WriteState.Add | PV239 project/Pods/BoringSSL/ssl/d1_both.cc:541-588 | queueing a message under the current epoch, clearing a flight that was complete, up to seven messages |
| DtlsFlight.AddMeaning | PV239 project/Pods/BoringSSL/ssl/d1_both.cc:541-588 | a message is refused only behind six others of an unflushed flight or if far too long; after a flushed flight it starts a new one, and a ChangeCipherSpec takes no message number |
| DtlsSender.WriteState.SealNext | PV239 project/Pods/BoringSSL/ssl/d1_both.cc:630-720 | sealing the next fragment in place, with all outcomes, is SealNextMessage |
| DtlsSender.WriteState.SendPacket | PV239 project/Pods/BoringSSL/ssl/d1_both.cc:783-808 | one packet out moves the position strictly forward; a refused write rewinds it to the start of the packet |
| DtlsSender.WriteState.Retransmit | PV239 project/Pods/BoringSSL/ssl/d1_both.cc:822-831 | sending the flight again from its start |
| FlightProofs.MessageCuts | PV239 project/Pods/BoringSSL/ssl/d1_both.cc:665-720 | a sealed fragment is the next piece of the message, under the epoch the message was queued with, wholly sealed exactly when it reaches the end |
| FlightProofs.SealPacketPacks | PV239 project/Pods/BoringSSL/ssl/d1_both.cc:725-766 | a packet holds consecutive pieces from the saved position and is at most as long as the MTU |
| FlightProofs.SendLoopWrites | PV239 project/Pods/BoringSSL/ssl/d1_both.cc:768-813 | whatever the transport answers, what was written is consecutive pieces from the saved position, each packet within the MTU, and the position is exactly behind it |
| FlightProofs.ExactlyOnce | PV239 project/Pods/BoringSSL/ssl/d1_both.cc:665-766 | in such a chain each octet of the flight inside its bounds is carried once, and no octet outside |
| FlightProofs.PacketAdvances | PV239 project/Pods/BoringSSL/ssl/d1_both.cc:725-766 | each packet decreases the messages left, or the octets left; empty bodies count |
| FlightProofs.DoneMeansAll | PV239 project/Pods/BoringSSL/ssl/d1_both.cc:768-813 | a flight sent from start to end carries every octet of every body exactly once |
| FlightCompletion.SealSucceeds | PV239 project/Pods/BoringSSL/ssl/dtls_record.cc:294-351 | sealing succeeds whenever the record fits and the counter does not wrap |
| FlightCompletion.FlightCompletes | PV239 project/Pods/BoringSSL/ssl/d1_both.cc:768-813 | with room for a fragment in every packet, numbers left, and a transport that takes as many packets as there are octets and messages left, the flight is written to its end |
| FlightCompletion.CutsWhereRoomEnds | PV239 project/Pods/BoringSSL/ssl/d1_both.cc:665-720 | nothing is sealed exactly if there is no room for one octet of the message, and a message is cut only where the room ends |
| FlightCompletion.RefusedAtOnce | PV239 project/Pods/BoringSSL/ssl/d1_both.cc:790-801 | a transport that refuses stops the loop at once, with the flight where it was |
| DtlsProtocol.FinishedIsRaw | PV239 project/Pods/BoringSSL/ssl/d1_both.cc:511-539 | building a message with a placeholder length and fixing it up yields its raw form |
| DtlsProtocol.AcceptGenuine | PV239 project/Pods/BoringSSL/ssl/d1_both.cc:361-403 | a genuine fragment is refused exactly in three cases, one of them a message exactly seven ahead, which the outer range check lets through and the inner one does not |
| DtlsProtocol.StepKeepsInv | PV239 project/Pods/BoringSSL/ssl/d1_both.cc:297-438 | every step of sender, network and receiver keeps the protocol's invariant |
| DtlsProtocol.Delivery | PV239 project/Pods/BoringSSL/ssl/d1_both.cc:408-438 | over any run on a network that loses, repeats and reorders, with any retransmissions, MTUs and epochs and fewer than 65536 messages, the messages delivered are a prefix of those sent, octet for octet with their headers (RFC 6347 sections 4.2.3 and 4.2.6) |
| DtlsProgress.WholeIffCovered | PV239 project/Pods/BoringSSL/ssl/d1_both.cc:361-403 | a message of the window is whole in the ring exactly when what was known of it and the genuine fragments that arrived cover it |
| DtlsProgress.FlightReassembled | PV239 project/Pods/BoringSSL/ssl/d1_both.cc:768-813 | once every fragment of a flight has arrived, in any order and among any others, each of its messages is whole |
| DtlsArrival.OpenTakes | PV239 project/Pods/BoringSSL/ssl/d1_both.cc:297-406 | opening a genuine record that the receiver has not met makes the ring accept its fragment; any other changes nothing; exactly this record is taken off the packet |
| DtlsArrival.InTimeEnters | PV239 project/Pods/BoringSSL/ssl/dtls_record.cc:225-259 | a fragment not met before the run and not stale when it comes enters the ring, then or when it came first |
| DtlsArrival.WholeIffTaken | PV239 project/Pods/BoringSSL/ssl/d1_both.cc:297-406 | after any packets taken off the network and opened record by record, a message is whole exactly if the fragments let in cover what was missing |
| DtlsArrival.FlightGetsThrough | PV239 project/Pods/BoringSSL/ssl/d1_both.cc:768-813 | a flight sent to its end gets through: once each record of it has come in time, in any order and among any others, each of its messages is whole |
| DtlsArrival.FlightDelivered | PV239 project/Pods/BoringSSL/ssl/d1_both.cc:408-438 | and is then delivered, message by message as it was sent, by as many calls |
| DtlsJourney.FlightArrives | PV239 project/Pods/BoringSSL/ssl/d1_both.cc:768-813 | over a network that loses nothing, one flush and its packets in their order deliver the whole flight |
| PbVarint.VarintRoundTrip | PV239 project/Pods/nanopb/pb_encode.c:494-514 | the shortest varint reads back, at any width that holds the value |
| PbForward.VarintOnWire | PV239 project/Pods/nanopb/pb_encode.c:494-514 | a varint holds its number in groups of seven bits, lowest first, in no more octets than it needs |
| PbForward.IntegersOnWire | PV239 project/Pods/nanopb/pb_encode.c:652-704 | a negative number counts from 2^64 down whatever the width of its field, and in zigzag fields alternates with the positive ones |
| PbForward.Fixed32OnWire | PV239 project/Pods/nanopb/pb_encode.c:527-536 | a 32-bit value is four octets, the lowest first |
| PbVarint.ReadVarintExtends | PV239 project/Pods/nanopb/pb_decode.c:173-229 | reading a varint does not look past its end |
| PbVarint.ZigZagRoundTrip | PV239 project/Pods/nanopb/pb_decode.c:1118-1130 | zigzag encoding of every 64-bit integer is undone by decoding |
| PbVarint.LittleEndianRoundTrip | PV239 project/Pods/nanopb/pb_decode.c:1132-1163 | fixed-width integers read back |
| PbFold.RecordsFold | PV239 project/Pods/nanopb/pb_decode.c:852-917 | octets that decode fully can be followed by anything: decoding goes on from the state they leave |
| PbFold.ConcatenationMerges | PV239 project/Pods/nanopb/pb_decode.c:852-917 | decoding a concatenation is decoding the first part and then the second into the slots it left |
| PbFold.UnknownRecordAnywhere | PV239 project/Pods/nanopb/pb_decode.c:277-287 | a record with an unknown tag at any record boundary is consumed exactly and changes nothing |
| PbRefusals.SkipsExactly | PV239 project/Pods/nanopb/pb_decode.c:231-287 | what a record of an unknown field is made of: a varint of any length, eight octets, four octets, or a length and as many octets |
| PbForward.ForeignMessageIgnored | PV239 project/Pods/nanopb/pb_encode.c:553-590 | the encoding of any message of which a decoder knows no tag can stand between any records and changes nothing, so the announced wire types are right |
| PbMerge.RecordsMerge | PV239 project/Pods/nanopb/pb_decode.c:363-372 | two records of a singular submessage, with payloads a and b, leave what one record with a + b leaves; only the required fields are asked of each record by itself |
| PbMerge.RecordsMergeInMessage | PV239 project/Pods/nanopb/pb_decode.c:1334-1356 | the same for the records of a message, where the submessage has no required fields |
| PbMerge.StartsFromDefaults | PV239 project/Pods/nanopb/pb_decode.c:400-429 | in an array or a oneof every submessage record starts from defaults, and an array takes it only while there is room |
| PbMerge.LastScalarWins | PV239 project/Pods/nanopb/pb_decode.c:363-372 | of two records of a singular scalar the last one counts alone |
| PbRequired.RequiredTracking | PV239 project/Pods/nanopb/pb_decode.c:919-949 | with fewer than 64 required fields, not 32, a run that ends succeeds exactly when each of them occurred; with 32, or 64 and more, it never succeeds, and runs into a shift by 32 or past the bitmap exactly when the first 32 or 64 all occurred |
| PbRequired.CheckMeaning | PV239 project/Pods/nanopb/pb_decode.c:936-949 | what the word-wise comparison of the bitmap decides, for every count |
| PbRequired.SeenIsOccurring | PV239 project/Pods/nanopb/pb_decode.c:908-913 | after any run the bitmap holds one bit for each required field of which a record was decoded |
| PbRoundTrip.MessageRoundTrip | PV239 project/Pods/nanopb/pb_encode.c:451-473 | every message a structure can hold is encoded, and decodes to itself, what is left out (PbPresence.LeftOutIffZero) at its default, through nested, packed, repeated and oneof fields |
| PbRoundTrip.ValueRoundTrip | PV239 project/Pods/nanopb/pb_decode.c:1165-1380 | each kind of value decodes from its encoding, whatever follows |
| PbRoundTrip.StringRoundTripIffTerminated | PV239 project/Pods/nanopb/pb_encode.c:739-763 | a string is encoded with or without a terminator in its buffer, but decodes exactly if there is one |
| PbPresence.LeftOutIffZero | PV239 project/Pods/nanopb/pb_encode.c:205-267 | a singular field without a has_ flag is left out if and only if its value is zero: the number 0, no octets, an empty string, or a submessage of nothing but zeros |
| PbPresence.WrittenEvenIfZero | PV239 project/Pods/nanopb/pb_encode.c:271-349 | required fields, fields whose has_ flag is set and the selected member of a oneof are written whatever their value |
| PbPresence.ZeroIffZeroOctets | PV239 project/Pods/nanopb/pb_encode.c:244-266 | a value other than a submessage is zero exactly if its encoding consists of zero octets |
| PbPresence.ComesBackUnchanged | PV239 project/Pods/nanopb/pb_encode.c:271-349 | a message whose singular scalars have zero as default and which has no implicit submessage comes back unchanged, whatever numbers, octets and strings it holds |
| PbRefusals.VarintReadAs | PV239 project/Pods/nanopb/pb_decode.c:1165-1248 | which number a varint is read as for each width and signedness, and that every other varint is refused |
| PbRefusals.OctetsTakenIff | PV239 project/Pods/nanopb/pb_decode.c:1262-1380 | octets are taken exactly if they fit beside their count, before a terminator, or the fixed length |
| PbRefusals.PrefixRefused | PV239 project/Pods/nanopb/pb_decode.c:76-137 | no proper prefix of the encoding of a value decodes |
| PbRefusals.PackedTakenIff | PV239 project/Pods/nanopb/pb_decode.c:374-398 | a packed array is taken exactly if its items fit behind those already there |
| PbRefusals.ItemTakenIff | PV239 project/Pods/nanopb/pb_decode.c:400-411 | an array takes a single item exactly if there is room for one more |
| PbRefusals.MessageEncodesIff | PV239 project/Pods/nanopb/pb_encode.c:116-201 | exactly the messages whose values have the kinds and sizes of the field array are encoded |
| PbLimits.LosslessIffSettled | PV239 project/Pods/nanopb/pb_encode.c:271-349 | decoding the encoding gives back the very same message exactly when everything that is not written is at its default and no string has octets behind a zero |
| PbLimits.ImplicitSubmessageLosesArray | PV239 project/Pods/nanopb/pb_encode.c:205-267 | an array in a submessage without a has_ flag is lost when its first item is zero, whatever the others are |
| PbLimits.EarlyEndIff | PV239 project/Pods/nanopb/pb_decode.c:251-275 | a message ends early exactly at a zero tag or at a tag of at most five octets that the stream cuts off |
| PbLimits.CutOffTagEndsMessage | PV239 project/Pods/nanopb/pb_decode.c:258-264 | octets of a cut-off tag at the end of a message are ignored without an error |
| PbIter.FieldIter.Next | PV239 project/Pods/nanopb/pb_common.c:20-76 | steps around the ring of fields and keeps the count of required fields before the position |
| PbIter.FieldIter.Find | PV239 project/Pods/nanopb/pb_common.c:78-95 | searches at most one round and stops at the first entry with the tag, or where it began |
| PbIter.FieldIter.FindIsLinearSearch | PV239 project/Pods/nanopb/pb_common.c:78-95 | from every starting position the search agrees with a linear search of the field array |
| PbStreams.OStream.Write | PV239 project/Pods/nanopb/pb_encode.c:91-109 | writing succeeds exactly if there is room, and then appends exactly the octets; a counting stream only counts |
| PbEncoder.EncodeVarint | PV239 project/Pods/nanopb/pb_encode.c:494-514 | the loop over groups of seven bits writes the shortest varint, in at most ten octets |
| PbEncoder.EncodeArrayTo | PV239 project/Pods/nanopb/pb_encode.c:116-201 | arrays, packed after a sizing pass where the type allows it, else item by item behind tags |
| PbEncoder.CheckProto3Default | PV239 project/Pods/nanopb/pb_encode.c:205-267 | the recursive test for an absent field decides as LooksAbsent says |
| PbEncoder.EncodeBasicField | PV239 project/Pods/nanopb/pb_encode.c:271-349 | a field of each kind is written as its encoding, or left out |
| PbEncoder.EncodeFields | PV239 project/Pods/nanopb/pb_encode.c:451-473 | encoding succeeds exactly when the encoding exists and fits the room left, and has then written exactly that |
| PbEncoder.EncodeSubmessage | PV239 project/Pods/nanopb/pb_encode.c:600-648 | the second pass writes exactly the size the first pass counted, at every depth, so the size never changes in between |
| PbEncoder.GetEncodedSize | PV239 project/Pods/nanopb/pb_encode.c:480-489 | a counting pass finds exactly the length of the encoding |
| PbDecoder.IStream.Varint32 | PV239 project/Pods/nanopb/pb_decode.c:173-207 | the loop reads as the specification does, and stops where it does, also when it fails |
| PbDecoder.IStream.DecodeTag | PV239 project/Pods/nanopb/pb_decode.c:251-275 | tag, wire type and end of message |
| PbDecoder.IStream.MakeSubstream | PV239 project/Pods/nanopb/pb_decode.c:322-335 | splits a length-prefixed item off, leaving the parent with what follows it |
| PbDecoder.DecodePacked | PV239 project/Pods/nanopb/pb_decode.c:371-398 | packed items are appended while there is room; more of them is an error |
| PbDecoder.DecodeValueFrom | PV239 project/Pods/nanopb/pb_decode.c:1334-1356 | a submessage is merged into what is there, or into defaults, through a substream |
| PbDecoder.CheckSeen | PV239 project/Pods/nanopb/pb_decode.c:936-949 | the loop over the bitmap's words decides as the specification does, including where C leaves it undefined |
| PbDecoder.DecodeNoInit | PV239 project/Pods/nanopb/pb_decode.c:852-953 | the loop over records, with its cyclic search and bitmap, computes DecodeMessage for every input |
| SslBuffer.KeepsRestIff | PV239 project/Pods/BoringSSL/ssl/ssl_buffer.cc:90-97 | consuming keeps the rest of the contents, whatever the memory holds, exactly when the offset stays within 16 bits or nothing is left |
| SslBuffer.WrappedWindow | PV239 project/Pods/BoringSSL/ssl/ssl_buffer.cc:69-96 | a buffer of the largest capacity behind seven octets of alignment continues at the wrong place once all but its last six octets are consumed |
| SslBuffer.SSLBuffer.EnsureCap | PV239 project/Pods/BoringSSL/ssl/ssl_buffer.cc:47-81 | the contents survive a new allocation, aligned and at most 0xffff long |
| SslBuffer.SSLBuffer.Consume | PV239 project/Pods/BoringSSL/ssl/ssl_buffer.cc:90-97 | drops octets from the front; the offset is cut to 16 bits |
| TlsWriter.Writer.AddMessage | PV239 project/Pods/BoringSSL/ssl/s3_both.cc:184-205 | a message is sealed as handshake records, in order and one attempt each, whose plaintexts make it up; success exactly if every one is sealed, and on failure those before it stay, as a prefix of the message |
| TlsWriter.FragmentsMeaning | PV239 project/Pods/BoringSSL/ssl/s3_both.cc:184-195 | the records' plaintexts join to the message, all but the last are full, none is longer than the fragment size, and an empty message is one empty record |
| TlsWriter.Writer.FlushFlight | PV239 project/Pods/BoringSSL/ssl/s3_both.cc:231-279 | what is on the wire, in the write buffer and left of the flight stays, in this order, all that was ever sealed; it fails only after an alert, for a flight too long, or if the transport refuses; success without a flight says nothing of the write buffer |
| TlsWriter.Writer.DoWrite | PV239 project/Pods/BoringSSL/ssl/s3_pkt.cc:221-289 | exactly one record with the given type and data is sealed behind the rest of the flight, or the one waiting is written out; nothing else is sealed, and it fails only for a reason that is named |
| TlsWriter.Writer.WritePending | PV239 project/Pods/BoringSSL/ssl/s3_pkt.cc:202-218 | exactly a retry with the same type, memory and enough data goes on, and it fails then only if the transport refuses |
| TlsWriter.Writer.WriteAppData | PV239 project/Pods/BoringSSL/ssl/s3_pkt.cc:129-200 | however often calls fail, a caller that comes back with the same data has on success exactly the reported part of it sealed, each octet once, in records of application data within the fragment size; a shorter retry makes the connection forget its progress; it fails only for a reason that is named |
| TlsWriter.Writer.SendAlert | PV239 project/Pods/BoringSSL/ssl/s3_pkt.cc:395-442 | an alert stops further data and is sealed at once as one record of its two octets unless the write buffer is in use; nothing else is sealed |
| HandshakeCore.Connection.GetFinished | PV239 project/Pods/BoringSSL/ssl/handshake.cc:371-420 | the peer's Finished is accepted only if it is the MAC over all messages before it, and only then consumed |
| HandshakeCore.Connection.SendFinished | PV239 project/Pods/BoringSSL/ssl/handshake.cc:422-467 | our Finished covers all messages before it |
| HandshakeCore.Connection.AddMessage | PV239 project/Pods/BoringSSL/ssl/s3_both.cc:184-205 | a message sent is added to both forms of the transcript once |
| HandshakeCore.Connection.ReadCertificateVerify | PV239 project/Pods/BoringSSL/ssl/handshake_server.cc:1257-1351 | the client's signature is checked over all messages before it, from a buffer that is still complete |
| HandshakeCore.Connection.StartHash | PV239 project/Pods/BoringSSL/ssl/ssl_transcript.cc:181-199 | the hash takes over from the buffer without losing or repeating a message |
| HandshakeCore.Connection.Send | PV239 project/Pods/BoringSSL/ssl/s3_both.cc:184-205 | sending a message adds exactly that message to the history |
| HandshakeCore.SentAfterMeaning | PV239 project/Pods/BoringSSL/ssl/handshake_client.cc:1226-1377 | what it means that a message was only sent after a check: the check precedes each such message in the log |
| HandshakeClient.MovesOn | PV239 project/Pods/BoringSSL/ssl/handshake_client.cc:1701-1783 | each transition, with the messages and acts that belong to it, keeps the client's invariant that its history is exactly that of its state, and brings it strictly nearer to the end |
| HandshakeClient.HelloChosen | PV239 project/Pods/BoringSSL/ssl/handshake_client.cc:706-765 | after the ServerHello the buffer is kept exactly if a client certificate may still be signed for |
| HandshakeClient.Client.DoReadHelloVerify | PV239 project/Pods/BoringSSL/ssl/handshake_client.cc:528-570 | a HelloVerifyRequest starts the transcript over (RFC 6347 section 4.2.1); any other message is left for the next state |
| HandshakeClient.Client.DoReadKeyExchange | PV239 project/Pods/BoringSSL/ssl/handshake_client.cc:897-1077 | a ServerKeyExchange is required, optional or refused by the cipher, and its signature is checked before it is consumed; it fails only if the environment or the cipher says no |
| HandshakeClient.Client.DoReadCertificateRequest | PV239 project/Pods/BoringSSL/ssl/handshake_client.cc:1079-1149 | whether a certificate is asked for is told by the next message, and without a request the buffer is dropped |
| HandshakeClient.Client.DoSendCertificate | PV239 project/Pods/BoringSSL/ssl/handshake_client.cc:1175-1224 | a client that is asked sends its certificates, possibly none, or in SSL 3.0 an alert instead of none |
| HandshakeClient.Client.DoSendCertificateVerify | PV239 project/Pods/BoringSSL/ssl/handshake_client.cc:1379-1461 | a client that was asked for a certificate and has one signs the whole transcript, once, however often the private key operation has to be tried; no other client signs |
| HandshakeClient.Client.Step | PV239 project/Pods/BoringSSL/ssl/handshake_client.cc:1701-1783 | every step that goes on has done exactly what belongs to it, one that waits has changed nothing, and one fails only if the environment says no or the server sent what cannot be taken |
| HandshakeClient.Client.Handshake | PV239 project/Pods/BoringSSL/ssl/handshake_client.cc:1701-1783 | the machine terminates in each call, stays valid at every blocking point, waits for a message only if none is there, and fails only for a reason |
| HandshakeClient.Client.Run | PV239 project/Pods/BoringSSL/ssl/handshake.cc:482-614 | for every input and every pattern of blocking, failing and calling again the transcript holds exactly the messages sent and consumed, in order, each once; a call stops short of the end only after a failure or because something is not there yet; a failure stays a failure |
| HandshakeClient.DoneMeans | PV239 project/Pods/BoringSSL/ssl/handshake_client.cc:1668-1699 | a client that is done has gone through exactly the messages and acts of its course, in their order, full or resumed, on the terms of the ServerHello, each Finished and signature over all messages before it (RFC 5246 section 7.3) |
| HandshakeClient.KeyExchangeAfterChecks | PV239 project/Pods/BoringSSL/ssl/handshake_client.cc:877-1077 | in a full handshake with a certificate ClientKeyExchange was sent only after the certificate check and any required signature check |
| HandshakeClient.SignsIffShown | PV239 project/Pods/BoringSSL/ssl/handshake_client.cc:1379-1461 | a client that was asked for a certificate and has one shows it before its ClientKeyExchange and signs after it; no other client signs, and none shows a certificate unasked |
| HandshakeServer.MovesOn | PV239 project/Pods/BoringSSL/ssl/handshake_server.cc:1527-1609 | each transition, with the messages and acts that belong to it, keeps the server's invariant that its history is exactly that of its state, and brings it strictly nearer to the end |
| HandshakeServer.ParametersSettled | PV239 project/Pods/BoringSSL/ssl/handshake_server.cc:660-679 | after the ClientHello the buffer is kept exactly if a client certificate is asked for |
| HandshakeServer.Server.DoSendServerCertificate | PV239 project/Pods/BoringSSL/ssl/handshake_server.cc:742-828 | with a certificate cipher the certificates are sent, and their status if agreed on |
| HandshakeServer.Server.DoSendKeyExchange | PV239 project/Pods/BoringSSL/ssl/handshake_server.cc:830-900 | parameters are sent exactly if the key exchange needs them, and signed first with a certificate cipher, however often that has to be tried |
| HandshakeServer.Server.DoReadClientCertificate | PV239 project/Pods/BoringSSL/ssl/handshake_server.cc:937-1028 | a server that asked takes a certificate, or none where it need not have one, and in SSL 3.0 none only by leaving the message out |
| HandshakeServer.Server.DoReadKeyExchange | PV239 project/Pods/BoringSSL/ssl/handshake_server.cc:1046-1255 | a retried private key operation leaves the ClientKeyExchange unhashed and unconsumed |
| HandshakeServer.Server.Step | PV239 project/Pods/BoringSSL/ssl/handshake_server.cc:1527-1609 | every step that goes on has done exactly what belongs to it, one that waits has changed nothing, and one fails only if the environment says no or the client sent what cannot be taken |
| HandshakeServer.Server.Run | PV239 project/Pods/BoringSSL/ssl/handshake.cc:482-614 | the same for the server: the transcript holds every message once, whatever blocks and is run again |
| HandshakeServer.DoneMeans | PV239 project/Pods/BoringSSL/ssl/handshake_server.cc:1499-1525 | a server that is done has gone through exactly the messages and acts of its course, in their order, on the terms of the ClientHello, each Finished and signature over all messages before it |
| HandshakeServer.ClientProvesCertificate | PV239 project/Pods/BoringSSL/ssl/handshake_server.cc:1030-1351 | a client certificate was found good before the ClientKeyExchange and proved by a signature after it; no signature is read without one; a server that insists on a certificate got one |
| CipherChoice.Choose | PV239 project/Pods/BoringSSL/ssl/handshake_server.cc:388-423 | the one-pass loop returns the cipher of the earliest closed group with an acceptable one that comes first in the other list, and nothing exactly when no closed group has one |
| CipherChoice.EligibleIff | PV239 project/Pods/BoringSSL/ssl/internal.h:1877-1893 | with a last flag of zero every acceptable cipher counts; with a last flag of one those of the last group are passed over |
| CipherChoice.GroupIsRun | PV239 project/Pods/BoringSSL/ssl/internal.h:1870-1893 | a group goes on exactly as long as the flags are set |
| CipherChoice.BestIsUnique | PV239 project/Pods/BoringSSL/ssl/handshake_server.cc:388-423 | the optimum is one cipher |
| CipherChoice.BestWithoutGroups | PV239 project/Pods/BoringSSL/ssl/handshake_server.cc:379-383 | without groups the optimum is the first acceptable cipher |
| CipherChoice.ChooseCipher | PV239 project/Pods/BoringSSL/ssl/handshake_server.cc:357-424 | optimal for the server's groups, or the client's first acceptable cipher; either way one that both sides list and can use, and none exactly when there is none |
| CipherChoice.AcceptableIff | PV239 project/Pods/BoringSSL/ssl/handshake_server.cc:388-402 | a cipher is acceptable exactly if both sides list it, its versions include the one spoken, and the server can do its key exchange and authentication |
| Premaster.EqMeaning | PV239 project/Pods/BoringSSL/crypto/internal.h:296-300 | the branch-free comparison of words yields all ones exactly when they are equal |
| Premaster.IsZeroMeaning | PV239 project/Pods/BoringSSL/crypto/internal.h:273-288 | the branch-free test for zero yields all ones exactly for zero |
| Premaster.CheckPadding | PV239 project/Pods/BoringSSL/ssl/handshake_server.cc:1137-1159 | the accumulated mask is all ones exactly for type-2 padding with the client's version (RFC 3447 section 7.2.2, RFC 5246 section 7.4.7.1) |
| Premaster.SelectPremaster | PV239 project/Pods/BoringSSL/ssl/handshake_server.cc:1130-1166 | the secret is the decrypted one exactly when the block is good and the random one otherwise, octet by octet |
| RefCount.Linearizes | PV239 project/Pods/BoringSSL/crypto/refcount_c11.c:37-65 | with any number of threads and spurious failures, the operations that have returned are a sequential history of one saturating counter that leads to the atomic's value |
| RefCount.CountsBelowMax | PV239 project/Pods/BoringSSL/crypto/refcount_c11.c:37-47 | below the maximum the count is the start plus increments minus decrements |
| RefCount.StaysAtMax | PV239 project/Pods/BoringSSL/crypto/refcount_c11.c:37-65 | a saturated count never moves, and no decrement of it reports zero |
| RefCount.AbortsOnlyAfterZero | PV239 project/Pods/BoringSSL/crypto/refcount_c11.c:49-56 | a decrement aborts only if the count was zero at some moment of the run |
| RefCount.AloneReturns | PV239 project/Pods/BoringSSL/crypto/refcount_c11.c:37-65 | a thread left alone for two moves gets its operation done, with the right answer |
| RefCount.FailsOnlyIf | PV239 project/Pods/BoringSSL/crypto/refcount_c11.c:37-65 | an attempt fails only for no reason or because the count has changed since it was loaded, and then nothing but what the thread expects changes |
| RefCount.LockedCount.DecrementAndTestZero | PV239 project/Pods/BoringSSL/crypto/refcount_lock.c:37-51 | under the lock the same counter step, reporting exactly the step from one to zero |
| Der.ElementRead | PV239 project/Pods/BoringSSL/ssl/ssl_asn1.cc:541-557 | an element of up to four length octets reads back, and what follows it is left |
| Der.UintRead | PV239 project/Pods/BoringSSL/ssl/ssl_asn1.cc:502-539 | every unsigned 64-bit integer reads back from its minimal encoding |
| SessionLimits.OnlyDerRead | PV239 project/Pods/BoringSSL/ssl/ssl_asn1.cc:541-557 | what is read as an element is that element as it is written: no other way to write its length is taken |
| SessionLimits.OnlyMinimalRead | PV239 project/Pods/BoringSSL/ssl/ssl_asn1.cc:502-539 | what is read as a number is its one minimal encoding, and fits 64 bits |
| SessionRoundTrip.FieldRead | PV239 project/Pods/BoringSSL/ssl/ssl_asn1.cc:450-462 | an optional field is found exactly if it was written, as the tags rise |
| SessionRoundTrip.ChainRead | PV239 project/Pods/BoringSSL/ssl/ssl_asn1.cc:712-727 | a concatenation of certificates splits into the same certificates |
| SessionRoundTrip.RoundTrip | PV239 project/Pods/BoringSSL/ssl/ssl_asn1.cc:541-771 | every valid session reads back from its octets for every combination of optional fields and chain length: empty tickets and protocols as none, the chain dropped beside a hash of the leaf, and without identifier and ticket from a ticket |
| SessionRoundTrip.SameSessionIff | PV239 project/Pods/BoringSSL/ssl/ssl_asn1.cc:200-413 | it is the very same session exactly if nothing of that kind was there to drop |
| SessionLimits.ReadIsValid | PV239 project/Pods/BoringSSL/ssl/ssl_asn1.cc:541-771 | whatever octets read as a session, it is within all limits of versions, ciphers, lengths, numbers and certificates |
| SessionLimits.ReadWriteRead | PV239 project/Pods/BoringSSL/ssl/ssl_asn1.cc:541-771 | what was read, written and read again is the same, exactly if it has no certificates beside a hash of the leaf |
| SessionLimits.FieldsOnWire | PV239 project/Pods/BoringSSL/ssl/ssl_asn1.cc:155-198 | every field that is there is written as one element under its own tag octet |
| SessionRoundTrip.PlaceholderIsNoSession | PV239 project/Pods/BoringSSL/ssl/ssl_asn1.cc:777-796 | what is written for a session that must not be resumed does not read as a session |
| SessionCodec.ToBytes | PV239 project/Pods/BoringSSL/ssl/ssl_asn1.cc:200-413 | the builder, field by field, writes SessionBytes or fails for its length |
| SessionCodec.ReadSession | PV239 project/Pods/BoringSSL/ssl/ssl_asn1.cc:541-771 | the cursor, field by field, reads what Parse reads, on every input |

## Left out

- DTLS timers, the update of the MTU from the transport, alerts sent as records of their own, application data and
  close_notify: no part in the delivery of handshake messages.
- The two halves of DTLS1_STATE are two classes, and flight_has_reply is not modelled: it only says when the next message
  starts a new flight, which the step Add decides here by the flight being complete.
- DtlsSeal.SealedRecordsUnique: speaks of runs in which no counter has wrapped; what a wrap leads to is
  DtlsSeal.WrappedCounterRepeats.
- Ciphers, hashes, signatures, key derivation and X.509 are functions or answers of the environment.
- Checks that buffers do not alias, and failures of memory allocation.
- nanopb callbacks, custom streams, extensions, and pointer fields, which this build leaves out. Stale memory in unions and
  behind the count of an array is taken to be zero.
- PbDecoder.DecodeNoInit: gives a decoded message only on success; what a failed decoding leaves in the structure is not
  modelled.
- PbEncoder.EncodeFields: asks that no submessage or packed array be longer than a size_t can say.
- PbIter.FieldIter.Find: the pointers to a field's data and size are the position in the array; their arithmetic on
  structure offsets is not modelled.
- PbRoundTrip.MessageRoundTrip: asks that no length-prefixed item reach 2^32 octets, which the encoder writes and the
  decoder cannot read. Field arrays that it asks for have distinct tags and fewer than 64 required fields, not 32.
- TlsWriter.Writer.FlushFlight: the order of octets is promised until a write buffer is allocated so large that its offset
  could leave 16 bits; SslBuffer.KeepsRestIff says what happens then.
- Early data and the renegotiation paths of writing and of the handshakes; TLS 1.3; V2ClientHello; the splitting of CBC
  records, which is part of the abstract sealing of a record.
- Parsing of hello messages, extensions, certificates and key exchange messages: what a hello settles is a function of its
  octets, whether anything else parses is an answer of the environment.
- The comparisons constant_time_lt and constant_time_ge: the premaster selection does not use them.
- DtlsArrival.FlightDelivered: speaks of the epochs in which messages may come out of turn, which are all but epoch 1; there
  DtlsArrival.OpenTakes says what a single record does.
- The memory orders of the atomics, and fairness of threads: a run is any sequence of atomic steps.
- SessionRoundTrip.RoundTrip: tag numbers above 30 and indefinite lengths, which the format does not use, are refused.
- The Swift application: views and database calls.
