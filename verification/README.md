# Verified models of BoringSSL's transport and nanopb's codec

This project models, in Dafny, the stateful code that the VoteOnOffice app carries in its
Pods directory, and proves what that code is for. Four components are covered.

* **DTLS handshake transport** (`d1_both.cc`, `dtls_record.cc`, `dtls_method.cc`): flights cut
  into fragments, retransmission and roll-back, the replay window, the reassembly mask and the
  ring of seven incoming messages. Main results: `DtlsDelivery.Session` (whatever the network
  does, the messages delivered are an in-order prefix of the messages queued, every arriving
  record is judged rightly, and no record number is on the wire twice),
  `DtlsDelivery.FlightArrives` (nothing is lost once every fragment has got through, across
  cipher changes), `DtlsDelivery.RecordVerdict` (exactly which records are refused),
  `ReplayWindow.Run` (no number is accepted twice and every verdict is the right one).
* **TLS handshake machines and output path** (`handshake_client.cc`, `handshake_server.cc`,
  `handshake.cc`, `ssl_transcript.cc`, `s3_both.cc`, `s3_pkt.cc`, `ssl_buffer.cc`). Main results:
  `HandshakeClient.Connect` and `HandshakeServer.Accept` (a run that completes has followed the
  message flow of section 7.3 of RFC 5246 that its hello settles, under any pattern of pauses;
  every check in its log came out well; transcript and message queue are exact at every moment;
  and a side with nothing wrong of its own fails only if the peer gave cause), with
  `ClientFlow` and `ServerFlow` (what that flow is, by the fields of the hello: which messages
  come exactly when and in which order, and that a peer that authenticates by certificate has
  done so), `TlsOutput.Run` (no sealed byte is lost, repeated or reordered, and the exact
  requests for which this can fail; every failure has a cause, and without refusals all data
  is reported), `TlsOutput.WriteWithRetries` (application data exactly once).
* **nanopb codec** (`pb_common.c`, `pb_encode.c`, `pb_decode.c`). Main results:
  `PbRoundTrip.RoundTrip` and `PbCodec.Transmit` (round trip, as a law of the wire format and
  through the code), `PbMerge.DecodedMerge` (concatenation is the field-by-field merge),
  `PbUnknown.OlderDecoder` (fields of a newer descriptor are passed over), `PbDecoder.DecodeNoinit`
  (total on every byte string, within the stream and within every array and buffer, accepted or
  not), `PbEncoder.EncodeMessage` with `PbEncoder.GetEncodedSize` (sizing agrees with writing).
* **Cipher preference engine** (`ssl_cipher.cc`, `ssl3_choose_cipher`). Main results:
  `CipherList.Order.ApplyRule` (editing the linked list is a stable partition),
  `CipherSort.SortCorrect` (a stable descending sort), `CipherOrder.BuiltInOrder` (what the
  built-in passes sort by), `CipherText` (what each operator and each word of a rule string does),
  `CipherEngine.CreatedIsSound` (what every rule string guarantees), `CipherChoice.Choose`
  (complete and optimal).

## How to read it

Each component has a specification on values (functions over sequences, maps and datatypes) and
the code itself as classes and methods with loops, proved against that specification. Lemmas
about the specification then carry the results over whole runs.

* `ReplayWindow`, `DtlsWire`, `DtlsReassembly`, `DtlsReceiver`, `DtlsSender`, `DtlsDelivery`.
* `PbWire` and `PbMessage` define the wire format and the merge; `PbRoundTrip`, `PbMerge`,
  `PbUnknown` and `PbSafety` prove its laws; `PbIterator`, `PbStream`, `PbDecoder`, `PbEncoder` are the code; `PbCodec` puts
  both directions together.
* `CipherList` (rules as partitions, and the doubly linked list), `CipherSort`, `CipherRules`
  (the rule language), `CipherEngine` (the code that runs it), `CipherText` (rule strings by their
  characters), `CipherOrder` (the built-in order), `CipherChoice`.
* `TlsBuffer`, `TlsOutput`.
* `Handshake` (transcript, log and message queue), `HandshakeClient`, `HandshakeServer`; `ClientFlow`
  and `ServerFlow` state the message flow by the fields of the hello and the numbers of the messages.

Cryptography, the network, callbacks and parsing of handshake bodies are oracles: functions or
records that the theorems quantify over. A predicate that ends in a `{:trigger ...}` on a term
of its own (`Unfold`, `Open`, `OpenLog`, `PartAt`, `CheckedAt`, `Layout`, `Differ`) is only a way to keep its definition
folded until a proof mentions that term. In the handshakes, what a hello, a certificate or a
signature means is a function of the message (`Handshake.World`), so that the log alone shows
what was agreed on and checked.

Some behaviour of the code that a reader might not expect, kept as it is:

* A fragment numbered exactly `handshake_read_seq + 7` passes the window test and is then an
  error (`DtlsReceiver.Accept`); other numbers outside the window are ignored.
* A truncated tag at the end of the input ends a protobuf message without error, and tag zero is
  an error in a message type without fields (`PbMessage.DecTag`, `PbMessage.DecLoop`).
* The required-field check is defined for fewer than 64 required fields and not for 32
  (`PbDecoder.Checkable`); beyond that the code shifts by the word width or reads behind its array.
* `SSLBuffer` keeps its offset in 16 bits. `TlsBuffer.FlushExact` gives the exact condition under
  which partial writes never send a wrong byte, and `TlsBuffer.FlushTears` a buffer where one
  does. `TlsBuffer.SafeCap` is the request that keeps a buffer within it: all but the six sizes
  from 0xfffa to 0xffff. `TlsOutput.Request` is what a call asks for, by its own chunk and the
  unsent flight.
* The read keys do not change while a handshake message is still waiting: such a handshake fails
  (`Handshake.Session.Rekey`).
* An alias with a minimum version followed by one without makes a cipher rule void, while the
  other order does not (`CipherRules.Narrow`).

## Model

| member | source | states |
|---|---|---|
| ReplayWindow.Shl | VoteOnOffice/Pods/BoringSSL/ssl/dtls_record.cc:155-175 | the shift of the 64-bit map, bit by bit |
| ReplayWindow.Bitmap.ShouldDiscard | VoteOnOffice/Pods/BoringSSL/ssl/dtls_record.cc:140-150 | the bit test discards exactly what is neither newer than the maximum nor in the window and unseen, where "seen" is the set the map stands for |
| ReplayWindow.Bitmap.Record | VoteOnOffice/Pods/BoringSSL/ssl/dtls_record.cc:155-175 | map and maximum go on representing the set of numbers seen, now with the new number |
| ReplayWindow.ArrivalStep | VoteOnOffice/Pods/BoringSSL/ssl/dtls_record.cc:140-175 | the window test on the finite map agrees with the test on the whole history of the epoch, and recording keeps them in step |
| ReplayWindow.ChangeStep | VoteOnOffice/Pods/BoringSSL/ssl/dtls_method.cc:81-95 | an epoch change starts from an empty window that mirrors an empty history of the new epoch |
| ReplayWindow.ReadState.OpenRecord | VoteOnOffice/Pods/BoringSSL/ssl/dtls_record.cc:225-259 | a record is accepted if and only if it is authentic, of the read epoch, unseen and no more than 63 behind the newest |
| ReplayWindow.ReadState.SetReadState | VoteOnOffice/Pods/BoringSSL/ssl/dtls_method.cc:81-95 | refused while handshake data is pending; otherwise the next epoch with an empty window |
| ReplayWindow.Run | VoteOnOffice/Pods/BoringSSL/ssl/dtls_record.cc:177-272 | over any run of records and cipher changes: no number is accepted twice, and every verdict is the one RFC 6347 asks for, in both directions |
| DtlsWire.ParseSerialized | VoteOnOffice/Pods/BoringSSL/ssl/d1_both.cc:459-473 | parsing a fragment undoes writing it, whatever follows |
| DtlsWire.SerializeParsed | VoteOnOffice/Pods/BoringSSL/ssl/d1_both.cc:459-473 | writing undoes parsing: no two byte strings parse alike |
| DtlsWire.ParseLayout | VoteOnOffice/Pods/BoringSSL/ssl/d1_both.cc:459-473 | where the fields stand in the twelve bytes of the header, most significant byte first, and that a fragment is refused exactly if it is cut short |
| DtlsWire.ReadWritten | VoteOnOffice/Pods/BoringSSL/ssl/d1_both.cc:511-523 | big-endian fields of any width read back as written |
| DtlsWire.WriteRead | VoteOnOffice/Pods/BoringSSL/ssl/d1_both.cc:459-473 | every big-endian field is in range and is rewritten identically |
| DtlsReassembly.RangeByte | VoteOnOffice/Pods/BoringSSL/ssl/d1_both.cc:201-205 | bit_range sets exactly the bits from start up to end |
| DtlsReassembly.SetBits | VoteOnOffice/Pods/BoringSSL/ssl/d1_both.cc:211-237 | marking start to end adds exactly those byte positions to what the mask shows, across partial first and last bytes |
| DtlsReassembly.AllReceived | VoteOnOffice/Pods/BoringSSL/ssl/d1_both.cc:239-251 | the completeness test holds if and only if every byte of the message is covered |
| DtlsReassembly.ByteFull | VoteOnOffice/Pods/BoringSSL/ssl/d1_both.cc:239-251 | a mask byte equals a bit range exactly if the message bytes it stands for are covered |
| DtlsReassembly.HmFragment.constructor | VoteOnOffice/Pods/BoringSSL/ssl/d1_both.cc:152-199 | a new slot holds its header, has received nothing, and is complete exactly if the message is empty |
| DtlsReassembly.HmFragment.Receive | VoteOnOffice/Pods/BoringSSL/ssl/d1_both.cc:211-251 | the copied bytes overlay those received before; the mask is freed if and only if all bytes are there |
| DtlsReassembly.HmFragment.Contents | VoteOnOffice/Pods/BoringSSL/ssl/d1_both.cc:408-424 | a complete slot yields exactly the assembled message and its unfragmented raw form |
| DtlsReassembly.HoldsAfterCopy | VoteOnOffice/Pods/BoringSSL/ssl/d1_both.cc:387-401 | copying a body into the buffer leaves the header and all other received bytes in place |
| DtlsReceiver.FillKeepsRing | VoteOnOffice/Pods/BoringSSL/ssl/d1_both.cc:265-295 | the ring invariant survives a fragment, and an occupied slot always has the fragment's own number, so the assertion never fires |
| DtlsReceiver.AdvanceKeepsRing | VoteOnOffice/Pods/BoringSSL/ssl/d1_both.cc:426-438 | the ring invariant survives the release of a message, even when the 16-bit counter wraps |
| DtlsReceiver.Receiver.Reserve | VoteOnOffice/Pods/BoringSSL/ssl/d1_both.cc:265-295 | a first fragment takes the vacant slot of its number and nothing else changes |
| DtlsReceiver.Receiver.StoreInto | VoteOnOffice/Pods/BoringSSL/ssl/d1_both.cc:380-401 | a fragment fills the slot of its message; complete messages are left alone |
| DtlsReceiver.Receiver.Process | VoteOnOffice/Pods/BoringSSL/ssl/d1_both.cc:350-401 | whether a fragment is an error is told by its own fields and the slot of its number: bad lengths, one out of turn once encrypted, number readSeq + 7, or a header that contradicts the slot; one below readSeq or above readSeq + 7 that is legal leaves the ring alone and is no error; one in the window is laid over what its slot held and changes no other slot |
| DtlsReceiver.Receiver.OpenHandshake | VoteOnOffice/Pods/BoringSSL/ssl/d1_both.cc:297-406 | a record has the effect of its fragments in order up to the first bad one; what that is for records of true fragments is said by DtlsDelivery.RecordVerdict, RecordKeeps and RecordGets |
| DtlsReceiver.Receiver.GetMessage | VoteOnOffice/Pods/BoringSSL/ssl/d1_both.cc:408-424 | a message is handed out if and only if the current slot is complete, and it is the assembled one |
| DtlsReceiver.Receiver.NextMessage | VoteOnOffice/Pods/BoringSSL/ssl/d1_both.cc:426-438 | the slot is vacated and the number moves on modulo 2^16 |
| DtlsReceiver.Receiver.FlagChangeCipherSpec | VoteOnOffice/Pods/BoringSSL/ssl/d1_both.cc:319-338 | a ChangeCipherSpec is flagged exactly if it comes in the clear and is well formed, and stays flagged |
| DtlsReceiver.Receiver.TakeChangeCipherSpec | VoteOnOffice/Pods/BoringSSL/ssl/d1_both.cc:475-490 | the flag is handed out once |
| DtlsReceiver.Receiver.HasUnprocessed | VoteOnOffice/Pods/BoringSSL/ssl/d1_both.cc:440-457 | true exactly if a ChangeCipherSpec is flagged or some slot other than the message being handed out is occupied |
| DtlsSender.Sender.SealRecord | VoteOnOffice/Pods/BoringSSL/ssl/dtls_record.cc:294-351 | no epoch and sequence number is used twice until a number wraps; a wrap needs the counter at 2^48 - 1 and is always a reported failure; the number used is the new end of the sealing order; the length contract; why a seal can fail |
| DtlsSender.Sender.SetWriteState | VoteOnOffice/Pods/BoringSSL/ssl/dtls_method.cc:97-107 | the new epoch starts at number zero, the last epoch keeps its counter and its cipher for retransmission, and no used number becomes available again |
| DtlsSender.Sender.SealPiece | VoteOnOffice/Pods/BoringSSL/ssl/d1_both.cc:644-734 | the piece is the rest of the body or as much as the room allows, whichever is less, and never nothing unless the body is empty |
| DtlsSender.Sender.SealNextMessage | VoteOnOffice/Pods/BoringSSL/ssl/d1_both.cc:644-734 | the record sealed carries exactly what comes next in the flight, and the position moves past exactly that |
| DtlsSender.Sender.SealNextPacket | VoteOnOffice/Pods/BoringSSL/ssl/d1_both.cc:739-780 | a packet fits the MTU, is not empty, carries the flight from the old position exactly to the new one, is lexicographic progress, and is full unless it ends the flight; it fails only for a wrapped number, a stale epoch or an MTU out of range |
| DtlsSender.Sender.SendPacket | VoteOnOffice/Pods/BoringSSL/ssl/d1_both.cc:797-815 | the next packet goes out, or is rolled back if its write fails; either way its numbers are used up |
| DtlsSender.Sender.SendFlight | VoteOnOffice/Pods/BoringSSL/ssl/d1_both.cc:782-827 | the datagrams written carry the flight without gap or repeat, under the numbers that extend the sealing order; after a failed write the position is back at the start of that packet |
| DtlsSender.Sender.FlushFlight | VoteOnOffice/Pods/BoringSSL/ssl/d1_both.cc:829-834 | the flight from the current position on, and the flight is closed; each way to fail has its cause |
| DtlsSender.Sender.Retransmit | VoteOnOffice/Pods/BoringSSL/ssl/d1_both.cc:836-845 | the whole flight again from its start; each way to fail has its cause |
| DtlsSender.Sender.AddOutgoing | VoteOnOffice/Pods/BoringSSL/ssl/d1_both.cc:555-594 | at most seven items; a new flight begins after a flush; messages are numbered by their place in the history |
| DtlsSender.Sender.AddMessage | VoteOnOffice/Pods/BoringSSL/ssl/d1_both.cc:511-541 | queues a message under the next number and the current epoch, or refuses it |
| DtlsSender.Sender.AddChangeCipherSpec | VoteOnOffice/Pods/BoringSSL/ssl/d1_both.cc:600-602 | queues a ChangeCipherSpec of the current epoch |
| DtlsSender.Sender.ClearFlight | VoteOnOffice/Pods/BoringSSL/ssl/d1_both.cc:500-509 | an empty flight and the start position |
| DtlsSender.ExtendReach | VoteOnOffice/Pods/BoringSSL/ssl/d1_both.cc:739-780 | a run of records extended by the one that comes next still carries the flight in order, and makes progress |
| DtlsSender.ReachConcat | VoteOnOffice/Pods/BoringSSL/ssl/d1_both.cc:782-827 | consecutive packets carry consecutive stretches of the flight |
| DtlsDelivery.SenderIsHonest | VoteOnOffice/Pods/BoringSSL/ssl/d1_both.cc:644-827 | every record of a flight carries a true piece of a message that was queued |
| DtlsDelivery.AcceptAgrees | VoteOnOffice/Pods/BoringSSL/ssl/d1_both.cc:297-406 | a true fragment leaves every byte held equal to the byte sent |
| DtlsDelivery.RecordFirst | VoteOnOffice/Pods/BoringSSL/ssl/d1_both.cc:346-406 | the receiver parses out of a record of any number of fragments exactly the fragments that were put in |
| DtlsDelivery.RecordVerdict | VoteOnOffice/Pods/BoringSSL/ssl/d1_both.cc:346-406 | a record of any number of true fragments fails exactly if it holds one numbered readSeq + 7, one out of turn in epoch 1 or one of a message above the length limit, or is followed by bytes that are no fragment; a retransmitted fragment is no error |
| DtlsDelivery.RecordKeeps | VoteOnOffice/Pods/BoringSSL/ssl/d1_both.cc:346-406 | whatever true fragments a record holds, what was held stays held |
| DtlsDelivery.RecordGets | VoteOnOffice/Pods/BoringSSL/ssl/d1_both.cc:346-406 | every fragment of the window in a record is taken in, up to the first one that ends the record |
| DtlsDelivery.ReadyIsSent | VoteOnOffice/Pods/BoringSSL/ssl/d1_both.cc:408-424 | the message handed out is the one sent with that number |
| DtlsDelivery.Link.Deliver | VoteOnOffice/Pods/BoringSSL/ssl/d1_both.cc:297-406 | the arrival of a record made of any fragments ever sent: it is accepted exactly if none of them is unwelcome, nothing held is lost, and each fragment of the window up to the first unwelcome one is held afterwards |
| DtlsDelivery.Link.Take | VoteOnOffice/Pods/BoringSSL/ssl/d1_both.cc:408-438 | taking the current message keeps delivered messages an in-order prefix, and happens exactly if it is complete |
| DtlsDelivery.Link.Transmit | VoteOnOffice/Pods/BoringSSL/ssl/d1_both.cc:782-845 | a transmission or retransmission adds true records behind those on the wire, which carry the flight from where it stood, and all of it if no write fails; it fails only for a wrapped number, a stale epoch or an MTU that is too small or above 16 bits |
| DtlsDelivery.Session | VoteOnOffice/Pods/BoringSSL/ssl/d1_both.cc:211-845 | over any run with drops, repeats, reordering, any MTU, failed writes, retransmissions and epoch changes: the messages delivered are an in-order prefix of those queued, type and body; every record on the wire is part of a queued message; each arriving record, made of any fragments on the wire by then, is accepted exactly if none of them is unwelcome after the messages taken by then; and no two records on the wire share epoch and sequence number unless some transmission reported a failure to seal |
| DtlsDelivery.ReachCovers | VoteOnOffice/Pods/BoringSSL/ssl/d1_both.cc:644-827 | the fragments of one transmission tile every message of the flight |
| DtlsDelivery.PlaceMore | VoteOnOffice/Pods/BoringSSL/ssl/dtls_record.cc:294-351 | later transmissions are placed after earlier ones in the sealing order; records sealed and never written leave gaps |
| DtlsDelivery.EventsAgree | VoteOnOffice/Pods/BoringSSL/ssl/d1_both.cc:297-438 | over any arrivals and reads, in any read states: the messages taken are those sent, in order |
| DtlsDelivery.ThroughIsSafe | VoteOnOffice/Pods/BoringSSL/ssl/d1_both.cc:297-406 | a fragment that got through at its time, in a record with any others, stays held, in whatever order others come, or its message has been taken |
| DtlsDelivery.FlightArrives | VoteOnOffice/Pods/BoringSSL/ssl/d1_both.cc:297-438 | if every fragment of one transmission gets through at least once, in a record with any others, each in the read state of its own time, in any order and with messages taken in between, every message of the flight has been taken as sent or is assembled as sent |
| PbWire.VarintRoundTrip64 | VoteOnOffice/Pods/nanopb/pb_decode.c:209-229 | every 64-bit value survives a varint round trip, whatever follows |
| PbWire.VarintRoundTrip32 | VoteOnOffice/Pods/nanopb/pb_decode.c:173-207 | every 32-bit value survives the short varint decoder |
| PbWire.ReadEncoded | VoteOnOffice/Pods/nanopb/pb_encode.c:494-514 | any value that fits k groups is read back by a decoder of k groups |
| PbWire.ZigzagRoundTrip | VoteOnOffice/Pods/nanopb/pb_encode.c:516-525 | zigzag is the alternating enumeration of the integers, and is undone exactly |
| PbWire.UnzigzagRoundTrip | VoteOnOffice/Pods/nanopb/pb_decode.c:1118-1130 | undoing zigzag and redoing it is the identity on all 64-bit words |
| PbWire.FixedRoundTrip | VoteOnOffice/Pods/nanopb/pb_encode.c:527-551 | little-endian words of any width read back as written |
| PbWire.EncodeVarintBytes | VoteOnOffice/Pods/nanopb/pb_encode.c:494-514 | the byte loop writes exactly the varint, in at most ten bytes |
| PbWire.EncodedGroups | VoteOnOffice/Pods/nanopb/pb_encode.c:494-514 | a number is written in as few seven-bit groups as it has, least significant first, with the top bit on all bytes but the last |
| PbWire.DecodeGroups | VoteOnOffice/Pods/nanopb/pb_decode.c:173-229 | a varint is read exactly if it ends within ten (five) bytes, and its value is what its groups spell, cut to 64 (32) bits, also where a shorter form exists |
| PbWire.ReadBytewise | VoteOnOffice/Pods/nanopb/pb_decode.c:1132-1163 | byte i of a fixed-width integer counts 256 to the power of i |
| PbIterator.FieldIter.Begin | VoteOnOffice/Pods/nanopb/pb_common.c:8-18 | the iterator stands at the first field |
| PbIterator.FieldIter.Next | VoteOnOffice/Pods/nanopb/pb_common.c:20-76 | one step around the cycle; position, data offset and required index stay those of a walk from the start |
| PbIterator.FieldIter.Find | VoteOnOffice/Pods/nanopb/pb_common.c:78-95 | from any position: succeeds if and only if some field has the tag, lands on that field in canonical state, and otherwise is back where it was |
| PbIterator.RequiredIndexTaken | VoteOnOffice/Pods/nanopb/pb_common.c:65-70 | every index below the count belongs to a required field |
| PbIterator.RequiredIndexIncreases | VoteOnOffice/Pods/nanopb/pb_common.c:65-70 | required fields have distinct, increasing indices below the count |
| PbStream.IStream.Read | VoteOnOffice/Pods/nanopb/pb_decode.c:76-123 | reads exactly the next bytes, or nothing if there are too few |
| PbStream.IStream.ReadByte | VoteOnOffice/Pods/nanopb/pb_decode.c:127-143 | reads one byte within the stream |
| PbStream.IStream.DecodeVarint64 | VoteOnOffice/Pods/nanopb/pb_decode.c:209-229 | the loop computes the varint truncated to 64 bits and stops right behind it; a failure leaves the exact number of bytes left |
| PbStream.IStream.DecodeVarint32 | VoteOnOffice/Pods/nanopb/pb_decode.c:173-207 | the same over 32 bits, with the one-byte quick case |
| PbStream.IStream.SkipVarintBytes | VoteOnOffice/Pods/nanopb/pb_decode.c:231-240 | skips to behind the first byte without a continuation bit |
| PbStream.IStream.Skip | VoteOnOffice/Pods/nanopb/pb_decode.c:277-287 | moves as SkipField does, which skips exactly one payload of each wire type (PbUnknown.SkipShaped, SkipRejects): a varint, eight bytes, a block or four bytes |
| PbStream.IStream.DecodeTag | VoteOnOffice/Pods/nanopb/pb_decode.c:251-275 | end of message, bad tag and tag are told apart; a truncated or zero tag ends the message |
| PbStream.IStream.OpenSubstream | VoteOnOffice/Pods/nanopb/pb_decode.c:322-335 | the announced bytes leave the parent and make up the substream, or the parent is too short |
| PbStream.IStream.CloseSubstream | VoteOnOffice/Pods/nanopb/pb_decode.c:337-350 | whatever the substream left is skipped, and position plus bytes left is back at the stream end |
| PbDecoder.SeenBits.Mark | VoteOnOffice/Pods/nanopb/pb_decode.c:908-913 | exactly the required fields seen have their bit set |
| PbDecoder.SeenBits.Check | VoteOnOffice/Pods/nanopb/pb_decode.c:937-949 | whole words and the remaining bits together accept exactly if all bits below the count are set |
| PbDecoder.AllRequiredSeen | VoteOnOffice/Pods/nanopb/pb_decode.c:919-950 | the closing check accepts if and only if every required field was seen |
| PbDecoder.SetToDefaults | VoteOnOffice/Pods/nanopb/pb_decode.c:835-846 | every field gets its default, recursively |
| PbDecoder.FieldDefault | VoteOnOffice/Pods/nanopb/pb_decode.c:763-833 | the default of one field by its kind |
| PbDecoder.CastInRange | VoteOnOffice/Pods/nanopb/pb_decode.c:1184-1197 | a storing cast always gives a value of the field, and changes nothing exactly if the value is in range |
| PbDecoder.DecodeInteger | VoteOnOffice/Pods/nanopb/pb_decode.c:1165-1248 | the three integer decoders yield the value of the specification, rejecting what the cast changed; what is stored fits the field also then |
| PbDecoder.DecodeFixed | VoteOnOffice/Pods/nanopb/pb_decode.c:1132-1163 | fixed-width integers; a failed read leaves the destination alone |
| PbDecoder.DecodeBytes | VoteOnOffice/Pods/nanopb/pb_decode.c:1262-1379 | length-delimited data; no byte is read before its number is known to fit the field; the destination fits the field also on failure |
| PbDecoder.DecodeValue | VoteOnOffice/Pods/nanopb/pb_decode.c:1334-1356 | one item; a submessage is merged through a substream that is always closed; the destination fits the field also on failure |
| PbDecoder.DecodePacked | VoteOnOffice/Pods/nanopb/pb_decode.c:374-402 | a packed array: items until the block is used up, never beyond the array, accepted or not, and what was there stays |
| PbDecoder.DecodeItems | VoteOnOffice/Pods/nanopb/pb_decode.c:385-394 | the loop stores items only while the array has room, and tells a full array, a bad item and the end of the block apart |
| PbDecoder.DecodeField | VoteOnOffice/Pods/nanopb/pb_decode.c:356-429 | one field by its kind: overwrite, append, or choose the arm of a union; accepted or not, the message still fits and other fields are untouched |
| PbDecoder.DecodeNext | VoteOnOffice/Pods/nanopb/pb_decode.c:863-917 | one turn of the loop computes one step of the merge, whatever position the iterator was in; the message fits after every outcome |
| PbDecoder.DecodeNoinit | VoteOnOffice/Pods/nanopb/pb_decode.c:852-953 | for every byte string: terminates, stays within the stream, leaves a message that fits its descriptor whether it accepts or not, and computes the merge of the specification, accepting if and only if it does; what that merge is, is said by PbMerge.DecodedMerge and PbUnknown.UnknownField |
| PbDecoder.Decode | VoteOnOffice/Pods/nanopb/pb_decode.c:955-967 | defaults, then the merge; accepted or not, every value stored fits its descriptor; on success the stream end is where it was |
| PbSafety.DecMessageFits | VoteOnOffice/Pods/nanopb/pb_decode.c:955-967 | every successfully decoded message fits its descriptor |
| PbSafety.DefaultsFit | VoteOnOffice/Pods/nanopb/pb_decode.c:763-846 | default messages fit their descriptors |
| PbSafety.UpdateFits | VoteOnOffice/Pods/nanopb/pb_decode.c:356-402 | storing a value that fits outside unions keeps the message in shape |
| PbSafety.SetArmFits | VoteOnOffice/Pods/nanopb/pb_decode.c:415-424 | choosing an arm keeps one arm per union |
| PbRoundTrip.ScalarRoundTrip | VoteOnOffice/Pods/nanopb/pb_decode.c:1118-1260 | every integer and fixed-width item is decoded to what was encoded |
| PbRoundTrip.BytesRoundTrip | VoteOnOffice/Pods/nanopb/pb_decode.c:1262-1379 | every byte-string item is decoded to what was encoded, strings up to their terminator |
| PbRoundTrip.ValueRoundTrip | VoteOnOffice/Pods/nanopb/pb_decode.c:1118-1379 | the same for every item, nested messages included |
| PbRoundTrip.PackedRoundTrip | VoteOnOffice/Pods/nanopb/pb_decode.c:374-402 | packed arrays decode to the items encoded |
| PbRoundTrip.ArmRoundTrip | VoteOnOffice/Pods/nanopb/pb_decode.c:415-424 | decoding the chosen arm of a union restores the union |
| PbRoundTrip.FieldRoundTrip | VoteOnOffice/Pods/nanopb/pb_encode.c:271-349 | decoding an encoded field has exactly the effect of setting that field |
| PbRoundTrip.MessageRoundTrip | VoteOnOffice/Pods/nanopb/pb_encode.c:451-473 | decoding an encoded message followed by any bytes is the same as decoding those bytes into the message |
| PbRoundTrip.RoundTrip | VoteOnOffice/Pods/nanopb/pb_decode.c:852-967 | decoding what was encoded succeeds and restores every present field |
| PbRoundTrip.SeenMonotone | VoteOnOffice/Pods/nanopb/pb_decode.c:919-950 | required fields seen earlier never turn success into failure or change the result |
| PbRoundTrip.ConcatenationMerges | VoteOnOffice/Pods/nanopb/pb_decode.c:852-967 | decoding an encoded message followed by any bytes that are accepted on top of it is decoding it and then merging those bytes |
| PbRoundTrip.EncodingsMerge | VoteOnOffice/Pods/nanopb/pb_decode.c:852-967 | decoding two encoded messages, one behind the other, is decoding the first and merging the second, rejections included |
| PbRoundTrip.EncodedAgrees | VoteOnOffice/Pods/nanopb/pb_decode.c:908-950 | an encoded message brings its own required fields, so those seen before make no difference |
| PbUnknown.SkipShaped | VoteOnOffice/Pods/nanopb/pb_decode.c:277-287 | a payload of any bytes is skipped exactly: a varint by its continuation bits, eight bytes (wire type 1), a length and its block (2), four bytes (5) |
| PbUnknown.SkipRejects | VoteOnOffice/Pods/nanopb/pb_decode.c:277-287 | a payload that is cut short, or of any other wire type, is rejected |
| PbUnknown.SkipEncoded | VoteOnOffice/Pods/nanopb/pb_decode.c:277-287 | whatever item the encoder writes, of any type, is skipped to its end by a decoder that does not know it |
| PbUnknown.UnknownPayload | VoteOnOffice/Pods/nanopb/pb_decode.c:863-890 | a tag that no field has, with any payload of its wire type, changes nothing in the message |
| PbUnknown.UnknownWireType | VoteOnOffice/Pods/nanopb/pb_decode.c:277-287 | a tag that no field has is rejected with wire types 3, 4, 6 and 7 |
| PbUnknown.UnknownField | VoteOnOffice/Pods/nanopb/pb_decode.c:863-890 | an encoded field of any kind whose tag no field has is passed over: single, packed, repeated, absent |
| PbUnknown.OlderDecoder | VoteOnOffice/Pods/nanopb/pb_decode.c:852-953 | a decoder with an older descriptor restores its own fields of a newer message, with any number of fields it does not know before any of its own |
| PbMerge.ValueMerges | VoteOnOffice/Pods/nanopb/pb_decode.c:1118-1379 | an item decoded on top of a value: submessages merge, anything else is replaced, and it fails exactly if an array inside overflows |
| PbMerge.ArmDisplaces | VoteOnOffice/Pods/nanopb/pb_decode.c:415-424 | the arm that is chosen takes the place of every other arm of its union, and of nothing else |
| PbMerge.PackedOrNot | VoteOnOffice/Pods/nanopb/pb_decode.c:374-402 | an array of a packable type may come packed or item by item: either form adds the same items, or fails |
| PbMerge.MessageMerges | VoteOnOffice/Pods/nanopb/pb_decode.c:852-953 | an encoded message in front of any bytes, decoded on top of any other message: decoding goes on with the field-by-field merge, or fails if that overflows |
| PbMerge.DecodedMerge | VoteOnOffice/Pods/nanopb/pb_decode.c:852-967 | decoding two encoded messages one behind the other gives the second on top of the first, by a definition without wire strings: present values win, submessages merge, arrays grow, unions change arm; it fails exactly if an array would overflow |
| PbEncoder.OStream.Write | VoteOnOffice/Pods/nanopb/pb_encode.c:91-109 | writes or counts; fails exactly if there is no room; touches nothing outside its part of the buffer |
| PbEncoder.OStream.EncodeVarint | VoteOnOffice/Pods/nanopb/pb_encode.c:494-514 | writes or counts the varint |
| PbEncoder.OStream.EncodeString | VoteOnOffice/Pods/nanopb/pb_encode.c:592-598 | length prefix and bytes |
| PbEncoder.StringLength | VoteOnOffice/Pods/nanopb/pb_encode.c:739-763 | the scan finds the terminator within the storage of the field |
| PbEncoder.EncodeInteger | VoteOnOffice/Pods/nanopb/pb_encode.c:652-704 | the integer item encoders |
| PbEncoder.EncodeBytes | VoteOnOffice/Pods/nanopb/pb_encode.c:706-776 | the fixed-width and length-delimited item encoders, with the size check on bytes |
| PbEncoder.EncodeSubmessage | VoteOnOffice/Pods/nanopb/pb_encode.c:600-648 | count, then write through a substream that allows exactly the count: "submsg size changed" is unreachable; fails exactly if the value breaks its bounds or the buffer is too small |
| PbEncoder.WriteThrough | VoteOnOffice/Pods/nanopb/pb_encode.c:626-647 | the writing pass succeeds and writes exactly the counted bytes |
| PbEncoder.GetEncodedSize | VoteOnOffice/Pods/nanopb/pb_encode.c:480-489 | the size counted is the length of the wire form; fails exactly if the value breaks its bounds |
| PbEncoder.EncodeArray | VoteOnOffice/Pods/nanopb/pb_encode.c:116-201 | packed or tagged items, never more than the array holds |
| PbEncoder.PackedSize | VoteOnOffice/Pods/nanopb/pb_encode.c:135-155 | the size of a packed array, by multiplication or by counting, is the size that will be written |
| PbEncoder.FixedItemsSize | VoteOnOffice/Pods/nanopb/pb_encode.c:135-155 | multiplying agrees with counting |
| PbEncoder.EncodePacked | VoteOnOffice/Pods/nanopb/pb_encode.c:129-171 | length prefix and items |
| PbEncoder.EncodeTag | VoteOnOffice/Pods/nanopb/pb_encode.c:553-590 | tag and wire type of a field |
| PbEncoder.EncodeOneField | VoteOnOffice/Pods/nanopb/pb_encode.c:271-349 | a field is sent if and only if it is present |
| PbEncoder.EncodeMessage | VoteOnOffice/Pods/nanopb/pb_encode.c:451-473 | on a writing and on a counting stream alike: succeeds if and only if the value respects its bounds and there is room, and then adds exactly the wire form |
| PbEncoder.FitsIsBounded | VoteOnOffice/Pods/nanopb/pb_encode.c:116-201 | a value that fits its descriptor passes every check of the encoder |
| PbCodec.EncodeExactly | VoteOnOffice/Pods/nanopb/pb_encode.c:451-489 | a buffer of the counted size is enough, and is filled exactly |
| PbCodec.Transmit | VoteOnOffice/Pods/nanopb/pb_decode.c:955-967 | what the encoder writes, the decoder restores, through all the code above |
| CipherList.Order.AppendTail | VoteOnOffice/Pods/BoringSSL/ssl/ssl_cipher.cc:774-792 | the node moves to the back and the links stay those of the sequence |
| CipherList.Order.AppendHead | VoteOnOffice/Pods/BoringSSL/ssl/ssl_cipher.cc:794-812 | the node moves to the front and the links stay those of the sequence |
| CipherList.Order.Remove | VoteOnOffice/Pods/BoringSSL/ssl/ssl_cipher.cc:955-975 | a killed node leaves the list for good |
| CipherList.Order.constructor | VoteOnOffice/Pods/BoringSSL/ssl/ssl_cipher.cc:830-850 | the linking loop builds a well-formed list |
| CipherList.Order.ApplyTo | VoteOnOffice/Pods/BoringSSL/ssl/ssl_cipher.cc:928-975 | what one rule does to one node |
| CipherList.Order.SweepForward | VoteOnOffice/Pods/BoringSSL/ssl/ssl_cipher.cc:892-976 | the moving cursor visits every node once although nodes move behind it |
| CipherList.Order.SweepBackward | VoteOnOffice/Pods/BoringSSL/ssl/ssl_cipher.cc:892-976 | the same from the back, for DEL |
| CipherList.Order.ApplyRule | VoteOnOffice/Pods/BoringSSL/ssl/ssl_cipher.cc:861-980 | the whole loop is a stable partition of the list: ADD and ORD to the back, DEL to the front, KILL away |
| CipherList.ApplyActiveLast | VoteOnOffice/Pods/BoringSSL/ssl/ssl_cipher.cc:861-980 | active ciphers are always the last ones |
| CipherSort.MaxStrengthBits | VoteOnOffice/Pods/BoringSSL/ssl/ssl_cipher.cc:987-995 | the greatest strength in use |
| CipherSort.CountUses | VoteOnOffice/Pods/BoringSSL/ssl/ssl_cipher.cc:997-1010 | the number of active ciphers of each strength |
| CipherSort.StrengthSort | VoteOnOffice/Pods/BoringSSL/ssl/ssl_cipher.cc:982-1021 | the code computes the sort of the specification; skipping unused strengths changes nothing |
| CipherSort.SortCorrect | VoteOnOffice/Pods/BoringSSL/ssl/ssl_cipher.cc:982-1021 | it is a stable descending sort of the active ciphers and leaves the inactive ones alone |
| CipherSort.MoveIsStable | VoteOnOffice/Pods/BoringSSL/ssl/ssl_cipher.cc:1012-1018 | one move changes neither the order within a strength nor the inactive ciphers |
| CipherSort.MoveBands | VoteOnOffice/Pods/BoringSSL/ssl/ssl_cipher.cc:1012-1018 | one move adds its strength to the sorted part |
| CipherRules.ApplyConserves | VoteOnOffice/Pods/BoringSSL/ssl/ssl_cipher.cc:861-980 | a rule neither loses nor duplicates a cipher; KILL loses exactly the selected ones |
| CipherRules.RunConserves | VoteOnOffice/Pods/BoringSSL/ssl/ssl_cipher.cc:1023-1202 | over any list of commands a cipher is lost exactly if some command kills it, and never comes back |
| CipherRules.RunNullOnly | VoteOnOffice/Pods/BoringSSL/ssl/ssl_cipher.cc:906-926 | over any list of commands the null cipher becomes active only by its exact name |
| CipherRules.RunActiveLast | VoteOnOffice/Pods/BoringSSL/ssl/ssl_cipher.cc:861-1021 | over any list of commands active ciphers stay last |
| CipherRules.AddKeepsGroups | VoteOnOffice/Pods/BoringSSL/ssl/ssl_cipher.cc:1043-1063 | adding inside or outside a group keeps the group marks in order |
| CipherRules.ParsedGroupsClosed | VoteOnOffice/Pods/BoringSSL/ssl/ssl_cipher.cc:1023-1202 | every accepted rule string leaves the last cipher outside an open group |
| CipherRules.ParsedIsSpelled | VoteOnOffice/Pods/BoringSSL/ssl/ssl_cipher.cc:1107-1173 | every command of a rule string selects by mask or by id, and one that adds by id comes from a rule without operator whose only word is the name of that cipher |
| CipherRules.RuleMeaning | VoteOnOffice/Pods/BoringSSL/ssl/ssl_cipher.cc:1086-1194 | the text of one rule, the operator included, is its outcome followed by the rest of the string; what each operator does is said by MinusDisables, PlusMoves, MarkKills and WordsEnable of CipherText |
| CipherRules.EmittedGroupsEnd | VoteOnOffice/Pods/BoringSSL/ssl/ssl_cipher.cc:1313-1322 | the last group flag emitted is zero |
| CipherText.MinusDisables | VoteOnOffice/Pods/BoringSSL/ssl/ssl_cipher.cc:929-955 | a rule behind a minus sign: every cipher its words select is inactive afterwards and still in the list, those that were active first and in their old order, and no other cipher changes |
| CipherText.PlusMoves | VoteOnOffice/Pods/BoringSSL/ssl/ssl_cipher.cc:929-955 | a rule behind a plus sign: exactly the selected active ciphers come last, active and in their old order |
| CipherText.MarkKills | VoteOnOffice/Pods/BoringSSL/ssl/ssl_cipher.cc:956-976 | a rule behind an exclamation mark: no selected cipher is left, all others are as they were, and none comes back by any later rule |
| CipherText.WordsEnable | VoteOnOffice/Pods/BoringSSL/ssl/ssl_cipher.cc:929-937 | a rule without operator: every selected cipher is active, and those that were not come last in their old order |
| CipherText.GroupEnables | VoteOnOffice/Pods/BoringSSL/ssl/ssl_cipher.cc:929-937 | the same in a group, whose members are marked |
| CipherText.Brackets | VoteOnOffice/Pods/BoringSSL/ssl/ssl_cipher.cc:1043-1063 | brackets open and close a group, the last cipher ends it, bars join it, and a string that ends in a group is refused |
| CipherText.GroupsForbidOperators | VoteOnOffice/Pods/BoringSSL/ssl/ssl_cipher.cc:1054-1091 | behind the first group every operator is an error, and inside a group everything but words, bars and the bracket |
| CipherText.StrengthCommand | VoteOnOffice/Pods/BoringSSL/ssl/ssl_cipher.cc:1174-1188 | @STRENGTH sorts the list by strength, stably, and the rest of the command is passed over |
| CipherText.OtherCommand | VoteOnOffice/Pods/BoringSSL/ssl/ssl_cipher.cc:1174-1181 | any other command is an error |
| CipherText.StrengthOrder | VoteOnOffice/Pods/BoringSSL/ssl/ssl_cipher.cc:1601-1640 | after the sort AES-256 and ChaCha20 come before AES-128, these before 3DES, and these before all others |
| CipherText.AliasesSelect | VoteOnOffice/Pods/BoringSSL/ssl/ssl_cipher.cc:1141-1173 | a rule of aliases selects exactly the ciphers within all of their masks, with the minimum version of the last if it has one, null ciphers excepted; it is void exactly if an alias behind one with a minimum version has another |
| CipherText.NameSelects | VoteOnOffice/Pods/BoringSSL/ssl/ssl_cipher.cc:1128-1139 | a rule whose only word is the name of a cipher selects the ciphers with its id |
| CipherText.UnknownWord | VoteOnOffice/Pods/BoringSSL/ssl/ssl_cipher.cc:1157-1165 | an unknown word is an error in strict mode and makes the rule void otherwise |
| CipherText.VoidRule | VoteOnOffice/Pods/BoringSSL/ssl/ssl_cipher.cc:1189-1194 | a void rule changes nothing |
| CipherText.EmittedIs | VoteOnOffice/Pods/BoringSSL/ssl/ssl_cipher.cc:1313-1322 | the preference list is the active ciphers one by one, in list order, each with its group flag |
| CipherOrder.BuiltInOrder | VoteOnOffice/Pods/BoringSSL/ssl/ssl_cipher.cc:1229-1281 | the passes before the first rule leave all ciphers below TLS 1.3 disabled and stably sorted: forward secrecy first, then the bulk cipher in the order of the hardware, then ECDHE with ECDSA, ECDHE and the rest; null ciphers last |
| CipherEngine.ReadWords | VoteOnOffice/Pods/BoringSSL/ssl/ssl_cipher.cc:1107-1173 | the inner loop collects the words of a rule |
| CipherEngine.UseWord | VoteOnOffice/Pods/BoringSSL/ssl/ssl_cipher.cc:1128-1165 | one word: an exact cipher if it is alone, else an alias that narrows the selection |
| CipherEngine.ProcessRule | VoteOnOffice/Pods/BoringSSL/ssl/ssl_cipher.cc:1064-1194 | one rule, with its operator, is parsed and applied as the meaning of the string says (CipherText says it by characters) |
| CipherEngine.ProcessRules | VoteOnOffice/Pods/BoringSSL/ssl/ssl_cipher.cc:1023-1202 | parsing while editing the list is the same as parsing first and running the commands, errors included |
| CipherEngine.Collect | VoteOnOffice/Pods/BoringSSL/ssl/ssl_cipher.cc:814-850 | all ciphers but those of TLS 1.3, inactive, in table order |
| CipherEngine.Emit | VoteOnOffice/Pods/BoringSSL/ssl/ssl_cipher.cc:1313-1322 | the active ciphers and their flags, in list order |
| CipherEngine.CreateCipherList | VoteOnOffice/Pods/BoringSSL/ssl/ssl_cipher.cc:1204-1357 | the built-in order (CipherOrder.BuiltInOrder), the default rules if asked for, and the meaning of the rule string (CipherText) on top; or an error |
| CipherEngine.CreatedIsSound | VoteOnOffice/Pods/BoringSSL/ssl/ssl_cipher.cc:1204-1357 | every list made from a rule string: active ciphers last, last flag zero, and a null cipher only if a rule adds it by its exact name |
| CipherChoice.Choose | VoteOnOffice/Pods/BoringSSL/ssl/handshake_server.cc:390-423 | complete and optimal: nothing only if nothing is shared; else the shared cipher of lowest index inside the first group that has one |
| CipherChoice.ChooseCipher | VoteOnOffice/Pods/BoringSSL/ssl/handshake_server.cc:357-424 | the same with either side's preference |
| CipherChoice.UsableVersions | VoteOnOffice/Pods/BoringSSL/ssl/handshake_server.cc:390-400 | which versions a cipher is usable with, by its fields |
| CipherChoice.ConfigureAndChoose | VoteOnOffice/Pods/BoringSSL/ssl/handshake_server.cc:357-424 | a server configured by a rule string: the list is the one the string means, and the choice is complete, optimal, and on the null cipher only if a rule adds it by name |
| TlsBuffer.FlushExact | VoteOnOffice/Pods/BoringSSL/ssl/ssl_buffer.cc:83-97 | partial writes leave exactly the bytes not yet taken, for all contents and amounts, if and only if offset and size stay within 2^16 |
| TlsBuffer.FlushTears | VoteOnOffice/Pods/BoringSSL/ssl/ssl_buffer.cc:90-97 | a full buffer behind seven bytes of slack, of which all but six bytes are taken, offers its first byte again |
| TlsBuffer.SSLBuffer.EnsureCap | VoteOnOffice/Pods/BoringSSL/ssl/ssl_buffer.cc:47-81 | contents are kept for every request, capacity is enough or the request is above 16 bits, and a safe request keeps the buffer exact |
| TlsBuffer.SSLBuffer.Append | VoteOnOffice/Pods/BoringSSL/ssl/ssl_buffer.cc:83-88 | contents grow by exactly the bytes copied |
| TlsBuffer.SSLBuffer.Consume | VoteOnOffice/Pods/BoringSSL/ssl/ssl_buffer.cc:90-97 | the size goes down by what was taken; in an exact buffer the front goes and the rest stays |
| TlsBuffer.FlushBuffer | VoteOnOffice/Pods/BoringSSL/ssl/ssl_buffer.cc:239-252 | the wire only grows; through any partial writes of an exact buffer, wire plus buffer is unchanged; success empties the buffer; failure only if the transport refused |
| TlsOutput.Writer.AddRecord | VoteOnOffice/Pods/BoringSSL/ssl/s3_both.cc:135-165 | one record is sealed behind the flight; or none, and then sealing has refused this record |
| TlsOutput.Writer.AddMessage | VoteOnOffice/Pods/BoringSSL/ssl/s3_both.cc:184-205 | the records added carry the message, whole and in order, in pieces that are all of the fragment size but the last; a failure leaves a prefix, and is one of sealing |
| TlsOutput.Writer.AddChangeCipherSpec | VoteOnOffice/Pods/BoringSSL/ssl/s3_both.cc:207-218 | one record, conserved; or none, and then sealing has refused it |
| TlsOutput.Writer.AddAlert | VoteOnOffice/Pods/BoringSSL/ssl/s3_both.cc:220-229 | one record, conserved; or none, and then sealing has refused it |
| TlsOutput.Writer.FlushFlight | VoteOnOffice/Pods/BoringSSL/ssl/s3_both.cc:231-279 | write buffer first, then the flight; the wire only grows; conservation through any partial or failed writes |
| TlsOutput.Writer.AdoptFlight | VoteOnOffice/Pods/BoringSSL/ssl/s3_pkt.cc:237-266 | what is left of the flight becomes the front of the write buffer, for every request; an unsafe one is noted |
| TlsOutput.Writer.WritePending | VoteOnOffice/Pods/BoringSSL/ssl/s3_pkt.cc:202-218 | a retry flushes what is pending and reports it; it is refused, and nothing is written, if it offers less, another kind, or another place although the buffer may not move; it fails otherwise only if the transport refuses |
| TlsOutput.Writer.WriteNew | VoteOnOffice/Pods/BoringSSL/ssl/s3_pkt.cc:228-288 | one record is sealed, and it is pending until it is flushed, unless there are no bytes or more than 16384, the write buffer is in use, the capacity is above 16 bits, or sealing refuses this record; then nothing is sealed or pending; conservation is given up only if the request is unsafe |
| TlsOutput.Writer.DoWrite | VoteOnOffice/Pods/BoringSSL/ssl/s3_pkt.cc:221-289 | nothing new is sealed while something is pending; every failure has one of the causes of WritePending and WriteNew; conservation is given up only if a new record makes an unsafe request |
| TlsOutput.Writer.WriteAppData | VoteOnOffice/Pods/BoringSSL/ssl/s3_pkt.cc:129-200 | each call seals exactly the bytes from where the last one came to where it reports or is blocked, as application data behind all earlier records; it reports all of the data, or one record of it with partial writes; it fails only after the end, for less data than was begun, for a bad retry, for nothing to write, with the buffer in use, for a capacity above 16 bits, or because sealing or the transport refuses |
| TlsOutput.Writer.SendAlert | VoteOnOffice/Pods/BoringSSL/ssl/s3_pkt.cc:377-423 | a closing alert seals its own record, or fails for a cause of the same list; conservation is given up only if its own request is unsafe |
| TlsOutput.WriteWithRetries | VoteOnOffice/Pods/BoringSSL/ssl/s3_pkt.cc:129-289 | over any number of blocked retries with the same or more data: the plaintext sealed is exactly the prefix finally reported, no gap, no repeat |
| TlsOutput.Run | VoteOnOffice/Pods/BoringSSL/ssl/s3_both.cc:135-279 | over any run of calls: records and wire only grow, each call seals exactly the records it is about and fails only for a cause, and wire, write buffer and unsent flight together are all records ever sealed, in sealing order, unless some call asked for an unsafe capacity; if neither sealing nor the transport ever refuses, every write of an open writer reports all of its data and the closing alert goes out |
| TlsOutput.Apply | VoteOnOffice/Pods/BoringSSL/ssl/s3_both.cc:135-279 | what one call does to records, wire and conservation, what it reports, and why it fails |
| TlsOutput.TraceConserves | VoteOnOffice/Pods/BoringSSL/ssl/s3_both.cc:135-279 | over any trace of calls with safe requests no sealed byte is lost, repeated or reordered at any point |
| TlsOutput.TraceReports | VoteOnOffice/Pods/BoringSSL/ssl/s3_pkt.cc:129-289 | over any trace without refusals from a writer with nothing under way: every write of an open writer reports all of its data (one record with partial writes), and so does the closing alert |
| Handshake.Session.Update | VoteOnOffice/Pods/BoringSSL/ssl/ssl_transcript.cc:236-252 | a message enters buffer and hash, whichever is live |
| Handshake.Session.InitHash | VoteOnOffice/Pods/BoringSSL/ssl/ssl_transcript.cc:181-195 | the hash starts from the buffer and agrees with the transcript |
| Handshake.Session.FreeBuffer | VoteOnOffice/Pods/BoringSSL/ssl/ssl_transcript.cc:197-199 | the hash goes on alone |
| Handshake.Session.Send | VoteOnOffice/Pods/BoringSSL/ssl/s3_both.cc:184-205 | a message sent enters the transcript once |
| Handshake.Session.HashMessage | VoteOnOffice/Pods/BoringSSL/ssl/handshake.cc:215-222 | the first waiting message enters the transcript; it must not be in it already |
| Handshake.Session.NextMessage | VoteOnOffice/Pods/BoringSSL/ssl/s3_both.cc:562-583 | a message is released only if it is in the transcript; then it is received, once and in order |
| Handshake.Session.Arrive | VoteOnOffice/Pods/BoringSSL/ssl/handshake.cc:508-546 | messages that arrive queue up behind those that wait |
| Handshake.Session.Rekey | VoteOnOffice/Pods/BoringSSL/ssl/tls_method.cc:84-95 | the read keys change only when every message that arrived has been read |
| Handshake.Session.Restart | VoteOnOffice/Pods/BoringSSL/ssl/handshake_client.cc:520-525 | HelloVerifyRequest and all before it are dropped |
| Handshake.Session.SendProof | VoteOnOffice/Pods/BoringSSL/ssl/handshake_client.cc:1401-1451 | the signature is over the live buffer, which is the whole transcript |
| Handshake.Session.AcceptProof | VoteOnOffice/Pods/BoringSSL/ssl/handshake_server.cc:1312-1360 | the signature is checked with the certificate over the live buffer, which is the whole transcript before it; only then is the message hashed and released |
| Handshake.Session.SendFinished | VoteOnOffice/Pods/BoringSSL/ssl/handshake.cc:431-476 | the value sent is the MAC of the transcript before it |
| Handshake.Session.GetFinished | VoteOnOffice/Pods/BoringSSL/ssl/handshake.cc:380-429 | succeeds if and only if the message is the MAC of the transcript before it, which is taken before the message is hashed |
| Handshake.Logged | VoteOnOffice/Pods/BoringSSL/ssl/handshake.cc:215-222 | how one event changes the transcript, the messages heard and the checks the log must satisfy |
| Handshake.ReleaseAccounts | VoteOnOffice/Pods/BoringSSL/ssl/handshake.cc:215-222 | releasing the first waiting message keeps the books: messages received and waiting are those that arrived |
| Handshake.NoteAccounts | VoteOnOffice/Pods/BoringSSL/ssl/handshake.cc:215-222 | any other event keeps the books, if its check came out well over exactly what was spoken |
| Handshake.SpokenSince | VoteOnOffice/Pods/BoringSSL/ssl/ssl_transcript.cc:181-252 | the transcript that checks must cover is every message sent or received, in order, or every one behind the last HelloVerifyRequest |
| HandshakeClient.Client.DoStartConnect | VoteOnOffice/Pods/BoringSSL/ssl/handshake_client.cc:385-452 | keeps the invariant on log, transcript, queue and buffer; staying leaves the log alone, moving on lowers the rank; with nothing wrong on its own side it fails exactly if the peer gave cause |
| HandshakeClient.Client.DoEnterEarlyData | VoteOnOffice/Pods/BoringSSL/ssl/handshake_client.cc:454-465 | keeps the invariant on log, transcript, queue and buffer; staying leaves the log alone, moving on lowers the rank; with nothing wrong on its own side it fails exactly if the peer gave cause |
| HandshakeClient.Client.DoReadHelloVerifyRequest | VoteOnOffice/Pods/BoringSSL/ssl/handshake_client.cc:491-533 | keeps the invariant on log, transcript, queue and buffer; staying leaves the log alone, moving on lowers the rank; with nothing wrong on its own side it fails exactly if the peer gave cause |
| HandshakeClient.Client.DoReadHello | VoteOnOffice/Pods/BoringSSL/ssl/handshake_client.cc:535-759 | what follows is what this very message settles; keeps the invariant on log, transcript, queue and buffer; staying leaves the log alone, moving on lowers the rank; with nothing wrong on its own side it fails exactly if the peer gave cause |
| HandshakeClient.Client.DoReadCertificate | VoteOnOffice/Pods/BoringSSL/ssl/handshake_client.cc:771-819 | an empty chain is refused where one is needed; keeps the invariant on log, transcript, queue and buffer; staying leaves the log alone, moving on lowers the rank; with nothing wrong on its own side it fails exactly if the peer gave cause |
| HandshakeClient.Client.DoReadCertificateStatus | VoteOnOffice/Pods/BoringSSL/ssl/handshake_client.cc:821-869 | keeps the invariant on log, transcript, queue and buffer; staying leaves the log alone, moving on lowers the rank; with nothing wrong on its own side it fails exactly if the peer gave cause |
| HandshakeClient.Client.DoVerifyCertificate | VoteOnOffice/Pods/BoringSSL/ssl/handshake_client.cc:871-889 | goes on only with the certificate message received and its verdict logged; keeps the invariant on log, transcript, queue and buffer; staying leaves the log alone, moving on lowers the rank; with nothing wrong on its own side it fails exactly if the peer gave cause |
| HandshakeClient.Client.DoReadKeyExchange | VoteOnOffice/Pods/BoringSSL/ssl/handshake_client.cc:891-1071 | keeps the invariant on log, transcript, queue and buffer; staying leaves the log alone, moving on lowers the rank; with nothing wrong on its own side it fails exactly if the peer gave cause |
| HandshakeClient.Client.DoReadCertificateRequest | VoteOnOffice/Pods/BoringSSL/ssl/handshake_client.cc:1073-1143 | keeps the invariant on log, transcript, queue and buffer; staying leaves the log alone, moving on lowers the rank; with nothing wrong on its own side it fails exactly if the peer gave cause |
| HandshakeClient.Client.DoReadHelloDone | VoteOnOffice/Pods/BoringSSL/ssl/handshake_client.cc:1145-1167 | keeps the invariant on log, transcript, queue and buffer; staying leaves the log alone, moving on lowers the rank; with nothing wrong on its own side it fails exactly if the peer gave cause |
| HandshakeClient.Client.DoSendCertificate | VoteOnOffice/Pods/BoringSSL/ssl/handshake_client.cc:1169-1215 | keeps the invariant on log, transcript, queue and buffer; staying leaves the log alone, moving on lowers the rank; with nothing wrong on its own side it fails exactly if the peer gave cause |
| HandshakeClient.Client.DoSendKeyExchange | VoteOnOffice/Pods/BoringSSL/ssl/handshake_client.cc:1220-1371 | keeps the invariant on log, transcript, queue and buffer; staying leaves the log alone, moving on lowers the rank; with nothing wrong on its own side it fails exactly if the peer gave cause |
| HandshakeClient.Client.DoSendProof | VoteOnOffice/Pods/BoringSSL/ssl/handshake_client.cc:1373-1455 | keeps the invariant on log, transcript, queue and buffer; staying leaves the log alone, moving on lowers the rank; with nothing wrong on its own side it fails exactly if the peer gave cause |
| HandshakeClient.Client.DoSendFinished | VoteOnOffice/Pods/BoringSSL/ssl/handshake_client.cc:1457-1512 | keeps the invariant on log, transcript, queue and buffer; staying leaves the log alone, moving on lowers the rank; with nothing wrong on its own side it fails exactly if the peer gave cause |
| HandshakeClient.Client.DoFinishFlight | VoteOnOffice/Pods/BoringSSL/ssl/handshake_client.cc:1514-1564 | returns early exactly as can_false_start allows; keeps the invariant on log, transcript, queue and buffer; staying leaves the log alone, moving on lowers the rank; with nothing wrong on its own side it fails exactly if the peer gave cause |
| HandshakeClient.Client.DoReadSessionTicket | VoteOnOffice/Pods/BoringSSL/ssl/handshake_client.cc:1566-1647 | keeps the invariant on log, transcript, queue and buffer; staying leaves the log alone, moving on lowers the rank; with nothing wrong on its own side it fails exactly if the peer gave cause |
| HandshakeClient.Client.DoProcessCcs | VoteOnOffice/Pods/BoringSSL/ssl/handshake_client.cc:1649-1656 | fails if a message is still waiting; keeps the invariant on log, transcript, queue and buffer; staying leaves the log alone, moving on lowers the rank; with nothing wrong on its own side it fails exactly if the peer gave cause |
| HandshakeClient.Client.DoReadFinished | VoteOnOffice/Pods/BoringSSL/ssl/handshake_client.cc:1658-1672 | accepts exactly the MAC of the transcript; keeps the invariant on log, transcript, queue and buffer; staying leaves the log alone, moving on lowers the rank; with nothing wrong on its own side it fails exactly if the peer gave cause |
| HandshakeClient.Client.DoFinishHandshake | VoteOnOffice/Pods/BoringSSL/ssl/handshake_client.cc:1674-1705 | keeps the invariant on log, transcript, queue and buffer; staying leaves the log alone, moving on lowers the rank; with nothing wrong on its own side it fails exactly if the peer gave cause |
| HandshakeClient.Client.RunMachine | VoteOnOffice/Pods/BoringSSL/ssl/handshake_client.cc:1707-1789 | the loop ends, and no state is entered again after being left; with nothing wrong on its own side it fails only with cause and pauses only with progress or for want of a message |
| HandshakeClient.Client.OpenCcs | VoteOnOffice/Pods/BoringSSL/ssl/handshake.cc:508-546 | the peer's ChangeCipherSpec is part of the course before the keys change |
| HandshakeClient.Client.DoneConforms | VoteOnOffice/Pods/BoringSSL/ssl/handshake_client.cc:1674-1705 | a machine that is done has been through a whole handshake |
| HandshakeClient.Resume | VoteOnOffice/Pods/BoringSSL/ssl/handshake.cc:491-625 | re-entry after any pause queues what arrived, keeps the invariant and never goes back |
| HandshakeClient.Connect | VoteOnOffice/Pods/BoringSSL/ssl/handshake_client.cc:1707-1789 | any run with any pauses: the messages received and waiting are exactly those that arrived; every Finished, certificate and signature check in the log came out well and covered exactly what was spoken before it; the transcript is exact; a completed run has followed the message flow that its hello settles, which ClientFlow tells by the fields of the hello; and with nothing wrong on its own side it fails only with cause and waits for nothing but the network |
| HandshakeClient.ConformingCertifies | VoteOnOffice/Pods/BoringSSL/ssl/handshake_client.cc:871-1071 | the places of the server certificate, of its verdict, of the cipher change and, for ECDHE, of the signed key exchange in a completed full handshake; ClientFlow.CertifiedAuthenticates says it by the fields of the cipher |
| HandshakeClient.ConformingFinishes | VoteOnOffice/Pods/BoringSSL/ssl/handshake_client.cc:1457-1672 | a completed run has, in this order: its hello, the cipher change, the new read keys, and the server Finished, checked and received; and its own Finished before or after as resumption asks |
| HandshakeClient.EveryCertificateJudged | VoteOnOffice/Pods/BoringSSL/ssl/handshake_client.cc:771-889 | whatever certificate a completed run received, that message was accepted afterwards |
| HandshakeClient.ConformingHasHello | VoteOnOffice/Pods/BoringSSL/ssl/handshake_client.cc:535-759 | every completed run has a ServerHello that settles a cipher below TLS 1.3 |
| HandshakeClient.OnlyPlace | VoteOnOffice/Pods/BoringSSL/ssl/handshake_client.cc:535-819 | a ServerHello and a server certificate come at one place of the flow only |
| ClientFlow.CertifiedAuthenticates | VoteOnOffice/Pods/BoringSSL/ssl/handshake_client.cc:771-1071 | a completed full handshake whose cipher has RSA (0) or ECDSA (1) authentication: a Certificate with a chain came after the hello and was trusted, or no verification is asked for; and with ECDHE (1) a ServerKeyExchange came with a signature that is good for that certificate over our ClientHello and this ServerHello; all before the cipher change |
| ClientFlow.ReceivedFlow | VoteOnOffice/Pods/BoringSSL/ssl/handshake_client.cc:535-1672 | by the fields of the ServerHello: no message was received that it does not allow, and every one that it demands; a server Certificate exactly for RSA and ECDSA ciphers of a full handshake, a ServerKeyExchange always for ECDHE and otherwise only for PSK |
| ClientFlow.SentFlow | VoteOnOffice/Pods/BoringSSL/ssl/handshake_client.cc:1169-1512 | by the fields of the ServerHello: our Certificate exactly on request, our CertificateVerify exactly behind a certificate with a chain, and all other messages exactly as the hello says |
| ClientFlow.InFlow | VoteOnOffice/Pods/BoringSSL/ssl/handshake_client.cc:1707-1789 | from the ServerHello on, messages come in the order of section 7.3 of RFC 5246, each at most once |
| ClientFlow.Completed | VoteOnOffice/Pods/BoringSSL/ssl/handshake_client.cc:1674-1705 | every completed run: a ServerHello with a cipher below TLS 1.3, the server Finished with the MAC over all that was spoken before it, and the server authenticated if its cipher is one with a certificate |
| ClientFlow.RefusedIsUnlawful | VoteOnOffice/Pods/BoringSSL/ssl/handshake_client.cc:535-1672 | where the client refuses, no lawful part with sound checks begins with the waiting message, and the part cannot be left out in its favour |
| HandshakeClient.Client.Take | VoteOnOffice/Pods/BoringSSL/ssl/handshake.cc:215-222 | a message is hashed, then refused or released, and becomes the next part of the flow |
| HandshakeServer.Server.DoStartAccept | VoteOnOffice/Pods/BoringSSL/ssl/handshake_server.cc:426-430 | keeps the invariant on log, transcript, queue and buffer; staying leaves the log alone, moving on lowers the rank; with nothing wrong on its own side it fails exactly if the peer gave cause |
| HandshakeServer.Server.DoReadClientHello | VoteOnOffice/Pods/BoringSSL/ssl/handshake_server.cc:432-510 | keeps the invariant on log, transcript, queue and buffer; staying leaves the log alone, moving on lowers the rank; with nothing wrong on its own side it fails exactly if the peer gave cause |
| HandshakeServer.Server.DoSelectCertificate | VoteOnOffice/Pods/BoringSSL/ssl/handshake_server.cc:512-560 | goes on only if this hello settles a cipher; keeps the invariant on log, transcript, queue and buffer; staying leaves the log alone, moving on lowers the rank; with nothing wrong on its own side it fails exactly if the peer gave cause |
| HandshakeServer.Server.DoSelectParameters | VoteOnOffice/Pods/BoringSSL/ssl/handshake_server.cc:572-684 | resumption and the certificate request are those this hello settles; keeps the invariant on log, transcript, queue and buffer; staying leaves the log alone, moving on lowers the rank; with nothing wrong on its own side it fails exactly if the peer gave cause |
| HandshakeServer.Server.DoSendHello | VoteOnOffice/Pods/BoringSSL/ssl/handshake_server.cc:686-752 | keeps the invariant on log, transcript, queue and buffer; staying leaves the log alone, moving on lowers the rank; with nothing wrong on its own side it fails exactly if the peer gave cause |
| HandshakeServer.Server.DoSendCertificate | VoteOnOffice/Pods/BoringSSL/ssl/handshake_server.cc:754-840 | keeps the invariant on log, transcript, queue and buffer; staying leaves the log alone, moving on lowers the rank; with nothing wrong on its own side it fails exactly if the peer gave cause |
| HandshakeServer.Server.DoSendKeyExchange | VoteOnOffice/Pods/BoringSSL/ssl/handshake_server.cc:842-912 | keeps the invariant on log, transcript, queue and buffer; staying leaves the log alone, moving on lowers the rank; with nothing wrong on its own side it fails exactly if the peer gave cause |
| HandshakeServer.Server.DoSendHelloDone | VoteOnOffice/Pods/BoringSSL/ssl/handshake_server.cc:914-947 | keeps the invariant on log, transcript, queue and buffer; staying leaves the log alone, moving on lowers the rank; with nothing wrong on its own side it fails exactly if the peer gave cause |
| HandshakeServer.Server.DoReadCertificate | VoteOnOffice/Pods/BoringSSL/ssl/handshake_server.cc:949-1040 | an empty chain is refused where one is needed; keeps the invariant on log, transcript, queue and buffer; staying leaves the log alone, moving on lowers the rank; with nothing wrong on its own side it fails exactly if the peer gave cause |
| HandshakeServer.Server.DoVerifyCertificate | VoteOnOffice/Pods/BoringSSL/ssl/handshake_server.cc:1042-1056 | goes on only with the certificate message received and its verdict logged; keeps the invariant on log, transcript, queue and buffer; staying leaves the log alone, moving on lowers the rank; with nothing wrong on its own side it fails exactly if the peer gave cause |
| HandshakeServer.Server.DoReadKeyExchange | VoteOnOffice/Pods/BoringSSL/ssl/handshake_server.cc:1058-1267 | keeps the invariant on log, transcript, queue and buffer; staying leaves the log alone, moving on lowers the rank; with nothing wrong on its own side it fails exactly if the peer gave cause |
| HandshakeServer.Server.DoReadProof | VoteOnOffice/Pods/BoringSSL/ssl/handshake_server.cc:1269-1363 | required if and only if the certificate received has a chain; keeps the invariant on log, transcript, queue and buffer; staying leaves the log alone, moving on lowers the rank; with nothing wrong on its own side it fails exactly if the peer gave cause |
| HandshakeServer.Server.DoReadCcs | VoteOnOffice/Pods/BoringSSL/ssl/handshake_server.cc:1365-1368 | keeps the invariant on log, transcript, queue and buffer; staying leaves the log alone, moving on lowers the rank; with nothing wrong on its own side it fails exactly if the peer gave cause |
| HandshakeServer.Server.DoProcessCcs | VoteOnOffice/Pods/BoringSSL/ssl/handshake_server.cc:1370-1377 | fails if a message is still waiting; keeps the invariant on log, transcript, queue and buffer; staying leaves the log alone, moving on lowers the rank; with nothing wrong on its own side it fails exactly if the peer gave cause |
| HandshakeServer.Server.DoReadNextProto | VoteOnOffice/Pods/BoringSSL/ssl/handshake_server.cc:1379-1413 | keeps the invariant on log, transcript, queue and buffer; staying leaves the log alone, moving on lowers the rank; with nothing wrong on its own side it fails exactly if the peer gave cause |
| HandshakeServer.Server.DoReadChannelId | VoteOnOffice/Pods/BoringSSL/ssl/handshake_server.cc:1415-1437 | keeps the invariant on log, transcript, queue and buffer; staying leaves the log alone, moving on lowers the rank; with nothing wrong on its own side it fails exactly if the peer gave cause |
| HandshakeServer.Server.DoReadFinished | VoteOnOffice/Pods/BoringSSL/ssl/handshake_server.cc:1439-1461 | accepts exactly the MAC of the transcript; keeps the invariant on log, transcript, queue and buffer; staying leaves the log alone, moving on lowers the rank; with nothing wrong on its own side it fails exactly if the peer gave cause |
| HandshakeServer.Server.DoSendFinished | VoteOnOffice/Pods/BoringSSL/ssl/handshake_server.cc:1463-1509 | keeps the invariant on log, transcript, queue and buffer; staying leaves the log alone, moving on lowers the rank; with nothing wrong on its own side it fails exactly if the peer gave cause |
| HandshakeServer.Server.DoFinishHandshake | VoteOnOffice/Pods/BoringSSL/ssl/handshake_server.cc:1511-1537 | keeps the invariant on log, transcript, queue and buffer; staying leaves the log alone, moving on lowers the rank; with nothing wrong on its own side it fails exactly if the peer gave cause |
| HandshakeServer.Server.RunMachine | VoteOnOffice/Pods/BoringSSL/ssl/handshake_server.cc:1539-1621 | the loop ends, and no state is entered again after being left; with nothing wrong on its own side it fails only with cause and pauses only with progress or for want of a message |
| HandshakeServer.Server.OpenCcs | VoteOnOffice/Pods/BoringSSL/ssl/handshake.cc:508-546 | the peer's ChangeCipherSpec is part of the course before the keys change |
| HandshakeServer.Server.DoneConforms | VoteOnOffice/Pods/BoringSSL/ssl/handshake_server.cc:1511-1537 | a machine that is done has been through a whole handshake |
| HandshakeServer.Resume | VoteOnOffice/Pods/BoringSSL/ssl/handshake.cc:491-625 | re-entry after any pause queues what arrived, keeps the invariant and never goes back |
| HandshakeServer.Accept | VoteOnOffice/Pods/BoringSSL/ssl/handshake_server.cc:1539-1621 | any run with any pauses: the messages received and waiting are exactly those that arrived; every Finished, certificate and CertificateVerify check in the log came out well and covered exactly what was spoken before it; the transcript is exact; a completed run has followed the message flow that its hello settles, which ServerFlow tells by the fields of the hello; and with nothing wrong on its own side it fails only with cause and waits for nothing but the network |
| HandshakeServer.EveryChainAuthenticated | VoteOnOffice/Pods/BoringSSL/ssl/handshake_server.cc:949-1363 | whatever certificate with a chain a completed run received, that message was accepted, and then proved by a CertificateVerify with its key before the cipher change |
| HandshakeServer.ConformingFinishes | VoteOnOffice/Pods/BoringSSL/ssl/handshake_server.cc:1365-1509 | a completed run has, in this order: its hello, the cipher change, the new read keys, and the client Finished, checked and received; and its own Finished before or after as resumption asks |
| HandshakeServer.ConformingHasChain | VoteOnOffice/Pods/BoringSSL/ssl/handshake_server.cc:1010-1027 | if a certificate is requested and required, a completed run received one with a chain |
| HandshakeServer.ConformingHasHello | VoteOnOffice/Pods/BoringSSL/ssl/handshake_server.cc:432-684 | every completed run has a ClientHello that settles a cipher below TLS 1.3 |
| HandshakeServer.OnlyPlace | VoteOnOffice/Pods/BoringSSL/ssl/handshake_server.cc:432-1040 | a ClientHello and a client certificate come at one place of the flow only |
| ServerFlow.ReceivedFlow | VoteOnOffice/Pods/BoringSSL/ssl/handshake_server.cc:949-1461 | by the fields of what the ClientHello settled: a client Certificate exactly if one was requested with an RSA or ECDSA cipher, a CertificateVerify exactly behind a certificate with a chain, a Channel ID exactly with ECDHE and, on resumption, a recorded handshake, and all other messages exactly as the hello says |
| ServerFlow.SentFlow | VoteOnOffice/Pods/BoringSSL/ssl/handshake_server.cc:754-947 | by the fields of what the ClientHello settled: our Certificate exactly for RSA (0) and ECDSA (1) authentication in a full handshake, our ServerKeyExchange always for ECDHE and otherwise only for PSK, and all other messages exactly as the hello says |
| ServerFlow.InFlow | VoteOnOffice/Pods/BoringSSL/ssl/handshake_server.cc:1539-1621 | messages come in the order of section 7.3 of RFC 5246, each at most once |
| ServerFlow.ChainAuthenticates | VoteOnOffice/Pods/BoringSSL/ssl/handshake_server.cc:949-1363 | every certificate with a chain was trusted, or no verification is asked for, and its key signed exactly what was spoken before the CertificateVerify, before the cipher change |
| ServerFlow.Completed | VoteOnOffice/Pods/BoringSSL/ssl/handshake_server.cc:1511-1537 | every completed run: a ClientHello that settles a cipher below TLS 1.3, the client Finished with the MAC over all that was spoken before it, and the client authenticated if that was asked for and is required |
| ServerFlow.RefusedIsUnlawful | VoteOnOffice/Pods/BoringSSL/ssl/handshake_server.cc:432-1461 | where the server refuses, no lawful part with sound checks begins with the waiting message, and the part cannot be left out |
| HandshakeServer.Server.Take | VoteOnOffice/Pods/BoringSSL/ssl/handshake.cc:215-222 | a message is hashed, then refused or released, and becomes the next part of the flow |

## Left out

- The Swift app, Firebase and Realm headers and generated tables: no logic to prove.
- TLS 1.3, early data, renegotiation, SSL 3.0 special cases and V2ClientHello: the machines stop where they would leave for the TLS 1.3 machine.
- Parsing and writing of handshake message bodies and extensions: what a hello settles is a function of the message, and each step takes the outcome of all further checks from its environment.
- Certificate verification, key exchange, signatures, MACs and record encryption: oracles; sealing is known by its length contract only.
- DTLS timers and MTU discovery: a retransmission may happen at any moment and at any MTU.
- Outgoing DTLS messages are kept as values and serialized when a record is made; the code keeps the serialized bytes.
- DtlsDelivery.Session: records that the record layer would reject are not modelled as arrivals; the network may repeat and reorder every record ever sent, which includes all that the replay window would let through.
- nanopb callbacks, extensions, pointer fields and error messages: user code or compiled out.
- PbRoundTrip.RoundTrip: has-less (proto3) fields are scalars, strings and bytes; a has-less submessage is left out because the zero test looks at the first element of its repeated fields only.
- PbRoundTrip.RoundTrip: what the wire format does not carry (absent optional values, bytes behind the terminator of a string) comes back as its canonical form.
- PbRoundTrip.ConcatenationMerges: for a second part that is no encoded message it is stated if that part is complete on its own; one that lacks required fields may still be accepted behind a first part that has them.
- PbDecoder.Decode: a submessage is updated as a value inside its parent, not through a pointer. After a failed decode, storage that was never written (a new array item, an arm just chosen, bytes beyond an old size) is shown with its default value where the code has whatever was in memory.
- PbStream.IStream.DecodeVarint64: the sum is kept exact in the loop and truncated once at the end, which is the same as truncating each shift.
- PbEncoder.EncodeMessage: wire forms of 2^64 bytes and more are excluded, where `size_t` would wrap.
- CipherOrder.BuiltInOrder: stated for algorithm numbers below 32, which are the bits of the masks in the code.
- CipherList.Cipher: each algorithm field of a cipher is one bit, as in the table of the code; masks are sets of bits.
- CipherChoice.Config: the masks of ssl_get_compatible_server_ciphers are given.
- TlsOutput.Writer.WriteAppData: early data limits and the info and message callbacks.
- TlsOutput.Run: nothing is said about the bytes on the wire once some call has asked for one of the six unsafe capacities, where the code's 16-bit offset can wrap; records are added to a flight only while it is not being written out, as the code asserts.
- Allocation failures, the error queue, and the contents of alerts sent by a failing handshake.
- HandshakeClient.Connect: whether we have a certificate is read off the certificate message sent; a callback that changes the configuration before CertificateVerify is not modelled.
- HandshakeClient.Connect: that the handshake gets to its end is stated as progress (no failure without cause, no pause but for the network, a rank that falls); a peer that sends the right messages in time is not constructed.
- HandshakeServer.Accept: handoff and pending tickets are pauses without further behaviour.
