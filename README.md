# rosserial wire protocol, Android host endpoint

A Dafny model of the wire-protocol core of `ROSSerial`, the host-side endpoint of a
rosserial link: the frame encoder `generatePacket`, the byte-at-a-time parsing state
machine `handleByte` with `resetPacket`, one pass of the read loop of `run()`, and the
debouncing send handler. A frame on the wire is

    FF FD lenLo lenHi lenChk topicLo topicHi payload... msgChk

Java's signed bytes are kept (`JavaInt.int8`), together with Java's sign-extending
`(hi << 8) | lo`, its truncating `%` and its `(byte)` casts, so the model computes
what the Java code computes for every input, including the awkward ones.

Modules:

- `JavaInt` (java_int.dfy): the Java byte and int operations the code uses.
- `Frame` (frame.dfy): `generatePacket` as a function, with its layout and checksum.
- `PacketParser` (packet_parser.dfy): the parser state as a value, `handleByte` as the
  function `Step`, a run of bytes as `FeedAll`, one pass of the read loop as
  `Dispatch`, and the properties of single steps and runs.
- `RoundTrip` (round_trip.dfy): what the parser makes of packets built by the
  encoder, alone, after noise, back to back, and inside a read buffer.
- `Endpoint` (endpoint.dfy): the class `RosSerial` with the Java fields and arrays,
  whose methods update them in place and are proved to do what `Step`, `Reset` and
  `Dispatch` say; `protocol.parsePacket` appends to the ghost log `delivered`.
- `SendGate` (send_gate.dfy): the anonymous `PacketHandler` as the class
  `PacketHandler`; the clock is a parameter and the output stream is the ghost log
  `written`.
- `Seqs` (seqs.dfy): small facts about sequences used by the proofs.

## Where the code departs from the documented protocol

The model follows the code. These are the places where the code and the documented
rosserial protocol part ways, each stated as a lemma about the code as written:

- The message checksum test is inverted. The receiver compares the byte with the
  raw sum of the topic and payload bytes and rejects only on equality, so every other
  byte is accepted (`PacketParser.MsgChecksumRule`). A packet from `generatePacket`
  carries `255 - sum`, which never equals the raw sum modulo 256, so it is never
  rejected (`Frame.GeneratedChecksumNeverRawSum`).
- The length is not checked against `MAX_MSG_DATA_SIZE` (2048). Only the length
  checksum is tested (`PacketParser.LengthChecksumRule`).
- A zero-length payload is never delivered: DATA increments `byte_index` before it
  compares with `data_len`. A length whose low byte is 0x80 or more, or which is
  0x8000 or more, makes `data_len` negative, and such a packet is never delivered
  either (`RoundTrip.DeliveredIff`, proved for payloads under 0x1_0000 bytes; a
  longer payload wraps the 16-bit length field and is read as a different, shorter
  packet). When a read pass finds a whole packet at the start of its 256-byte
  buffer, the packet arrives only if its payload has 1 to 127 bytes
  (`RoundTrip.DispatchInReadBuffer`); packets that start further into the buffer
  are not covered by that lemma.
- The topic id is rebuilt from sign-extended bytes: a low byte of 0x80 or more, or an
  id of 0x8000 or more, comes out negative (`RoundTrip.DecodedTopicValue`).
- The send gate needs the clock to be at least 2 ms past the last transmission, not
  1 ms (`SendGate.GateOpen`); for calls that do not overlap, transmissions are
  therefore at least 2 ms apart (`SendGate.StampsSpaced`).
- A stray 0xFF just before a packet makes FLAGB consume the packet's own 0xFF, and
  the packet is lost (`PacketParser.DoubledFlagLosesSync`).

## Model

| member | source | states |
|---|---|---|
| JavaInt.Unsigned | rosserial_android_module/src/main/java/com/cloudspace/rosserial_android/ROSSerial.java:166 | `0xff & b` is in 0..255, agrees with `b` modulo 256, and is `b` for non-negative bytes |
| JavaInt.ToByte | rosserial_android_module/src/main/java/com/cloudspace/rosserial_android/ROSSerial.java:159-160 | the `(byte)` cast keeps `x` modulo 256 and is the identity on -128..127 |
| JavaInt.JavaRem256 | rosserial_android_module/src/main/java/com/cloudspace/rosserial_android/ROSSerial.java:172-173 | Java's `x % 256` agrees with `x` modulo 256 and takes the sign of `x` |
| JavaInt.SumUnsigned | rosserial_android_module/src/main/java/com/cloudspace/rosserial_android/ROSSerial.java:165-167 | the running `+= 0xff & b` total lies between 0 and 255 per byte |
| JavaInt.SecondByte | rosserial_android_module/src/main/java/com/cloudspace/rosserial_android/ROSSerial.java:159 | `(x & 0xFF00) >> 8` is the second-lowest byte of `x`, in 0..255 |
| JavaInt.LowBytes | rosserial_android_module/src/main/java/com/cloudspace/rosserial_android/ROSSerial.java:169-170 | the `(byte)` casts of the low and second byte read back, unsigned, as those bytes |
| JavaInt.SignedUnsignedSum | rosserial_android_module/src/main/java/com/cloudspace/rosserial_android/ROSSerial.java:163-166 | adding the two topic bytes signed or unsigned gives totals equal modulo 256 |
| JavaInt.NegatedChecksum | rosserial_android_module/src/main/java/com/cloudspace/rosserial_android/ROSSerial.java:172-173 | `(byte)(255 - x % 256)` read unsigned is `255 - x mod 256` for every sign of `x` |
| JavaInt.ToByteEq | rosserial_android_module/src/main/java/com/cloudspace/rosserial_android/ROSSerial.java:301 | two `(byte)` casts are equal exactly when their arguments agree modulo 256 |
| JavaInt.ToByteMatches | rosserial_android_module/src/main/java/com/cloudspace/rosserial_android/ROSSerial.java:333 | a byte equals `(byte) x` exactly when its unsigned value is `x mod 256` |
| JavaInt.ShlOr | rosserial_android_module/src/main/java/com/cloudspace/rosserial_android/ROSSerial.java:299 | `(hi << 8) \| lo` on sign-extended bytes, defined by its two cases (non-negative `lo`: `hi * 256 + lo`; negative `lo`: `lo`); the result lies in -0x8000..0x7FFF and is negative exactly when either byte is; `ShlOrLowByte` and `ShlOrOfSplit` are the further facts proved about it |
| JavaInt.ShlOrLowByte | rosserial_android_module/src/main/java/com/cloudspace/rosserial_android/ROSSerial.java:299 | `(hi << 8) \| lo` keeps the unsigned low byte in its low 8 bits |
| JavaInt.ShlOrOfSplit | rosserial_android_module/src/main/java/com/cloudspace/rosserial_android/ROSSerial.java:299 | splitting a 16-bit value into bytes and recombining gives it back only when neither byte has its top bit set; otherwise the result is negative, with the exact value given |
| Frame.GeneratePacket | rosserial_android_module/src/main/java/com/cloudspace/rosserial_android/ROSSerial.java:157-184 | length is payload + 8; bytes are FF FD, length low and high byte, `255 - length mod 256`, topic low and high byte, then the payload unchanged |
| Frame.GeneratePacketChecksum | rosserial_android_module/src/main/java/com/cloudspace/rosserial_android/ROSSerial.java:161-180 | the last byte is `255 - (unsigned topic bytes + payload bytes) mod 256` although the topic bytes are summed signed |
| Frame.GeneratedChecksumNeverRawSum | rosserial_android_module/src/main/java/com/cloudspace/rosserial_android/ROSSerial.java:326-337 | the encoder's last byte never equals the raw sum, the one value the receiver rejects |
| PacketParser.Reset | rosserial_android_module/src/main/java/com/cloudspace/rosserial_android/ROSSerial.java:259-266 | `resetPacket` leaves FLAGA, both counters 0, zeroed scratch arrays, `data` untouched |
| PacketParser.MessageSum | rosserial_android_module/src/main/java/com/cloudspace/rosserial_android/ROSSerial.java:326-331 | the MSG_CHECKSUM sum over both topic bytes and `data_len` payload bytes is non-negative |
| PacketParser.Step | rosserial_android_module/src/main/java/com/cloudspace/rosserial_android/ROSSerial.java:273-348 | `handleByte` keeps the invariant; a throw changes nothing; `false` only from FLAGB or MSG_CHECKSUM and always after a reset; a delivery only from MSG_CHECKSUM, with the decoded topic and `data`, followed by a reset; only DATA writes `data`, at `byte_index` |
| PacketParser.FeedAll | rosserial_android_module/src/main/java/com/cloudspace/rosserial_android/ROSSerial.java:231-233 | a run of `handleByte` calls keeps the invariant, throws only in DATA, delivers at most one message per byte |
| PacketParser.FedCount | rosserial_android_module/src/main/java/com/cloudspace/rosserial_android/ROSSerial.java:231 | the loop feeds `data.length + 8` bytes or stops at the buffer end |
| PacketParser.Dispatch | rosserial_android_module/src/main/java/com/cloudspace/rosserial_android/ROSSerial.java:227-236 | one read-loop pass keeps the invariant and, unless more than 8 bytes arrived in FLAGA, only resets |
| PacketParser.SyncBytes | rosserial_android_module/src/main/java/com/cloudspace/rosserial_android/ROSSerial.java:276-288 | FLAGA moves on only for 0xFF; FLAGB moves on exactly for 0xFD and otherwise resets and returns false |
| PacketParser.TwoByteFields | rosserial_android_module/src/main/java/com/cloudspace/rosserial_android/ROSSerial.java:289-317 | MESSAGE_LENGTH and TOPIC_ID write only their scratch array at `byte_index`, move `byte_index` from 0 to 1 and from 1 back to 0, and advance the state exactly on the second byte |
| PacketParser.LengthChecksumRule | rosserial_android_module/src/main/java/com/cloudspace/rosserial_android/ROSSerial.java:298-309 | LENGTH_CHECKSUM moves to TOPIC_ID exactly when the byte is `255 -` the low length byte, storing the sign-extended `data_len`; otherwise it resets; it always returns true |
| PacketParser.MsgChecksumRule | rosserial_android_module/src/main/java/com/cloudspace/rosserial_android/ROSSerial.java:325-345 | MSG_CHECKSUM delivers exactly when the byte differs from the raw sum modulo 256, always ends reset, and returns false when it delivers nothing |
| PacketParser.FeedAllAppend | rosserial_android_module/src/main/java/com/cloudspace/rosserial_android/ROSSerial.java:231-233 | feeding `a + b` is feeding `a` and then `b`, unless `a` threw |
| PacketParser.FeedExtend | rosserial_android_module/src/main/java/com/cloudspace/rosserial_android/ROSSerial.java:231-233 | feeding one byte more continues the shorter run |
| PacketParser.FeedSingle | rosserial_android_module/src/main/java/com/cloudspace/rosserial_android/ROSSerial.java:232 | feeding one byte is one `handleByte` call |
| PacketParser.ThrownRunEnds | rosserial_android_module/src/main/java/com/cloudspace/rosserial_android/ROSSerial.java:231-233 | bytes after a throw are never fed |
| PacketParser.NoiseIsSkipped | rosserial_android_module/src/main/java/com/cloudspace/rosserial_android/ROSSerial.java:276-280 | bytes other than 0xFF leave FLAGA unchanged |
| PacketParser.DoubledFlagLosesSync | rosserial_android_module/src/main/java/com/cloudspace/rosserial_android/ROSSerial.java:276-288 | `FF FF FD` from FLAGA ends reset in FLAGA, so a packet right after a stray 0xFF loses its sync bytes |
| PacketParser.StalledDeliversNothing | rosserial_android_module/src/main/java/com/cloudspace/rosserial_android/ROSSerial.java:318-324 | in DATA with `data_len` already passed or beyond `data`, nothing is ever delivered |
| RoundTrip.DecodedTopicValue | rosserial_android_module/src/main/java/com/cloudspace/rosserial_android/ROSSerial.java:342 | the topic the receiver reports for a sent id: the id itself below 0x8000 with low byte below 0x80, otherwise the negative value given |
| RoundTrip.FeedOne | rosserial_android_module/src/main/java/com/cloudspace/rosserial_android/ROSSerial.java:232 | a byte that neither throws nor delivers just moves the run on |
| RoundTrip.HeaderPhase | rosserial_android_module/src/main/java/com/cloudspace/rosserial_android/ROSSerial.java:276-317 | the seven header bytes take FLAGA to DATA with both fields stored and `data_len` computed |
| RoundTrip.SyncAndLength | rosserial_android_module/src/main/java/com/cloudspace/rosserial_android/ROSSerial.java:276-296 | `FF FD lenLo lenHi` take FLAGA to LENGTH_CHECKSUM with the length bytes stored |
| RoundTrip.TopicAfterLength | rosserial_android_module/src/main/java/com/cloudspace/rosserial_android/ROSSerial.java:298-317 | a matching length checksum and two topic bytes take LENGTH_CHECKSUM to DATA with `data_len` computed and the topic stored |
| RoundTrip.DataPhase | rosserial_android_module/src/main/java/com/cloudspace/rosserial_android/ROSSerial.java:318-324 | the payload bytes are stored from `byte_index` on and the last one moves to MSG_CHECKSUM |
| RoundTrip.ChecksumPhase | rosserial_android_module/src/main/java/com/cloudspace/rosserial_android/ROSSerial.java:325-345 | an encoder's checksum byte delivers the stored message and resets |
| RoundTrip.RoundTrip | rosserial_android_module/src/main/java/com/cloudspace/rosserial_android/ROSSerial.java:273-348 | a packet from `generatePacket` whose length reads back as itself and fits `data` is delivered once, with the decoded topic and the payload in front of `data`, ending reset |
| RoundTrip.LengthBytes | rosserial_android_module/src/main/java/com/cloudspace/rosserial_android/ROSSerial.java:169-170 | the length bytes of a packet are the `(byte)` casts of the length's two low bytes |
| RoundTrip.SplitTopic | rosserial_android_module/src/main/java/com/cloudspace/rosserial_android/ROSSerial.java:342 | recombining a packet's topic bytes gives the decoded topic |
| RoundTrip.DeliveredIff | rosserial_android_module/src/main/java/com/cloudspace/rosserial_android/ROSSerial.java:298-324 | an encoder's packet with fewer than 0x1_0000 payload bytes, fed from FLAGA, is delivered exactly when its length is 1..0x7FFF with low byte below 0x80 and fits `data` |
| RoundTrip.DispatchDeliversIff | rosserial_android_module/src/main/java/com/cloudspace/rosserial_android/ROSSerial.java:227-236 | a read buffer starting with an encoder's packet of fewer than 0x1_0000 payload bytes, read in FLAGA with more than 8 bytes, delivers it exactly when its length reads back as itself and is at least 1, then ends reset with `data` equal to the payload and no exception |
| RoundTrip.DispatchInReadBuffer | rosserial_android_module/src/main/java/com/cloudspace/rosserial_android/ROSSerial.java:228-233 | with the 256-byte buffer, a whole packet at the start of the buffer is delivered exactly when its payload has 1..127 bytes |
| RoundTrip.ResyncAfterNoise | rosserial_android_module/src/main/java/com/cloudspace/rosserial_android/ROSSerial.java:276-280 | non-0xFF bytes before any encoder's packet leave the feeding of that packet exactly as without them |
| RoundTrip.TwoPackets | rosserial_android_module/src/main/java/com/cloudspace/rosserial_android/ROSSerial.java:343-344 | two packets back to back are both delivered in order, the second seeing `data` as the first left it |
| RoundTrip.ExampleFrame | rosserial_android_module/src/main/java/com/cloudspace/rosserial_android/ROSSerial.java:157-184 | payload 01 02 03 on topic 5 is framed as FF FD 03 00 FC 05 00 01 02 03 F4 |
| RoundTrip.ExampleDelivery | rosserial_android_module/src/main/java/com/cloudspace/rosserial_android/ROSSerial.java:273-348 | that frame is delivered as topic 5 with payload 01 02 03 |
| Endpoint.RosSerial.constructor | rosserial_android_module/src/main/java/com/cloudspace/rosserial_android/ROSSerial.java:127-132 | the fields start reset, with an empty `data`, a zeroed 256-byte buffer and nothing delivered |
| Endpoint.RosSerial.ResetPacket | rosserial_android_module/src/main/java/com/cloudspace/rosserial_android/ROSSerial.java:259-266 | the fields become `Reset` of the old ones, with fresh scratch arrays and `data` kept |
| Endpoint.RosSerial.HandleByte | rosserial_android_module/src/main/java/com/cloudspace/rosserial_android/ROSSerial.java:273-348 | the fields, the result and the delivery log follow `Step` exactly |
| Endpoint.RosSerial.SyncByte | rosserial_android_module/src/main/java/com/cloudspace/rosserial_android/ROSSerial.java:276-288 | cases FLAGA and FLAGB follow `Step` |
| Endpoint.RosSerial.LengthByte | rosserial_android_module/src/main/java/com/cloudspace/rosserial_android/ROSSerial.java:289-296 | case MESSAGE_LENGTH follows `Step` |
| Endpoint.RosSerial.LengthChecksumByte | rosserial_android_module/src/main/java/com/cloudspace/rosserial_android/ROSSerial.java:298-309 | case LENGTH_CHECKSUM follows `Step` |
| Endpoint.RosSerial.TopicByte | rosserial_android_module/src/main/java/com/cloudspace/rosserial_android/ROSSerial.java:310-317 | case TOPIC_ID follows `Step` |
| Endpoint.RosSerial.DataByte | rosserial_android_module/src/main/java/com/cloudspace/rosserial_android/ROSSerial.java:318-324 | case DATA follows `Step`, throwing with nothing changed past the array end |
| Endpoint.RosSerial.MsgChecksumByte | rosserial_android_module/src/main/java/com/cloudspace/rosserial_android/ROSSerial.java:325-345 | the two summing loops compute `MessageSum` and the case follows `Step` |
| Endpoint.RosSerial.ReadPass | rosserial_android_module/src/main/java/com/cloudspace/rosserial_android/ROSSerial.java:227-236 | the buffer holds the chunk in front, and the fields, the exception flag and the delivery log follow `Dispatch` |
| Endpoint.RosSerial.FeedBuffer | rosserial_android_module/src/main/java/com/cloudspace/rosserial_android/ROSSerial.java:230-233 | the feeding loop leaves the fields and the log as `FeedAll` of the first `data.length + 8` buffer bytes, raising when that throws or runs past the buffer |
| SendGate.PacketHandler.constructor | rosserial_android_module/src/main/java/com/cloudspace/rosserial_android/ROSSerial.java:138 | no packet has been sent yet (`-1`) and nothing is written |
| SendGate.PacketHandler.Send | rosserial_android_module/src/main/java/com/cloudspace/rosserial_android/ROSSerial.java:141-154 | when the gate is open the stamp is stored and the encoder's packet written; otherwise nothing changes |
| SendGate.GateOpen | rosserial_android_module/src/main/java/com/cloudspace/rosserial_android/ROSSerial.java:142 | the test `last == -1 \|\| now - 1 > last`: always open before the first transmission, afterwards open exactly when the clock is at least 2 ms past the last stamp |
| SendGate.Stamps | rosserial_android_module/src/main/java/com/cloudspace/rosserial_android/ROSSerial.java:142-143 | a series of calls transmits at most once per call |
| SendGate.StampsSpaced | rosserial_android_module/src/main/java/com/cloudspace/rosserial_android/ROSSerial.java:142-143 | with a clock that never goes back, transmissions are at least 2 ms apart and at least 2 ms after an earlier one |

## Left out

- Reading the input stream: `istream.read(buffer)` is the `chunk` argument of `ReadPass` (at most 256 bytes). End of stream (`-1`) behaves like a short read and is not modelled separately. An `IOException` ends `run()`, which is not modelled.
- The `run()` loop itself: `protocol.start()`, the `running` flag, `shutdown()`, `Thread.sleep(10)` and the lock. These are threading and timing, so the model covers one pass of the loop body.
- `packet_timeout_timer` is declared but never used.
- `Protocol`, its topic accessors and listeners are not part of this model. `parsePacket` is the ghost log `delivered`, and it is assumed never to throw. If it threw, the `resetPacket()` after it would be skipped and the parser would stay in MSG_CHECKSUM until the next read pass resets it; `Step` always resets after a delivery.
- `Log.d` and `BinaryUtils` calls, which are diagnostic output only.
- SendGate.PacketHandler.Send: calls are modelled one at a time, each atomic. In Java, `lastPacketTransmittedAt` is read and written without synchronisation, and `send` can be called from any thread, so two overlapping calls can both pass the test and both write. The 2 ms spacing of `StampsSpaced` holds only for calls that do not overlap.
- JavaInt.ShlOr: defined by the two cases of sign extension, not proved equal to Java's 32-bit shift and OR.
- `ostream.write` is the ghost log `written`. A write exception is caught and ignored, so a packet whose write failed is still logged.
- `System.currentTimeMillis()` is the two parameters of `Send`, because it is read twice.
- Endpoint.RosSerial.constructor: the streams and the node are not modelled. Before `run()`, `packet_state` and `data` are `null`. The constructor stands for the field initialisers plus the `resetPacket()` that `run()` starts with, and `data` starts as an empty array. `run()` assigns `data` before any byte reaches DATA, so this cannot be observed.
- Endpoint.RosSerial.HandleByte: each case of the `switch` is its own method, so each case is verified separately.
- `delivered` records a copy of `data` at the call. Java passes the array itself, and later packets of the same read pass overwrite it in place. A consumer that keeps the reference would see those writes.
- Frame.GeneratePacket: `dataValues` is an unbounded integer. The Java `int` could overflow only for payloads of about 8 million bytes, and because 2^32 is a multiple of 256 the checksum byte would be the same.
