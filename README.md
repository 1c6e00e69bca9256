# MQTT-to-Modbus bridge: device-side protocol handling

A Dafny model of the protocol logic of the NB-IoT demo client in
`src/main/java/com/maxlong/iot/Main.java`. The client listens for two MQTT topics of one NB-IoT
converter. A heartbeat on the status topic makes it publish a fixed Modbus RTU
"Read Holding Registers" request on the tx topic. A reply on the rx topic is checked and decoded
into two temperature and humidity registers.

Modules, one per concern of `Main.java`:

- `Bytes`: unsigned bytes and the signed big-endian int16 that `readShort` builds.
- `Crc16`: the Modbus CRC16 of section 6.2.2 of the MODBUS over Serial Line Specification V1.02.
  The source has no CRC code; the CRC is defined only to check the hard-coded trailer.
- `Request`: the 8-byte request literal of `sendModbusReq`.
- `Reply`: `recvModbusReply` as a cursor method (`RecvModbusReply`), proved equal to a
  declarative decoder (`DecodeReply`), with a device-side encoder as its inverse.
- `Hex`: the `toString` hex dump as a loop method, specified by a recursive function with a parser
  that inverts it.
- `Topics`: the status, tx and rx topic names built from the IMEI.
- `Bridge`: `onMessage` as a pure function from one message to the events it causes: a publish,
  an offline warning, an unknown-status error, a reading report, or a caught exception.

Bytes are modelled by their unsigned value 0..255. Java's `byte` is signed, but every use here is
unsigned: `read()` returns 0..255, `readShort` combines two such values, and `%02X` applied to a
`Byte` adds 256 to a negative value. Readings stay raw int16 registers, in hundredths of a unit.

Facts about `Main.java` that shape the model:

- The decoder compares bytes 0-2 with the fixed values 1, 3 and 4 (Main.java:151-164).
- A reply too short for its header is turned away silently, because the missing byte reads as -1
  and fails its comparison (Main.java:151-164). Only `readShort` running out of bytes throws
  (`EndOfStream`), and `onMessage` catches that exception (Main.java:120-122).
- The received CRC is never checked (`Reply.TrailerIgnored`).
- The class keeps no in-flight state and has no timeout or retry.
- `01 03 04 09 C4 13 3E` decodes to 2500 and 4926, that is 25.00 and 49.26.

## Model

| member | source | states |
|---|---|---|
| `Topics.Status` | src/main/java/com/maxlong/iot/Main.java:41-42 | the status topic is `/maxlong/broker/imei/`, then the IMEI, then `/status` |
| `Topics.Tx` | src/main/java/com/maxlong/iot/Main.java:44-45 | the tx topic is `/maxlong/broker/imei/`, then the IMEI, then `/tx` |
| `Topics.Rx` | src/main/java/com/maxlong/iot/Main.java:47-48 | the rx topic is `/maxlong/broker/imei/`, then the IMEI, then `/rx` |
| `Topics.ConfiguredTopics` | src/main/java/com/maxlong/iot/Main.java:32-48 | for the configured IMEI `866425030013488` the three topics are spelled out, and status differs from rx |
| `Topics.SharePrefix` | src/main/java/com/maxlong/iot/Main.java:42-48 | all three topics start with `/maxlong/broker/imei/`, then the IMEI, then `/` |
| `Topics.Disjoint` | src/main/java/com/maxlong/iot/Main.java:42-48 | for any two IMEIs, a status topic is never a tx or rx topic, and a tx topic is never an rx topic |
| `Topics.Injective` | src/main/java/com/maxlong/iot/Main.java:42-48 | each topic name determines the IMEI it was formed from |
| `Request.Frame` | src/main/java/com/maxlong/iot/Main.java:127-133 | the request literal is exactly 8 bytes |
| `Request.HeaderCrc` | src/main/java/com/maxlong/iot/Main.java:127-132 | the Modbus CRC16 of `01 03 00 00 00 02` is 0x0BC4 |
| `Request.FrameIsReadHoldingRegisters` | src/main/java/com/maxlong/iot/Main.java:127-133 | the trailer `C4 0B` is that CRC low byte first (CRC mod 256 = 0xC4, CRC / 256 = 0x0B); the frame is the standard RTU layout of slave 1, function 3, start 0 and quantity 2 big-endian, then its CRC |
| `Request.FramePassesCrcCheck` | src/main/java/com/maxlong/iot/Main.java:127-133 | a receiver's CRC over all 8 bytes is zero, so the device accepts the frame |
| `Crc16.Crc` | src/main/java/com/maxlong/iot/Main.java:132 | the Modbus CRC16 that the trailer is checked against: it starts at 0xFFFF, and each further byte extends it by one register update |
| `Crc16.Shift` | src/main/java/com/maxlong/iot/Main.java:132 | one register shift carries the polynomial's top bit exactly when the bit shifted out was 1 |
| `Crc16.Trailer` | src/main/java/com/maxlong/iot/Main.java:132 | the two trailer bytes are the CRC low byte first: low + 256 × high is the CRC |
| `Crc16.CrcResidue` | src/main/java/com/maxlong/iot/Main.java:132 | any byte string followed by its own CRC trailer has CRC zero |
| `Bytes.Int16BE` | src/main/java/com/maxlong/iot/Main.java:167-168 | a register is the unique int16 congruent mod 65536 to high × 256 + low |
| `Bytes.Int16RoundTrip` | src/main/java/com/maxlong/iot/Main.java:167-168 | decoding the two bytes a device sends for an int16 gives that int16 back |
| `Bytes.Int16BytesRoundTrip` | src/main/java/com/maxlong/iot/Main.java:167-168 | re-encoding a decoded register gives back the two bytes it came from |
| `Reply.Read` | src/main/java/com/maxlong/iot/Main.java:151-161 | `read()` gives -1 and leaves the cursor alone exactly when it is past the end; otherwise it gives the byte and advances by one |
| `Reply.ReadShort` | src/main/java/com/maxlong/iot/Main.java:167-168 | `readShort()` succeeds exactly when two bytes remain, giving their big-endian int16 and advancing by two |
| `Reply.RecvModbusReply` | src/main/java/com/maxlong/iot/Main.java:146-171 | the cursor decoder with early returns has the outcome of the positional decoder `DecodeReply` on every input |
| `Reply.DecodeReply` | src/main/java/com/maxlong/iot/Main.java:151-168 | every decoded reading holds two int16 registers |
| `Reply.ShortReplyRejected` | src/main/java/com/maxlong/iot/Main.java:151-164 | a reply shorter than 3 bytes is rejected at a header check |
| `Reply.OtherSlaveRejected` | src/main/java/com/maxlong/iot/Main.java:151-154 | a reply whose first byte is not 1 is rejected at the slave check, whatever follows |
| `Reply.DecodedIff` | src/main/java/com/maxlong/iot/Main.java:151-168 | a reading results if and only if the header is `01 03 04` and at least 7 bytes are present |
| `Reply.EndOfStreamIff` | src/main/java/com/maxlong/iot/Main.java:161-168 | `readShort` throws if and only if the header is `01 03 04` and fewer than 7 bytes are present |
| `Reply.TrailerIgnored` | src/main/java/com/maxlong/iot/Main.java:167-168 | nothing after byte 6 affects the outcome, so the CRC is never checked |
| `Reply.DecodeEncode` | src/main/java/com/maxlong/iot/Main.java:161-168 | the reply a device encodes for any pair of int16 registers decodes to that pair: temperature from bytes 3-4, humidity from bytes 5-6 |
| `Reply.DecodedIsEncoding` | src/main/java/com/maxlong/iot/Main.java:151-168 | the first 7 bytes of every accepted reply are the device encoding of its reading |
| `Reply.ExampleReply` | src/main/java/com/maxlong/iot/Main.java:167-168 | `01 03 04 09 C4 13 3E`, followed by any CRC, decodes to 2500 and 4926 |
| `Reply.EncodeReply` | src/main/java/com/maxlong/iot/Main.java:161-168 | a device reply with two registers is 9 bytes long |
| `Hex.Hex` | src/main/java/com/maxlong/iot/Main.java:174-180 | the dump the `toString` loop builds, each byte's three characters in input order; it is 3 characters per byte |
| `Hex.ToString` | src/main/java/com/maxlong/iot/Main.java:174-180 | the builder loop returns the dump `Hex` of its input |
| `Hex.HexAppend` | src/main/java/com/maxlong/iot/Main.java:176-178 | the dump of a concatenation is the concatenation of the dumps |
| `Hex.HexAt` | src/main/java/com/maxlong/iot/Main.java:177 | byte i fills characters 3i, 3i+1 and 3i+2: its high nibble and low nibble as upper-case hex digits, then a space |
| `Hex.ByteHex` | src/main/java/com/maxlong/iot/Main.java:177 | one byte renders as 3 characters |
| `Hex.Digit` | src/main/java/com/maxlong/iot/Main.java:177 | a nibble renders as a digit or an upper-case letter A-F |
| `Hex.DigitValue` | src/main/java/com/maxlong/iot/Main.java:177 | a character reads as a nibble exactly when it is that nibble's upper-case digit |
| `Hex.ParseHexOfHex` | src/main/java/com/maxlong/iot/Main.java:174-180 | parsing a dump gives back the original bytes |
| `Hex.HexOfParseHex` | src/main/java/com/maxlong/iot/Main.java:174-180 | any string that parses is exactly the dump of the bytes it parses to |
| `Bridge.SendModbusReq` | src/main/java/com/maxlong/iot/Main.java:126-143 | the request publishes exactly one payload, the fixed frame on the tx topic, and that frame passes a CRC check |
| `Bridge.OnMessage` | src/main/java/com/maxlong/iot/Main.java:100-123 | one message causes at most one event; a topic other than status and rx causes none; any publish is the fixed frame on tx, caused by a status message |
| `Bridge.TruncatedBodyFails` | src/main/java/com/maxlong/iot/Main.java:116-122 | a reply with header `01 03 04` but fewer than 7 bytes makes `readShort` throw, and the caught exception is the only event |
| `Bridge.RequestDump` | src/main/java/com/maxlong/iot/Main.java:135 | the logged request dump is `01 03 00 00 00 02 C4 0B ` |
| `Bridge.RequestSentIffHeartbeat` | src/main/java/com/maxlong/iot/Main.java:100-138 | a message publishes exactly the one fixed request on the tx topic when it is a heartbeat on the status topic; otherwise it publishes nothing |
| `Bridge.DisconnectReportsOffline` | src/main/java/com/maxlong/iot/Main.java:109-110 | a disconnect on the status topic only reports the device offline |
| `Bridge.OtherStatusReported` | src/main/java/com/maxlong/iot/Main.java:101-122 | any other or absent type is reported as unknown, with the payload; a parse failure is caught |
| `Bridge.RxGoesToDecoder` | src/main/java/com/maxlong/iot/Main.java:116-122 | an rx message only goes to the decoder and publishes nothing; a reading is reported if and only if the reply is accepted; a short reply's exception is caught |
| `Bridge.OtherTopicIgnored` | src/main/java/com/maxlong/iot/Main.java:100-123 | a message on any other topic has no effect |
| `Bridge.AtMostOneEvent` | src/main/java/com/maxlong/iot/Main.java:100-123 | one message causes at most one publish or report |
| `Bridge.ReplyEvents` | src/main/java/com/maxlong/iot/Main.java:117-122 | a reply outcome causes at most one report; no event at all exactly when the reply was rejected at a header check; the caught exception exactly when `readShort` ran out of bytes |
| `Bridge.BadHeaderSilent` | src/main/java/com/maxlong/iot/Main.java:151-164 | an rx reply shorter than 3 bytes or with a header other than `01 03 04` is rejected and causes no event |
| `Bridge.Sent` | src/main/java/com/maxlong/iot/Main.java:138 | collects exactly the publications among the events: each entry is a published event, every published event has an entry, and a leading publication comes first |

## Left out

- MQTT connection, authentication, subscription and publishing (`run`, and `mqtt.publish`). These
  are network I/O through the Paho library. A publish is the event `Published(topic, payload)`
  and is assumed to succeed. `sendModbusReq`'s own catch of a failed publish and its error log
  (Main.java:140-142) are left out with the network.
- The cached thread pool and the per-message dispatch in the MQTT callback. They only add
  concurrency; each message is handled on its own by `OnMessage`.
- The Jackson JSON parse and `JsonUtils.java`. The parse of a status payload is the input
  `StatusPayload`: `Parsed` with the `type` field if present, or `Unparsable` when the parse or the
  cast to `String` throws.
- The `/ 100.0f` float conversion. Readings are kept as integer hundredths.
- The text of log messages, `main`, and the info-level dump of each received reply (Main.java:147).
  A heartbeat's info log of the request dump (Main.java:135) is not an event either; only its
  value is stated, by `Bridge.RequestDump`. The info log of an accepted reading (Main.java:170) is
  the one event `ReadingReport`.
