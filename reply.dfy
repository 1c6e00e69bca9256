/**
 * Validation and decoding of the Modbus RTU reply (`recvModbusReply`). The reply must come from
 * slave 1, answer function 0x03, and announce 4 data bytes; then two signed big-endian registers
 * follow, temperature first and humidity second, each counting hundredths of a unit. The CRC
 * after them is never read.
 */
module Reply {
  import opened Bytes
  import opened Wrappers
  import Crc16

  /** The two registers of an accepted reply, as raw int16 values (hundredths of a unit). */
  datatype Reading = Reading(temperature: int, humidity: int)
  {
    ghost predicate Valid() {
      -0x8000 <= temperature < 0x8000 && -0x8000 <= humidity < 0x8000
    }
  }

  /** The header check at which a reply was turned away (a plain `return` in the source). */
  datatype Mismatch = SlaveId | FunctionCode | ByteCount

  datatype Outcome =
    | Rejected(at: Mismatch)  // a header byte differs, or is missing and read as -1
    | EndOfStream             // `readShort` ran out of bytes and threw
    | Decoded(reading: Reading)

  const ExpectedSlaveId: Byte := 0x01
  const ExpectedFunction: Byte := 0x03
  const ExpectedByteCount: Byte := 0x04

  /**
   * `read()` with the cursor at `pos`: the byte there and the cursor after it, or -1 and the
   * cursor unchanged past the end.
   */
  function Read(s: seq<Byte>, pos: nat): (r: (int, nat))
    ensures r.0 == -1 <==> pos >= |s|
    ensures pos < |s| ==> r == (s[pos], pos + 1)
    ensures pos >= |s| ==> r.1 == pos
  {
    if pos < |s| then (s[pos], pos + 1) else (-1, pos)
  }

  /**
   * `readShort()` with the cursor at `pos`: the int16 of the next two bytes, high byte first,
   * and the cursor after them; `None` where it throws `EOFException` for want of a byte.
   */
  function ReadShort(s: seq<Byte>, pos: nat): (r: Option<(int, nat)>)
    ensures r.Some? <==> pos + 2 <= |s|
    ensures r.Some? ==> r.value == (Int16BE(s[pos], s[pos + 1]), pos + 2)
  {
    if pos + 1 < |s| then Some((Int16BE(s[pos], s[pos + 1]), pos + 2)) else None
  }

  /**
   * What the reply decodes to, stated over fixed positions: the first header byte that is absent
   * or wrong decides the rejection; an accepted header needs seven bytes in all.
   */
  function DecodeReply(reply: seq<Byte>): (o: Outcome)
    ensures o.Decoded? ==> o.reading.Valid()
  {
    if |reply| < 1 || reply[0] != ExpectedSlaveId then Rejected(SlaveId)
    else if |reply| < 2 || reply[1] != ExpectedFunction then Rejected(FunctionCode)
    else if |reply| < 3 || reply[2] != ExpectedByteCount then Rejected(ByteCount)
    else if |reply| < 7 then EndOfStream
    else Decoded(Reading(Int16BE(reply[3], reply[4]), Int16BE(reply[5], reply[6])))
  }

  /** The source's decoder: one read at a time from a cursor, returning at the first mismatch. */
  method RecvModbusReply(reply: seq<Byte>) returns (outcome: Outcome)
    ensures outcome == DecodeReply(reply)
  {
    var pos: nat := 0;
    var (slaveId, afterSlaveId) := Read(reply, pos);
    pos := afterSlaveId;
    if slaveId != ExpectedSlaveId as int {
      return Rejected(SlaveId);
    }
    assert pos == 1;

    var (code, afterCode) := Read(reply, pos);
    pos := afterCode;
    if code != ExpectedFunction as int {
      return Rejected(FunctionCode);
    }
    assert pos == 2;

    var (size, afterSize) := Read(reply, pos);
    pos := afterSize;
    if size != ExpectedByteCount as int {
      return Rejected(ByteCount);
    }
    assert pos == 3;

    var temperature := ReadShort(reply, pos);
    if temperature.None? {
      return EndOfStream;
    }
    pos := temperature.value.1;

    var humidity := ReadShort(reply, pos);
    if humidity.None? {
      return EndOfStream;
    }
    pos := humidity.value.1;

    outcome := Decoded(Reading(temperature.value.0, humidity.value.0));
  }

  /** The reply a device sends for `reading`: header, both registers, then its CRC. */
  function EncodeReply(reading: Reading): (frame: seq<Byte>)
    requires reading.Valid()
    ensures |frame| == 9
  {
    var body := [ExpectedSlaveId, ExpectedFunction, ExpectedByteCount]
      + Int16Bytes(reading.temperature) + Int16Bytes(reading.humidity);
    body + Crc16.Trailer(Crc16.Crc(body))
  }

  /** A reply shorter than three bytes never yields a reading. */
  lemma ShortReplyRejected(reply: seq<Byte>)
    requires |reply| < 3
    ensures DecodeReply(reply).Rejected?
  {
  }

  /** A reading is produced exactly when the header is 01 03 04 and seven bytes are present. */
  lemma DecodedIff(reply: seq<Byte>)
    ensures DecodeReply(reply).Decoded? <==>
      |reply| >= 7 && reply[0] == 0x01 && reply[1] == 0x03 && reply[2] == 0x04
  {
  }

  /** `readShort` throws exactly when the header is 01 03 04 and fewer than seven bytes are present. */
  lemma EndOfStreamIff(reply: seq<Byte>)
    ensures DecodeReply(reply) == EndOfStream <==>
      3 <= |reply| < 7 && reply[0] == 0x01 && reply[1] == 0x03 && reply[2] == 0x04
  {
  }

  /**
   * Nothing beyond index 6 is looked at: whatever follows the two registers, the CRC included,
   * the outcome is the same.
   */
  lemma TrailerIgnored(reply: seq<Byte>, tail: seq<Byte>)
    requires |reply| >= 7
    ensures DecodeReply(reply[..7] + tail) == DecodeReply(reply)
  {
    var r := reply[..7] + tail;
    assert r[..7] == reply[..7];
    assert r[0] == reply[0] && r[1] == reply[1] && r[2] == reply[2];
    assert r[3] == reply[3] && r[4] == reply[4] && r[5] == reply[5] && r[6] == reply[6];
  }

  /** The decoder reads back what a device encodes. */
  lemma DecodeEncode(reading: Reading)
    requires reading.Valid()
    ensures DecodeReply(EncodeReply(reading)) == Decoded(reading)
  {
    Int16RoundTrip(reading.temperature);
    Int16RoundTrip(reading.humidity);
  }

  /**
   * Conversely, an accepted reply is a device's encoding of its reading in its first seven bytes,
   * followed by anything at all.
   */
  lemma DecodedIsEncoding(reply: seq<Byte>)
    requires DecodeReply(reply).Decoded?
    ensures reply[..7] == EncodeReply(DecodeReply(reply).reading)[..7]
  {
    Int16BytesRoundTrip(reply[3], reply[4]);
    Int16BytesRoundTrip(reply[5], reply[6]);
  }

  /** An example reply, 01 03 04 09 C4 13 3E: 25.00 degrees and 49.26 percent, in hundredths. */
  lemma ExampleReply(crc: seq<Byte>)
    ensures DecodeReply([0x01, 0x03, 0x04, 0x09, 0xC4, 0x13, 0x3E] + crc) == Decoded(Reading(2500, 4926))
  {
  }

  /** A reply from any slave but 1 is turned away at the first check, whatever follows. */
  lemma OtherSlaveRejected(reply: seq<Byte>)
    requires |reply| >= 1 && reply[0] != 0x01
    ensures DecodeReply(reply) == Rejected(SlaveId)
  {
  }
}
