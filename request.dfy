/**
 * The one Modbus RTU request the bridge sends (`sendModbusReq`): "Read Holding Registers",
 * function code 0x03 of section 6.3 of the MODBUS Application Protocol Specification V1.1b3,
 * addressed to slave 1, starting at register 0, for 2 registers, with a hard-coded CRC.
 */
module Request {
  import opened Bytes
  import Crc16

  const SlaveId: Byte := 0x01
  const ReadHoldingRegisters: Byte := 0x03
  const StartAddress: int := 0
  const Quantity: int := 2

  /** The frame literal of `sendModbusReq`, trailer included. */
  function Frame(): (f: seq<Byte>)
    ensures |f| == 8
  {
    [0x01, 0x03, 0x00, 0x00, 0x00, 0x02, 0xC4, 0x0B]
  }

  /** A 16-bit value as two bytes, high byte first, as Modbus sends addresses and quantities. */
  ghost function U16BE(v: int): seq<Byte>
    requires 0 <= v < 0x1_0000
  {
    [v / 0x100, v % 0x100]
  }

  /** The RTU layout of a request: address, function code, the two 16-bit fields, the CRC. */
  ghost function RtuFrame(slave: Byte, code: Byte, start: int, quantity: int): seq<Byte>
    requires 0 <= start < 0x1_0000 && 0 <= quantity < 0x1_0000
  {
    var body := [slave, code] + U16BE(start) + U16BE(quantity);
    body + Crc16.Trailer(Crc16.Crc(body))
  }

  /** The CRC of the six header bytes, worked out byte by byte. */
  lemma HeaderCrc()
    ensures Crc16.Crc(Frame()[..6]) == 0x0BC4
  {
    CrcOfHeader(Frame()[..6]);
  }

  /** The same computation on a header given by its bytes, one append at a time. */
  lemma CrcOfHeader(f: seq<Byte>)
    requires f == [0x01, 0x03, 0x00, 0x00, 0x00, 0x02]
    ensures Crc16.Crc(f) == 0x0BC4
  {
    HeaderUpdates();
    CrcOfFirstHalf(f);
    AppendStep(f, 4, 0x00, 0xF020, 0xD8F1);
    AppendStep(f, 5, 0x00, 0xD8F1, 0x8419);
    AppendStep(f, 6, 0x02, 0x8419, 0x0BC4);
    assert f[..6] == f;
  }

  /** The register after the first three header bytes. */
  lemma CrcOfFirstHalf(f: seq<Byte>)
    requires f == [0x01, 0x03, 0x00, 0x00, 0x00, 0x02]
    ensures Crc16.Crc(f[..3]) == 0xF020
  {
    HeaderUpdates();
    assert Crc16.Crc(f[..0]) == 0xFFFF;
    AppendStep(f, 1, 0x01, 0xFFFF, 0x807E);
    AppendStep(f, 2, 0x03, 0x807E, 0x2140);
    AppendStep(f, 3, 0x00, 0x2140, 0xF020);
  }

  /** The register value after each of the six header bytes. */
  lemma HeaderUpdates()
    ensures Crc16.Update(0xFFFF, 0x01) == 0x807E
    ensures Crc16.Update(0x807E, 0x03) == 0x2140
    ensures Crc16.Update(0x2140, 0x00) == 0xF020
    ensures Crc16.Update(0xF020, 0x00) == 0xD8F1
    ensures Crc16.Update(0xD8F1, 0x00) == 0x8419
    ensures Crc16.Update(0x8419, 0x02) == 0x0BC4
  {
  }

  /** One byte of the worked-out CRC: from the value after `n - 1` bytes to the value after `n`. */
  lemma AppendStep(f: seq<Byte>, n: nat, b: Byte, before: bv16, after: bv16)
    requires 0 < n <= |f| && f[n - 1] == b
    requires Crc16.Crc(f[..n - 1]) == before
    requires Crc16.Update(before, b) == after
    ensures Crc16.Crc(f[..n]) == after
  {
    Crc16.CrcAppend(f[..n - 1], b);
    assert f[..n - 1] + [f[n - 1]] == f[..n];
  }

  /**
   * The hard-coded trailer `C4 0B` is the Modbus CRC16 of the first six bytes, low byte first,
   * so the whole frame is the standard layout of a read of 2 registers from 0 on slave 1.
   */
  lemma FrameIsReadHoldingRegisters()
    ensures Frame()[6..] == Crc16.Trailer(Crc16.Crc(Frame()[..6]))
    ensures (Crc16.Crc(Frame()[..6]) as int) % 0x100 == Frame()[6]
    ensures (Crc16.Crc(Frame()[..6]) as int) / 0x100 == Frame()[7]
    ensures Frame() == RtuFrame(SlaveId, ReadHoldingRegisters, StartAddress, Quantity)
  {
    HeaderCrc();
    assert Frame()[..6] == [SlaveId, ReadHoldingRegisters] + U16BE(StartAddress) + U16BE(Quantity);
  }

  /** A receiver that checks the CRC accepts the frame: its CRC over all eight bytes is zero. */
  lemma FramePassesCrcCheck()
    ensures Crc16.Crc(Frame()) == 0
  {
    FrameIsReadHoldingRegisters();
    Crc16.CrcResidue(Frame()[..6]);
    assert Frame() == Frame()[..6] + Frame()[6..];
  }
}
