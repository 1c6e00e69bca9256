/**
 * Unsigned bytes and the signed big-endian 16-bit integers that a Modbus reply carries.
 *
 * Java's `byte` is signed, but every place the bridge looks at a byte uses its unsigned value:
 * `DataInputStream.read()` returns 0..255, `readShort()` combines two such values, and
 * `String.format("%02X", b)` adds 256 to a negative byte. So the model keeps the unsigned value.
 */
module Bytes {
  type Byte = x: int | 0 <= x < 0x100

  /** The register value `DataInputStream.readShort()` builds from `hi` and `lo`: an int16. */
  function Int16BE(hi: Byte, lo: Byte): (v: int)
    ensures -0x8000 <= v < 0x8000
    ensures v % 0x1_0000 == hi * 0x100 + lo
  {
    var u := hi * 0x100 + lo;
    if u < 0x8000 then u else u - 0x1_0000
  }

  /** The two bytes, high byte first, by which a device transmits the int16 value `v`. */
  function Int16Bytes(v: int): (bs: seq<Byte>)
    requires -0x8000 <= v < 0x8000
    ensures |bs| == 2
  {
    var u := if v < 0 then v + 0x1_0000 else v;
    [u / 0x100, u % 0x100]
  }

  /** Decoding what a device encoded gives back the register value. */
  lemma Int16RoundTrip(v: int)
    requires -0x8000 <= v < 0x8000
    ensures Int16BE(Int16Bytes(v)[0], Int16Bytes(v)[1]) == v
  {
    var u := if v < 0 then v + 0x1_0000 else v;
    assert u / 0x100 * 0x100 + u % 0x100 == u;
  }

  /** Encoding a decoded register gives back the two bytes it came from. */
  lemma Int16BytesRoundTrip(hi: Byte, lo: Byte)
    ensures Int16Bytes(Int16BE(hi, lo)) == [hi, lo]
  {
    var u := hi * 0x100 + lo;
    assert u / 0x100 == hi && u % 0x100 == lo;
  }
}
