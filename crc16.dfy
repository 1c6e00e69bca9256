/**
 * The Modbus CRC16 of section 6.2.2 of the MODBUS over Serial Line Specification V1.02:
 * the register starts at 0xFFFF; each byte is XORed into its low byte, then the register is
 * shifted right eight times, XORing in the reflected polynomial 0xA001 whenever the bit shifted
 * out was 1. The result travels low byte first.
 */
module Crc16 {
  import opened Bytes

  const Initial: bv16 := 0xFFFF
  const Polynomial: bv16 := 0xA001

  /** One shift of the CRC register. */
  function Shift(crc: bv16): (r: bv16)
    ensures r >> 15 == (if crc & 1 == 1 then 1 else 0)
  {
    if crc & 1 == 1 then (crc >> 1) ^ Polynomial else crc >> 1
  }

  /** Eight shifts: what the register goes through after a byte has been XORed in. */
  function Shift8(x: bv16): bv16 {
    Shift(Shift(Shift(Shift(Shift(Shift(Shift(Shift(x))))))))
  }

  /** The register after one byte has gone through it. */
  function Update(crc: bv16, b: Byte): bv16 {
    Shift8(crc ^ (b as bv16))
  }

  /** The register after every byte of `s`, in order, starting from `crc`. */
  function CrcFrom(crc: bv16, s: seq<Byte>): bv16
    decreases |s|
  {
    if s == [] then crc else Update(CrcFrom(crc, s[..|s| - 1]), s[|s| - 1])
  }

  /** The CRC of a message; feeding one more byte extends it by one register update. */
  function Crc(s: seq<Byte>): (r: bv16)
    ensures s == [] ==> r == Initial
    ensures forall b: Byte {:trigger CrcFrom(Initial, s + [b])} :: CrcFrom(Initial, s + [b]) == Update(r, b)
  {
    assert forall b: Byte :: (s + [b])[..|s|] == s;
    CrcFrom(Initial, s)
  }

  /** The two CRC bytes as they are appended to a frame: low byte first. */
  function Trailer(crc: bv16): (t: seq<Byte>)
    ensures |t| == 2
    ensures (t[0] as int) + (t[1] as int) * 0x100 == crc as int
  {
    [(crc & 0xFF) as int, (crc >> 8) as int]
  }

  /** Feeding one more byte extends the computation by one step. */
  lemma CrcAppend(s: seq<Byte>, b: Byte)
    ensures Crc(s + [b]) == Update(Crc(s), b)
  {
    assert (s + [b])[..|s|] == s;
  }

  /** Feeding a register's own trailer through it clears it. */
  lemma UpdateTrailerClears(crc: bv16)
    ensures Update(Update(crc, Trailer(crc)[0]), Trailer(crc)[1]) == 0
  {
    var lo, hi := crc & 0xFF, crc >> 8;
    ByteConversion(lo);
    ByteConversion(hi);
    Shift8Clears(crc);
  }

  lemma ByteConversion(x: bv16)
    requires x < 0x100
    ensures 0 <= x as int < 0x100 && ((x as int) as Byte) as bv16 == x
  {
  }

  lemma Shift8Clears(crc: bv16)
    ensures Shift8(crc ^ (crc & 0xFF)) == crc >> 8
    ensures Shift8((crc >> 8) ^ (crc >> 8)) == 0
  {
  }

  /**
   * The receiver's check: the CRC of a frame that ends in the CRC of what precedes it is zero.
   */
  lemma CrcResidue(s: seq<Byte>)
    ensures Crc(s + Trailer(Crc(s))) == 0
  {
    var t := Trailer(Crc(s));
    CrcAppend(s, t[0]);
    CrcAppend(s + [t[0]], t[1]);
    assert s + t == s + [t[0]] + [t[1]];
    UpdateTrailerClears(Crc(s));
  }
}
