/**
 * The hex dump the bridge logs for every frame it sends or receives (`toString`): each byte as
 * two upper-case hex digits of its unsigned value, then one space.
 */
module Hex {
  import opened Bytes
  import opened Wrappers

  /** The upper-case hex digit of a nibble: '0'..'9', then 'A'..'F'. */
  function Digit(n: nat): (c: char)
    requires n < 16
    ensures '0' <= c <= '9' || 'A' <= c <= 'F'
    ensures n < 10 ==> c as int - '0' as int == n
    ensures n >= 10 ==> c as int - 'A' as int == n - 10
  {
    if n < 10 then ('0' as int + n) as char else ('A' as int + n - 10) as char
  }

  /** Each digit reads back as its nibble. */
  lemma DigitRoundTrip(n: nat)
    requires n < 16
    ensures DigitValue(Digit(n)) == Some(n)
  {
  }

  /** The value of an upper-case hex digit; anything else is not one. */
  function DigitValue(c: char): (v: Option<nat>)
    ensures v.Some? ==> v.value < 16 && Digit(v.value) == c
    ensures v.None? ==> forall n :: 0 <= n < 16 ==> Digit(n) != c
  {
    if '0' <= c <= '9' then Some(c as int - '0' as int)
    else if 'A' <= c <= 'F' then Some(c as int - 'A' as int + 10)
    else None
  }

  /** `String.format("%02X ", b)` for one byte. */
  function ByteHex(b: Byte): (s: string)
    ensures |s| == 3
  {
    [Digit(b / 16), Digit(b % 16), ' ']
  }

  /** The whole dump: the bytes' renderings, in order, three characters per byte. */
  function Hex(bytes: seq<Byte>): (s: string)
    ensures |s| == 3 * |bytes|
  {
    if bytes == [] then "" else ByteHex(bytes[0]) + Hex(bytes[1..])
  }

  /** The source's loop: append each byte's rendering to a builder. */
  method ToString(bytes: seq<Byte>) returns (s: string)
    ensures s == Hex(bytes)
  {
    s := "";
    for i := 0 to |bytes|
      invariant s == Hex(bytes[..i])
    {
      HexAppend(bytes[..i], [bytes[i]]);
      assert bytes[..i + 1] == bytes[..i] + [bytes[i]];
      s := s + ByteHex(bytes[i]);
    }
    assert bytes[..|bytes|] == bytes;
  }

  /** Rendering distributes over concatenation. */
  lemma {:induction false} HexAppend(a: seq<Byte>, b: seq<Byte>)
    ensures Hex(a + b) == Hex(a) + Hex(b)
  {
    if a == [] {
      assert a + b == b;
    } else {
      assert (a + b)[1..] == a[1..] + b;
      HexAppend(a[1..], b);
    }
  }

  /**
   * Byte `i` occupies characters 3i, 3i+1 and 3i+2: its high nibble, its low nibble, a space.
   */
  lemma {:induction false} HexAt(bytes: seq<Byte>, i: nat)
    requires i < |bytes|
    ensures |Hex(bytes)| == 3 * |bytes|
    ensures Hex(bytes)[3 * i] == Digit(bytes[i] / 16)
    ensures Hex(bytes)[3 * i + 1] == Digit(bytes[i] % 16)
    ensures Hex(bytes)[3 * i + 2] == ' '
  {
    if i > 0 {
      HexAt(bytes[1..], i - 1);
    }
  }

  /** Reads a dump back: groups of two upper-case hex digits and a space, nothing else. */
  function ParseHex(s: string): Option<seq<Byte>>
    decreases |s|
  {
    if s == [] then Some([])
    else if |s| < 3 || s[2] != ' ' then None
    else match (DigitValue(s[0]), DigitValue(s[1]), ParseHex(s[3..]))
      case (Some(hi), Some(lo), Some(rest)) => Some([hi * 16 + lo] + rest)
      case _ => None
  }

  /** Parsing a dump gives back the bytes it was made from. */
  lemma {:induction false} ParseHexOfHex(bytes: seq<Byte>)
    ensures ParseHex(Hex(bytes)) == Some(bytes)
  {
    if bytes != [] {
      var b := bytes[0];
      var s := Hex(bytes);
      assert s[..3] == ByteHex(b) && s[3..] == Hex(bytes[1..]);
      DigitRoundTrip(b / 16);
      DigitRoundTrip(b % 16);
      ParseHexOfHex(bytes[1..]);
      assert [b] + bytes[1..] == bytes;
    }
  }

  /** And a string that parses is exactly the dump of what it parses to. */
  lemma {:induction false} HexOfParseHex(s: string, bytes: seq<Byte>)
    requires ParseHex(s) == Some(bytes)
    ensures Hex(bytes) == s
  {
    if s != [] {
      var hi := DigitValue(s[0]).value;
      var lo := DigitValue(s[1]).value;
      var rest := ParseHex(s[3..]).value;
      assert bytes == [hi * 16 + lo] + rest;
      HexOfParseHex(s[3..], rest);
      assert (hi * 16 + lo) / 16 == hi && (hi * 16 + lo) % 16 == lo;
      assert s == s[..3] + s[3..];
    }
  }
}
