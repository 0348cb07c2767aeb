/** The byte framing of generateSimplePaymentBarcode (PayBySquareGenerator.java, lines 129-155 and
    177-187): the CRC-32 of the record's UTF-8 bytes in front of those bytes, and a four-byte
    header in front of their compressed form. Both numbers go out least significant byte first,
    picked from the big-endian arrays that longToBytes and intToBytes return. */
module Framing {
  import opened Text

  const TwoTo32: nat := 0x1_0000_0000
  const TwoTo64: nat := 0x1_0000_0000_0000_0000

  /** The value of bytes read most significant first. */
  function BigEndian(bs: seq<byte>): nat {
    if bs == [] then 0 else BigEndian(bs[..|bs| - 1]) * 256 + bs[|bs| - 1]
  }

  /** The value of bytes read least significant first. */
  function LittleEndian(bs: seq<byte>): nat {
    if bs == [] then 0 else bs[0] + 256 * LittleEndian(bs[1..])
  }

  /** longToBytes(x): ByteBuffer.putLong writes the 64-bit two's complement of x, most
      significant byte first. */
  function LongToBytes(x: int): (r: seq<byte>)
    ensures |r| == 8
  {
    var v := x % TwoTo64;
    [ (v / 0x100_0000_0000_0000) % 256, (v / 0x1_0000_0000_0000) % 256, (v / 0x100_0000_0000) % 256,
      (v / 0x1_0000_0000) % 256, (v / 0x100_0000) % 256, (v / 0x1_0000) % 256, (v / 0x100) % 256, v % 256 ]
  }

  /** intToBytes(x): ByteBuffer.putInt writes the 32-bit two's complement of x, most significant
      byte first. */
  function IntToBytes(x: int): (r: seq<byte>)
    ensures |r| == 4
  {
    var v := x % TwoTo32;
    [(v / 0x100_0000) % 256, (v / 0x1_0000) % 256, (v / 0x100) % 256, v % 256]
  }

  /** The four bytes written in front of the record: crcBytes[7], [6], [5], [4]. */
  function CrcPrefix(crc: int): (r: seq<byte>)
    ensures |r| == 4
  {
    var b := LongToBytes(crc);
    [b[7], b[6], b[5], b[4]]
  }

  /** The four bytes written in front of the compressed data: 0, 0, intBytes[3], intBytes[2]. */
  function LengthHeader(length: int): (r: seq<byte>)
    ensures |r| == 4
  {
    var b := IntToBytes(length);
    [0, 0, b[3], b[2]]
  }

  lemma LittleEndian4(a: byte, b: byte, c: byte, d: byte)
    ensures LittleEndian([a, b, c, d]) == a + 256 * (b + 256 * (c + 256 * d))
  {
    assert [d][1..] == [];
    assert LittleEndian([d]) == d;
    assert [c, d][1..] == [d];
    assert LittleEndian([c, d]) == c + 256 * d;
    assert [b, c, d][1..] == [c, d];
    assert LittleEndian([b, c, d]) == b + 256 * (c + 256 * d);
    assert [a, b, c, d][1..] == [b, c, d];
  }

  lemma LittleEndian2(a: byte, b: byte)
    ensures LittleEndian([a, b]) == a + 256 * b
  {
    assert [b][1..] == [];
    assert LittleEndian([b]) == b;
    assert [a, b][1..] == [b];
  }

  lemma BigEndian4(a: byte, b: byte, c: byte, d: byte)
    ensures BigEndian([a, b, c, d]) == ((a * 256 + b) * 256 + c) * 256 + d
  {
    assert [a, b, c, d][..3] == [a, b, c];
    assert [a, b, c][..2] == [a, b];
    assert [a, b][..1] == [a];
    assert [a][..0] == [];
    assert BigEndian([a]) == a;
    assert BigEndian([a, b]) == a * 256 + b;
    assert BigEndian([a, b, c]) == (a * 256 + b) * 256 + c;
  }

  /** intToBytes is the 32-bit two's complement of its argument, most significant byte first. */
  lemma IntToBytesBigEndian(x: int)
    ensures BigEndian(IntToBytes(x)) == x % TwoTo32
  {
    var v := x % TwoTo32;
    BigEndian4((v / 0x100_0000) % 256, (v / 0x1_0000) % 256, (v / 0x100) % 256, v % 256);
    ShiftBytes(v);
  }

  /** Shifting right by 8 twice is shifting by 16, and so on. */
  lemma ShiftBytes(v: nat)
    ensures v / 0x100 / 0x100 == v / 0x1_0000
    ensures v / 0x1_0000 / 0x100 == v / 0x100_0000
  {
  }

  /** A CRC value is an unsigned 32-bit number in a long: four zero bytes, then its intToBytes. */
  lemma LongOfUnsignedInt(x: int)
    requires 0 <= x < TwoTo32
    ensures LongToBytes(x) == [0, 0, 0, 0] + IntToBytes(x)
  {
    assert x % TwoTo64 == x && x % TwoTo32 == x;
  }

  /** The CRC prefix is the checksum least significant byte first: c & 0xFF, (c >> 8) & 0xFF,
      (c >> 16) & 0xFF, (c >> 24) & 0xFF, which read back as the checksum. */
  lemma CrcPrefixLittleEndian(crc: nat)
    requires crc < TwoTo32
    ensures CrcPrefix(crc) == [crc % 256, (crc / 0x100) % 256, (crc / 0x1_0000) % 256, (crc / 0x100_0000) % 256]
    ensures LittleEndian(CrcPrefix(crc)) == crc
  {
    assert crc % TwoTo64 == crc;
    LittleEndian4(crc % 256, (crc / 0x100) % 256, (crc / 0x1_0000) % 256, (crc / 0x100_0000) % 256);
    ShiftBytes(crc);
  }

  /** The length header is two zero bytes and the length's low sixteen bits, least significant
      first; higher bits of the length are dropped. */
  lemma LengthHeaderLittleEndian(length: nat)
    ensures LengthHeader(length) == [0, 0, length % 256, (length / 256) % 256]
    ensures LittleEndian(LengthHeader(length)[2..]) == length % 0x1_0000
  {
    var v := length % TwoTo32;
    var k := length / TwoTo32;
    assert length == k * TwoTo32 + v;
    assert length / 256 == k * 0x100_0000 + v / 256;
    assert v % 256 == length % 256;
    assert (v / 256) % 256 == (length / 256) % 256;
    assert LengthHeader(length)[2..] == [length % 256, (length / 256) % 256];
    LittleEndian2(length % 256, (length / 256) % 256);
    ShiftBytes(length);
  }

  /** java.io.ByteArrayOutputStream: a buffer that grows as bytes are written to it. */
  class ByteStream {
    var buf: seq<byte>

    constructor()
      ensures buf == []
    {
      buf := [];
    }

    /** write(b): appends b. */
    method Write(b: seq<byte>)
      modifies this
      ensures buf == old(buf) + b
    {
      buf := buf + b;
    }

    /** toByteArray(): a copy of what has been written. */
    method ToByteArray() returns (r: seq<byte>)
      ensures r == buf
    {
      r := buf;
    }
  }

  /** dataWithCrc: the CRC prefix of the record bytes, then the record bytes. */
  function Payload(recordBytes: seq<byte>, crc: int): (r: seq<byte>)
    ensures |r| == 4 + |recordBytes|
  {
    CrcPrefix(crc) + recordBytes
  }

  /** compressedWithLength: the length header of the payload, then the compressed payload. */
  function Framed(payloadLength: int, compressed: seq<byte>): (r: seq<byte>)
    ensures |r| == 4 + |compressed|
  {
    LengthHeader(payloadLength) + compressed
  }

  /** The payload as the source builds it: CRC bytes and record bytes written into a fresh stream. */
  method WritePayload(recordBytes: seq<byte>, crc: int) returns (dataWithCrc: seq<byte>)
    ensures dataWithCrc == Payload(recordBytes, crc)
  {
    var crcBytes := LongToBytes(crc);
    var outputStream := new ByteStream();
    outputStream.Write([crcBytes[7], crcBytes[6], crcBytes[5], crcBytes[4]]);
    outputStream.Write(recordBytes);
    dataWithCrc := outputStream.ToByteArray();
  }

  /** The framed data as the source builds it: the length header and the compressed payload
      written into a fresh stream. */
  method WriteFramed(payloadLength: int, compressed: seq<byte>) returns (compressedWithLength: seq<byte>)
    ensures compressedWithLength == Framed(payloadLength, compressed)
  {
    var intBytes := IntToBytes(payloadLength);
    var outputStream := new ByteStream();
    outputStream.Write([0, 0, intBytes[3], intBytes[2]]);
    outputStream.Write(compressed);
    compressedWithLength := outputStream.ToByteArray();
  }
}
