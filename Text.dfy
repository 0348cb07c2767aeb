/** The pieces of java.lang.String and java.nio.charset that the generator relies on: the unsigned
    view of a byte, String.length() (UTF-16 code units), getBytes(UTF_8) (RFC 3629) and the decimal
    rendering of a non-negative int (Integer.toString, String.format("%d")) with ASCII digits, as in a
    default locale whose zero digit is '0'. A Java string is modelled as the sequence of Unicode
    scalar values it encodes. */
module Text {
  import opened Wrappers

  /** A byte as its unsigned value (b & 0xFF in Java). */
  type byte = x: int | 0 <= x < 0x100

  /** True if c is an ASCII character (one UTF-16 unit, one UTF-8 byte). */
  predicate IsAscii(c: char) {
    c as int < 0x80
  }

  // ---------------------------------------------------------------------------------------------
  // String.length(): UTF-16 code units

  /** Number of UTF-16 code units Java stores for s: a scalar beyond the Basic Multilingual Plane
      is a surrogate pair. */
  function Utf16Length(s: string): (n: nat)
    ensures |s| <= n <= 2 * |s|
  {
    if s == [] then 0
    else (if s[0] as int < 0x10000 then 1 else 2) + Utf16Length(s[1..])
  }

  /** A string of Basic Multilingual Plane characters takes one UTF-16 unit per character. */
  lemma {:induction false} Utf16LengthBmp(s: string)
    requires forall c :: c in s ==> c <= '\U{FFFF}'
    ensures Utf16Length(s) == |s|
  {
    if s != [] {
      assert s[0] in s;
      assert forall c :: c in s[1..] ==> c in s;
      Utf16LengthBmp(s[1..]);
    }
  }

  // ---------------------------------------------------------------------------------------------
  // UTF-8 (RFC 3629, section 3)

  /** The UTF-8 encoding of one scalar value: one to four bytes. */
  function EncodeChar(c: char): (r: seq<byte>)
    ensures 1 <= |r| <= 4
    ensures |r| == 1 <==> IsAscii(c)
    ensures IsAscii(c) ==> r == [c as int]
    ensures forall k :: 1 <= k < |r| ==> 0x80 <= r[k] < 0xC0
  {
    var v := c as int;
    if v < 0x80 then [v]
    else if v < 0x800 then [0xC0 + v / 0x40, 0x80 + v % 0x40]
    else if v < 0x1_0000 then [0xE0 + v / 0x1000, 0x80 + (v / 0x40) % 0x40, 0x80 + v % 0x40]
    else [0xF0 + v / 0x4_0000, 0x80 + (v / 0x1000) % 0x40, 0x80 + (v / 0x40) % 0x40, 0x80 + v % 0x40]
  }

  /** s.getBytes(StandardCharsets.UTF_8) for a well-formed string. */
  function Utf8(s: string): (r: seq<byte>)
    ensures |s| <= |r| <= 4 * |s|
  {
    if s == [] then [] else EncodeChar(s[0]) + Utf8(s[1..])
  }

  /** Number of bytes of the UTF-8 sequence that a lead byte announces; 0 for a byte that cannot
      start a sequence. */
  function SequenceLength(lead: byte): nat {
    if lead < 0x80 then 1
    else if lead < 0xC0 then 0
    else if lead < 0xE0 then 2
    else if lead < 0xF0 then 3
    else if lead < 0xF8 then 4
    else 0
  }

  /** True if v is a Unicode scalar value (what a Dafny char holds). */
  predicate IsScalar(v: int) {
    (0 <= v < 0xD800) || (0xE000 <= v < 0x11_0000)
  }

  /** The scalar value that a one- to four-byte sequence carries, if it is one. */
  function DecodeSequence(b: seq<byte>): Option<char>
    requires 1 <= |b| <= 4
  {
    var v :=
      if |b| == 1 then b[0] as int
      else if |b| == 2 then (b[0] as int - 0xC0) * 0x40 + (b[1] as int - 0x80)
      else if |b| == 3 then (b[0] as int - 0xE0) * 0x1000 + (b[1] as int - 0x80) * 0x40 + (b[2] as int - 0x80)
      else (b[0] as int - 0xF0) * 0x4_0000 + (b[1] as int - 0x80) * 0x1000 + (b[2] as int - 0x80) * 0x40
           + (b[3] as int - 0x80);
    if IsScalar(v) then Some(v as char) else None
  }

  /** Reads a byte sequence back as scalars, each announced by its lead byte: the inverse of Utf8
      on its image. It does not check continuation bytes or shortest form, so it is not a
      validating UTF-8 decoder. */
  function DecodeUtf8(b: seq<byte>): Option<string>
    decreases |b|
  {
    if b == [] then Some([])
    else
      var n := SequenceLength(b[0]);
      if n == 0 || |b| < n then None
      else match DecodeSequence(b[..n])
        case None => None
        case Some(c) =>
          match DecodeUtf8(b[n..])
          case None => None
          case Some(rest) => Some([c] + rest)
  }

  lemma DivMod64(v: int)
    requires v >= 0
    ensures (v / 0x40) / 0x40 == v / 0x1000
    ensures (v / 0x1000) / 0x40 == v / 0x4_0000
  {
  }

  /** Each scalar's encoding announces its own length and decodes back to the scalar. */
  lemma DecodeEncodeChar(c: char)
    ensures SequenceLength(EncodeChar(c)[0]) == |EncodeChar(c)|
    ensures DecodeSequence(EncodeChar(c)) == Some(c)
  {
    var v := c as int;
    DivMod64(v);
  }

  /** Decoding the UTF-8 encoding of a string gives the string back. */
  lemma {:induction false} DecodeUtf8Encode(s: string)
    ensures DecodeUtf8(Utf8(s)) == Some(s)
  {
    if s != [] {
      var e := EncodeChar(s[0]);
      DecodeEncodeChar(s[0]);
      DecodeUtf8Encode(s[1..]);
      var b := Utf8(s);
      assert b == e + Utf8(s[1..]);
      assert b[..|e|] == e;
      assert b[|e|..] == Utf8(s[1..]);
      assert SequenceLength(b[0]) == |e|;
      assert DecodeSequence(b[..|e|]) == Some(s[0]);
      assert DecodeUtf8(b[|e|..]) == Some(s[1..]);
      assert [s[0]] + s[1..] == s;
    }
  }

  /** Encoding distributes over concatenation, so a record's bytes are its fields' bytes. */
  lemma {:induction false} Utf8Append(a: string, b: string)
    ensures Utf8(a + b) == Utf8(a) + Utf8(b)
  {
    if a != [] {
      assert (a + b)[0] == a[0];
      assert (a + b)[1..] == a[1..] + b;
      Utf8Append(a[1..], b);
      calc {
        Utf8(a + b);
        EncodeChar(a[0]) + Utf8(a[1..] + b);
        EncodeChar(a[0]) + (Utf8(a[1..]) + Utf8(b));
        (EncodeChar(a[0]) + Utf8(a[1..])) + Utf8(b);
      }
    } else {
      assert a + b == b;
    }
  }

  /** An ASCII string encodes to one byte per character, each the character's code. */
  lemma {:induction false} Utf8Ascii(s: string)
    requires forall i :: 0 <= i < |s| ==> IsAscii(s[i])
    ensures |Utf8(s)| == |s|
    ensures forall i :: 0 <= i < |s| ==> Utf8(s)[i] == s[i] as int
  {
    if s != [] {
      Utf8Ascii(s[1..]);
    }
  }

  // ---------------------------------------------------------------------------------------------
  // Decimal rendering of a non-negative int

  function DigitChar(d: nat): (c: char)
    requires d < 10
  {
    ('0' as int + d) as char
  }

  predicate IsDigit(c: char) {
    '0' <= c <= '9'
  }

  /** Integer.toString(n) for n >= 0: no sign, no leading zeros, "0" for zero. */
  function DecimalString(n: nat): (r: string)
    ensures |r| >= 1
    ensures forall i :: 0 <= i < |r| ==> IsDigit(r[i])
    ensures |r| > 1 ==> r[0] != '0'
  {
    if n < 10 then [DigitChar(n)] else DecimalString(n / 10) + [DigitChar(n % 10)]
  }

  /** Integer.parseInt(s) on a string of decimal digits: the inverse of DecimalString. */
  function DecimalValue(s: string): nat {
    if s == [] then 0
    else 10 * DecimalValue(s[..|s| - 1]) + (if IsDigit(s[|s| - 1]) then s[|s| - 1] as int - '0' as int else 0)
  }

  lemma {:induction false} DecimalRoundTrip(n: nat)
    ensures DecimalValue(DecimalString(n)) == n
  {
    var s := DecimalString(n);
    if n >= 10 {
      assert s[..|s| - 1] == DecimalString(n / 10);
      DecimalRoundTrip(n / 10);
    }
  }

  /** A number has at most w + 1 digits exactly when it is below 10^(w+1). */
  lemma {:induction false} DecimalStringLength(n: nat, w: nat)
    ensures |DecimalString(n)| <= w + 1 <==> n < Pow10(w + 1)
  {
    if n >= 10 && w > 0 {
      DecimalStringLength(n / 10, w - 1);
    }
  }

  function Pow10(w: nat): (p: nat)
    ensures p >= 1
  {
    if w == 0 then 1 else 10 * Pow10(w - 1)
  }

  /** w copies of c. */
  function Repeat(c: char, w: nat): (r: string)
    ensures |r| == w
    ensures forall i :: 0 <= i < w ==> r[i] == c
  {
    if w == 0 then [] else Repeat(c, w - 1) + [c]
  }

  /** Leading zeros do not change a decimal value. */
  lemma {:induction false} DecimalValueLeadingZeros(k: nat, s: string)
    ensures DecimalValue(Repeat('0', k) + s) == DecimalValue(s)
  {
    if s == [] {
      assert Repeat('0', k) + s == Repeat('0', k);
      ZerosValue(k);
    } else {
      var t := Repeat('0', k) + s;
      assert t[..|t| - 1] == Repeat('0', k) + s[..|s| - 1];
      DecimalValueLeadingZeros(k, s[..|s| - 1]);
    }
  }

  lemma {:induction false} ZerosValue(k: nat)
    ensures DecimalValue(Repeat('0', k)) == 0
  {
    if k > 0 {
      assert Repeat('0', k)[..k - 1] == Repeat('0', k - 1);
      ZerosValue(k - 1);
    }
  }
}
