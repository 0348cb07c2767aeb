/** The last stage of generateSimplePaymentBarcode (PayBySquareGenerator.java, lines 157-174): the
    framed bytes become a string of bits, most significant first, padded with zeros to a multiple
    of five, and every five bits become one character of the alphabet "0-9A-V" (the base32hex
    alphabet of section 7 of RFC 4648, without its '=' padding or 40-bit grouping). Bits are kept
    as the characters '0' and '1', as the source keeps them in a StringBuilder. */
module BitPacking {
  import opened Wrappers
  import opened Text

  /** VALID_CHARSET. */
  const Alphabet: string := "0123456789ABCDEFGHIJKLMNOPQRSTUV"

  function BitChar(bit: bool): char {
    if bit then '1' else '0'
  }

  predicate IsBitString(s: string) {
    forall i :: 0 <= i < |s| ==> s[i] == '0' || s[i] == '1'
  }

  /** Every slice of a bit string is a bit string. */
  lemma BitStringSlice(s: string, a: nat, b: nat)
    requires IsBitString(s) && a <= b <= |s|
    ensures IsBitString(s[a..b])
  {
    forall i | 0 <= i < b - a ensures s[a..b][i] == '0' || s[a..b][i] == '1' {
      assert s[a..b][i] == s[a + i];
    }
  }

  function Pow2(w: nat): (p: nat)
    ensures p >= 1
  {
    if w == 0 then 1 else 2 * Pow2(w - 1)
  }

  // ---------------------------------------------------------------------------------------------
  // Bits of numbers

  /** The w low bits of v, most significant first. */
  function Bits(v: nat, w: nat): (r: string)
    ensures |r| == w
    ensures IsBitString(r)
  {
    if w == 0 then [] else Bits(v / 2, w - 1) + [BitChar(v % 2 == 1)]
  }

  /** Integer.parseInt(s, 2) on a string of bits: the number they spell, most significant first. */
  function BinaryValue(s: string): nat {
    if s == [] then 0 else 2 * BinaryValue(s[..|s| - 1]) + (if s[|s| - 1] == '1' then 1 else 0)
  }

  /** Reading back the w low bits of a number below 2^w gives the number. */
  lemma {:induction false} BinaryValueBits(v: nat, w: nat)
    requires v < Pow2(w)
    ensures BinaryValue(Bits(v, w)) == v
  {
    if w > 0 {
      var r := Bits(v, w);
      assert r[..w - 1] == Bits(v / 2, w - 1);
      BinaryValueBits(v / 2, w - 1);
    }
  }

  /** A string of w bits spells a number below 2^w whose w bits are the string. */
  lemma {:induction false} BitsBinaryValue(s: string)
    requires IsBitString(s)
    ensures BinaryValue(s) < Pow2(|s|)
    ensures Bits(BinaryValue(s), |s|) == s
  {
    if s != [] {
      var init := s[..|s| - 1];
      assert IsBitString(init) by {
        forall i | 0 <= i < |init| ensures init[i] == '0' || init[i] == '1' {
          assert init[i] == s[i];
        }
      }
      BitsBinaryValue(init);
      var v := BinaryValue(s);
      assert v / 2 == BinaryValue(init);
      assert init + [s[|s| - 1]] == s;
    }
  }

  /** Integer.toBinaryString(v) for v >= 0: the bits of v without leading zeros, "0" for zero. */
  function ToBinaryString(v: nat): (r: string)
    ensures 1 <= |r|
    ensures IsBitString(r)
    ensures r == Bits(v, |r|)
    ensures v < Pow2(|r|)
    ensures |r| > 1 ==> r[0] == '1'
  {
    if v < 2 then [BitChar(v == 1)] else ToBinaryString(v / 2) + [BitChar(v % 2 == 1)]
  }

  /** Leading zero bits do not change a number: k more bits of v are k zeros, then its bits. */
  lemma {:induction false} BitsWiden(v: nat, w: nat, k: nat)
    requires v < Pow2(w)
    ensures Bits(v, w + k) == Repeat('0', k) + Bits(v, w)
  {
    if w == 0 {
      assert v == 0;
      ZeroBits(k);
    } else {
      BitsWiden(v / 2, w - 1, k);
      assert w - 1 + k == w + k - 1;
    }
  }

  lemma {:induction false} ZeroBits(k: nat)
    ensures Bits(0, k) == Repeat('0', k)
  {
    if k > 0 {
      ZeroBits(k - 1);
    }
  }

  /** A toBinaryString of at most w bits takes w bits once padded with zeros. */
  lemma ToBinaryStringWidth(v: nat, w: nat)
    requires v < Pow2(w)
    ensures |ToBinaryString(v)| <= w || v == 0
  {
    var r := ToBinaryString(v);
    if |r| > w && v > 0 {
      BinaryValueBits(v, |r|);
      PowMonotone(w, |r| - 1);
      assert r[0] == '1';
      LeadingOneBound(r);
    }
  }

  lemma {:induction false} PowMonotone(a: nat, b: nat)
    requires a <= b
    ensures Pow2(a) <= Pow2(b)
  {
    if b > a {
      PowMonotone(a, b - 1);
    }
  }

  /** A bit string starting with '1' spells at least 2^(length - 1). */
  lemma {:induction false} LeadingOneBound(s: string)
    requires |s| >= 1 && IsBitString(s) && s[0] == '1'
    ensures BinaryValue(s) >= Pow2(|s| - 1)
  {
    if |s| > 1 {
      var init := s[..|s| - 1];
      assert IsBitString(init) by {
        forall i | 0 <= i < |init| ensures init[i] == '0' || init[i] == '1' {
          assert init[i] == s[i];
        }
      }
      LeadingOneBound(init);
    } else {
      assert s[..0] == [];
    }
  }

  // ---------------------------------------------------------------------------------------------
  // One byte: String.format("%8s", Integer.toBinaryString(b & 0xFF)).replace(' ', '0')

  /** String.format("%w s", s): s right-aligned in a field of w spaces. */
  function LeftPadSpaces(s: string, w: nat): (r: string)
    ensures |r| == if |s| < w then w else |s|
  {
    if |s| < w then Repeat(' ', w - |s|) + s else s
  }

  /** String.replace(from, to) on single characters. */
  function ReplaceChar(s: string, from: char, to: char): (r: string)
    ensures |r| == |s|
    ensures forall i :: 0 <= i < |s| ==> r[i] == if s[i] == from then to else s[i]
  {
    if s == [] then [] else ReplaceChar(s[..|s| - 1], from, to) + [if s[|s| - 1] == from then to else s[|s| - 1]]
  }

  /** The eight characters one byte adds to the bit string. */
  function ByteBits(b: byte): string {
    ReplaceChar(LeftPadSpaces(ToBinaryString(b), 8), ' ', '0')
  }

  /** Padding a bit string with spaces and then turning the spaces into zeros pads it with
      zeros. */
  lemma PadThenReplace(t: string, w: nat)
    requires IsBitString(t) && |t| <= w
    ensures ReplaceChar(LeftPadSpaces(t, w), ' ', '0') == Repeat('0', w - |t|) + t
  {
    var padded := LeftPadSpaces(t, w);
    var r := ReplaceChar(padded, ' ', '0');
    var e := Repeat('0', w - |t|) + t;
    forall i | 0 <= i < w ensures r[i] == e[i] {
      if i < w - |t| {
        assert padded[i] == ' ';
      } else {
        assert padded[i] == t[i - (w - |t|)];
      }
    }
  }

  /** Each byte contributes exactly its eight bits, most significant first, zero-padded. */
  lemma ByteBitsAreBits(b: byte)
    ensures ByteBits(b) == Bits(b, 8)
  {
    var t := ToBinaryString(b);
    assert Pow2(8) == 256;
    ToBinaryStringWidth(b, 8);
    PadThenReplace(t, 8);
    BitsWiden(b, |t|, 8 - |t|);
  }

  // ---------------------------------------------------------------------------------------------
  // The three loops

  /** sbBinaryString after the first loop: the eight bits of each byte, one byte after another. */
  function BitString(bytes: seq<byte>): (r: string)
    ensures |r| == 8 * |bytes| && |r| % 8 == 0
    ensures IsBitString(r)
  {
    if bytes == [] then [] else BitString(bytes[..|bytes| - 1]) + Bits(bytes[|bytes| - 1], 8)
  }

  /** The first loop: each byte's eight bits appended in turn. */
  method ToBitString(bytes: seq<byte>) returns (s: string)
    ensures s == BitString(bytes)
  {
    s := "";
    for i := 0 to |bytes|
      invariant s == BitString(bytes[..i])
    {
      assert bytes[..i + 1][..i] == bytes[..i];
      ByteBitsAreBits(bytes[i]);
      s := s + ByteBits(bytes[i]);
    }
    assert bytes[..|bytes|] == bytes;
  }

  /** The number of zero bits the second loop appends: 5 - (length % 5), so five when the
      length is already a multiple of five. */
  function PaddingLength(bitCount: nat): (n: nat)
    ensures 1 <= n <= 5
    ensures (bitCount + n) % 5 == 0
    ensures n == 5 <==> bitCount % 5 == 0
  {
    5 - bitCount % 5
  }

  /** The bit string after the second loop. */
  function PadZeros(s: string): (r: string)
    ensures |r| % 5 == 0
    ensures |s| < |r| <= |s| + 5
    ensures r[..|s|] == s
    ensures forall i :: |s| <= i < |r| ==> r[i] == '0'
    ensures IsBitString(s) ==> IsBitString(r)
  {
    var r := s + Repeat('0', PaddingLength(|s|));
    assert r[..|s|] == s;
    r
  }

  /** The second loop: zeros appended up to the next multiple of five, always at least one. */
  method PadToQuintets(s: string) returns (t: string)
    ensures t == PadZeros(s)
  {
    var remainder := |s| % 5;
    t := s;
    for i := 0 to 5 - remainder
      invariant t == s + Repeat('0', i)
    {
      t := t + "0";
    }
  }

  /** The characters the third loop appends for a bit string of whole quintets. */
  function Symbols(t: string): (r: string)
    requires |t| % 5 == 0 && IsBitString(t)
    ensures |r| == |t| / 5
  {
    if t == [] then []
    else
      var last := t[|t| - 5..];
      BitStringSlice(t, 0, |t| - 5);
      QuintetBound(last, t);
      Symbols(t[..|t| - 5]) + [Alphabet[BinaryValue(last)]]
  }

  /** Character k of the symbols is the alphabet's character at the value of quintet k. */
  lemma {:induction false} SymbolsAt(t: string, k: nat)
    requires |t| % 5 == 0 && IsBitString(t) && k < |t| / 5
    ensures IsBitString(t[5 * k..5 * k + 5]) && BinaryValue(t[5 * k..5 * k + 5]) < 32
    ensures Symbols(t)[k] == Alphabet[BinaryValue(t[5 * k..5 * k + 5])]
  {
    var m := |t| / 5;
    assert |t| == 5 * m;
    var init, last := t[..|t| - 5], t[|t| - 5..];
    BitStringSlice(t, 0, |t| - 5);
    BitStringSlice(t, |t| - 5, |t|);
    assert init + last == t;
    SymbolsSnoc(init, last);
    var lo := 5 * k;
    if k < m - 1 {
      assert |init| / 5 == m - 1;
      SymbolsAt(init, k);
      SliceOfPrefix(t, |t| - 5, lo, lo + 5);
    } else {
      assert lo == |t| - 5;
      assert t[lo..lo + 5] == last;
    }
  }

  lemma SliceOfPrefix(t: string, n: nat, a: nat, b: nat)
    requires a <= b <= n <= |t|
    ensures t[..n][a..b] == t[a..b]
  {
  }

  /** Five bits spell a number below 32, a valid index into the alphabet. */
  lemma QuintetBound(q: string, t: string)
    requires IsBitString(t) && |q| == 5 && |t| >= 5 && q == t[|t| - 5..]
    ensures IsBitString(q)
    ensures BinaryValue(q) < 32
  {
    assert IsBitString(q) by {
      forall i | 0 <= i < 5 ensures q[i] == '0' || q[i] == '1' {
        assert q[i] == t[|t| - 5 + i];
      }
    }
    BitsBinaryValue(q);
    assert Pow2(5) == 32;
  }

  /** One more quintet adds one more character, the one its five bits pick. */
  lemma SymbolsStep(t: string, i: nat)
    requires IsBitString(t) && i % 5 == 0 && i + 5 <= |t|
    ensures IsBitString(t[i..i + 5]) && BinaryValue(t[i..i + 5]) < 32
    ensures IsBitString(t[..i]) && IsBitString(t[..i + 5])
    ensures Symbols(t[..i + 5]) == Symbols(t[..i]) + [Alphabet[BinaryValue(t[i..i + 5])]]
  {
    var prefix := t[..i + 5];
    BitStringSlice(t, 0, i + 5);
    BitStringSlice(t, 0, i);
    assert prefix[|prefix| - 5..] == t[i..i + 5];
    assert prefix[..i] == t[..i];
    QuintetBound(t[i..i + 5], prefix);
  }

  /** The third loop: each quintet, read as a number, picks one character of the alphabet. */
  method MapQuintets(t: string) returns (result: string)
    requires |t| % 5 == 0 && IsBitString(t)
    ensures result == Symbols(t)
  {
    result := "";
    var i := 0;
    BitStringSlice(t, 0, 0);
    while i < |t|
      invariant 0 <= i <= |t| && i % 5 == 0
      invariant IsBitString(t[..i])
      invariant result == Symbols(t[..i])
    {
      SymbolsStep(t, i);
      var index := BinaryValue(t[i..i + 5]);
      result := result + [Alphabet[index]];
      i := i + 5;
    }
    assert t[..|t|] == t;
  }

  // ---------------------------------------------------------------------------------------------
  // The whole packing, and reading it back

  /** generateSimplePaymentBarcode's last stage on the framed bytes. */
  function Pack(bytes: seq<byte>): string {
    Symbols(PadZeros(BitString(bytes)))
  }

  /** The position of a character in the alphabet: '0'-'9' are 0-9 and 'A'-'V' are 10-31; any
      other character gets 32, which is no position. */
  function SymbolValue(c: char): nat {
    if '0' <= c <= '9' then c as int - '0' as int
    else if 'A' <= c <= 'V' then c as int - 'A' as int + 10
    else 32
  }

  /** The character at position k is the one whose position is k. */
  lemma AlphabetPositions(k: nat)
    requires k < 32
    ensures SymbolValue(Alphabet[k]) == k
  {
  }

  /** Each character back to its five bits. */
  function Quintets(s: string): (r: string)
    ensures |r| == 5 * |s|
    ensures IsBitString(r)
  {
    if s == [] then [] else Quintets(s[..|s| - 1]) + Bits(SymbolValue(s[|s| - 1]), 5)
  }

  /** Bits back to bytes, eight at a time. */
  function BytesOf(bits: string): (r: seq<byte>)
    requires |bits| % 8 == 0 && IsBitString(bits)
    ensures |r| == |bits| / 8
  {
    if bits == [] then []
    else
      var last := bits[|bits| - 8..];
      BitStringSlice(bits, 0, |bits| - 8);
      BitStringSlice(bits, |bits| - 8, |bits|);
      BitsBinaryValue(last);
      assert Pow2(8) == 256;
      BytesOf(bits[..|bits| - 8]) + [BinaryValue(last) as byte]
  }

  /** Reads n bytes back from a packed string: None when it holds fewer than 8n bits. */
  function Unpack(s: string, n: nat): (r: Option<seq<byte>>)
    ensures r.Some? ==> |r.value| == n
  {
    var bits := Quintets(s);
    if 8 * n <= |bits| then
      BitStringSlice(bits, 0, 8 * n);
      Some(BytesOf(bits[..8 * n]))
    else None
  }

  lemma QuintetsSnoc(x: string, c: char)
    ensures Quintets(x + [c]) == Quintets(x) + Bits(SymbolValue(c), 5)
  {
    assert (x + [c])[..|x|] == x;
  }

  lemma SymbolsSnoc(init: string, last: string)
    requires |init| % 5 == 0 && IsBitString(init) && |last| == 5 && IsBitString(last)
    ensures IsBitString(init + last) && BinaryValue(last) < 32
    ensures Symbols(init + last) == Symbols(init) + [Alphabet[BinaryValue(last)]]
  {
    var t := init + last;
    assert t[|t| - 5..] == last;
    assert t[..|t| - 5] == init;
    BitsBinaryValue(last);
    assert Pow2(5) == 32;
  }

  lemma BytesOfSnoc(init: string, last: string)
    requires |init| % 8 == 0 && IsBitString(init) && |last| == 8 && IsBitString(last)
    ensures IsBitString(init + last) && BinaryValue(last) < 256
    ensures BytesOf(init + last) == BytesOf(init) + [BinaryValue(last) as byte]
  {
    var t := init + last;
    assert t[|t| - 8..] == last;
    assert t[..|t| - 8] == init;
    BitsBinaryValue(last);
    assert Pow2(8) == 256;
  }

  lemma BitStringSnoc(init: seq<byte>, b: byte)
    ensures BitString(init + [b]) == BitString(init) + Bits(b, 8)
  {
    assert (init + [b])[..|init|] == init;
  }

  /** Reading the characters back gives the bits they were made from. */
  lemma {:induction false} QuintetsSymbols(t: string)
    requires |t| % 5 == 0 && IsBitString(t)
    ensures Quintets(Symbols(t)) == t
  {
    if t != [] {
      var init, last := t[..|t| - 5], t[|t| - 5..];
      BitStringSlice(t, 0, |t| - 5);
      BitStringSlice(t, |t| - 5, |t|);
      assert init + last == t;
      SymbolsSnoc(init, last);
      QuintetsSnoc(Symbols(init), Alphabet[BinaryValue(last)]);
      QuintetsSymbols(init);
      AlphabetPositions(BinaryValue(last));
      BitsBinaryValue(last);
    }
  }

  /** Reading the bits of some bytes back gives the bytes. */
  lemma {:induction false} BytesOfBitString(bytes: seq<byte>)
    ensures BytesOf(BitString(bytes)) == bytes
  {
    if bytes != [] {
      var init, b := bytes[..|bytes| - 1], bytes[|bytes| - 1];
      assert init + [b] == bytes;
      BytesOfBitStringStep(init, b);
      BytesOfBitString(init);
    }
  }

  lemma BytesOfBitStringStep(init: seq<byte>, b: byte)
    ensures BytesOf(BitString(init + [b])) == BytesOf(BitString(init)) + [b]
  {
    var bits := Bits(b, 8);
    BitStringSnoc(init, b);
    BytesOfSnoc(BitString(init), bits);
    assert Pow2(8) == 256;
    BinaryValueBits(b, 8);
  }

  /** Packing loses nothing: the first 8n bits of the packed string are the n bytes. */
  lemma PackRoundTrip(bytes: seq<byte>)
    ensures Quintets(Pack(bytes))[..8 * |bytes|] == BitString(bytes)
    ensures Unpack(Pack(bytes), |bytes|) == Some(bytes)
  {
    var bits := BitString(bytes);
    QuintetsSymbols(PadZeros(bits));
    BytesOfBitString(bytes);
  }

  /** n bytes pack into 8n / 5 + 1 characters, all from the alphabet. */
  lemma PackShape(bytes: seq<byte>)
    ensures |Pack(bytes)| == 8 * |bytes| / 5 + 1
    ensures forall i :: 0 <= i < |Pack(bytes)| ==> Pack(bytes)[i] in Alphabet
  {
    var m := 8 * |bytes|;
    assert m + PaddingLength(m) == 5 * (m / 5 + 1);
    SymbolsInAlphabet(PadZeros(BitString(bytes)));
  }

  lemma {:induction false} SymbolsInAlphabet(t: string)
    requires |t| % 5 == 0 && IsBitString(t)
    ensures forall i :: 0 <= i < |Symbols(t)| ==> Symbols(t)[i] in Alphabet
  {
    if t != [] {
      var init, last := t[..|t| - 5], t[|t| - 5..];
      BitStringSlice(t, 0, |t| - 5);
      BitStringSlice(t, |t| - 5, |t|);
      assert init + last == t;
      SymbolsSnoc(init, last);
      SymbolsInAlphabet(init);
      var r := Symbols(t);
      forall i | 0 <= i < |r| ensures r[i] in Alphabet {
        if i < |r| - 1 {
          assert r[i] == Symbols(init)[i];
        }
      }
    }
  }

  /** When the bits already fill whole quintets, the second loop still adds five zeros, so the
      packed string ends in an extra '0'. */
  lemma PackEndsInZero(bytes: seq<byte>)
    requires |bytes| % 5 == 0
    ensures PaddingLength(8 * |bytes|) == 5
    ensures Pack(bytes)[|Pack(bytes)| - 1] == '0'
  {
    var bits := BitString(bytes);
    var t := PadZeros(bits);
    assert t[|t| - 5..] == Bits(0, 5) by {
      ZeroBits(5);
    }
    BinaryValueBits(0, 5);
  }
}
