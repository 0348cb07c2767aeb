/** PayBySquareGenerator: a generator holds one payment record, validates it and turns a valid one
    into the PAY by square text that a QR code carries (PayBySquareGenerator.java). */
module Generator {
  import opened Wrappers
  import opened Text
  import opened Payment
  import opened Libraries
  import Validation
  import Record
  import Framing
  import BitPacking

  /** A generator and the record it was built with; the field is final. */
  datatype PayBySquareGenerator = PayBySquareGenerator(data: PaymentData)

  /** The constructor: Objects.requireNonNull(data, "Data is required"). */
  function NewGenerator(data: Option<PaymentData>): (r: Result<PayBySquareGenerator, string>)
    ensures r.Success? <==> data.Some?
    ensures data.None? ==> r == Failure("Data is required")
    ensures r.Success? ==> r.value.data == data.value
  {
    if data.None? then Failure("Data is required") else Success(PayBySquareGenerator(data.value))
  }

  // ---------------------------------------------------------------------------------------------
  // What generateSimplePaymentBarcode computes, stage by stage

  /** The tab-separated record of present-amount data. */
  function RecordText(d: PaymentData, c: Collaborators): string
    requires d.amount.Some?
  {
    Record.Record(d, c.formatAmount(d.amount.value))
  }

  /** dataWithCrc: the record's CRC-32 bytes, then its UTF-8 bytes. */
  function PayloadOf(d: PaymentData, c: Collaborators): seq<byte>
    requires d.amount.Some?
  {
    var bytes := Utf8(RecordText(d, c));
    Framing.Payload(bytes, c.crc32(bytes))
  }

  /** compressedWithLength: the payload's length header, then the compressed payload. */
  function FramedOf(d: PaymentData, c: Collaborators): seq<byte>
    requires d.amount.Some?
  {
    var payload := PayloadOf(d, c);
    Framing.Framed(|payload|, c.lzma(payload))
  }

  /** The result of generateSimplePaymentBarcode: the first validation message as the failure of
      an IOException, or the packed framed bytes. */
  function Barcode(d: PaymentData, c: Collaborators): Result<string, string> {
    var messages := Validation.Messages(d, c.ibanProblem);
    if messages != [] then Failure(messages[0])
    else
      Validation.ValidIff(d, c.ibanProblem);
      Success(BitPacking.Pack(FramedOf(d, c)))
  }

  /** generateSimplePaymentBarcode, step by step as the source runs it. */
  method GenerateSimplePaymentBarcode(g: PayBySquareGenerator, c: Collaborators) returns (r: Result<string, string>)
    ensures r == Barcode(g.data, c)
  {
    var data := g.data;
    var messages := Validation.Validate(data, c.ibanProblem);
    if |messages| > 0 {
      return Failure(messages[0]);
    }
    Validation.ValidIff(data, c.ibanProblem);
    // basic data structure
    var dataStructure := Record.Record(data, c.formatAmount(data.amount.value));
    // CRC-32 in front
    var recordBytes := Utf8(dataStructure);
    var crc := c.crc32(recordBytes);
    var dataWithCrc := Framing.WritePayload(recordBytes, crc);
    // LZMA1
    var compressed := c.lzma(dataWithCrc);
    // length header in front
    var compressedWithLength := Framing.WriteFramed(|dataWithCrc|, compressed);
    // bits, padding, characters
    var bits := BitPacking.ToBitString(compressedWithLength);
    var binaryString := BitPacking.PadToQuintets(bits);
    var result := BitPacking.MapQuintets(binaryString);
    r := Success(result);
  }

  // ---------------------------------------------------------------------------------------------
  // What the result promises

  /** The generator fails exactly on data validate() rejects, and then with the message of the
      first check, in validate()'s order, that fails. */
  lemma BarcodeFailsIffInvalid(d: PaymentData, c: Collaborators)
    ensures Barcode(d, c).Failure? <==> !Validation.Valid(d, c.ibanProblem)
    ensures Barcode(d, c).Failure? ==>
      exists i :: (0 <= i < |Validation.AllChecks| && Validation.Fails(Validation.AllChecks[i], d, c.ibanProblem) &&
                   (forall j :: 0 <= j < i ==> !Validation.Fails(Validation.AllChecks[j], d, c.ibanProblem)) &&
                   Barcode(d, c).error == Validation.Message(Validation.AllChecks[i], d, c.ibanProblem))
  {
    Validation.ValidIff(d, c.ibanProblem);
    if Validation.Messages(d, c.ibanProblem) != [] {
      Validation.FirstMessage(d, c.ibanProblem);
    }
  }

  /** On valid data the barcode is 8n / 5 + 1 characters of the alphabet, n being the length of
      the framed bytes, four more than the compressed payload. */
  lemma BarcodeShape(d: PaymentData, c: Collaborators)
    requires Validation.Valid(d, c.ibanProblem)
    ensures Barcode(d, c).Success?
    ensures var s := Barcode(d, c).value;
      && |s| == 8 * (4 + |c.lzma(PayloadOf(d, c))|) / 5 + 1
      && forall i :: 0 <= i < |s| ==> s[i] in BitPacking.Alphabet
  {
    Validation.ValidIff(d, c.ibanProblem);
    BitPacking.PackShape(FramedOf(d, c));
  }

  /** The frames of a valid barcode read back: its characters give back the framed bytes; those
      start with two zero bytes and the payload length's low sixteen bits, least significant
      first, and go on with the compressed payload; the payload is the record's CRC-32, least
      significant byte first, then the record's UTF-8 bytes, which decode back to the record. */
  lemma BarcodeReadsBack(d: PaymentData, c: Collaborators)
    requires Validation.Valid(d, c.ibanProblem)
    ensures Barcode(d, c).Success?
    ensures var framed := FramedOf(d, c);
      var payload := PayloadOf(d, c);
      && BitPacking.Unpack(Barcode(d, c).value, |framed|) == Some(framed)
      && framed[..2] == [0, 0]
      && Framing.LittleEndian(framed[2..4]) == |payload| % 0x1_0000
      && framed[4..] == c.lzma(payload)
      && |payload| == 4 + |Utf8(RecordText(d, c))|
      && Framing.LittleEndian(payload[..4]) == c.crc32(payload[4..])
      && payload[4..] == Utf8(RecordText(d, c))
      && DecodeUtf8(payload[4..]) == Some(RecordText(d, c))
  {
    Validation.ValidIff(d, c.ibanProblem);
    var framed := FramedOf(d, c);
    var payload := PayloadOf(d, c);
    var bytes := Utf8(RecordText(d, c));
    BitPacking.PackRoundTrip(framed);
    Framing.LengthHeaderLittleEndian(|payload|);
    assert framed[..4] == Framing.LengthHeader(|payload|);
    assert framed[2..4] == Framing.LengthHeader(|payload|)[2..];
    assert payload[..4] == Framing.CrcPrefix(c.crc32(bytes));
    assert payload[4..] == bytes;
    Framing.CrcPrefixLittleEndian(c.crc32(bytes));
    DecodeUtf8Encode(RecordText(d, c));
  }

  /** The record inside a valid barcode splits back into its eighteen fields, provided none of
      the texts it copies holds a tab. */
  lemma BarcodeRecordFields(d: PaymentData, c: Collaborators)
    requires Validation.Valid(d, c.ibanProblem)
    requires Record.TabFreeData(d, c.formatAmount(d.amount.value))
    ensures Record.Split(RecordText(d, c)) == [""] + Record.Fields(d, c.formatAmount(d.amount.value))
  {
    Record.RecordSplits(d, c.formatAmount(d.amount.value));
  }
}
