# jpaybysqr: a verified model of the PAY by square generator

jpaybysqr turns a Slovak "PAY by square" payment order into the text that goes into its QR
code. `PayBySquareGenerator` holds one `PaymentData` record. Its `validate()` lists what is
wrong with the record. Its `generateSimplePaymentBarcode()` builds the result in five steps:

1. a tab-separated record;
2. that record's CRC-32 prepended, least significant byte first;
3. LZMA1 compression;
4. a four-byte length header prepended;
5. the bytes written out as base32hex characters, five bits per character.

This project models that pipeline in Dafny and proves what each stage promises.

| file | models |
|---|---|
| `Wrappers.dfy` | `Option` and `Result` |
| `Text.dfy` | `String.length()` in UTF-16 units; UTF-8 encoding (RFC 3629) with a decoder; decimal rendering |
| `Payment.dfy` | `PaymentData` and its two constructors |
| `Libraries.dfy` | the foreign pieces: IBAN check, amount formatting, CRC-32, LZMA |
| `Validation.dfy` | `validate()` as an imperative method, against a specification of messages in check order |
| `Record.dfy` | the tab-separated record and the yyyyMMdd date, with a splitter that reads the record back |
| `Framing.dfy` | `longToBytes`, `intToBytes`, `ByteArrayOutputStream` (a class) and the two frames |
| `BitPacking.dfy` | the three loops: bytes to bits, zero padding, quintets to characters; also an unpacker that inverts them |
| `Generator.dfy` | the constructor's null check, `generateSimplePaymentBarcode` as a method, and end-to-end lemmas |

IBAN validation, `DecimalFormat`, CRC-32 and LZMA are library code. They enter as function-valued
fields of `Libraries.Collaborators`. Every property proved here therefore holds whatever those
libraries compute.

`ByteBuffer` fills the arrays of `longToBytes` and `intToBytes` most significant byte first, and
the code copies their bytes in reverse order. The CRC prefix is `crcBytes[7], [6], [5], [4]`,
which puts the CRC least significant byte first. The length header is `0, 0, intBytes[3],
intBytes[2]`, which puts the length's low sixteen bits least significant byte first. The model
follows the order the code writes.

## Model

| member | source | states |
|---|---|---|
| Text.Utf16Length | src/main/java/eu/assembly11/jpaybysqr/PayBySquareGenerator.java:62-81 | `String.length()` of a string counts between one and two UTF-16 units per character |
| Text.Utf16LengthBmp | src/main/java/eu/assembly11/jpaybysqr/PayBySquareGenerator.java:62-81 | a string without supplementary characters has one UTF-16 unit per character |
| Text.DecodeUtf8Encode | src/main/java/eu/assembly11/jpaybysqr/PayBySquareGenerator.java:131 | the UTF-8 bytes of the record decode back to the record |
| Text.Utf8Append | src/main/java/eu/assembly11/jpaybysqr/PayBySquareGenerator.java:131 | the UTF-8 encoding of a concatenation is the concatenation of the encodings |
| Text.Utf8Ascii | src/main/java/eu/assembly11/jpaybysqr/PayBySquareGenerator.java:131 | an ASCII string encodes to one byte per character, each equal to the character's code |
| Text.DecimalRoundTrip | src/main/java/eu/assembly11/jpaybysqr/PayBySquareGenerator.java:91-93 | the `%d` rendering of a non-negative number reads back as that number |
| Text.DecimalStringLength | src/main/java/eu/assembly11/jpaybysqr/PayBySquareGenerator.java:114 | a number has at most w + 1 digits exactly when it is below 10^(w+1) |
| Payment.NewPaymentData | src/main/java/eu/assembly11/jpaybysqr/PaymentData.java:66-79 | succeeds iff amount and IBAN are present; a missing amount is reported before a missing IBAN, with the source's messages; every field is stored as passed |
| Payment.NewSimplePaymentData | src/main/java/eu/assembly11/jpaybysqr/PaymentData.java:81-84 | same null rejection; currency, symbols and note are passed through; the date is today; swift, name, specific symbol and address lines are absent |
| Validation.MessageTextsReadBack | src/main/java/eu/assembly11/jpaybysqr/PayBySquareGenerator.java:87-93 | each message embeds its property name at a fixed place, the length reads back as the number given, and the two kinds of message never coincide |
| Validation.Validate | src/main/java/eu/assembly11/jpaybysqr/PayBySquareGenerator.java:44-85 | the list the eleven checks build equals `Validation.Messages`, the failing checks' messages in order |
| Validation.AddBeneficiaryMessages | src/main/java/eu/assembly11/jpaybysqr/PayBySquareGenerator.java:62-70 | the name and address checks append exactly the messages of the checks that fail |
| Validation.AddSymbolMessages | src/main/java/eu/assembly11/jpaybysqr/PayBySquareGenerator.java:71-82 | the note and symbol checks append exactly the messages of the checks that fail |
| Validation.ValidIff | src/main/java/eu/assembly11/jpaybysqr/PayBySquareGenerator.java:44-85 | the list is empty iff every field condition holds: amount, IBAN and currency present, IBAN accepted, and no length over 70/70/70/140/10/4/10 |
| Validation.MessagesInOrder | src/main/java/eu/assembly11/jpaybysqr/PayBySquareGenerator.java:44-85 | the list is the messages of the failing checks, one per check, in the fixed order amount, iban, iban format, currency, name, addr1, addr2, note, variable, constant, specific symbol |
| Validation.CollectedOne | src/main/java/eu/assembly11/jpaybysqr/PayBySquareGenerator.java:44-85 | a failing check contributes exactly its message and a passing one contributes nothing |
| Validation.IbanMessages | src/main/java/eu/assembly11/jpaybysqr/PayBySquareGenerator.java:49-58 | the IBAN gives "Property iban is required" when absent, the validator's message when rejected, and nothing when accepted |
| Validation.IbanAbsentIgnoresValidator | src/main/java/eu/assembly11/jpaybysqr/PayBySquareGenerator.java:49-51 | without an IBAN the validator's answer changes nothing and "Property iban is required" is in the list |
| Validation.MessagesBound | src/main/java/eu/assembly11/jpaybysqr/PayBySquareGenerator.java:44-85 | at most ten messages |
| Validation.AllChecksOnce | src/main/java/eu/assembly11/jpaybysqr/PayBySquareGenerator.java:44-85 | the check order names every check exactly once |
| Validation.OnlyFailure | src/main/java/eu/assembly11/jpaybysqr/PayBySquareGenerator.java:44-85 | when exactly one check fails, the list is that check's message alone |
| Validation.FirstMessage | src/main/java/eu/assembly11/jpaybysqr/PayBySquareGenerator.java:44-85 | the first message is that of the first failing check in the order |
| Validation.FullRecordIsValid | src/test/java/eu/assembly11/jpaybysqr/PayBySquareGeneratorTest.java:25-28 | a fully populated record with an accepted IBAN and texts within limits has no messages |
| Validation.InvalidIbanCase | src/test/java/eu/assembly11/jpaybysqr/PayBySquareGeneratorTest.java:34-35 | a six-argument record whose IBAN is rejected has exactly one message, the validator's |
| Validation.ValidSimpleCase | src/test/java/eu/assembly11/jpaybysqr/PayBySquareGeneratorTest.java:38-39 | a six-argument record with accepted IBAN, currency and symbols within limits has no messages |
| Validation.MissingCurrencyCase | src/test/java/eu/assembly11/jpaybysqr/PayBySquareGeneratorTest.java:42-43 | without a currency it has exactly one message, "Property currency is required" |
| Validation.LongVariableSymbolCase | src/test/java/eu/assembly11/jpaybysqr/PayBySquareGeneratorTest.java:46-47 | an 11-unit variable symbol gives exactly one message, "Max length of property variableSymbol is 10" |
| Validation.SimpleRecord | src/main/java/eu/assembly11/jpaybysqr/PaymentData.java:81-84 | the record named in the test cases is the one the six-argument constructor builds |
| Record.Padded | src/main/java/eu/assembly11/jpaybysqr/PayBySquareGenerator.java:114 | a zero-padded date field has at least its width, only digits, and reads back as its number |
| Record.FormatDateRoundTrip | src/main/java/eu/assembly11/jpaybysqr/PayBySquareGenerator.java:30 | a date with a four-digit year formats as eight digits that parse back to the same date |
| Record.SplitJoin | src/main/java/eu/assembly11/jpaybysqr/PayBySquareGenerator.java:109-127 | splitting tab-joined, tab-free fields on tabs gives the fields back |
| Record.FieldsTabFree | src/main/java/eu/assembly11/jpaybysqr/PayBySquareGenerator.java:109-127 | when no copied text holds a tab, no field does |
| Record.RecordSplits | src/main/java/eu/assembly11/jpaybysqr/PayBySquareGenerator.java:109-127 | splitting the record on tabs gives an empty part, then the eighteen fields |
| Record.RecordFixedParts | src/main/java/eu/assembly11/jpaybysqr/PayBySquareGenerator.java:109-127 | 19 parts, the first empty; "1", "1", the amount, "" at the ninth field, "1" at the eleventh, "0" and "0" at the fourteenth and fifteenth |
| Record.RecordDataParts | src/main/java/eu/assembly11/jpaybysqr/PayBySquareGenerator.java:109-127 | each data field is its value when present; when absent, currency, the two symbols and the IBAN read "null" and the other fields "" |
| Framing.IntToBytesBigEndian | src/main/java/eu/assembly11/jpaybysqr/PayBySquareGenerator.java:183-187 | `intToBytes` is the 32-bit two's complement, most significant byte first |
| Framing.LongOfUnsignedInt | src/main/java/eu/assembly11/jpaybysqr/PayBySquareGenerator.java:177-181 | `longToBytes` of a 32-bit unsigned value is four zero bytes followed by its `intToBytes` |
| Framing.CrcPrefixLittleEndian | src/main/java/eu/assembly11/jpaybysqr/PayBySquareGenerator.java:132-134 | the CRC prefix is c & 0xFF, (c >> 8) & 0xFF, (c >> 16) & 0xFF, (c >> 24) & 0xFF, and reads back little-endian as c |
| Framing.LengthHeaderLittleEndian | src/main/java/eu/assembly11/jpaybysqr/PayBySquareGenerator.java:151-153 | the header is 0, 0, len & 0xFF, (len >> 8) & 0xFF; its last two bytes read back as the length modulo 2^16 |
| Framing.ByteStream.constructor | src/main/java/eu/assembly11/jpaybysqr/PayBySquareGenerator.java:133 | a new stream is empty |
| Framing.ByteStream.Write | src/main/java/eu/assembly11/jpaybysqr/PayBySquareGenerator.java:134-135 | writing appends the bytes to what was written before |
| Framing.ByteStream.ToByteArray | src/main/java/eu/assembly11/jpaybysqr/PayBySquareGenerator.java:136 | the result is everything written so far |
| Framing.Payload | src/main/java/eu/assembly11/jpaybysqr/PayBySquareGenerator.java:129-136 | the payload is four bytes longer than the record's bytes |
| Framing.Framed | src/main/java/eu/assembly11/jpaybysqr/PayBySquareGenerator.java:150-155 | the framed data is four bytes longer than the compressed data |
| Framing.WritePayload | src/main/java/eu/assembly11/jpaybysqr/PayBySquareGenerator.java:130-136 | the bytes written into a fresh stream are the CRC prefix followed by the record bytes |
| Framing.WriteFramed | src/main/java/eu/assembly11/jpaybysqr/PayBySquareGenerator.java:151-155 | the bytes written into a fresh stream are the length header followed by the compressed bytes |
| BitPacking.BinaryValueBits | src/main/java/eu/assembly11/jpaybysqr/PayBySquareGenerator.java:171 | parsing the w low bits of a number below 2^w in base 2 gives the number |
| BitPacking.BitsBinaryValue | src/main/java/eu/assembly11/jpaybysqr/PayBySquareGenerator.java:171 | a string of w bits parses to a number below 2^w whose w bits are that string |
| BitPacking.ToBinaryString | src/main/java/eu/assembly11/jpaybysqr/PayBySquareGenerator.java:160 | `Integer.toBinaryString` gives the bits of the number without leading zeros; its value fits in its length |
| BitPacking.ToBinaryStringWidth | src/main/java/eu/assembly11/jpaybysqr/PayBySquareGenerator.java:160 | a nonzero number below 2^w has at most w binary digits |
| BitPacking.PadThenReplace | src/main/java/eu/assembly11/jpaybysqr/PayBySquareGenerator.java:160 | padding with spaces and then replacing the spaces by '0' pads with zeros |
| BitPacking.ByteBitsAreBits | src/main/java/eu/assembly11/jpaybysqr/PayBySquareGenerator.java:160 | each byte contributes exactly its eight bits, most significant first, zero-padded |
| BitPacking.BitString | src/main/java/eu/assembly11/jpaybysqr/PayBySquareGenerator.java:158-161 | the bit string of n bytes has 8n characters, all bits |
| BitPacking.ToBitString | src/main/java/eu/assembly11/jpaybysqr/PayBySquareGenerator.java:158-161 | the first loop produces the bytes' bits, one byte after another |
| BitPacking.PaddingLength | src/main/java/eu/assembly11/jpaybysqr/PayBySquareGenerator.java:162-163 | 1 to 5 padding bits bring the length to a multiple of five; there are 5 exactly when the length already is one |
| BitPacking.PadZeros | src/main/java/eu/assembly11/jpaybysqr/PayBySquareGenerator.java:162-165 | padding keeps the bits, appends only '0's, adds 1 to 5 of them and reaches a multiple of five |
| BitPacking.PadToQuintets | src/main/java/eu/assembly11/jpaybysqr/PayBySquareGenerator.java:162-165 | the second loop produces the padded bit string |
| BitPacking.Symbols | src/main/java/eu/assembly11/jpaybysqr/PayBySquareGenerator.java:169-173 | one character per quintet |
| BitPacking.SymbolsAt | src/main/java/eu/assembly11/jpaybysqr/PayBySquareGenerator.java:169-173 | character k is `VALID_CHARSET[v]`, where v < 32 is the value of quintet k read most significant bit first |
| BitPacking.MapQuintets | src/main/java/eu/assembly11/jpaybysqr/PayBySquareGenerator.java:169-173 | the third loop produces the symbols of the padded bit string |
| BitPacking.AlphabetPositions | src/main/java/eu/assembly11/jpaybysqr/PayBySquareGenerator.java:32 | the alphabet's characters are distinct: the character at position k maps back to k |
| BitPacking.QuintetsSymbols | src/main/java/eu/assembly11/jpaybysqr/PayBySquareGenerator.java:169-173 | reading each character back as five bits gives the padded bit string |
| BitPacking.BytesOfBitString | src/main/java/eu/assembly11/jpaybysqr/PayBySquareGenerator.java:158-161 | reading the bit string back eight bits at a time gives the bytes |
| BitPacking.PackRoundTrip | src/main/java/eu/assembly11/jpaybysqr/PayBySquareGenerator.java:157-174 | the first 8n bits behind the packed text are the n bytes' bits, and unpacking them gives the bytes back |
| BitPacking.PackShape | src/main/java/eu/assembly11/jpaybysqr/PayBySquareGenerator.java:157-174 | n bytes pack into 8n / 5 + 1 characters, every one from the alphabet |
| BitPacking.PackEndsInZero | src/main/java/eu/assembly11/jpaybysqr/PayBySquareGenerator.java:162-165 | when n is a multiple of five, five zero bits are added and the last character is '0' |
| Generator.NewGenerator | src/main/java/eu/assembly11/jpaybysqr/PayBySquareGenerator.java:36-39 | a missing record fails with "Data is required"; otherwise the generator holds the record |
| Generator.GenerateSimplePaymentBarcode | src/main/java/eu/assembly11/jpaybysqr/PayBySquareGenerator.java:102-175 | validation, record, CRC framing, compression, length framing and the three loops produce the specified result |
| Generator.BarcodeFailsIffInvalid | src/main/java/eu/assembly11/jpaybysqr/PayBySquareGenerator.java:102-106 | generation fails iff the record is invalid, and then with the message of the first failing check |
| Generator.BarcodeShape | src/main/java/eu/assembly11/jpaybysqr/PayBySquareGenerator.java:150-174 | a valid record yields 8(4 + m) / 5 + 1 alphabet characters, m being the compressed payload's length |
| Generator.BarcodeReadsBack | src/main/java/eu/assembly11/jpaybysqr/PayBySquareGenerator.java:109-174 | the text unpacks to the framed bytes: 0, 0, the payload length mod 2^16 little-endian, then the compressed payload; the payload is 4 + the record's UTF-8 length, starts with the little-endian CRC of the rest, and the rest is the record's UTF-8 bytes, which decode back to the record |
| Generator.BarcodeRecordFields | src/main/java/eu/assembly11/jpaybysqr/PayBySquareGenerator.java:109-127 | the record of a valid, tab-free payment splits back into an empty part and its eighteen fields |

## Left out

- IBAN validation (iban4j `IbanUtil.validate`) is a parameter: a function from the IBAN to an optional message. The ISO 13616 country tables and check digits are not modelled.
- `DecimalFormat("0.00")` is a parameter from amount to text. Its rounding and its locale-dependent separator are not modelled. The record lemmas that split the record need the amount text to be tab-free.
- The CRC-32 value is a parameter returning a 32-bit unsigned number. Only where its bytes go is modelled.
- LZMA1 compression (lc = 3, lp = 0, pb = 2, 128 KiB dictionary, end marker) is a parameter from bytes to bytes. For that reason the expected 177-character string of the unit test cannot be reproduced.
- `String.format("%d")` in the length messages and `SimpleDateFormat` render digits in the default locale. The model uses ASCII digits, that is, a locale whose zero digit is '0'.
- `SimpleDateFormat` with the default time zone is not modelled. A date is the calendar day it falls on in that zone. `new Date()` in the six-argument constructor is a parameter, `today`.
- Strings are sequences of Unicode scalar values. Java strings with unpaired surrogates are outside the model, because Dafny characters cannot hold them.
- `generateSimplePaymentBarcodeImage` (QR rendering with ZXing and AWT) is not modelled: it is image output.
- Concurrent use of the shared static formatters is not modelled.
- `PaymentData`'s public fields can be set to null after construction. The model therefore has every field optional and gives `validate` arbitrary records. Reassignment itself is not modelled, because the generator never changes the record.
- The payload length handed to `intToBytes` is an `int`. The model takes any length, and the header keeps its low sixteen bits, as the code does.
