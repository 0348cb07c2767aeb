/** The third-party and platform code the generator calls but whose behaviour is not part of this
    model. Each is a total function passed in by the caller, so every statement proved here holds
    whatever those libraries compute. */
module Libraries {
  import opened Wrappers
  import opened Text
  import opened Payment

  /** The value of java.util.zip.CRC32.getValue(): a 32-bit unsigned checksum in a long. */
  type Crc32Value = x: int | 0 <= x < 0x1_0000_0000

  datatype Collaborators = Collaborators(
    /** org.iban4j.IbanUtil.validate: None when the IBAN passes the ISO 13616 length and check-digit
        test, Some(message of the exception it throws) otherwise. */
    ibanProblem: string -> Option<string>,
    /** new DecimalFormat("0.00").format(amount) under the default locale. */
    formatAmount: Decimal -> string,
    /** The CRC-32 (ISO-HDLC, IEEE 802.3 polynomial) of a byte sequence. */
    crc32: seq<byte> -> Crc32Value,
    /** org.tukaani.xz.LZMAOutputStream with lc = 3, lp = 0, pb = 2, a 128 KiB dictionary and an
        end-of-stream marker: the raw LZMA1 stream of the input. */
    lzma: seq<byte> -> seq<byte>)
}
