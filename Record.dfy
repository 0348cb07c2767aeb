/** The "basic data structure" of generateSimplePaymentBarcode (PayBySquareGenerator.java, lines
    109-127): a leading tab, then eighteen fields separated by tabs. */
module Record {
  import opened Wrappers
  import opened Text
  import opened Payment

  /** The tab that starts the record and separates its fields. */
  const Tab: char := '\t'

  /** n in decimal, padded on the left with zeros to at least w digits (a SimpleDateFormat field
      of w letters). */
  function Padded(n: nat, w: nat): (r: string)
    ensures |r| == if |DecimalString(n)| < w then w else |DecimalString(n)|
    ensures forall i :: 0 <= i < |r| ==> IsDigit(r[i])
    ensures DecimalValue(r) == n
  {
    var digits := DecimalString(n);
    DecimalRoundTrip(n);
    if |digits| < w then
      DecimalValueLeadingZeros(w - |digits|, digits);
      Repeat('0', w - |digits|) + digits
    else digits
  }

  /** DATE_FORMAT.format(date) with the pattern "yyyyMMdd". */
  function FormatDate(date: Date): string {
    Padded(date.year, 4) + Padded(date.month, 2) + Padded(date.day, 2)
  }

  /** Reads a yyyyMMdd string back: the inverse of FormatDate on four-digit years. */
  function ParseDate(s: string): Option<Date> {
    if |s| == 8 && (forall i :: 0 <= i < 8 ==> IsDigit(s[i])) then
      Some(Date(DecimalValue(s[..4]), DecimalValue(s[4..6]), DecimalValue(s[6..])))
    else None
  }

  /** A date of a four-digit year formats to eight digits that read back as the same date. */
  lemma FormatDateRoundTrip(date: Date)
    requires date.year < 10000 && 1 <= date.month <= 12 && 1 <= date.day <= 31
    ensures |FormatDate(date)| == 8
    ensures ParseDate(FormatDate(date)) == Some(date)
  {
    DecimalStringLength(date.year, 3);
    DecimalStringLength(date.month, 1);
    DecimalStringLength(date.day, 1);
    var y, m, d := Padded(date.year, 4), Padded(date.month, 2), Padded(date.day, 2);
    var s := FormatDate(date);
    assert s[..4] == y && s[4..6] == m && s[6..] == d;
  }

  /** `x != null ? x : ""`: an absent text becomes the empty field. */
  function OrEmpty(x: Option<string>): string {
    if x.Some? then x.value else ""
  }

  /** String concatenation of a possibly null reference: an absent text becomes "null". */
  function OrNull(x: Option<string>): string {
    if x.Some? then x.value else "null"
  }

  /** The eighteen fields in their order; `amountText` is AMOUNT_FORMAT.format(data.amount). */
  function Fields(d: PaymentData, amountText: string): (fs: seq<string>)
    ensures |fs| == 18
  {
    [ "1",                                              // payment
      "1",                                              // simple payment
      amountText,
      OrNull(d.currency),
      if d.date.Some? then FormatDate(d.date.value) else "",
      OrNull(d.variableSymbol),
      OrNull(d.constantSymbol),
      OrEmpty(d.specificSymbol),
      "",                                               // SEPA reference, left empty
      OrEmpty(d.note),
      "1",                                              // to an account
      OrNull(d.iban),
      OrEmpty(d.swift),
      "0",                                              // recurring
      "0",                                              // direct debit
      OrEmpty(d.beneficiaryName),
      OrEmpty(d.beneficiaryAddr1),
      OrEmpty(d.beneficiaryAddr2) ]
  }

  /** The fields joined with a tab between each two. */
  function Join(fs: seq<string>): string {
    if fs == [] then ""
    else if |fs| == 1 then fs[0]
    else fs[0] + [Tab] + Join(fs[1..])
  }

  /** The record: a tab, then the fields joined by tabs. */
  function Record(d: PaymentData, amountText: string): string {
    [Tab] + Join(Fields(d, amountText))
  }

  /** The parts of s between tabs, empty parts included: n tabs give n + 1 parts. */
  function Split(s: string): (parts: seq<string>)
    ensures |parts| >= 1
  {
    if s == [] then [""]
    else
      var rest := Split(s[1..]);
      if s[0] == Tab then [""] + rest
      else [[s[0]] + rest[0]] + rest[1..]
  }

  /** True if no text in fs contains a tab. */
  predicate TabFree(fs: seq<string>) {
    forall i :: 0 <= i < |fs| ==> Tab !in fs[i]
  }

  /** A tab-free text, a tab and more split into the text followed by the parts of the rest. */
  lemma {:induction false} SplitPrefix(x: string, s: string)
    requires Tab !in x
    ensures Split(x + [Tab] + s) == [x] + Split(s)
  {
    if x == [] {
      assert x + [Tab] + s == [Tab] + s;
      assert ([Tab] + s)[1..] == s;
    } else {
      assert (x + [Tab] + s)[1..] == x[1..] + [Tab] + s;
      assert Tab !in x[1..] by {
        forall c | c in x[1..] ensures c in x { }
      }
      SplitPrefix(x[1..], s);
      assert [x[0]] + x[1..] == x;
    }
  }

  /** A tab-free text is one part. */
  lemma {:induction false} SplitSingle(x: string)
    requires Tab !in x
    ensures Split(x) == [x]
  {
    if x != [] {
      assert Tab !in x[1..] by {
        forall c | c in x[1..] ensures c in x { }
      }
      SplitSingle(x[1..]);
      assert [x[0]] + x[1..] == x;
    }
  }

  /** Split undoes Join on tab-free fields. */
  lemma {:induction false} SplitJoin(fs: seq<string>)
    requires fs != [] && TabFree(fs)
    ensures Split(Join(fs)) == fs
  {
    if |fs| == 1 {
      SplitSingle(fs[0]);
    } else {
      assert TabFree(fs[1..]) by {
        forall i | 0 <= i < |fs| - 1 ensures Tab !in fs[1..][i] {
          assert fs[1..][i] == fs[i + 1];
        }
      }
      SplitJoin(fs[1..]);
      SplitPrefix(fs[0], Join(fs[1..]));
      assert [fs[0]] + fs[1..] == fs;
    }
  }

  /** True if an optional text has no tab. */
  predicate NoTab(x: Option<string>) {
    x.Some? ==> Tab !in x.value
  }

  /** No text the record copies from the data contains a tab. */
  predicate TabFreeData(d: PaymentData, amountText: string) {
    && Tab !in amountText
    && NoTab(d.currency) && NoTab(d.variableSymbol) && NoTab(d.constantSymbol)
    && NoTab(d.specificSymbol) && NoTab(d.note) && NoTab(d.iban) && NoTab(d.swift)
    && NoTab(d.beneficiaryName) && NoTab(d.beneficiaryAddr1) && NoTab(d.beneficiaryAddr2)
  }

  /** A formatted date is all digits, so never a tab. */
  lemma FormatDateTabFree(date: Date)
    ensures Tab !in FormatDate(date)
  {
    var s := FormatDate(date);
    assert forall i :: 0 <= i < |s| ==> IsDigit(s[i]);
  }

  /** The fields of tab-free data are tab-free. */
  lemma FieldsTabFree(d: PaymentData, amountText: string)
    requires TabFreeData(d, amountText)
    ensures TabFree(Fields(d, amountText))
  {
    var date := if d.date.Some? then FormatDate(d.date.value) else "";
    assert Tab !in date by {
      if d.date.Some? {
        FormatDateTabFree(d.date.value);
      }
    }
    var fs := Fields(d, amountText);
    assert forall i :: 0 <= i < 6 ==> Tab !in fs[i];
    assert forall i :: 6 <= i < 12 ==> Tab !in fs[i];
    assert forall i :: 12 <= i < 18 ==> Tab !in fs[i];
  }

  /** Splitting the record on tabs undoes its construction: an empty part before the leading
      tab, then the eighteen fields. */
  lemma RecordSplits(d: PaymentData, amountText: string)
    requires TabFreeData(d, amountText)
    ensures Split(Record(d, amountText)) == [""] + Fields(d, amountText)
  {
    var fs := Fields(d, amountText);
    FieldsTabFree(d, amountText);
    SplitJoin(fs);
    assert Record(d, amountText) == [] + [Tab] + Join(fs);
    SplitPrefix([], Join(fs));
  }

  /** Splitting the record on tabs gives 19 parts: an empty one before the leading tab, then the
      eighteen fields, of which the first two read "1", the third is the amount, the ninth is
      empty, the eleventh reads "1" and the fourteenth and fifteenth read "0". */
  lemma RecordFixedParts(d: PaymentData, amountText: string)
    requires TabFreeData(d, amountText)
    ensures var parts := Split(Record(d, amountText));
      && |parts| == 19 && parts[0] == ""
      && parts[1] == "1" && parts[2] == "1" && parts[3] == amountText && parts[9] == ""
      && parts[11] == "1" && parts[14] == "0" && parts[15] == "0"
  {
    RecordSplits(d, amountText);
  }

  /** The parts that copy the data: an absent currency, variable symbol, constant symbol or IBAN
      reads "null"; an absent date, specific symbol, note, SWIFT code, name or address line reads
      as empty; a present one reads as its value (the date as yyyyMMdd). */
  lemma RecordDataParts(d: PaymentData, amountText: string)
    requires TabFreeData(d, amountText)
    ensures var parts := Split(Record(d, amountText));
      && |parts| == 19
      && parts[4] == (if d.currency.Some? then d.currency.value else "null")
      && parts[5] == (if d.date.Some? then FormatDate(d.date.value) else "")
      && parts[6] == (if d.variableSymbol.Some? then d.variableSymbol.value else "null")
      && parts[7] == (if d.constantSymbol.Some? then d.constantSymbol.value else "null")
      && parts[8] == (if d.specificSymbol.Some? then d.specificSymbol.value else "")
      && parts[10] == (if d.note.Some? then d.note.value else "")
      && parts[12] == (if d.iban.Some? then d.iban.value else "null")
      && parts[13] == (if d.swift.Some? then d.swift.value else "")
      && parts[16] == (if d.beneficiaryName.Some? then d.beneficiaryName.value else "")
      && parts[17] == (if d.beneficiaryAddr1.Some? then d.beneficiaryAddr1.value else "")
      && parts[18] == (if d.beneficiaryAddr2.Some? then d.beneficiaryAddr2.value else "")
  {
    RecordSplits(d, amountText);
  }
}
