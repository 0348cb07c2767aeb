/** PayBySquareGenerator.validate(): eleven checks in a fixed order, each adding at most one message,
    none stopping the others; the IBAN format check runs only when an IBAN is present. */
module Validation {
  import opened Wrappers
  import opened Text
  import opened Payment

  /** "Property %s is required" */
  function RequiredText(property: string): string {
    "Property " + property + " is required"
  }

  /** "Max length of property %s is %d" */
  function MaxLengthText(property: string, length: nat): string {
    "Max length of property " + property + " is " + DecimalString(length)
  }

  /** Both messages name their property where a reader finds it again, the length message's
      number reads back as the length, and the two kinds never coincide. */
  lemma MessageTextsReadBack(property: string, other: string, length: nat)
    ensures var m := RequiredText(property);
      |m| == |property| + 21 && m[..9] == "Property " && m[9..|m| - 12] == property &&
      m[|m| - 12..] == " is required"
    ensures var m := MaxLengthText(property, length);
      |m| > |property| + 27 && m[..23] == "Max length of property " &&
      m[23..23 + |property|] == property && m[23 + |property|..27 + |property|] == " is " &&
      DecimalValue(m[27 + |property|..]) == length
    ensures RequiredText(property) != MaxLengthText(other, length)
  {
    DecimalRoundTrip(length);
    var m := MaxLengthText(property, length);
    assert m[27 + |property|..] == DecimalString(length);
    assert RequiredText(property)[0] != MaxLengthText(other, length)[0];
  }

  /** The checks of validate(), one constructor each. */
  datatype Check =
    | AmountRequired
    | IbanRequired
    | IbanFormat
    | CurrencyRequired
    | BeneficiaryNameLength
    | BeneficiaryAddr1Length
    | BeneficiaryAddr2Length
    | NoteLength
    | VariableSymbolLength
    | ConstantSymbolLength
    | SpecificSymbolLength

  /** True if a bounded property is present and longer, in UTF-16 units, than its maximum. */
  predicate TooLong(value: Option<string>, max: nat) {
    value.Some? && Utf16Length(value.value) > max
  }

  /** Whether check c adds a message for d; `ibanProblem` stands for IbanUtil.validate. */
  predicate Fails(c: Check, d: PaymentData, ibanProblem: string -> Option<string>) {
    match c
    case AmountRequired => d.amount.None?
    case IbanRequired => d.iban.None?
    case IbanFormat => d.iban.Some? && ibanProblem(d.iban.value).Some?
    case CurrencyRequired => d.currency.None?
    case BeneficiaryNameLength => TooLong(d.beneficiaryName, 70)
    case BeneficiaryAddr1Length => TooLong(d.beneficiaryAddr1, 70)
    case BeneficiaryAddr2Length => TooLong(d.beneficiaryAddr2, 70)
    case NoteLength => TooLong(d.note, 140)
    case VariableSymbolLength => TooLong(d.variableSymbol, 10)
    case ConstantSymbolLength => TooLong(d.constantSymbol, 4)
    case SpecificSymbolLength => TooLong(d.specificSymbol, 10)
  }

  /** The message IbanUtil.validate's exception carries, when it throws. */
  function IbanMessage(d: PaymentData, ibanProblem: string -> Option<string>): string {
    if d.iban.Some? && ibanProblem(d.iban.value).Some? then ibanProblem(d.iban.value).value else ""
  }

  /** The message check c adds when it fails. */
  function Message(c: Check, d: PaymentData, ibanProblem: string -> Option<string>): string {
    match c
    case AmountRequired => RequiredText("amount")
    case IbanRequired => RequiredText("iban")
    case IbanFormat => IbanMessage(d, ibanProblem)
    case CurrencyRequired => RequiredText("currency")
    case BeneficiaryNameLength => MaxLengthText("beneficiaryName", 70)
    case BeneficiaryAddr1Length => MaxLengthText("beneficiaryAddr1", 70)
    case BeneficiaryAddr2Length => MaxLengthText("beneficiaryAddr2", 70)
    case NoteLength => MaxLengthText("note", 140)
    case VariableSymbolLength => MaxLengthText("variableSymbol", 10)
    case ConstantSymbolLength => MaxLengthText("constantSymbol", 4)
    case SpecificSymbolLength => MaxLengthText("specificSymbol", 10)
  }

  /** The list after one statement of validate(), `if (failed) messages.add(message)`. */
  function Append(messages: seq<string>, failed: bool, message: string): seq<string> {
    if failed then messages + [message] else messages
  }

  /** The messages of validate()'s first four checks (lines 46-61), which test for presence. */
  function RequiredMessages(d: PaymentData, p: string -> Option<string>): seq<string> {
    var ms := Append([], d.amount.None?, RequiredText("amount"));
    var ms := Append(ms, d.iban.None?, RequiredText("iban"));
    var ms := Append(ms, d.iban.Some? && p(d.iban.value).Some?, IbanMessage(d, p));
    Append(ms, d.currency.None?, RequiredText("currency"))
  }

  /** `messages` followed by the messages of the three length checks on the beneficiary
      (lines 62-70). */
  function BeneficiaryMessages(messages: seq<string>, d: PaymentData): seq<string> {
    var ms := Append(messages, TooLong(d.beneficiaryName, 70), MaxLengthText("beneficiaryName", 70));
    var ms := Append(ms, TooLong(d.beneficiaryAddr1, 70), MaxLengthText("beneficiaryAddr1", 70));
    Append(ms, TooLong(d.beneficiaryAddr2, 70), MaxLengthText("beneficiaryAddr2", 70))
  }

  /** `messages` followed by the messages of the four length checks on the note and the symbols
      (lines 71-82). */
  function SymbolMessages(messages: seq<string>, d: PaymentData): seq<string> {
    var ms := Append(messages, TooLong(d.note, 140), MaxLengthText("note", 140));
    var ms := Append(ms, TooLong(d.variableSymbol, 10), MaxLengthText("variableSymbol", 10));
    var ms := Append(ms, TooLong(d.constantSymbol, 4), MaxLengthText("constantSymbol", 4));
    Append(ms, TooLong(d.specificSymbol, 10), MaxLengthText("specificSymbol", 10))
  }

  /** What validate() returns: each check's message, if it fails, in the order the source runs them. */
  function Messages(d: PaymentData, p: string -> Option<string>): seq<string> {
    SymbolMessages(BeneficiaryMessages(RequiredMessages(d, p), d), d)
  }

  /** The data validate() accepts, stated field by field. */
  predicate Valid(d: PaymentData, ibanProblem: string -> Option<string>) {
    && d.amount.Some?
    && d.iban.Some? && ibanProblem(d.iban.value).None?
    && d.currency.Some?
    && !TooLong(d.beneficiaryName, 70)
    && !TooLong(d.beneficiaryAddr1, 70)
    && !TooLong(d.beneficiaryAddr2, 70)
    && !TooLong(d.note, 140)
    && !TooLong(d.variableSymbol, 10)
    && !TooLong(d.constantSymbol, 4)
    && !TooLong(d.specificSymbol, 10)
  }

  /** validate() as the source writes it: a list appended to by guarded statements. */
  method Validate(d: PaymentData, ibanProblem: string -> Option<string>) returns (messages: seq<string>)
    ensures messages == Messages(d, ibanProblem)
  {
    messages := [];
    if d.amount.None? {
      messages := messages + [RequiredText("amount")];
    }
    if d.iban.None? {
      messages := messages + [RequiredText("iban")];
    } else {
      // IbanUtil.validate throws; the catch adds the exception's message
      var problem := ibanProblem(d.iban.value);
      if problem.Some? {
        messages := messages + [problem.value];
      }
    }
    if d.currency.None? {
      messages := messages + [RequiredText("currency")];
    }
    assert messages == RequiredMessages(d, ibanProblem);
    messages := AddBeneficiaryMessages(messages, d);
    messages := AddSymbolMessages(messages, d);
  }

  /** The length checks on the beneficiary's name and address lines. */
  method AddBeneficiaryMessages(messages: seq<string>, d: PaymentData) returns (r: seq<string>)
    ensures r == BeneficiaryMessages(messages, d)
  {
    r := messages;
    if d.beneficiaryName.Some? && Utf16Length(d.beneficiaryName.value) > 70 {
      r := r + [MaxLengthText("beneficiaryName", 70)];
    }
    if d.beneficiaryAddr1.Some? && Utf16Length(d.beneficiaryAddr1.value) > 70 {
      r := r + [MaxLengthText("beneficiaryAddr1", 70)];
    }
    if d.beneficiaryAddr2.Some? && Utf16Length(d.beneficiaryAddr2.value) > 70 {
      r := r + [MaxLengthText("beneficiaryAddr2", 70)];
    }
  }

  /** The length checks on the note and the three symbols. */
  method AddSymbolMessages(messages: seq<string>, d: PaymentData) returns (r: seq<string>)
    ensures r == SymbolMessages(messages, d)
  {
    r := messages;
    if d.note.Some? && Utf16Length(d.note.value) > 140 {
      r := r + [MaxLengthText("note", 140)];
    }
    if d.variableSymbol.Some? && Utf16Length(d.variableSymbol.value) > 10 {
      r := r + [MaxLengthText("variableSymbol", 10)];
    }
    if d.constantSymbol.Some? && Utf16Length(d.constantSymbol.value) > 4 {
      r := r + [MaxLengthText("constantSymbol", 4)];
    }
    if d.specificSymbol.Some? && Utf16Length(d.specificSymbol.value) > 10 {
      r := r + [MaxLengthText("specificSymbol", 10)];
    }
  }

  /** The list is empty exactly when no check fails, which is exactly when the data is Valid. */
  lemma ValidIff(d: PaymentData, p: string -> Option<string>)
    ensures Messages(d, p) == [] <==> Valid(d, p)
  {
  }

  /** The checks in the order validate() runs them, in its three stretches. */
  const RequiredChecks: seq<Check> := [AmountRequired, IbanRequired, IbanFormat, CurrencyRequired]
  const BeneficiaryChecks: seq<Check> := [BeneficiaryNameLength, BeneficiaryAddr1Length, BeneficiaryAddr2Length]
  const SymbolChecks: seq<Check> := [NoteLength, VariableSymbolLength, ConstantSymbolLength, SpecificSymbolLength]
  const AllChecks: seq<Check> := RequiredChecks + BeneficiaryChecks + SymbolChecks

  /** The messages of the failing checks among cs, one each, in the order of cs. */
  function Collected(cs: seq<Check>, d: PaymentData, p: string -> Option<string>): seq<string> {
    if cs == [] then []
    else (if Fails(cs[0], d, p) then [Message(cs[0], d, p)] else []) + Collected(cs[1..], d, p)
  }

  lemma {:induction false} CollectedAppend(a: seq<Check>, b: seq<Check>, d: PaymentData, p: string -> Option<string>)
    ensures Collected(a + b, d, p) == Collected(a, d, p) + Collected(b, d, p)
  {
    if a == [] {
      assert a + b == b;
    } else {
      assert (a + b)[1..] == a[1..] + b;
      CollectedAppend(a[1..], b, d, p);
    }
  }

  /** One statement of validate() extends the collected messages by its own check's. */
  lemma AppendCollects(ms: seq<string>, cs: seq<Check>, c: Check, failed: bool, message: string,
                        d: PaymentData, p: string -> Option<string>)
    requires ms == Collected(cs, d, p)
    requires failed == Fails(c, d, p) && message == Message(c, d, p)
    ensures Append(ms, failed, message) == Collected(cs + [c], d, p)
  {
    CollectedAppend(cs, [c], d, p);
    assert [c][1..] == [];
  }

  lemma RequiredInOrder(d: PaymentData, p: string -> Option<string>)
    ensures RequiredMessages(d, p) == Collected(RequiredChecks, d, p)
  {
    var ms: seq<string> := [];
    var cs: seq<Check> := [];
    AppendCollects(ms, cs, AmountRequired, d.amount.None?, RequiredText("amount"), d, p);
    ms, cs := Append(ms, d.amount.None?, RequiredText("amount")), cs + [AmountRequired];
    AppendCollects(ms, cs, IbanRequired, d.iban.None?, RequiredText("iban"), d, p);
    ms, cs := Append(ms, d.iban.None?, RequiredText("iban")), cs + [IbanRequired];
    AppendCollects(ms, cs, IbanFormat, d.iban.Some? && p(d.iban.value).Some?, IbanMessage(d, p), d, p);
    ms, cs := Append(ms, d.iban.Some? && p(d.iban.value).Some?, IbanMessage(d, p)), cs + [IbanFormat];
    AppendCollects(ms, cs, CurrencyRequired, d.currency.None?, RequiredText("currency"), d, p);
    ms, cs := Append(ms, d.currency.None?, RequiredText("currency")), cs + [CurrencyRequired];
    assert cs == RequiredChecks;
  }

  lemma BeneficiaryInOrder(ms0: seq<string>, cs0: seq<Check>, d: PaymentData, p: string -> Option<string>)
    requires ms0 == Collected(cs0, d, p)
    ensures BeneficiaryMessages(ms0, d) == Collected(cs0 + BeneficiaryChecks, d, p)
  {
    var ms, cs := ms0, cs0;
    AppendCollects(ms, cs, BeneficiaryNameLength, TooLong(d.beneficiaryName, 70), MaxLengthText("beneficiaryName", 70), d, p);
    ms, cs := Append(ms, TooLong(d.beneficiaryName, 70), MaxLengthText("beneficiaryName", 70)), cs + [BeneficiaryNameLength];
    AppendCollects(ms, cs, BeneficiaryAddr1Length, TooLong(d.beneficiaryAddr1, 70), MaxLengthText("beneficiaryAddr1", 70), d, p);
    ms, cs := Append(ms, TooLong(d.beneficiaryAddr1, 70), MaxLengthText("beneficiaryAddr1", 70)), cs + [BeneficiaryAddr1Length];
    AppendCollects(ms, cs, BeneficiaryAddr2Length, TooLong(d.beneficiaryAddr2, 70), MaxLengthText("beneficiaryAddr2", 70), d, p);
    ms, cs := Append(ms, TooLong(d.beneficiaryAddr2, 70), MaxLengthText("beneficiaryAddr2", 70)), cs + [BeneficiaryAddr2Length];
    assert cs == cs0 + BeneficiaryChecks;
  }

  lemma SymbolInOrder(ms0: seq<string>, cs0: seq<Check>, d: PaymentData, p: string -> Option<string>)
    requires ms0 == Collected(cs0, d, p)
    ensures SymbolMessages(ms0, d) == Collected(cs0 + SymbolChecks, d, p)
  {
    var ms, cs := ms0, cs0;
    AppendCollects(ms, cs, NoteLength, TooLong(d.note, 140), MaxLengthText("note", 140), d, p);
    ms, cs := Append(ms, TooLong(d.note, 140), MaxLengthText("note", 140)), cs + [NoteLength];
    AppendCollects(ms, cs, VariableSymbolLength, TooLong(d.variableSymbol, 10), MaxLengthText("variableSymbol", 10), d, p);
    ms, cs := Append(ms, TooLong(d.variableSymbol, 10), MaxLengthText("variableSymbol", 10)), cs + [VariableSymbolLength];
    AppendCollects(ms, cs, ConstantSymbolLength, TooLong(d.constantSymbol, 4), MaxLengthText("constantSymbol", 4), d, p);
    ms, cs := Append(ms, TooLong(d.constantSymbol, 4), MaxLengthText("constantSymbol", 4)), cs + [ConstantSymbolLength];
    AppendCollects(ms, cs, SpecificSymbolLength, TooLong(d.specificSymbol, 10), MaxLengthText("specificSymbol", 10), d, p);
    ms, cs := Append(ms, TooLong(d.specificSymbol, 10), MaxLengthText("specificSymbol", 10)), cs + [SpecificSymbolLength];
    assert cs == cs0 + SymbolChecks;
  }

  /** validate() returns the message of every failing check, exactly once and in the order of
      AllChecks, and nothing else. */
  lemma MessagesInOrder(d: PaymentData, p: string -> Option<string>)
    ensures Messages(d, p) == Collected(AllChecks, d, p)
  {
    RequiredInOrder(d, p);
    BeneficiaryInOrder(RequiredMessages(d, p), RequiredChecks, d, p);
    SymbolInOrder(BeneficiaryMessages(RequiredMessages(d, p), d), RequiredChecks + BeneficiaryChecks, d, p);
  }

  /** A check that fails contributes its message; one that passes contributes nothing. */
  lemma CollectedOne(c: Check, d: PaymentData, p: string -> Option<string>)
    ensures Collected([c], d, p) == if Fails(c, d, p) then [Message(c, d, p)] else []
  {
    assert [c][1..] == [];
  }

  /** The IBAN contributes at most one message: "Property iban is required" when it is absent,
      otherwise the validator's message if the validator rejects it, and nothing when it accepts. */
  lemma IbanMessages(d: PaymentData, p: string -> Option<string>)
    ensures Collected([IbanRequired, IbanFormat], d, p) ==
      if d.iban.None? then [RequiredText("iban")]
      else if p(d.iban.value).Some? then [p(d.iban.value).value]
      else []
  {
    CollectedOne(IbanRequired, d, p);
    CollectedOne(IbanFormat, d, p);
    CollectedAppend([IbanRequired], [IbanFormat], d, p);
    assert [IbanRequired] + [IbanFormat] == [IbanRequired, IbanFormat];
  }

  /** Without an IBAN the validator is never consulted: the messages are the same whatever it
      would answer, and they include "Property iban is required". */
  lemma IbanAbsentIgnoresValidator(d: PaymentData, p: string -> Option<string>, q: string -> Option<string>)
    requires d.iban.None?
    ensures Messages(d, p) == Messages(d, q)
    ensures RequiredText("iban") in Messages(d, p)
  {
    MessagesInOrder(d, p);
    MessagesInOrder(d, q);
    CollectedSameChecks(AllChecks, d, p, q);
    CollectedOne(IbanRequired, d, p);
    CollectedAppend([AmountRequired], [IbanRequired] + AllChecks[2..], d, p);
    CollectedAppend([IbanRequired], AllChecks[2..], d, p);
    assert AllChecks == [AmountRequired] + ([IbanRequired] + AllChecks[2..]);
    var m := Collected(AllChecks, d, p);
    assert m == Collected([AmountRequired], d, p) + ([RequiredText("iban")] + Collected(AllChecks[2..], d, p));
    assert m[|Collected([AmountRequired], d, p)|] == RequiredText("iban");
  }

  /** Two validators that agree on d's IBAN, or are not consulted at all, give the same messages. */
  lemma {:induction false} CollectedSameChecks(cs: seq<Check>, d: PaymentData, p: string -> Option<string>, q: string -> Option<string>)
    requires d.iban.None? || p(d.iban.value) == q(d.iban.value)
    ensures Collected(cs, d, p) == Collected(cs, d, q)
  {
    if cs != [] {
      CollectedSameChecks(cs[1..], d, p, q);
    }
  }

  /** At most one message per check, and never both IBAN messages: at most ten in all. */
  lemma MessagesBound(d: PaymentData, p: string -> Option<string>)
    ensures |Messages(d, p)| <= 10
  {
    var r := RequiredMessages(d, p);
    assert |r| <= 3;
    var b := BeneficiaryMessages(r, d);
    assert |b| <= |r| + 3;
    assert |SymbolMessages(b, d)| <= |b| + 4;
  }

  /** Every check appears in AllChecks, and only once. */
  lemma AllChecksOnce()
    ensures forall c: Check :: c in AllChecks
    ensures forall i, j :: 0 <= i < j < |AllChecks| ==> AllChecks[i] != AllChecks[j]
  {
    assert AllChecks == [AmountRequired, IbanRequired, IbanFormat, CurrencyRequired, BeneficiaryNameLength,
      BeneficiaryAddr1Length, BeneficiaryAddr2Length, NoteLength, VariableSymbolLength,
      ConstantSymbolLength, SpecificSymbolLength];
    forall c: Check
      ensures c in AllChecks
    {
      match c
      case AmountRequired => assert AllChecks[0] == c;
      case IbanRequired => assert AllChecks[1] == c;
      case IbanFormat => assert AllChecks[2] == c;
      case CurrencyRequired => assert AllChecks[3] == c;
      case BeneficiaryNameLength => assert AllChecks[4] == c;
      case BeneficiaryAddr1Length => assert AllChecks[5] == c;
      case BeneficiaryAddr2Length => assert AllChecks[6] == c;
      case NoteLength => assert AllChecks[7] == c;
      case VariableSymbolLength => assert AllChecks[8] == c;
      case ConstantSymbolLength => assert AllChecks[9] == c;
      case SpecificSymbolLength => assert AllChecks[10] == c;
    }
  }

  /** When c is the only failing check, a list of distinct checks collects Message(c) if it
      holds c and nothing otherwise. */
  lemma {:induction false} CollectedOnly(cs: seq<Check>, c: Check, d: PaymentData, p: string -> Option<string>)
    requires forall x: Check :: Fails(x, d, p) <==> x == c
    requires forall i, j :: 0 <= i < j < |cs| ==> cs[i] != cs[j]
    ensures Collected(cs, d, p) == if c in cs then [Message(c, d, p)] else []
  {
    if cs != [] {
      CollectedOnly(cs[1..], c, d, p);
      assert cs[0] == c ==> c !in cs[1..];
      assert c in cs <==> cs[0] == c || c in cs[1..];
    }
  }

  /** A single failing check yields exactly its own message; for a length check this is what
      one character over the limit produces. */
  lemma OnlyFailure(c: Check, d: PaymentData, p: string -> Option<string>)
    requires forall x: Check :: Fails(x, d, p) <==> x == c
    ensures Messages(d, p) == [Message(c, d, p)]
  {
    MessagesInOrder(d, p);
    AllChecksOnce();
    CollectedOnly(AllChecks, c, d, p);
  }

  /** A non-empty collection starts with the message of the first failing check. */
  lemma {:induction false} CollectedFirst(cs: seq<Check>, d: PaymentData, p: string -> Option<string>)
    requires Collected(cs, d, p) != []
    ensures exists i :: (0 <= i < |cs| && Fails(cs[i], d, p) && (forall j :: 0 <= j < i ==> !Fails(cs[j], d, p)) &&
                         Collected(cs, d, p)[0] == Message(cs[i], d, p))
  {
    if !Fails(cs[0], d, p) {
      CollectedFirst(cs[1..], d, p);
      var i :| 0 <= i < |cs| - 1 && Fails(cs[1..][i], d, p) && (forall j :: 0 <= j < i ==> !Fails(cs[1..][j], d, p)) &&
        Collected(cs[1..], d, p)[0] == Message(cs[1..][i], d, p);
      assert forall j :: 0 <= j < i + 1 ==> !Fails(cs[j], d, p) by {
        forall j | 0 <= j < i + 1 ensures !Fails(cs[j], d, p) {
          if j > 0 { assert cs[j] == cs[1..][j - 1]; }
        }
      }
    } else {
      assert Fails(cs[0], d, p);
    }
  }

  /** The first message is that of the first check, in validate()'s order, that fails. */
  lemma FirstMessage(d: PaymentData, p: string -> Option<string>)
    requires Messages(d, p) != []
    ensures exists i :: (0 <= i < |AllChecks| && Fails(AllChecks[i], d, p) &&
                         (forall j :: 0 <= j < i ==> !Fails(AllChecks[j], d, p)) &&
                         Messages(d, p)[0] == Message(AllChecks[i], d, p))
  {
    MessagesInOrder(d, p);
    CollectedFirst(AllChecks, d, p);
  }

  // ---------------------------------------------------------------------------------------------
  // The cases of the generator's unit test, stated for every record of their shape. The IBAN
  // validator is left open except for its answer on the record's IBAN.

  /** The record the six-argument constructor builds from present amount and IBAN. */
  function SimpleRecord(amount: Decimal, iban: string, currency: Option<string>, variableSymbol: string,
                        constantSymbol: string, note: string, today: Date): (d: PaymentData)
    ensures NewSimplePaymentData(Some(amount), Some(iban), currency, Some(variableSymbol), Some(constantSymbol),
                                 Some(note), today) == Success(d)
  {
    PaymentData(Some(amount), Some(iban), None, Some(today), None, currency, Some(variableSymbol),
                Some(constantSymbol), None, Some(note), None, None)
  }

  /** Symbols and note within their limits, as in every case of the test. */
  predicate WithinLimits(variableSymbol: string, constantSymbol: string, note: string) {
    Utf16Length(variableSymbol) <= 10 && Utf16Length(constantSymbol) <= 4 && Utf16Length(note) <= 140
  }

  /** A fully populated record whose IBAN is accepted and whose texts are within their limits
      passes every check. */
  lemma FullRecordIsValid(p: string -> Option<string>, d: PaymentData)
    requires d.amount.Some? && d.iban.Some? && p(d.iban.value).None? && d.currency.Some?
    requires d.beneficiaryName.Some? && Utf16Length(d.beneficiaryName.value) <= 70
    requires d.beneficiaryAddr1.Some? && Utf16Length(d.beneficiaryAddr1.value) <= 70
    requires d.beneficiaryAddr2.Some? && Utf16Length(d.beneficiaryAddr2.value) <= 70
    requires d.note.Some? && d.variableSymbol.Some? && d.constantSymbol.Some? && d.specificSymbol.Some?
    requires WithinLimits(d.variableSymbol.value, d.constantSymbol.value, d.note.value)
    requires Utf16Length(d.specificSymbol.value) <= 10
    ensures Messages(d, p) == []
  {
    ValidIff(d, p);
  }

  /** An IBAN the validator rejects yields exactly the validator's message. */
  lemma InvalidIbanCase(p: string -> Option<string>, amount: Decimal, iban: string, currency: string,
                        variableSymbol: string, constantSymbol: string, note: string, today: Date)
    requires p(iban).Some? && WithinLimits(variableSymbol, constantSymbol, note)
    ensures Messages(SimpleRecord(amount, iban, Some(currency), variableSymbol, constantSymbol, note, today), p)
            == [p(iban).value]
  {
    OnlyFailure(IbanFormat, SimpleRecord(amount, iban, Some(currency), variableSymbol, constantSymbol, note, today), p);
  }

  /** A simple record with an accepted IBAN, a currency and symbols within their limits is valid;
      a variable symbol of exactly ten characters and a constant symbol of exactly four pass. */
  lemma ValidSimpleCase(p: string -> Option<string>, amount: Decimal, iban: string, currency: string,
                        variableSymbol: string, constantSymbol: string, note: string, today: Date)
    requires p(iban).None? && WithinLimits(variableSymbol, constantSymbol, note)
    ensures Messages(SimpleRecord(amount, iban, Some(currency), variableSymbol, constantSymbol, note, today), p) == []
  {
    ValidIff(SimpleRecord(amount, iban, Some(currency), variableSymbol, constantSymbol, note, today), p);
  }

  /** A missing currency yields exactly "Property currency is required". */
  lemma MissingCurrencyCase(p: string -> Option<string>, amount: Decimal, iban: string,
                            variableSymbol: string, constantSymbol: string, note: string, today: Date)
    requires p(iban).None? && WithinLimits(variableSymbol, constantSymbol, note)
    ensures Messages(SimpleRecord(amount, iban, None, variableSymbol, constantSymbol, note, today), p)
            == [RequiredText("currency")]
  {
    OnlyFailure(CurrencyRequired, SimpleRecord(amount, iban, None, variableSymbol, constantSymbol, note, today), p);
  }

  /** A variable symbol one UTF-16 unit over its limit of ten yields exactly "Max length of
      property variableSymbol is 10". */
  lemma LongVariableSymbolCase(p: string -> Option<string>, amount: Decimal, iban: string, currency: string,
                               variableSymbol: string, constantSymbol: string, note: string, today: Date)
    requires p(iban).None? && Utf16Length(variableSymbol) == 11
    requires WithinLimits("", constantSymbol, note)
    ensures Messages(SimpleRecord(amount, iban, Some(currency), variableSymbol, constantSymbol, note, today), p)
            == [MaxLengthText("variableSymbol", 10)]
  {
    OnlyFailure(VariableSymbolLength, SimpleRecord(amount, iban, Some(currency), variableSymbol, constantSymbol, note, today), p);
  }
}
