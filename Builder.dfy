/**
 * Building a currency table from the central bank's daily rates document:
 * the root `ValCurs` element carries the date the rates hold for, and each
 * `Valute` child describes one currency. A bad root rejects the whole
 * document; a bad child is skipped and counted.
 *
 * The document is an already-loaded tree: an element is its name and the
 * text of its child elements by name (the first child of each name, as
 * `XElement.Element` finds it).
 */
module Builder {
  import opened Wrappers
  import opened Parsing
  import opened CurrencyRecord
  import opened CurrencyTable

  const RootName: string := "ValCurs"
  const DateAttributeName: string := "Date"
  const CurrencyElementName: string := "Valute"
  const CharCodeName: string := "CharCode"
  const NameName: string := "Name"
  const AmountName: string := "Nominal"
  const AmountCostName: string := "Value"
  const UnitCostName: string := "VunitRate"

  /** The child elements a currency element must have, in the order they are looked up. */
  const RequiredFields: seq<string> := [CharCodeName, NameName, AmountName, AmountCostName, UnitCostName]

  /** The tolerance of the check that a lot costs `amount` units. */
  const Eps: real := 0.000001

  /** A child element of the root: its name and the text of its own children by name. */
  datatype XElement = XElement(name: string, children: map<string, string>)

  /** The root element: its name, its attributes and its child elements in document order. */
  datatype XRoot = XRoot(name: string, attributes: map<string, string>, elements: seq<XElement>)

  /** A loaded document, which may have no root element. */
  datatype XDocument = XDocument(root: Option<XRoot>)

  /** The `XmlSchemaException`s: what in the document does not have the expected shape. */
  datatype SchemaViolation =
    | RootNotFound
    | DateAttributeNotFound
    | DateInvalid
    | UnknownElement(name: string)
    | FieldNotFound(field: string)
    | InvalidValue(field: string)

  /** Why one currency element was refused. */
  datatype LoadError =
    | SchemaError(violation: SchemaViolation)
      /** `ArgumentException`: the unit cost times the amount is not the lot cost. */
    | IntegrityError
      /** `ArgumentOutOfRangeException` from the currency constructor. */
    | OutOfRange(field: Field)

  function Abs(x: real): (y: real)
    ensures y >= 0.0 && (y == x || y == -x)
  {
    if x < 0.0 then -x else x
  }

  /** `names[i]` is not a child of `e` but every name before it is. */
  predicate MissingFirstAt(e: XElement, names: seq<string>, i: int)
  {
    0 <= i < |names| && names[i] !in e.children && forall j :: 0 <= j < i ==> names[j] in e.children
  }

  /** The first of `names` that is not a child of `e`, if any. */
  function FirstMissing(e: XElement, names: seq<string>): (r: Option<string>)
    ensures r.None? <==> forall i :: 0 <= i < |names| ==> names[i] in e.children
    ensures r.Some? ==> exists i :: MissingFirstAt(e, names, i) && names[i] == r.value
  {
    if names == [] then None
    else if names[0] !in e.children then
      assert MissingFirstAt(e, names, 0);
      Some(names[0])
    else
      var r := FirstMissing(e, names[1..]);
      if r.Some? then
        ghost var i :| MissingFirstAt(e, names[1..], i) && names[1..][i] == r.value;
        assert MissingFirstAt(e, names, i + 1) by {
          forall j | 0 <= j < i + 1 ensures names[j] in e.children {
            if j > 0 { assert names[j] == names[1..][j - 1]; }
          }
        }
        r
      else
        assert forall i :: 0 <= i < |names| ==> names[i] in e.children by {
          forall i | 0 <= i < |names| ensures names[i] in e.children {
            if i > 0 { assert names[i] == names[1..][i - 1]; }
          }
        }
        r
  }

  predicate HasAllFields(e: XElement)
  {
    && CharCodeName in e.children && NameName in e.children && AmountName in e.children
    && AmountCostName in e.children && UnitCostName in e.children
  }

  lemma RequiredFieldsPresent(e: XElement)
    ensures HasAllFields(e) <==> forall i :: 0 <= i < |RequiredFields| ==> RequiredFields[i] in e.children
  {
    assert RequiredFields[0] == CharCodeName && RequiredFields[1] == NameName && RequiredFields[2] == AmountName;
    assert RequiredFields[3] == AmountCostName && RequiredFields[4] == UnitCostName;
  }

  /**
   * The record an element describes, read without regard to the order of the
   * checks: the amount parsed as written, the two costs parsed after every `,`
   * has become `.`. None when any of the three numbers does not parse.
   */
  function ParsedRecord(e: XElement): (r: Option<CurrencyValue>)
    requires HasAllFields(e)
    ensures r.Some? <==>
      && ParseInt32(e.children[AmountName]).Some?
      && ParseDecimal(NormalizeSeparator(e.children[AmountCostName])).Some?
      && ParseDecimal(NormalizeSeparator(e.children[UnitCostName])).Some?
    ensures r.Some? ==>
      && r.value.charCode == e.children[CharCodeName] && r.value.name == e.children[NameName]
      && r.value.amount == ParseInt32(e.children[AmountName]).value
      && r.value.amountCost == ParseDecimal(NormalizeSeparator(e.children[AmountCostName])).value
      && r.value.unitCost == ParseDecimal(NormalizeSeparator(e.children[UnitCostName])).value
  {
    var amount := ParseInt32(e.children[AmountName]);
    var amountCost := ParseDecimal(NormalizeSeparator(e.children[AmountCostName]));
    var unitCost := ParseDecimal(NormalizeSeparator(e.children[UnitCostName]));
    if amount.Some? && amountCost.Some? && unitCost.Some? then
      Some(CurrencyValue(e.children[CharCodeName], e.children[NameName], amount.value, amountCost.value, unitCost.value))
    else None
  }

  /** The integrity condition: a lot of `amount` units costs `amount` unit costs, within `Eps`. */
  predicate Consistent(v: CurrencyValue)
    ensures Consistent(v) <==> -Eps <= v.unitCost * v.amount as real - v.amountCost <= Eps
  {
    Abs(v.unitCost * v.amount as real - v.amountCost) <= Eps
  }

  /** What makes an element acceptable, whatever order it is checked in. */
  predicate Acceptable(e: XElement)
  {
    && e.name == CurrencyElementName
    && HasAllFields(e)
    && ParsedRecord(e).Some?
    && Consistent(ParsedRecord(e).value)
    && ParsedRecord(e).value.Valid()
  }

  /**
   * One currency from one element. The checks run in a fixed order and the
   * first one that fails decides the error: the element's name, the five
   * fields in turn, the three numbers in turn, the integrity condition, and
   * last the ranges the currency constructor enforces.
   */
  function LoadCurrencyFromXElement(e: XElement): (r: Result<CurrencyValue, LoadError>)
    ensures r.Success? <==> Acceptable(e)
    ensures r.Success? ==> r.value == ParsedRecord(e).value
    ensures e.name != CurrencyElementName ==> r == Failure(SchemaError(UnknownElement(e.name)))
    ensures r == Failure(IntegrityError) <==>
      e.name == CurrencyElementName && HasAllFields(e) && ParsedRecord(e).Some? && !Consistent(ParsedRecord(e).value)
  {
    RequiredFieldsPresent(e);
    if e.name != CurrencyElementName then Failure(SchemaError(UnknownElement(e.name)))
    else
      match FirstMissing(e, RequiredFields)
      case Some(field) => Failure(SchemaError(FieldNotFound(field)))
      case None =>
        var charCode := e.children[CharCodeName];
        var name := e.children[NameName];
        var amountString := e.children[AmountName];
        var amountCostString := NormalizeSeparator(e.children[AmountCostName]);
        var unitCostString := NormalizeSeparator(e.children[UnitCostName]);
        match ParseInt32(amountString)
        case None => Failure(SchemaError(InvalidValue(AmountName)))
        case Some(amount) =>
          match ParseDecimal(amountCostString)
          case None => Failure(SchemaError(InvalidValue(AmountCostName)))
          case Some(amountCost) =>
            match ParseDecimal(unitCostString)
            case None => Failure(SchemaError(InvalidValue(UnitCostName)))
            case Some(unitCost) =>
              var currency := CurrencyValue(charCode, name, amount, amountCost, unitCost);
              if !Consistent(currency) then Failure(IntegrityError)
              else
                match CheckFields(currency)
                case Fail(field) => Failure(OutOfRange(field))
                case Pass => Success(currency)
  }

  /** A missing field is reported only when every field before it is present. */
  lemma MissingFieldsInOrder(e: XElement, i: nat)
    requires e.name == CurrencyElementName && i < |RequiredFields|
    requires RequiredFields[i] !in e.children
    requires forall j :: 0 <= j < i ==> RequiredFields[j] in e.children
    ensures LoadCurrencyFromXElement(e) == Failure(SchemaError(FieldNotFound(RequiredFields[i])))
  {
    var r := FirstMissing(e, RequiredFields);
    assert r.Some?;
    var k :| MissingFirstAt(e, RequiredFields, k) && RequiredFields[k] == r.value;
    assert k == i;
  }

  /**
   * The integrity check comes before the range checks: an element whose
   * numbers parse but break the integrity condition is an integrity error
   * even when its fields are also out of range.
   */
  lemma IntegrityBeforeRanges(e: XElement)
    requires e.name == CurrencyElementName && HasAllFields(e) && ParsedRecord(e).Some?
    requires !Consistent(ParsedRecord(e).value)
    ensures LoadCurrencyFromXElement(e) == Failure(IntegrityError)
  {
  }

  /** The numbers are parsed in turn: amount, lot cost, unit cost; the first that does not parse is named. */
  lemma InvalidNumbersInOrder(e: XElement)
    requires e.name == CurrencyElementName && HasAllFields(e)
    ensures ParseInt32(e.children[AmountName]).None? ==>
      LoadCurrencyFromXElement(e) == Failure(SchemaError(InvalidValue(AmountName)))
    ensures (ParseInt32(e.children[AmountName]).Some?
             && ParseDecimal(NormalizeSeparator(e.children[AmountCostName])).None?) ==>
      LoadCurrencyFromXElement(e) == Failure(SchemaError(InvalidValue(AmountCostName)))
    ensures (ParseInt32(e.children[AmountName]).Some?
             && ParseDecimal(NormalizeSeparator(e.children[AmountCostName])).Some?
             && ParseDecimal(NormalizeSeparator(e.children[UnitCostName])).None?) ==>
      LoadCurrencyFromXElement(e) == Failure(SchemaError(InvalidValue(UnitCostName)))
  {
    RequiredFieldsPresent(e);
  }

  /**
   * A consistent record that the currency constructor refuses is reported
   * with the field the constructor names.
   */
  lemma RangeErrorsFromConstructor(e: XElement)
    requires e.name == CurrencyElementName && HasAllFields(e) && ParsedRecord(e).Some?
    requires Consistent(ParsedRecord(e).value)
    ensures CheckFields(ParsedRecord(e).value).Fail? ==>
      LoadCurrencyFromXElement(e) == Failure(OutOfRange(CheckFields(ParsedRecord(e).value).error))
    ensures CheckFields(ParsedRecord(e).value).Pass? ==> LoadCurrencyFromXElement(e) == Success(ParsedRecord(e).value)
  {
    RequiredFieldsPresent(e);
  }

  /**
   * Both cost fields may use `,` as their decimal separator; the amount is
   * parsed as written.
   */
  lemma CommaCostsAreRead(e: XElement, whole: string, fraction: string)
    requires HasAllFields(e)
    requires AllDigits(whole) && AllDigits(fraction) && whole != []
    requires e.children[AmountCostName] == whole + "," + fraction
    requires ParsedRecord(e).Some?
    ensures ParsedRecord(e).value.amountCost == DecimalValue(whole, fraction)
    ensures ParsedRecord(e).value.amount == ParseInt32(e.children[AmountName]).value
  {
    CommaDecimalNeedsNormalizing(whole, fraction);
    ParseDecimalOfPointText(whole, fraction);
  }

  /**
   * The root check: a root named `ValCurs` with a `Date` attribute in the
   * `dd.MM.yyyy` format. Yields the root and the date it carries.
   */
  function ValidateRoot(doc: XDocument): (r: Result<(XRoot, Date), SchemaViolation>)
    ensures r.Success? <==>
      && doc.root.Some? && doc.root.value.name == RootName
      && DateAttributeName in doc.root.value.attributes
      && ParseDate(doc.root.value.attributes[DateAttributeName]).Some?
    ensures r.Success? ==>
      r.value.0 == doc.root.value && r.value.1 == ParseDate(doc.root.value.attributes[DateAttributeName]).value
    ensures (doc.root.None? || doc.root.value.name != RootName) <==> r == Failure(RootNotFound)
    ensures r == Failure(DateAttributeNotFound) <==>
      doc.root.Some? && doc.root.value.name == RootName && DateAttributeName !in doc.root.value.attributes
    ensures r.Failure? ==> r.error in {RootNotFound, DateAttributeNotFound, DateInvalid}
  {
    match doc.root
    case None => Failure(RootNotFound)
    case Some(root) =>
      if root.name != RootName then Failure(RootNotFound)
      else if DateAttributeName !in root.attributes then Failure(DateAttributeNotFound)
      else
        match ParseDate(root.attributes[DateAttributeName])
        case None => Failure(DateInvalid)
        case Some(date) => Success((root, date))
  }

  /** Whether and why the root is rejected does not depend on its child elements. */
  lemma RootCheckIgnoresElements(doc: XDocument, elements: seq<XElement>)
    requires doc.root.Some?
    ensures var other := XDocument(Some(doc.root.value.(elements := elements)));
      && (ValidateRoot(other).Failure? <==> ValidateRoot(doc).Failure?)
      && (ValidateRoot(other).Failure? ==> ValidateRoot(other).error == ValidateRoot(doc).error)
  {
  }

  /** The records of the acceptable elements, in document order. */
  function Accepted(elements: seq<XElement>): (records: seq<CurrencyValue>)
    ensures |records| <= |elements|
    ensures forall i :: 0 <= i < |records| ==> records[i].Valid() && Consistent(records[i])
  {
    if elements == [] then []
    else
      var rest := Accepted(elements[..|elements| - 1]);
      match LoadCurrencyFromXElement(elements[|elements| - 1])
      case Success(currency) => rest + [currency]
      case Failure(_) => rest
  }

  /** How many elements are refused. */
  function Skipped(elements: seq<XElement>): (n: nat)
    ensures n <= |elements|
  {
    if elements == [] then 0
    else
      var rest := Skipped(elements[..|elements| - 1]);
      if LoadCurrencyFromXElement(elements[|elements| - 1]).Success? then rest else rest + 1
  }

  /** Every element is either accepted or skipped. */
  lemma {:induction false} SkippedPlusAccepted(elements: seq<XElement>)
    ensures Skipped(elements) + |Accepted(elements)| == |elements|
  {
    if elements != [] {
      SkippedPlusAccepted(elements[..|elements| - 1]);
    }
  }

  /** `m` with the records added in order, each under its code. */
  function AddAll(m: map<string, CurrencyValue>, records: seq<CurrencyValue>): (r: map<string, CurrencyValue>)
    ensures r.Keys == m.Keys + set v | v in records :: v.charCode
  {
    if records == [] then m
    else
      var last := records[|records| - 1];
      assert records == records[..|records| - 1] + [last];
      AddAll(m, records[..|records| - 1])[last.charCode := last]
  }

  /** Adding valid records to a well-formed table keeps it well-formed. */
  lemma {:induction false} AddAllWellFormed(m: map<string, CurrencyValue>, records: seq<CurrencyValue>)
    requires WellFormed(m)
    requires forall i :: 0 <= i < |records| ==> records[i].Valid()
    ensures WellFormed(AddAll(m, records))
  {
    if records != [] {
      AddAllWellFormed(m, records[..|records| - 1]);
    }
  }

  /**
   * Last write wins: a code ends up with the last record that has it, and a
   * code no record has keeps its entry in `m`.
   */
  lemma {:induction false} AddAllLastWins(m: map<string, CurrencyValue>, records: seq<CurrencyValue>, i: nat)
    requires i < |records|
    requires forall j :: i < j < |records| ==> records[j].charCode != records[i].charCode
    ensures AddAll(m, records)[records[i].charCode] == records[i]
  {
    if i < |records| - 1 {
      AddAllLastWins(m, records[..|records| - 1], i);
    }
  }

  lemma {:induction false} AddAllUntouched(m: map<string, CurrencyValue>, records: seq<CurrencyValue>, code: string)
    requires code in m
    requires forall j :: 0 <= j < |records| ==> records[j].charCode != code
    ensures AddAll(m, records)[code] == m[code]
  {
    if records != [] {
      AddAllUntouched(m, records[..|records| - 1], code);
    }
  }

  /** The table a document's elements produce: the rouble, then every accepted record in order. */
  function LoadedTable(elements: seq<XElement>): (m: map<string, CurrencyValue>)
    ensures m.Keys == {ReferenceCode} + set v | v in Accepted(elements) :: v.charCode
  {
    AddAll(SeedTable(), Accepted(elements))
  }

  /** The loaded table is well-formed, and every record in it satisfies the integrity condition. */
  lemma LoadedTableWellFormed(elements: seq<XElement>)
    ensures WellFormed(LoadedTable(elements))
    ensures forall code :: code in LoadedTable(elements) ==> Consistent(LoadedTable(elements)[code])
  {
    SeedTableWellFormed();
    AddAllWellFormed(SeedTable(), Accepted(elements));
    assert Consistent(ReferenceCurrency);
    forall code | code in LoadedTable(elements)
      ensures Consistent(LoadedTable(elements)[code])
    {
      AddAllFrom(SeedTable(), Accepted(elements), code);
    }
  }

  /** Every entry of `AddAll(m, records)` is an entry of `m` or one of the records. */
  lemma {:induction false} AddAllFrom(m: map<string, CurrencyValue>, records: seq<CurrencyValue>, code: string)
    requires code in AddAll(m, records)
    ensures (code in m && AddAll(m, records)[code] == m[code]) || AddAll(m, records)[code] in records
  {
    if records != [] && code != records[|records| - 1].charCode {
      AddAllFrom(m, records[..|records| - 1], code);
      assert records[..|records| - 1] <= records;
    }
  }

  /** One more element adds its record to the table when it is accepted and leaves the table alone otherwise. */
  lemma LoadStepTable(elements: seq<XElement>, e: XElement)
    ensures LoadedTable(elements + [e]) ==
      match LoadCurrencyFromXElement(e)
      case Success(currency) => LoadedTable(elements)[currency.charCode := currency]
      case Failure(_) => LoadedTable(elements)
  {
    assert (elements + [e])[..|elements|] == elements;
    var r := LoadCurrencyFromXElement(e);
    if r.Success? {
      var records := Accepted(elements) + [r.value];
      assert Accepted(elements + [e]) == records;
      assert records[..|records| - 1] == Accepted(elements);
    }
  }

  /** One more element adds one to the skipped count exactly when it is refused. */
  lemma LoadStepSkipped(elements: seq<XElement>, e: XElement)
    ensures Skipped(elements + [e]) == Skipped(elements) + if LoadCurrencyFromXElement(e).Success? then 0 else 1
  {
    assert (elements + [e])[..|elements|] == elements;
  }

  /** A document with no acceptable element yields the rouble alone, and every element is skipped. */
  lemma NothingAcceptedOnlyRouble(elements: seq<XElement>)
    requires forall i :: 0 <= i < |elements| ==> !Acceptable(elements[i])
    ensures LoadedTable(elements) == SeedTable()
    ensures Skipped(elements) == |elements|
  {
    NothingAccepted(elements);
    SkippedPlusAccepted(elements);
  }

  lemma {:induction false} NothingAccepted(elements: seq<XElement>)
    requires forall i :: 0 <= i < |elements| ==> !Acceptable(elements[i])
    ensures Accepted(elements) == []
  {
    if elements != [] {
      NothingAccepted(elements[..|elements| - 1]);
    }
  }

  /**
   * Three elements of which the middle one is refused (say, for a broken
   * integrity condition) and the others carry two distinct codes other than
   * the rouble's: the table holds three entries and one element is skipped.
   */
  lemma OneOfThreeSkipped(a: XElement, b: XElement, c: XElement)
    requires LoadCurrencyFromXElement(a).Success? && LoadCurrencyFromXElement(c).Success?
    requires LoadCurrencyFromXElement(b).Failure?
    requires LoadCurrencyFromXElement(a).value.charCode != LoadCurrencyFromXElement(c).value.charCode
    requires LoadCurrencyFromXElement(a).value.charCode != ReferenceCode
    requires LoadCurrencyFromXElement(c).value.charCode != ReferenceCode
    ensures |LoadedTable([a, b, c])| == 3
    ensures Skipped([a, b, c]) == 1
  {
    AcceptedOfThree(a, b, c);
    SkippedOfThree(a, b, c);
    ThreeKeys(LoadCurrencyFromXElement(a).value, LoadCurrencyFromXElement(c).value);
  }

  lemma AcceptedOfThree(a: XElement, b: XElement, c: XElement)
    requires LoadCurrencyFromXElement(a).Success? && LoadCurrencyFromXElement(c).Success?
    requires LoadCurrencyFromXElement(b).Failure?
    ensures Accepted([a, b, c]) == [LoadCurrencyFromXElement(a).value, LoadCurrencyFromXElement(c).value]
  {
    AcceptedOfTwo(a, b);
    assert [a, b] + [c] == [a, b, c];
    AcceptedStep([a, b], c);
  }

  lemma AcceptedOfTwo(a: XElement, b: XElement)
    requires LoadCurrencyFromXElement(a).Success? && LoadCurrencyFromXElement(b).Failure?
    ensures Accepted([a, b]) == [LoadCurrencyFromXElement(a).value]
  {
    assert [] + [a] == [a] && [a] + [b] == [a, b];
    AcceptedStep([], a);
    AcceptedStep([a], b);
  }

  lemma SkippedOfThree(a: XElement, b: XElement, c: XElement)
    requires LoadCurrencyFromXElement(a).Success? && LoadCurrencyFromXElement(c).Success?
    requires LoadCurrencyFromXElement(b).Failure?
    ensures Skipped([a, b, c]) == 1
  {
    AcceptedOfThree(a, b, c);
    SkippedPlusAccepted([a, b, c]);
  }

  /** One more element appends its record to the accepted ones when it is acceptable. */
  lemma AcceptedStep(elements: seq<XElement>, e: XElement)
    ensures Accepted(elements + [e]) ==
      if LoadCurrencyFromXElement(e).Success? then Accepted(elements) + [LoadCurrencyFromXElement(e).value]
      else Accepted(elements)
  {
    assert (elements + [e])[..|elements|] == elements;
  }

  lemma ThreeKeys(ra: CurrencyValue, rc: CurrencyValue)
    requires ra.charCode != rc.charCode && ra.charCode != ReferenceCode && rc.charCode != ReferenceCode
    ensures |AddAll(SeedTable(), [ra, rc])| == 3
  {
    assert [ra, rc][..1] == [ra] && [ra][..0] == [];
    assert AddAll(SeedTable(), [ra]) == SeedTable()[ra.charCode := ra];
    assert AddAll(SeedTable(), [ra, rc]) == SeedTable()[ra.charCode := ra][rc.charCode := rc];
    assert AddAll(SeedTable(), [ra, rc]).Keys == {ReferenceCode, ra.charCode, rc.charCode};
  }

  lemma PrefixStep(elements: seq<XElement>, i: nat)
    requires i < |elements|
    ensures elements[..i + 1] == elements[..i] + [elements[i]]
  {
  }

  /** What loading a document produces: a table and the number of skipped elements, or the root's violation. */
  datatype LoadOutcome = Loaded(converter: CurrencyConverter, skipped: nat) | Rejected(violation: SchemaViolation)

  /**
   * Loads a table from a document: checks the root, then adds the currency of
   * every acceptable element to a fresh table for the document's date and
   * counts the elements it refuses.
   */
  method LoadConverterFromRatesFile(doc: XDocument) returns (r: LoadOutcome)
    ensures r.Rejected? <==> ValidateRoot(doc).Failure?
    ensures r.Rejected? ==> r.violation == ValidateRoot(doc).error
    ensures r.Loaded? ==>
      && fresh(r.converter)
      && r.converter.Valid()
      && r.converter.currencies == LoadedTable(doc.root.value.elements)
      && r.converter.actualDate == ValidateRoot(doc).value.1
      && r.skipped == Skipped(doc.root.value.elements)
  {
    var checked := ValidateRoot(doc);
    if checked.Failure? {
      return Rejected(checked.error);
    }
    var (root, actualDate) := checked.value;
    var converter := new CurrencyConverter(actualDate);
    var skipped := AddElements(converter, root.elements);
    return Loaded(converter, skipped);
  }

  /**
   * The loop over the root's child elements: every acceptable element's
   * currency is added to `converter`, which holds only the rouble on entry,
   * and the refused elements are counted.
   */
  method AddElements(converter: CurrencyConverter, elements: seq<XElement>) returns (skipped: nat)
    requires converter.Valid() && converter.currencies == SeedTable()
    modifies converter
    ensures converter.Valid()
    ensures converter.currencies == LoadedTable(elements)
    ensures converter.actualDate == old(converter.actualDate)
    ensures skipped == Skipped(elements)
  {
    skipped := 0;
    for i := 0 to |elements|
      invariant converter.Valid()
      invariant converter.currencies == LoadedTable(elements[..i])
      invariant converter.actualDate == old(converter.actualDate)
      invariant skipped == Skipped(elements[..i])
    {
      PrefixStep(elements, i);
      skipped := LoadElement(converter, elements[..i], elements[i], skipped);
    }
    assert elements[..|elements|] == elements;
  }

  /**
   * One turn of that loop: the element's currency is added to `converter`
   * when it is acceptable, and the count of refused elements goes up by one
   * otherwise.
   */
  method LoadElement(converter: CurrencyConverter, done: seq<XElement>, e: XElement, skipped: nat) returns (count: nat)
    requires converter.Valid() && converter.currencies == LoadedTable(done)
    requires skipped == Skipped(done)
    modifies converter
    ensures converter.Valid()
    ensures converter.currencies == LoadedTable(done + [e])
    ensures converter.actualDate == old(converter.actualDate)
    ensures count == Skipped(done + [e])
  {
    LoadStepTable(done, e);
    LoadStepSkipped(done, e);
    var loaded := LoadCurrencyFromXElement(e);
    if loaded.Success? {
      converter.Add(loaded.value);
      count := skipped;
    } else {
      count := skipped + 1;
    }
  }
}
