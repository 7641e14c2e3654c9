# Currency converter core in Dafny

This project models the core of a console currency converter driven by the
daily rates document of the Central Bank of Russia, and proves properties of
that model. The core has three parts:

- **The currency record** (`CurrencyRecord`, from `Currency.cs`). A record has a
  three-letter code, a name, a lot size (`Nominal`), the cost of a lot and the
  cost of one unit. Both costs are in roubles. The property setters refuse an
  invalid value and leave the field as it was. The constructor runs the setters
  in order. The record also has a memberwise `Clone` and the cross rate
  `GetRate`.
- **The currency table** (`CurrencyTable`, from `CurrencyConverter.cs`). It maps
  each code to its record, is seeded with the rouble and carries the date the
  rates hold for. It supports `Add` (insert or overwrite), `CheckCharCode`,
  `GetRate` and `Convert`. `GetRate` and `Convert` fail with a key-not-found
  error that names the missing code, checking the first code before the second.
  Enumeration yields fresh copies of the stored records.
- **The loader** (`Builder`, from `CurrencyConverterBuilder.cs`).
  - `LoadCurrencyFromXElement` turns one `Valute` element into a record. It runs
    its checks in a fixed order: element name, the five fields, the three
    numbers (both cost fields have `,` turned into `.` first), the integrity
    condition `|unitCost * amount - amountCost| <= 1e-6`, and last the record's
    own range checks.
  - `LoadConverterFromRatesFile` checks the `ValCurs` root and its `Date`
    attribute in the `dd.MM.yyyy` format. A bad root rejects the whole document.
    It then adds every acceptable child element to a fresh table and counts the
    refused ones.

How the source's constructs appear in the model:

- C# `decimal` is Dafny `real`.
- Exceptions are `Result`/`Outcome` values (`Wrappers`).
- The XML document is an already-loaded tree value.
- `int.TryParse`, `decimal.TryParse` and `DateTime.TryParseExact` are replaced by
  simplified pure parsers in `Parsing`, with their round trips proved.
- `Currency` is a class whose setters are methods with `modifies this`.
- The table is a class holding a `map` from code to record value. `Add` updates
  the map in place.
- The loader's loop is a method (`AddElements`) proved against the pure fold
  functions `Accepted`, `Skipped` and `AddAll`.

## Notes on the model

- Only the loader enforces the integrity condition
  `|unitCost * amount - amountCost| <= 1e-6`. The `Currency` constructor and
  setters accept any positive costs, so `CurrencyValue.Valid` does not include
  the condition. `LoadedTableWellFormed` proves it for every entry of a loaded
  table, the seeded rouble (1, 1, 1) included. Records added to a table
  directly through `Add` need not satisfy it.
- A missing root and a root with another name get the same error
  (`RootNotFound`), as in the code.
- A document may redefine `RUB`. `Add` then overwrites the seeded rouble, and
  the table still holds a record under `RUB`.

## Model

| member | source | states |
|---|---|---|
| CurrencyRecord.AllAsciiLetterUpper | CurrencyConverter.Model/Currency.cs:54 | true exactly when every character of the string is an upper-case ASCII letter |
| CurrencyRecord.IsAvailableCharCode | CurrencyConverter.Model/Currency.cs:53-54 | a code is acceptable iff it has length 3 and all three characters are in 'A'..'Z'; a string with a lower-case letter is refused, not folded |
| CurrencyRecord.CurrencyValue.Valid | CurrencyConverter.Model/Currency.cs:63-132 | definition of what the four checking setters let through: an acceptable code, amount > 0 and both costs > 0, the name unchecked |
| CurrencyRecord.CheckFields | CurrencyConverter.Model/Currency.cs:144-151 | the constructor's checks pass iff the value is valid (code, amount > 0, both costs > 0; the name unchecked), and otherwise name the first refused field in setter order |
| CurrencyRecord.Rate | CurrencyConverter.Model/Currency.cs:170 | the rate between two valid records is positive and times the target's unit cost gives the source's unit cost |
| CurrencyRecord.RateSelf | CurrencyConverter.Model/Currency.cs:170 | a record's rate to itself is 1 |
| CurrencyRecord.RateInverse | CurrencyConverter.Model/Currency.cs:170 | rate(a, b) * rate(b, a) == 1 in exact arithmetic |
| CurrencyRecord.RateRoundTrip | CurrencyConverter.Model/Currency.cs:170 | an amount multiplied by the rate there and the rate back is unchanged |
| CurrencyRecord.RateChain | CurrencyConverter.Model/Currency.cs:170 | rate(a, b) * rate(b, c) == rate(a, c): cross rates through the rouble compose |
| CurrencyRecord.Currency.Blank | CurrencyConverter.Model/Currency.cs:14-45 | a new object holds the field initialisers: empty code and name, zero amount and costs |
| CurrencyRecord.Currency.FromValue | CurrencyConverter.Model/Currency.cs:157 | a new object holds exactly the given five fields |
| CurrencyRecord.Currency.SetCharCode | CurrencyConverter.Model/Currency.cs:63-69 | succeeds iff the code is acceptable; on success only the code changes, on refusal nothing changes and the code field is named; validity is kept |
| CurrencyRecord.Currency.SetName | CurrencyConverter.Model/Currency.cs:75-79 | always stores the name and changes nothing else |
| CurrencyRecord.Currency.SetAmount | CurrencyConverter.Model/Currency.cs:91-97 | succeeds iff the amount is > 0; stores it and nothing else, or changes nothing |
| CurrencyRecord.Currency.SetAmountCost | CurrencyConverter.Model/Currency.cs:110-116 | succeeds iff the lot cost is > 0; stores it and nothing else, or changes nothing |
| CurrencyRecord.Currency.SetUnitCost | CurrencyConverter.Model/Currency.cs:126-132 | succeeds iff the unit cost is > 0; stores it and nothing else, or changes nothing |
| CurrencyRecord.Currency.New | CurrencyConverter.Model/Currency.cs:144-151 | runs the setters in order; yields a fresh object holding the arguments iff they form a valid record, and otherwise the error of the first refused field |
| CurrencyRecord.Currency.Clone | CurrencyConverter.Model/Currency.cs:157 | a fresh object equal field by field to this one |
| CurrencyRecord.Currency.GetRate | CurrencyConverter.Model/Currency.cs:170 | the rate of this record's value to the other's |
| CurrencyRecord.CloneIsIndependent | CurrencyConverter.Model/Currency.cs:157 | the copy is a different object; changing its amount changes the copy only and leaves the original as it was |
| CurrencyTable.WellFormed | CurrencyConverter.Model/CurrencyConverter.cs:18-79 | definition of the dictionary invariant the constructor sets up and `Add` keeps: RUB is a key, and every record is valid and stored under its own code |
| CurrencyTable.SeedTable | CurrencyConverter.Model/CurrencyConverter.cs:44-51 | the seed table has the single key RUB, holding the rouble with amount 1 and both costs 1 |
| CurrencyTable.SeedTableWellFormed | CurrencyConverter.Model/CurrencyConverter.cs:44-51 | the seed table satisfies the table invariant |
| CurrencyTable.CurrencyConverter.constructor | CurrencyConverter.Model/CurrencyConverter.cs:42-54 | a new table holds only the rouble, has length 1, keeps the invariant and carries the given date |
| CurrencyTable.CurrencyConverter.Length | CurrencyConverter.Model/CurrencyConverter.cs:23-26 | a table keeping its invariant has at least one entry |
| CurrencyTable.CurrencyConverter.Add | CurrencyConverter.Model/CurrencyConverter.cs:79 | maps the record's code to the record (overwriting, the rouble included) and changes no other key and not the date; the length grows by one iff the code was absent; the invariant is kept |
| CurrencyTable.CurrencyConverter.CheckCharCode | CurrencyConverter.Model/CurrencyConverter.cs:87-91 | passes iff the code is a key, and otherwise names that code |
| CurrencyTable.CurrencyConverter.GetRate | CurrencyConverter.Model/CurrencyConverter.cs:100-108 | fails naming the first code when it is missing, else naming the second when it is missing; succeeds iff both are keys, with the rate of their records |
| CurrencyTable.CurrencyConverter.Convert | CurrencyConverter.Model/CurrencyConverter.cs:118-119 | fails exactly when the rate fails, with the same error; otherwise the amount times the rate, so result * target unit cost == amount * source unit cost |
| CurrencyTable.CurrencyConverter.GetEnumerator | CurrencyConverter.Model/CurrencyConverter.cs:61-65 | one fresh copy per stored record: as many copies as the table's length, equal to the stored records, no code twice and every code present |
| CurrencyTable.ListKeys | CurrencyConverter.Model/CurrencyConverter.cs:63 | lists every key of the map exactly once |
| CurrencyTable.CopyRecords | CurrencyConverter.Model/CurrencyConverter.cs:63-64 | one fresh object per listed code, holding that code's record |
| CurrencyTable.GetRateSelf | CurrencyConverter.Model/CurrencyConverter.cs:100-108 | the rate of a present code to itself is exactly 1 |
| CurrencyTable.GetRateInverse | CurrencyConverter.Model/CurrencyConverter.cs:100-108 | GetRate(f, t) * GetRate(t, f) == 1 for present codes |
| CurrencyTable.ConvertZero | CurrencyConverter.Model/CurrencyConverter.cs:118-119 | converting 0 between present codes gives 0 |
| CurrencyTable.ConvertIdentity | CurrencyConverter.Model/CurrencyConverter.cs:118-119 | converting between a present code and itself gives the amount back |
| CurrencyTable.ConvertPresent | CurrencyConverter.Model/CurrencyConverter.cs:118-119 | between present codes the conversion succeeds and is the amount times the rate of their records |
| CurrencyTable.ConvertRoundTrip | CurrencyConverter.Model/CurrencyConverter.cs:118-119 | converting there and back gives the amount back, in exact arithmetic |
| Parsing.ParseInt32 | CurrencyConverter.Builder/CurrencyConverterBuilder.cs:200-203 | an accepted integer is in the 32-bit range; its text is a first character that is '+', '-' or a digit, followed by digits only; its value is the value of the digits, negated after '-' |
| Parsing.ParseInt32OfSignedDigits | CurrencyConverter.Builder/CurrencyConverterBuilder.cs:200-203 | no sign, '+' or '-' followed by one or more digits (leading zeros allowed) is accepted exactly when its signed value is in the 32-bit range, and then parses to that value |
| Parsing.ParseInt32OfNatToString | CurrencyConverter.Builder/CurrencyConverterBuilder.cs:200-203 | the decimal text of any n up to 2^31 - 1 parses to n |
| Parsing.ParseInt32OfNegated | CurrencyConverter.Builder/CurrencyConverterBuilder.cs:200-203 | "-" and the text of n parses to -n, down to -2^31 |
| Parsing.ParseDecimal | CurrencyConverter.Builder/CurrencyConverterBuilder.cs:205-213 | accepted decimal text never contains a comma |
| Parsing.ParseDecimalOfPointText | CurrencyConverter.Builder/CurrencyConverterBuilder.cs:205-213 | "whole.fraction" parses to whole + fraction / 10^len(fraction) |
| Parsing.ParseDecimalOfNatToString | CurrencyConverter.Builder/CurrencyConverterBuilder.cs:205-213 | the text of a natural number parses to that number |
| Parsing.NormalizeSeparator | CurrencyConverter.Builder/CurrencyConverterBuilder.cs:190 | same length, every ',' replaced by '.', every other character kept |
| Parsing.CommaDecimalNeedsNormalizing | CurrencyConverter.Builder/CurrencyConverterBuilder.cs:190-213 | "whole,fraction" does not parse as written but parses as "whole.fraction" once normalised |
| Parsing.ParseDate | CurrencyConverter.Builder/CurrencyConverterBuilder.cs:111 | an accepted date text has length 10 and denotes an existing date in years 1 to 9999 |
| Parsing.FormatDate | CurrencyConverter.Model/CurrencyConverter.cs:36 | a valid date formats as 10 characters |
| Parsing.ParseFormatDate | CurrencyConverter.Builder/CurrencyConverterBuilder.cs:111 | a valid date formatted as dd.MM.yyyy parses back to itself |
| Parsing.FormatParseDate | CurrencyConverter.Builder/CurrencyConverterBuilder.cs:111 | accepted date text is exactly the formatting of the date it denotes |
| Builder.ParsedRecord | CurrencyConverter.Builder/CurrencyConverterBuilder.cs:178-213 | some iff the amount parses as an integer as written and both costs parse as decimals after normalisation; the record then holds the code and name texts and exactly those three numbers |
| Builder.Consistent | CurrencyConverter.Builder/CurrencyConverterBuilder.cs:217-218 | the integrity condition holds iff unitCost * amount - amountCost lies between -1e-6 and 1e-6 |
| Builder.Abs | CurrencyConverter.Builder/CurrencyConverterBuilder.cs:217 | the absolute value is non-negative and equals x or -x |
| Builder.FirstMissing | CurrencyConverter.Builder/CurrencyConverterBuilder.cs:178-196 | none iff every name is a child; otherwise a name that is missing while every earlier one is present |
| Builder.RequiredFieldsPresent | CurrencyConverter.Builder/CurrencyConverterBuilder.cs:178-196 | all five fields are present iff every entry of the lookup order is |
| Builder.LoadCurrencyFromXElement | CurrencyConverter.Builder/CurrencyConverterBuilder.cs:171-230 | succeeds iff the element is acceptable in the order-free sense (name, fields, numbers, integrity, ranges), with exactly the parsed record; a wrong name is reported as such; an integrity error iff the numbers parse but break the integrity condition |
| Builder.MissingFieldsInOrder | CurrencyConverter.Builder/CurrencyConverterBuilder.cs:178-196 | a missing field is reported when every field before it in the order CharCode, Name, Nominal, Value, VunitRate is present |
| Builder.InvalidNumbersInOrder | CurrencyConverter.Builder/CurrencyConverterBuilder.cs:200-213 | the amount, lot cost and unit cost are parsed in turn and the first that does not parse is named; the amount is parsed as written, the costs after normalisation |
| Builder.IntegrityBeforeRanges | CurrencyConverter.Builder/CurrencyConverterBuilder.cs:217-228 | an element whose numbers parse but break the integrity condition is an integrity error, whatever its ranges |
| Builder.RangeErrorsFromConstructor | CurrencyConverter.Builder/CurrencyConverterBuilder.cs:222-229 | a consistent element fails with the constructor's first refused field, or yields exactly the parsed values |
| Builder.CommaCostsAreRead | CurrencyConverter.Builder/CurrencyConverterBuilder.cs:186-194 | a lot cost written with ',' is read as the same decimal with '.', and the amount is the integer parse of its text as written |
| Builder.ValidateRoot | CurrencyConverter.Builder/CurrencyConverterBuilder.cs:103-113 | succeeds iff there is a root named ValCurs with a Date attribute that parses as dd.MM.yyyy, yielding that root and date; a missing or misnamed root and a missing attribute are reported as such |
| Builder.RootCheckIgnoresElements | CurrencyConverter.Builder/CurrencyConverterBuilder.cs:103-113 | whether and why the root is refused does not depend on its child elements |
| Builder.Accepted | CurrencyConverter.Builder/CurrencyConverterBuilder.cs:117-123 | no more records than elements, each valid and satisfying the integrity condition |
| Builder.Skipped | CurrencyConverter.Builder/CurrencyConverterBuilder.cs:124-128 | the skipped count never exceeds the number of elements |
| Builder.SkippedPlusAccepted | CurrencyConverter.Builder/CurrencyConverterBuilder.cs:115-129 | skipped + accepted == number of child elements |
| Builder.AddAll | CurrencyConverter.Builder/CurrencyConverterBuilder.cs:122 | the keys afterwards are the old keys plus the codes of the added records |
| Builder.AddAllWellFormed | CurrencyConverter.Builder/CurrencyConverterBuilder.cs:122 | adding valid records keeps the table invariant |
| Builder.AddAllLastWins | CurrencyConverter.Builder/CurrencyConverterBuilder.cs:122 | a code ends up with the last record added under it |
| Builder.AddAllUntouched | CurrencyConverter.Builder/CurrencyConverterBuilder.cs:122 | a code no added record has keeps its old entry |
| Builder.AddAllFrom | CurrencyConverter.Builder/CurrencyConverterBuilder.cs:122 | every entry afterwards is an old entry or one of the added records |
| Builder.LoadedTable | CurrencyConverter.Builder/CurrencyConverterBuilder.cs:115-129 | the table the loop builds has exactly the keys RUB and the codes of the accepted records |
| Builder.LoadedTableWellFormed | CurrencyConverter.Builder/CurrencyConverterBuilder.cs:115-129 | the loaded table keeps the invariant and every entry, the rouble included, satisfies the integrity condition |
| Builder.LoadStepTable | CurrencyConverter.Builder/CurrencyConverterBuilder.cs:119-123 | one more element adds its record to the table when accepted and leaves the table unchanged otherwise |
| Builder.LoadStepSkipped | CurrencyConverter.Builder/CurrencyConverterBuilder.cs:124-128 | one more element adds one to the skipped count exactly when it is refused |
| Builder.NothingAccepted | CurrencyConverter.Builder/CurrencyConverterBuilder.cs:117-129 | elements none of which is acceptable produce no records |
| Builder.NothingAcceptedOnlyRouble | CurrencyConverter.Builder/CurrencyConverterBuilder.cs:115-129 | with no acceptable child element (zero children in particular) the table is the rouble alone and every child is skipped |
| Builder.AcceptedStep | CurrencyConverter.Builder/CurrencyConverterBuilder.cs:117-123 | one more element appends its record to the accepted ones when it loads and leaves them unchanged otherwise |
| Builder.AcceptedOfTwo | CurrencyConverter.Builder/CurrencyConverterBuilder.cs:117-123 | a loading element followed by a refused one gives the first element's record alone |
| Builder.AcceptedOfThree | CurrencyConverter.Builder/CurrencyConverterBuilder.cs:117-123 | loading, refused and loading elements give the two loading records in document order |
| Builder.SkippedOfThree | CurrencyConverter.Builder/CurrencyConverterBuilder.cs:124-128 | loading, refused and loading elements give a skipped count of 1 |
| Builder.ThreeKeys | CurrencyConverter.Builder/CurrencyConverterBuilder.cs:122 | adding two records with distinct non-rouble codes to the seed table gives 3 entries |
| Builder.OneOfThreeSkipped | CurrencyConverter.Builder/CurrencyConverterBuilder.cs:115-129 | three elements with the middle one refused and two distinct non-rouble codes give a table of 3 entries and a skipped count of 1 |
| Builder.LoadConverterFromRatesFile | CurrencyConverter.Builder/CurrencyConverterBuilder.cs:101-160 | rejected iff the root check fails, with its violation; otherwise a fresh table keeping the invariant, holding the rouble plus the accepted records in order, carrying the root's date, together with the skipped count |
| Builder.AddElements | CurrencyConverter.Builder/CurrencyConverterBuilder.cs:115-129 | the loop adds every accepted record to a rouble-only table and counts the refused elements, matching the fold functions |
| Builder.LoadElement | CurrencyConverter.Builder/CurrencyConverterBuilder.cs:117-128 | one turn of the loop: the table goes from the table of the elements so far to the table of those plus this one, and the count to their skipped count, keeping the invariant and the date |

## Left out

- File and network I/O: `XDocument.Load`, `document.Save`, `UpdateRatesFile` and the rates client. The document is an input value, and a file that is missing or is not XML is not modelled.
- Console output: the logger, the messages and the final summary line. Exception message texts are also left out; errors carry only their kind and the field or code concerned.
- `GetRateString`: it formats with `F4` through a library call.
- The `DateTime.Today` default of the table constructor: it depends on the environment, so the date is always a parameter.
- The non-generic `IEnumerable.GetEnumerator`: it only forwards to the generic one.
- Lazy enumeration: `GetEnumerator` returns all copies at once, not one at a time through a `yield` iterator. Their order is unspecified.
- Aliasing between the table and the records: the table stores record values, not references to `Currency` objects. A caller who keeps a reference to an added `Currency` and changes it later would change the source's table, but cannot change the model's.
- C# `decimal`: the model uses exact `real`, so the 28 to 29 significant digits, the rounding of division and multiplication, and the `decimal` range are not modelled. The identity, inverse and round-trip lemmas hold exactly in the model; with `decimal` they only hold approximately.
- `null` arguments and a `null` element value: the source's `?.Value` checks are modelled as field presence.
- Parsing.ParseInt32: does not model surrounding white space, which `int.TryParse` accepts, and ignores culture settings.
- Parsing.ParseDecimal: accepts digits with at most one `.` and an optional leading sign. It does not model white space, thousands separators, exponents, trailing signs, culture-specific separators, or the `decimal` range.
- Parsing.ParseDate: accepts exactly the `dd.MM.yyyy` digits of a date in years 1 to 9999 under the Gregorian calendar. It does not model culture or calendar settings.
- XML names: element and attribute names are plain strings without namespaces. Each field is the text of the first child element with that name; mixed content and nested markup inside a field are not modelled.
- The `Currency` objects built by `LoadCurrencyFromXElement`: the pure function returns the record value. `CheckFields` stands for the constructor, whose outcome `Currency.New` is proved to match.
