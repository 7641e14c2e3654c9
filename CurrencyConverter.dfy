/**
 * The currency table: records keyed by their codes, always holding the rouble,
 * in which every cost is denominated, together with the date for which the
 * rates hold. Rates and conversions between two codes go through the rouble.
 */
module CurrencyTable {
  import opened Wrappers
  import opened CurrencyRecord
  import opened Parsing

  const ReferenceCode: string := "RUB"

  /** The rouble record the table is seeded with: one unit costs one rouble. */
  const ReferenceCurrency: CurrencyValue := CurrencyValue(ReferenceCode, "Российский рубль", 1, 1.0, 1.0)

  /** A table with only the rouble in it. */
  function SeedTable(): (m: map<string, CurrencyValue>)
    ensures m.Keys == {ReferenceCode} && m[ReferenceCode] == ReferenceCurrency
  {
    map[ReferenceCode := ReferenceCurrency]
  }

  /**
   * The table invariant: the rouble is present, every record is stored under its
   * own code, and every record is valid (so every unit cost is positive).
   */
  predicate WellFormed(m: map<string, CurrencyValue>)
  {
    && ReferenceCode in m
    && forall code :: code in m ==> m[code].charCode == code && m[code].Valid()
  }

  lemma SeedTableWellFormed()
    ensures WellFormed(SeedTable())
  {
  }

  /** `KeyNotFoundException`, naming the code that is not in the table. */
  datatype LookupError = KeyNotFound(charCode: string)

  class CurrencyConverter {
    var currencies: map<string, CurrencyValue>
    var actualDate: Date

    predicate Valid()
      reads this
    {
      WellFormed(currencies)
    }

    /** A table holding only the rouble, valid for `initActualDate`. */
    constructor (initActualDate: Date)
      ensures Valid()
      ensures currencies == SeedTable() && actualDate == initActualDate
      ensures Length() == 1
    {
      currencies := SeedTable();
      actualDate := initActualDate;
      SeedTableWellFormed();
    }

    /** The number of codes in the table, the rouble included. */
    function Length(): (n: nat)
      reads this
      ensures Valid() ==> n >= 1
    {
      |currencies|
    }

    /** Stores the record under its code, replacing any record with that code (the rouble too). */
    method Add(currency: CurrencyValue)
      requires Valid() && currency.Valid()
      modifies this
      ensures Valid()
      ensures currencies == old(currencies)[currency.charCode := currency]
      ensures actualDate == old(actualDate)
      ensures Length() == old(Length()) + (if currency.charCode in old(currencies) then 0 else 1)
    {
      currencies := currencies[currency.charCode := currency];
    }

    function CheckCharCode(charCode: string): (r: Outcome<LookupError>)
      reads this
      ensures r.Pass? <==> charCode in currencies
      ensures r.Fail? ==> r.error == KeyNotFound(charCode)
    {
      if charCode !in currencies then Fail(KeyNotFound(charCode)) else Pass
    }

    /**
     * How many units of `charCodeTo` one unit of `charCodeFrom` is worth. The
     * first code is looked up first, so when both are missing it is the one named.
     */
    function GetRate(charCodeFrom: string, charCodeTo: string): (r: Result<real, LookupError>)
      reads this
      requires Valid()
      ensures charCodeFrom !in currencies ==> r == Failure(KeyNotFound(charCodeFrom))
      ensures charCodeFrom in currencies && charCodeTo !in currencies ==> r == Failure(KeyNotFound(charCodeTo))
      ensures r.Success? <==> charCodeFrom in currencies && charCodeTo in currencies
      ensures r.Success? ==> r.value == Rate(currencies[charCodeFrom], currencies[charCodeTo])
    {
      match CheckCharCode(charCodeFrom)
      case Fail(e) => Failure(e)
      case Pass =>
        match CheckCharCode(charCodeTo)
        case Fail(e) => Failure(e)
        case Pass => Success(Rate(currencies[charCodeFrom], currencies[charCodeTo]))
    }

    /** `amountFrom` units of `charCodeFrom` expressed in `charCodeTo`; the amount itself is not checked. */
    function Convert(amountFrom: real, charCodeFrom: string, charCodeTo: string): (r: Result<real, LookupError>)
      reads this
      requires Valid()
      ensures r.Failure? <==> GetRate(charCodeFrom, charCodeTo).Failure?
      ensures r.Failure? ==> r.error == GetRate(charCodeFrom, charCodeTo).error
      ensures r.Success? ==> r.value == amountFrom * GetRate(charCodeFrom, charCodeTo).value
      ensures r.Success? ==> r.value * currencies[charCodeTo].unitCost == amountFrom * currencies[charCodeFrom].unitCost
    {
      match GetRate(charCodeFrom, charCodeTo)
      case Failure(e) => Failure(e)
      case Success(rate) => Success(amountFrom * rate)
    }

    /**
     * Copies of all stored records, one per code, as fresh objects: changing
     * them cannot change the table.
     */
    method GetEnumerator() returns (copies: seq<Currency>)
      requires Valid()
      ensures |copies| == Length()
      ensures forall i :: 0 <= i < |copies| ==> fresh(copies[i])
      ensures forall i :: 0 <= i < |copies| ==>
        copies[i].charCode in currencies && copies[i].Value() == currencies[copies[i].charCode]
      ensures forall i, j :: 0 <= i < j < |copies| ==> copies[i].charCode != copies[j].charCode
      ensures forall code :: code in currencies ==> exists i :: 0 <= i < |copies| && copies[i].charCode == code
    {
      var codes := ListKeys(currencies);
      copies := CopyRecords(currencies, codes);
      assert forall i :: 0 <= i < |copies| ==> copies[i].charCode == codes[i] by {
        forall i | 0 <= i < |copies| ensures copies[i].charCode == codes[i] {
          assert copies[i].Value().charCode == currencies[codes[i]].charCode;
        }
      }
      forall code | code in currencies ensures exists i :: 0 <= i < |copies| && copies[i].charCode == code {
        var i :| 0 <= i < |codes| && codes[i] == code;
        assert copies[i].charCode == code;
      }
    }
  }

  /** A fresh object for the record under each of `codes`, in that order. */
  method CopyRecords(m: map<string, CurrencyValue>, codes: seq<string>) returns (copies: seq<Currency>)
    requires forall i :: 0 <= i < |codes| ==> codes[i] in m
    ensures |copies| == |codes|
    ensures forall i :: 0 <= i < |copies| ==> fresh(copies[i])
    ensures forall i :: 0 <= i < |copies| ==> copies[i].Value() == m[codes[i]]
  {
    copies := [];
    for i := 0 to |codes|
      invariant |copies| == i
      invariant forall j :: 0 <= j < i ==> fresh(copies[j])
      invariant forall j :: 0 <= j < i ==> copies[j].Value() == m[codes[j]]
    {
      var copy := new Currency.FromValue(m[codes[i]]);
      copies := copies + [copy];
    }
  }

  /** The keys of `m`, each once, in some order. */
  method ListKeys<V>(m: map<string, V>) returns (codes: seq<string>)
    ensures |codes| == |m|
    ensures forall i :: 0 <= i < |codes| ==> codes[i] in m
    ensures forall i, j :: 0 <= i < j < |codes| ==> codes[i] != codes[j]
    ensures forall code :: code in m ==> exists i :: 0 <= i < |codes| && codes[i] == code
  {
    codes := [];
    var remaining := m.Keys;
    while remaining != {}
      invariant remaining <= m.Keys
      invariant |codes| + |remaining| == |m|
      invariant forall i :: 0 <= i < |codes| ==> codes[i] in m.Keys - remaining
      invariant forall i, j :: 0 <= i < j < |codes| ==> codes[i] != codes[j]
      invariant forall code :: code in m.Keys - remaining ==> code in codes
      decreases remaining
    {
      var code :| code in remaining;
      codes := codes + [code];
      remaining := remaining - {code};
    }
    assert m.Keys - remaining == m.Keys;
  }

  lemma GetRateSelf(table: CurrencyConverter, charCode: string)
    requires table.Valid() && charCode in table.currencies
    ensures table.GetRate(charCode, charCode) == Success(1.0)
  {
    RateSelf(table.currencies[charCode]);
  }

  /** In exact arithmetic the rate back is the reciprocal of the rate there. */
  lemma GetRateInverse(table: CurrencyConverter, charCodeFrom: string, charCodeTo: string)
    requires table.Valid() && charCodeFrom in table.currencies && charCodeTo in table.currencies
    ensures table.GetRate(charCodeFrom, charCodeTo).value * table.GetRate(charCodeTo, charCodeFrom).value == 1.0
  {
    RateInverse(table.currencies[charCodeFrom], table.currencies[charCodeTo]);
  }

  lemma ConvertZero(table: CurrencyConverter, charCodeFrom: string, charCodeTo: string)
    requires table.Valid() && charCodeFrom in table.currencies && charCodeTo in table.currencies
    ensures table.Convert(0.0, charCodeFrom, charCodeTo) == Success(0.0)
  {
  }

  lemma ConvertIdentity(table: CurrencyConverter, amountFrom: real, charCode: string)
    requires table.Valid() && charCode in table.currencies
    ensures table.Convert(amountFrom, charCode, charCode) == Success(amountFrom)
  {
    GetRateSelf(table, charCode);
  }

  /** A conversion between two present codes multiplies the amount by the rate of their records. */
  lemma ConvertPresent(table: CurrencyConverter, amountFrom: real, charCodeFrom: string, charCodeTo: string)
    requires table.Valid() && charCodeFrom in table.currencies && charCodeTo in table.currencies
    ensures table.Convert(amountFrom, charCodeFrom, charCodeTo).Success?
    ensures table.Convert(amountFrom, charCodeFrom, charCodeTo).value
         == amountFrom * Rate(table.currencies[charCodeFrom], table.currencies[charCodeTo])
  {
  }

  /** Converting there and back returns the amount, in exact arithmetic. */
  lemma ConvertRoundTrip(table: CurrencyConverter, amountFrom: real, charCodeFrom: string, charCodeTo: string)
    requires table.Valid() && charCodeFrom in table.currencies && charCodeTo in table.currencies
    ensures table.Convert(table.Convert(amountFrom, charCodeFrom, charCodeTo).value, charCodeTo, charCodeFrom).Success?
    ensures table.Convert(table.Convert(amountFrom, charCodeFrom, charCodeTo).value, charCodeTo, charCodeFrom).value
         == amountFrom
  {
    var from, to := table.currencies[charCodeFrom], table.currencies[charCodeTo];
    ConvertPresent(table, amountFrom, charCodeFrom, charCodeTo);
    ConvertPresent(table, amountFrom * Rate(from, to), charCodeTo, charCodeFrom);
    RateRoundTrip(amountFrom, from, to);
  }
}
