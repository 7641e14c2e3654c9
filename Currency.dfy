/**
 * The currency record: a three-letter code, a display name, the lot size
 * (`amount`), the cost of a lot and the cost of one unit, both in roubles.
 * The record is an object whose property setters refuse invalid values, so
 * that no record with an invalid field can be constructed.
 */
module CurrencyRecord {
  import opened Wrappers

  predicate IsAsciiLetterUpper(c: char) { 'A' <= c <= 'Z' }

  /** Whether every character of `s` is an upper-case ASCII letter (`All(char.IsAsciiLetterUpper)`). */
  function AllAsciiLetterUpper(s: string): (b: bool)
    ensures b <==> forall i :: 0 <= i < |s| ==> IsAsciiLetterUpper(s[i])
  {
    s == [] || (IsAsciiLetterUpper(s[0]) && AllAsciiLetterUpper(s[1..]))
  }

  /** Whether `s` is a currency code: exactly three upper-case Latin letters, with no case folding. */
  function IsAvailableCharCode(s: string): (b: bool)
    ensures b <==> |s| == 3 && IsAsciiLetterUpper(s[0]) && IsAsciiLetterUpper(s[1]) && IsAsciiLetterUpper(s[2])
    ensures (exists i :: 0 <= i < |s| && 'a' <= s[i] <= 'z') ==> !b
  {
    |s| == 3 && AllAsciiLetterUpper(s)
  }

  /** The field a setter refused (each refusal is an `ArgumentOutOfRangeException`). */
  datatype Field = CharCodeField | AmountField | AmountCostField | UnitCostField

  /** The value held by a currency object. */
  datatype CurrencyValue = CurrencyValue(charCode: string, name: string, amount: int, amountCost: real, unitCost: real)
  {
    /** What every constructed record satisfies. The name is never checked. */
    predicate Valid()
    {
      IsAvailableCharCode(charCode) && amount > 0 && amountCost > 0.0 && unitCost > 0.0
    }
  }

  /**
   * The checks the constructor makes, in the order its setters run: code,
   * amount, lot cost, unit cost. The first refused field is reported.
   */
  function CheckFields(v: CurrencyValue): (r: Outcome<Field>)
    ensures r.Pass? <==> v.Valid()
    ensures r == Fail(CharCodeField) <==> !IsAvailableCharCode(v.charCode)
    ensures r == Fail(AmountField) <==> IsAvailableCharCode(v.charCode) && v.amount <= 0
    ensures r == Fail(AmountCostField) <==> IsAvailableCharCode(v.charCode) && v.amount > 0 && v.amountCost <= 0.0
    ensures r == Fail(UnitCostField) <==> IsAvailableCharCode(v.charCode) && v.amount > 0 && v.amountCost > 0.0 && v.unitCost <= 0.0
  {
    if !IsAvailableCharCode(v.charCode) then Fail(CharCodeField)
    else if v.amount <= 0 then Fail(AmountField)
    else if v.amountCost <= 0.0 then Fail(AmountCostField)
    else if v.unitCost <= 0.0 then Fail(UnitCostField)
    else Pass
  }

  /** How many units of `to` one unit of `from` is worth, both costs being in roubles. */
  function Rate(from: CurrencyValue, to: CurrencyValue): (r: real)
    requires from.Valid() && to.Valid()
    ensures r > 0.0
    ensures r * to.unitCost == from.unitCost
  {
    from.unitCost / to.unitCost
  }

  lemma RateSelf(c: CurrencyValue)
    requires c.Valid()
    ensures Rate(c, c) == 1.0
  {
  }

  /** In exact arithmetic the rate back is the reciprocal of the rate there. */
  lemma RateInverse(a: CurrencyValue, b: CurrencyValue)
    requires a.Valid() && b.Valid()
    ensures Rate(a, b) * Rate(b, a) == 1.0
  {
  }

  /** An amount taken to another currency and back is unchanged, in exact arithmetic. */
  lemma RateRoundTrip(x: real, a: CurrencyValue, b: CurrencyValue)
    requires a.Valid() && b.Valid()
    ensures x * Rate(a, b) * Rate(b, a) == x
  {
    RateInverse(a, b);
    assert x * Rate(a, b) * Rate(b, a) == x * (Rate(a, b) * Rate(b, a));
  }

  /** Cross rates through the rouble compose: going from a to b and then to c is going from a to c. */
  lemma RateChain(a: CurrencyValue, b: CurrencyValue, c: CurrencyValue)
    requires a.Valid() && b.Valid() && c.Valid()
    ensures Rate(a, b) * Rate(b, c) == Rate(a, c)
  {
    var x, y, z := Rate(a, b), Rate(b, c), Rate(a, c);
    assert x * y * c.unitCost == z * c.unitCost by {
      calc {
        x * y * c.unitCost;
        x * (y * c.unitCost);
        x * b.unitCost;
        a.unitCost;
        z * c.unitCost;
      }
    }
  }

  class Currency {
    var charCode: string
    var name: string
    var amount: int
    var amountCost: real
    var unitCost: real

    function Value(): CurrencyValue
      reads this
    {
      CurrencyValue(charCode, name, amount, amountCost, unitCost)
    }

    predicate Valid()
      reads this
    {
      Value().Valid()
    }

    /** An object with the field initialisers only: empty strings and zeros. */
    constructor Blank()
      ensures Value() == CurrencyValue("", "", 0, 0.0, 0.0)
    {
      charCode, name, amount, amountCost, unitCost := "", "", 0, 0.0, 0.0;
    }

    /** A fresh object holding the fields of `v` (what a memberwise copy produces). */
    constructor FromValue(v: CurrencyValue)
      ensures Value() == v
    {
      charCode, name, amount, amountCost, unitCost := v.charCode, v.name, v.amount, v.amountCost, v.unitCost;
    }

    method SetCharCode(value: string) returns (r: Outcome<Field>)
      modifies this
      ensures r.Pass? <==> IsAvailableCharCode(value)
      ensures r.Pass? ==> Value() == old(Value()).(charCode := value)
      ensures r.Fail? ==> r.error == CharCodeField && Value() == old(Value())
      ensures old(Valid()) ==> Valid()
    {
      if !IsAvailableCharCode(value) {
        return Fail(CharCodeField);
      }
      charCode := value;
      return Pass;
    }

    method SetName(value: string)
      modifies this
      ensures Value() == old(Value()).(name := value)
      ensures old(Valid()) ==> Valid()
    {
      name := value;
    }

    method SetAmount(value: int) returns (r: Outcome<Field>)
      modifies this
      ensures r.Pass? <==> value > 0
      ensures r.Pass? ==> Value() == old(Value()).(amount := value)
      ensures r.Fail? ==> r.error == AmountField && Value() == old(Value())
      ensures old(Valid()) ==> Valid()
    {
      if value <= 0 {
        return Fail(AmountField);
      }
      amount := value;
      return Pass;
    }

    method SetAmountCost(value: real) returns (r: Outcome<Field>)
      modifies this
      ensures r.Pass? <==> value > 0.0
      ensures r.Pass? ==> Value() == old(Value()).(amountCost := value)
      ensures r.Fail? ==> r.error == AmountCostField && Value() == old(Value())
      ensures old(Valid()) ==> Valid()
    {
      if value <= 0.0 {
        return Fail(AmountCostField);
      }
      amountCost := value;
      return Pass;
    }

    method SetUnitCost(value: real) returns (r: Outcome<Field>)
      modifies this
      ensures r.Pass? <==> value > 0.0
      ensures r.Pass? ==> Value() == old(Value()).(unitCost := value)
      ensures r.Fail? ==> r.error == UnitCostField && Value() == old(Value())
      ensures old(Valid()) ==> Valid()
    {
      if value <= 0.0 {
        return Fail(UnitCostField);
      }
      unitCost := value;
      return Pass;
    }

    /**
     * The constructor: runs the setters in order and stops at the first one
     * that refuses its value, in which case no record is produced.
     */
    static method New(initCharCode: string, initName: string, initAmount: int, initAmountCost: real, initUnitCost: real)
      returns (r: Result<Currency, Field>)
      ensures var v := CurrencyValue(initCharCode, initName, initAmount, initAmountCost, initUnitCost);
        && (r.Success? <==> v.Valid())
        && (r.Success? ==> fresh(r.value) && r.value.Value() == v)
        && (r.Failure? ==> CheckFields(v) == Fail(r.error))
    {
      var c := new Currency.Blank();
      var o := c.SetCharCode(initCharCode);
      if o.Fail? {
        return Failure(o.error);
      }
      c.SetName(initName);
      o := c.SetAmount(initAmount);
      if o.Fail? {
        return Failure(o.error);
      }
      o := c.SetAmountCost(initAmountCost);
      if o.Fail? {
        return Failure(o.error);
      }
      o := c.SetUnitCost(initUnitCost);
      if o.Fail? {
        return Failure(o.error);
      }
      return Success(c);
    }

    /** A memberwise copy: a distinct object with the same five fields. */
    method Clone() returns (c: Currency)
      ensures fresh(c) && c.Value() == Value()
    {
      c := new Currency.FromValue(Value());
    }

    /** How many units of `other` one unit of this currency is worth. */
    function GetRate(other: Currency): (r: real)
      reads this, other
      requires Valid() && other.Valid()
      ensures r == Rate(Value(), other.Value())
    {
      unitCost / other.unitCost
    }
  }

  /** Changing a copy leaves the original as it was. */
  method CloneIsIndependent(original: Currency, newAmount: int) returns (copy: Currency)
    ensures copy != original
    ensures original.Value() == old(original.Value())
    ensures copy.Value() == if newAmount > 0 then original.Value().(amount := newAmount) else original.Value()
  {
    copy := original.Clone();
    var _ := copy.SetAmount(newAmount);
  }
}
