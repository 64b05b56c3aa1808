/** The trip record (app/persistence/model.py): an immutable value with a derived income. */
module TripModel {
  import opened Wrappers

  /**
   * A trip as stored in the `trips` table. `None` marks a field left unset; prices are exact decimals.
   * Datatype equality is equality of all five fields, as for the frozen dataclass, and the field
   * destructors are its read-only properties.
   */
  datatype Trip = Trip(
    id: Option<int>,
    destination: Option<string>,
    price: Option<real>,
    numOfPeople: Option<int>,
    agencyId: Option<int>)

  /** `Trip()`: price 0, every other field unset. */
  function DefaultTrip(): (t: Trip)
    ensures t.price == Some(0.0)
    ensures t.id.None? && t.destination.None? && t.numOfPeople.None? && t.agencyId.None?
  {
    Trip(None, None, Some(0.0), None, None)
  }

  const DefaultVatRate: real := 0.19
  const DefaultMargin: real := 0.1
  const PriceNotSetMessage: string := "Price must be set to calculate income."

  /** `get_income(vat_rate, margin)`: the price times both rates; raises when the price is unset. */
  function GetIncome(t: Trip, vatRate: real, margin: real): (r: Result<real>)
    ensures r.Failure? <==> t.price.None?
    ensures r.Failure? ==> r.error == TypeError(PriceNotSetMessage)
    ensures r.Success? ==> r.value == t.price.value * vatRate * margin
  {
    if t.price.None? then Failure(TypeError(PriceNotSetMessage))
    else Success(t.price.value * vatRate * margin)
  }

  /** `get_income()` with the default rates: 1.9 % of the price, never negative for a non-negative price. */
  function Income(t: Trip): (r: Result<real>)
    ensures r.Failure? <==> t.price.None?
    ensures r.Success? ==> r.value == t.price.value * 0.019
    ensures r.Success? && t.price.value >= 0.0 ==> r.value >= 0.0
  {
    GetIncome(t, DefaultVatRate, DefaultMargin)
  }
}
