/** The negativity checks of the `convert_units` tool: the units of each
    quantity that refuses a negative value, tried in source order. */
module UnitGuards {
  import opened Wrappers

  /** The quantities whose units refuse negative values. */
  datatype Quantity = Power | Energy | Time | Weight | Volume | Area | Speed | Pressure | DataSize

  /** The source units of each quantity's negativity check. */
  function UnitsOf(q: Quantity): seq<string>
  {
    match q
    case Power => ["watts", "kilowatts", "horsepower"]
    case Energy => ["joules", "calories", "btu"]
    case Time => ["seconds", "minutes", "hours", "days", "weeks", "months", "years", "milliseconds"]
    case Weight => ["kilograms", "pounds"]
    case Volume => ["liters", "gallons"]
    case Area => ["square_meters", "square_feet", "acres", "hectares"]
    case Speed => ["mps", "kmh", "mph", "knots"]
    case Pressure => ["pascals", "atmospheres", "psi", "bar"]
    case DataSize => ["bytes", "kilobytes", "megabytes", "gigabytes", "terabytes", "petabytes", "bits"]
  }

  /** The quantity whose check a source unit falls under, tried in source order. */
  function QuantityOf(unit: string): Option<Quantity>
  {
    if unit in UnitsOf(Power) then Some(Power)
    else if unit in UnitsOf(Energy) then Some(Energy)
    else if unit in UnitsOf(Time) then Some(Time)
    else if unit in UnitsOf(Weight) then Some(Weight)
    else if unit in UnitsOf(Volume) then Some(Volume)
    else if unit in UnitsOf(Area) then Some(Area)
    else if unit in UnitsOf(Speed) then Some(Speed)
    else if unit in UnitsOf(Pressure) then Some(Pressure)
    else if unit in UnitsOf(DataSize) then Some(DataSize)
    else None
  }

  /** Every unit of the nine groups, in source order. */
  function GuardedUnits(): seq<string>
  {
    UnitsOf(Power) + UnitsOf(Energy) + UnitsOf(Time) + UnitsOf(Weight) + UnitsOf(Volume)
    + UnitsOf(Area) + UnitsOf(Speed) + UnitsOf(Pressure) + UnitsOf(DataSize)
  }

  /** A unit falls under a check exactly when it is listed in one of the
      groups, and then under a group that lists it. */
  lemma QuantityOfListed(unit: string)
    ensures QuantityOf(unit).Some? <==> unit in GuardedUnits()
    ensures QuantityOf(unit).Some? ==> unit in UnitsOf(QuantityOf(unit).value)
  {
  }

  /** Temperatures are in no group, so they accept negative values. */
  lemma UnguardedTemperatures()
    ensures QuantityOf("celsius").None? && QuantityOf("fahrenheit").None?
  {
  }

  /** Angles are in no group either. */
  lemma UnguardedAngles()
    ensures QuantityOf("degrees").None? && QuantityOf("radians").None?
  {
  }

  /** Kilowatts are checked as power. */
  lemma KilowattsArePower()
    ensures QuantityOf("kilowatts") == Some(Power)
  {
    assert "kilowatts" in UnitsOf(Power);
  }
}
