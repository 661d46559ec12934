/** The `convert_units` tool: the lookup key, the duration check for the
    kilowatt / kilowatt-hour pair, the per-quantity refusal of negative
    values, then the table lookup. */
module ConvertUnits {
  import opened Wrappers
  import ToolTemplate
  import opened ConversionTable
  import opened UnitGuards

  /** The two keys whose conversion uses the duration. */
  const EnergyTimeKeys: seq<string> := ["kilowatts_to_kilowatt_hours", "kilowatt_hours_to_kilowatts"]

  datatype ConvertError =
    | NonPositiveHours
    | Negative(quantity: Quantity)
    | Unsupported(fromUnit: string, toUnit: string)
    | Raised

  /** How the result is reported: with the duration, as an average (days
      and months), or plainly. */
  datatype Note = Plain | WithHours(hours: real) | Average

  /** A successful conversion. */
  datatype Conversion = Conversion(value: real, fromUnit: string, toUnit: string, result: real, note: Note)

  /** The report's wording for a conversion that succeeded. */
  function NoteFor(key: string, fromUnit: string, toUnit: string, hours: real): Note
  {
    if key in EnergyTimeKeys && hours != 1.0 then WithHours(hours)
    else if fromUnit in ["days", "months"] && toUnit in ["months", "years", "days"] then Average
    else Plain
  }

  /** `convert_units`: the duration check, then the negativity checks, then
      the lookup, then the lambda. */
  function Convert(fromUnit: string, toUnit: string, value: real, hours: real): (r: Result<Conversion, ConvertError>)
    ensures var key := ToolTemplate.ConversionKey(fromUnit, toUnit);
            r == Err(NonPositiveHours) <==> key in EnergyTimeKeys && hours <= 0.0
    ensures var key := ToolTemplate.ConversionKey(fromUnit, toUnit);
            r.Err? && r.error.Negative? <==>
              !(key in EnergyTimeKeys && hours <= 0.0) && value < 0.0 && QuantityOf(fromUnit).Some?
    ensures r.Err? && r.error.Negative? ==> QuantityOf(fromUnit) == Some(r.error.quantity)
    ensures var key := ToolTemplate.ConversionKey(fromUnit, toUnit);
            r == Err(Unsupported(fromUnit, toUnit)) <==>
              !(key in EnergyTimeKeys && hours <= 0.0) && !(value < 0.0 && QuantityOf(fromUnit).Some?) &&
              forall i :: 0 <= i < |Table| ==> Key(Table[i]) != key
    ensures r.Ok? ==> r.value.value == value && r.value.fromUnit == fromUnit && r.value.toUnit == toUnit
    ensures r != Err(Raised)
    ensures r.Ok? ==> exists i :: 0 <= i < |Table| && Key(Table[i]) == ToolTemplate.ConversionKey(fromUnit, toUnit) &&
                        !Raises(Table[i].formula, hours) && Apply(Table[i].formula, value, hours) == r.value.result
    ensures var key := ToolTemplate.ConversionKey(fromUnit, toUnit);
            r.Ok? ==>
              Lookup(Table, key).Some? && !Raises(Lookup(Table, key).value, hours) &&
              r.value.result == Apply(Lookup(Table, key).value, value, hours)
  {
    var key := ToolTemplate.ConversionKey(fromUnit, toUnit);
    if key in EnergyTimeKeys && hours <= 0.0 then Err(NonPositiveHours)
    else if value < 0.0 && QuantityOf(fromUnit).Some? then Err(Negative(QuantityOf(fromUnit).value))
    else
      match Lookup(Table, key) {
        case None => Err(Unsupported(fromUnit, toUnit))
        case Some(f) =>
          if Raises(f, hours) then
            RaisesOnlyForDuration(key, f, hours);
            Err(Raised)
          else Ok(Conversion(value, fromUnit, toUnit, Apply(f, value, hours), NoteFor(key, fromUnit, toUnit, hours)))
      }
  }

  /** Kilowatts to kilowatt-hours applies the lambda that multiplies by a
      positive duration, and is reported with the duration unless it is 1; a
      duration that is not positive is refused before the sign of the value
      is looked at. */
  lemma KilowattHours(value: real, hours: real)
    ensures hours <= 0.0 ==> Convert("kilowatts", "kilowatt_hours", value, hours) == Err(NonPositiveHours)
    ensures hours > 0.0 && value < 0.0 ==> Convert("kilowatts", "kilowatt_hours", value, hours) == Err(Negative(Power))
    ensures hours > 0.0 && value >= 0.0 ==>
              Convert("kilowatts", "kilowatt_hours", value, hours)
              == Ok(Conversion(value, "kilowatts", "kilowatt_hours", Apply(TimesHours, value, hours),
                               if hours != 1.0 then WithHours(hours) else Plain))
  {
    KilowattHoursKey();
    if hours > 0.0 && value < 0.0 {
      KilowattsArePower();
    } else if hours > 0.0 {
      KilowattHoursEntry();
      KilowattHoursNote(hours);
      ConvertFound("kilowatts", "kilowatt_hours", value, hours, TimesHours);
    }
  }

  /** The report for kilowatts to kilowatt-hours carries the duration unless it is 1. */
  lemma KilowattHoursNote(hours: real)
    ensures NoteFor(EnergyTimeKeys[0], "kilowatts", "kilowatt_hours", hours)
            == if hours != 1.0 then WithHours(hours) else Plain
  {
    assert "kilowatts" !in ["days", "months"] by {
      assert |"kilowatts"| == 9 && |"days"| == 4 && |"months"| == 6;
    }
  }

  /** The key of kilowatts to kilowatt-hours is the first duration key. */
  lemma KilowattHoursKey()
    ensures ToolTemplate.ConversionKey("kilowatts", "kilowatt_hours") == EnergyTimeKeys[0]
  {
    assert ToolTemplate.ConversionKey("kilowatts", "kilowatt_hours") == "kilowatts_to_kilowatt_hours";
  }

  /** The key of kilowatt-hours to kilowatts is the second duration key. */
  lemma KilowattHoursReverseKey()
    ensures ToolTemplate.ConversionKey("kilowatt_hours", "kilowatts") == EnergyTimeKeys[1]
  {
    assert ToolTemplate.ConversionKey("kilowatt_hours", "kilowatts") == "kilowatt_hours_to_kilowatts";
  }

  /** A lambda found in the table raises only under the second duration key
      with a zero duration, which the duration check refuses first: the
      exception handler is never reached. */
  lemma RaisesOnlyForDuration(key: string, f: Formula, hours: real)
    requires Lookup(Table, key) == Some(f)
    ensures Raises(f, hours) ==> key == EnergyTimeKeys[1] && hours == 0.0
  {
    if Raises(f, hours) {
      var i :| 0 <= i < |Table| && Key(Table[i]) == key && Table[i].formula == f;
      HourlyEntry(i);
      KilowattHoursReverseKey();
      var e := Entry("kilowatt_hours", "kilowatts", PerHour);
      assert key == Key(e) == EnergyTimeKeys[1];
    }
  }

  /** Past the guards, a key found in the table converts with its lambda. */
  lemma ConvertFound(fromUnit: string, toUnit: string, value: real, hours: real, f: Formula)
    requires var key := ToolTemplate.ConversionKey(fromUnit, toUnit);
             !(key in EnergyTimeKeys && hours <= 0.0) && !(value < 0.0 && QuantityOf(fromUnit).Some?) &&
             Lookup(Table, key) == Some(f) && !Raises(f, hours)
    ensures Convert(fromUnit, toUnit, value, hours)
            == Ok(Conversion(value, fromUnit, toUnit, Apply(f, value, hours),
                             NoteFor(ToolTemplate.ConversionKey(fromUnit, toUnit), fromUnit, toUnit, hours)))
  {
  }

  /** Temperatures are not among the guarded units, so a negative Celsius
      value converts like any other; the duration plays no part. */
  lemma CelsiusToFahrenheitAnyValue(value: real, hours: real)
    ensures Convert("celsius", "fahrenheit", value, hours)
            == Ok(Conversion(value, "celsius", "fahrenheit", Apply(CelsiusToFahrenheit, value, hours), Plain))
  {
    var key := ToolTemplate.ConversionKey("celsius", "fahrenheit");
    assert key !in EnergyTimeKeys by {
      assert |key| == 21;
    }
    assert NoteFor(key, "celsius", "fahrenheit", hours) == Plain by {
      assert |"celsius"| == 7;
    }
    UnguardedTemperatures();
    CelsiusEntry();
    ConvertFound("celsius", "fahrenheit", value, hours, CelsiusToFahrenheit);
  }
}
