/** The conversion table of the `convert_units` tool: a dictionary from
    "<from>_to_<to>" keys to lambdas, listed as conversions paired with
    their reverses. Floats are exact reals here. */
module ConversionTable {
  import opened Wrappers
  import ToolTemplate

  /** A conversion factor; every factor in the table is positive. */
  type Factor = k: real | k > 0.0 witness 1.0

  /** `math.pi` (the decimal the double prints as). */
  const MathPi: real := 3.141592653589793

  /** The lambdas of the table. */
  datatype Formula =
    | Mul(k: Factor)
    | Div(k: Factor)
    | CelsiusToFahrenheit
    | FahrenheitToCelsius
    | TimesHours
    | PerHour
    | Radians
    | Degrees

  /** Only the division by the duration can raise: when the duration is 0. */
  predicate Raises(f: Formula, hours: real)
  {
    f.PerHour? && hours == 0.0
  }

  /** One lambda applied to x. */
  function Apply(f: Formula, x: real, hours: real): real
    requires !Raises(f, hours)
  {
    match f
    case Mul(k) => x * k
    case Div(k) => x / k
    case CelsiusToFahrenheit => x * 9.0 / 5.0 + 32.0
    case FahrenheitToCelsius => (x - 32.0) * 5.0 / 9.0
    case TimesHours => x * hours
    case PerHour => x / hours
    case Radians => x * (MathPi / 180.0)
    case Degrees => x * (180.0 / MathPi)
  }

  /** The lambda of the reverse entry. */
  function Inverse(f: Formula): (g: Formula)
    ensures g.Mul? <==> f.Div?
    ensures g.Div? <==> f.Mul?
  {
    match f
    case Mul(k) => Div(k)
    case Div(k) => Mul(k)
    case CelsiusToFahrenheit => FahrenheitToCelsius
    case FahrenheitToCelsius => CelsiusToFahrenheit
    case TimesHours => PerHour
    case PerHour => TimesHours
    case Radians => Degrees
    case Degrees => Radians
  }

  /** The reverse of the reverse is the lambda itself. */
  lemma InverseInvolutive(f: Formula)
    ensures Inverse(Inverse(f)) == f
  {
  }

  /** Multiplying and dividing by the same non-zero number cancel. */
  lemma MulDivCancel(x: real, k: real)
    requires k != 0.0
    ensures (x * k) / k == x
    ensures (x / k) * k == x
  {
  }

  /** The factors of `math.radians` and `math.degrees` are reciprocal. */
  lemma Reciprocal(p: real)
    requires p != 0.0
    ensures (p / 180.0) * (180.0 / p) == 1.0
  {
    var a, b := p / 180.0, 180.0 / p;
    assert a * 180.0 == p;
    assert b * p == 180.0;
    assert a * b * 180.0 == b * p;
  }

  /** With a non-zero duration, a lambda followed by its reverse gives the
      value back (in exact arithmetic). */
  lemma InverseUndoes(f: Formula, x: real, hours: real)
    requires hours != 0.0
    ensures !Raises(f, hours) && !Raises(Inverse(f), hours)
    ensures Apply(Inverse(f), Apply(f, x, hours), hours) == x
  {
    var a, b := MathPi / 180.0, 180.0 / MathPi;
    match f
    case Mul(k) => MulDivCancel(x, k);
    case Div(k) => MulDivCancel(x, k);
    case TimesHours => MulDivCancel(x, hours);
    case PerHour => MulDivCancel(x, hours);
    case Radians =>
      Reciprocal(MathPi);
      assert x * a * b == x * (a * b);
    case Degrees =>
      Reciprocal(MathPi);
      assert x * b * a == x * (a * b);
    case _ =>
  }

  /** A table entry: the key's two units and the lambda. */
  datatype Entry = Entry(fromUnit: string, toUnit: string, formula: Formula)

  /** The entry converting back. */
  function Reversed(e: Entry): (r: Entry)
    ensures r.fromUnit == e.toUnit && r.toUnit == e.fromUnit
  {
    Entry(e.toUnit, e.fromUnit, Inverse(e.formula))
  }

  /** Power and energy. */
  const EnergyPairs: seq<Entry> := [
    Entry("watts", "kilowatts", Div(1000.0)),
    Entry("kilowatts", "kilowatt_hours", TimesHours),
    Entry("watts", "horsepower", Div(745.7)),
    Entry("joules", "calories", Div(4.184)),
    Entry("btu", "joules", Mul(1055.06))
  ]

  /** Temperature. */
  const TemperaturePairs: seq<Entry> := [
    Entry("celsius", "fahrenheit", CelsiusToFahrenheit)
  ]

  /** Length. */
  const LengthPairs: seq<Entry> := [
    Entry("meters", "feet", Mul(3.28084)),
    Entry("inches", "centimeters", Mul(2.54)),
    Entry("kilometers", "miles", Mul(0.621371))
  ]

  /** Time. */
  const TimePairs: seq<Entry> := [
    Entry("seconds", "minutes", Div(60.0)),
    Entry("minutes", "hours", Div(60.0)),
    Entry("hours", "days", Div(24.0)),
    Entry("days", "weeks", Div(7.0)),
    Entry("days", "months", Div(30.4375)),
    Entry("months", "years", Div(12.0)),
    Entry("days", "years", Div(365.25)),
    Entry("seconds", "hours", Div(3600.0)),
    Entry("milliseconds", "seconds", Div(1000.0))
  ]

  /** Weight. */
  const WeightPairs: seq<Entry> := [
    Entry("kilograms", "pounds", Mul(2.20462))
  ]

  /** Volume. */
  const VolumePairs: seq<Entry> := [
    Entry("liters", "gallons", Mul(0.264172))
  ]

  /** Angle. */
  const AnglePairs: seq<Entry> := [
    Entry("degrees", "radians", Radians)
  ]

  /** Area. */
  const AreaPairs: seq<Entry> := [
    Entry("square_meters", "square_feet", Mul(10.7639)),
    Entry("square_meters", "hectares", Div(10000.0)),
    Entry("hectares", "acres", Mul(2.47105)),
    Entry("square_feet", "acres", Div(43560.0))
  ]

  /** Speed. */
  const SpeedPairs: seq<Entry> := [
    Entry("mps", "kmh", Mul(3.6)),
    Entry("mps", "mph", Mul(2.23694)),
    Entry("kmh", "mph", Mul(0.621371)),
    Entry("knots", "mps", Mul(0.514444)),
    Entry("knots", "mph", Mul(1.15078)),
    Entry("knots", "kmh", Mul(1.852))
  ]

  /** Pressure. */
  const PressurePairs: seq<Entry> := [
    Entry("pascals", "atmospheres", Div(101325.0)),
    Entry("pascals", "psi", Div(6895.0)),
    Entry("pascals", "bar", Div(100000.0)),
    Entry("atmospheres", "psi", Mul(14.696)),
    Entry("atmospheres", "bar", Mul(1.01325)),
    Entry("psi", "bar", Div(14.504))
  ]

  /** Data size. */
  const DataPairs: seq<Entry> := [
    Entry("bits", "bytes", Div(8.0)),
    Entry("bytes", "kilobytes", Div(1024.0)),
    Entry("kilobytes", "megabytes", Div(1024.0)),
    Entry("megabytes", "gigabytes", Div(1024.0)),
    Entry("gigabytes", "terabytes", Div(1024.0)),
    Entry("terabytes", "petabytes", Div(1024.0)),
    Entry("bytes", "megabytes", Div(1048576.0)),
    Entry("bytes", "gigabytes", Div(1073741824.0))
  ]

  /** The dictionary lists its entries in pairs, a conversion and its
      reverse next to each other; this is the first entry of each pair, in
      the order of the source. */
  const Pairs: seq<Entry> :=
    EnergyPairs + TemperaturePairs + LengthPairs + TimePairs + WeightPairs + VolumePairs
    + AnglePairs + AreaPairs + SpeedPairs + PressurePairs + DataPairs

  /** Each pair written out: the entry followed by its reverse. */
  function Paired(ps: seq<Entry>): (t: seq<Entry>)
  {
    seq(2 * |ps|, i requires 0 <= i < 2 * |ps| => if i % 2 == 0 then ps[i / 2] else Reversed(ps[i / 2]))
  }

  /** Every entry of a written-out pair list has its reverse in the list. */
  lemma PairedHasReverses(ps: seq<Entry>, i: nat)
    requires i < |Paired(ps)|
    ensures exists j :: 0 <= j < |Paired(ps)| && Paired(ps)[j] == Reversed(Paired(ps)[i])
  {
    var t := Paired(ps);
    var h := i / 2;
    var e := ps[h];
    InverseInvolutive(e.formula);
    assert Reversed(Reversed(e)) == e;
    if i % 2 == 0 {
      assert i == 2 * h && (i + 1) % 2 == 1 && (i + 1) / 2 == h;
      assert t[i] == e && t[i + 1] == Reversed(e);
    } else {
      assert i == 2 * h + 1 && (i - 1) % 2 == 0 && (i - 1) / 2 == h;
      assert t[i] == Reversed(e) && t[i - 1] == e;
    }
  }

  /** The conversion dictionary, in source order. */
  const Table: seq<Entry> := Paired(Pairs)

  /** The dictionary holds 90 lambdas: 45 conversions, each followed by its
      reverse. */
  lemma TableLayout(h: nat)
    requires h < |Pairs|
    ensures |Pairs| == 45 && |Table| == 90
    ensures Table[2 * h] == Pairs[h] && Table[2 * h + 1] == Reversed(Pairs[h])
  {
    PairedLayout(Pairs, h);
  }

  /** Written out, the h-th pair sits at positions 2h and 2h + 1. */
  lemma PairedLayout(ps: seq<Entry>, h: nat)
    requires h < |ps|
    ensures |Paired(ps)| == 2 * |ps|
    ensures Paired(ps)[2 * h] == ps[h] && Paired(ps)[2 * h + 1] == Reversed(ps[h])
  {
  }

  /** The dictionary key of an entry. */
  function Key(e: Entry): string
  {
    ToolTemplate.ConversionKey(e.fromUnit, e.toUnit)
  }

  /** The lambda stored under key, if any (the dictionary's keys are distinct,
      so the first entry with the key is the one). */
  function Lookup(t: seq<Entry>, key: string): (r: Option<Formula>)
    ensures r.None? <==> forall i :: 0 <= i < |t| ==> Key(t[i]) != key
    ensures r.Some? ==> exists i :: 0 <= i < |t| && Key(t[i]) == key && t[i].formula == r.value
  {
    if |t| == 0 then None
    else if Key(t[0]) == key then Some(t[0].formula)
    else
      var r := Lookup(t[1..], key);
      assert forall i :: 1 <= i < |t| ==> t[i] == t[1..][i - 1];
      r
  }

  /** The lambda found is that of the first entry carrying the key. */
  lemma {:induction false} LookupFirst(t: seq<Entry>, key: string, n: nat)
    requires n < |t| && Key(t[n]) == key
    requires forall i :: 0 <= i < n ==> Key(t[i]) != key
    ensures Lookup(t, key) == Some(t[n].formula)
  {
    if n > 0 {
      assert forall i :: 0 <= i < n - 1 ==> t[1..][i] == t[i + 1];
      LookupFirst(t[1..], key, n - 1);
    }
  }

  /** Every conversion in the table has its reverse in the table, and for a
      positive duration the reverse takes the result back to the value. */
  lemma TableRoundTrip(i: nat, x: real, hours: real)
    requires i < |Table| && hours > 0.0
    ensures exists j :: 0 <= j < |Table| && Table[j] == Reversed(Table[i])
    ensures !Raises(Table[i].formula, hours) && !Raises(Inverse(Table[i].formula), hours)
    ensures Apply(Inverse(Table[i].formula), Apply(Table[i].formula, x, hours), hours) == x
  {
    PairedHasReverses(Pairs, i);
    InverseUndoes(Table[i].formula, x, hours);
  }

  /** Celsius to Fahrenheit and back are inverse maps, both ways round. */
  lemma TemperatureInverse(c: real, f: real)
    ensures Apply(CelsiusToFahrenheit, c, 1.0) == f <==> Apply(FahrenheitToCelsius, f, 1.0) == c
    ensures Apply(CelsiusToFahrenheit, -40.0, 1.0) == -40.0
    ensures Apply(CelsiusToFahrenheit, 100.0, 1.0) == 212.0
  {
  }

  /** The two temperature lambdas are the entries for celsius and fahrenheit. */
  lemma TemperatureEntries()
    ensures Table[10] == Entry("celsius", "fahrenheit", CelsiusToFahrenheit)
    ensures Table[11] == Entry("fahrenheit", "celsius", FahrenheitToCelsius)
  {
    assert |EnergyPairs| == 5 && Pairs[5] == TemperaturePairs[0];
  }


  /** The entry after kilowatts to kilowatt-hours is its reverse, which
      divides by the duration. */
  lemma KilowattHoursReverse()
    ensures Table[2] == Entry("kilowatts", "kilowatt_hours", TimesHours)
    ensures Table[3] == Entry("kilowatt_hours", "kilowatts", PerHour)
  {
    assert Pairs[1] == EnergyPairs[1];
  }

  /** Among the first entries of the pairs, only kilowatts to kilowatt-hours
      uses the duration, and none divides by it. */
  lemma PairDuration(p: Entry)
    requires p in Pairs
    ensures !p.formula.PerHour?
    ensures p.formula.TimesHours? ==> p == EnergyPairs[1]
  {
    if p in EnergyPairs {
    } else if p in TemperaturePairs {
    } else if p in LengthPairs {
    } else if p in TimePairs {
    } else if p in WeightPairs {
    } else if p in VolumePairs {
    } else if p in AnglePairs {
    } else if p in AreaPairs {
    } else if p in SpeedPairs {
    } else if p in PressurePairs {
    } else {
      assert p in DataPairs;
    }
  }

  /** The only lambda that divides by the duration is that of kilowatt-hours
      to kilowatts: no other entry can divide by zero. */
  lemma HourlyEntry(i: nat)
    requires i < |Table| && Table[i].formula.PerHour?
    ensures Table[i] == Entry("kilowatt_hours", "kilowatts", PerHour)
  {
    PairDuration(Pairs[i / 2]);
  }

  /** Kilowatts to kilowatt-hours is the third entry of the dictionary, and
      the first with that key. */
  lemma KilowattHoursEntry()
    ensures Lookup(Table, ToolTemplate.ConversionKey("kilowatts", "kilowatt_hours")) == Some(TimesHours)
  {
    var key := ToolTemplate.ConversionKey("kilowatts", "kilowatt_hours");
    var e0, e1 := EnergyPairs[0], EnergyPairs[1];
    assert Pairs[0] == e0 && Pairs[1] == e1;
    assert Table[0] == e0 && Table[1] == Reversed(e0) && Table[2] == e1;
    assert |Key(e0)| == 18 && |Key(Reversed(e0))| == 18 && |key| == 27;
    LookupFirst(Table, key, 2);
  }

  /** Celsius to Fahrenheit is the eleventh entry of the dictionary, and
      the first with that key. */
  lemma CelsiusEntry()
    ensures Lookup(Table, ToolTemplate.ConversionKey("celsius", "fahrenheit")) == Some(CelsiusToFahrenheit)
  {
    var key := ToolTemplate.ConversionKey("celsius", "fahrenheit");
    assert |key| == 21;
    TemperatureEntries();
    assert forall i :: 0 <= i < 10 ==> |Key(Table[i])| != 21 by {
      assert |EnergyPairs| == 5;
      forall i | 0 <= i < 10
        ensures |Key(Table[i])| != 21
      {
        assert Table[i] == (if i % 2 == 0 then Pairs[i / 2] else Reversed(Pairs[i / 2]));
        assert Pairs[i / 2] == EnergyPairs[i / 2];
      }
    }
    LookupFirst(Table, key, 10);
  }
}
