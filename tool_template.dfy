/** The shared tool scaffolding: a registry of named operations that routes a
    call to the operation it names, a registry of unit conversions keyed by
    source and target unit, the parameter validators and the guarded
    division, square root and logarithm. */
module ToolTemplate {
  import opened Wrappers

  /** The exception classes an operation can raise, as the registry tells them apart. */
  datatype Raised = TypeErr | ValueErr | ZeroDivisionErr | OtherErr

  /** What `execute_operation` reports instead of a result. */
  datatype ExecError =
    | Unsupported(operation: string, supported: seq<string>)
    | InvalidParameters(operation: string)
    | InvalidValue(operation: string)
    | DivisionByZero(operation: string)
    | Failed(operation: string)

  /** A successful call: the operation, the arguments it was given and its result. */
  datatype Success<A, V> = Success(operation: string, inputs: A, result: V)

  /** No name occurs twice in names. */
  predicate Distinct(names: seq<string>)
  {
    forall i, j :: 0 <= i < j < |names| ==> names[i] != names[j]
  }

  /** The error an exception of class e raised by `operation` is reported as. */
  function ReportRaised(operation: string, e: Raised): (r: ExecError)
    ensures r.operation == operation
    ensures r.InvalidParameters? <==> e == TypeErr
    ensures r.InvalidValue? <==> e == ValueErr
    ensures r.DivisionByZero? <==> e == ZeroDivisionErr
    ensures !r.Unsupported?
  {
    match e
    case TypeErr => InvalidParameters(operation)
    case ValueErr => InvalidValue(operation)
    case ZeroDivisionErr => DivisionByZero(operation)
    case OtherErr => Failed(operation)
  }

  /** A tool that routes a named operation to the function registered under
      that name. `operations` is the name-to-function dictionary; `names`
      lists its keys in insertion order, which is the order Python's dict
      reports them in. */
  class ConsolidatedToolTemplate<A, V> {
    var toolName: string
    var operations: map<string, A -> Result<V, Raised>>
    var names: seq<string>

    ghost predicate Valid()
      reads this
    {
      Distinct(names) && (forall n :: n in names <==> n in operations)
    }

    /** A new tool has no operations. */
    constructor (toolName: string)
      ensures Valid()
      ensures this.toolName == toolName && operations == map[] && names == []
    {
      this.toolName := toolName;
      operations := map[];
      names := [];
    }

    /** `register_operation`: binds name to f, replacing an earlier binding;
        a new name goes to the end of the supported list, a re-registered one
        keeps its place. */
    method RegisterOperation(name: string, f: A -> Result<V, Raised>)
      requires Valid()
      modifies this
      ensures Valid()
      ensures toolName == old(toolName)
      ensures operations == old(operations)[name := f]
      ensures names == if name in old(operations) then old(names) else old(names) + [name]
    {
      if name !in operations {
        names := names + [name];
      }
      operations := operations[name := f];
    }

    /** `get_supported_operations`: every registered name, once each, in
        registration order. */
    method GetSupportedOperations() returns (supported: seq<string>)
      requires Valid()
      ensures Distinct(supported)
      ensures forall n :: n in supported <==> n in operations
      ensures supported == names
    {
      supported := names;
    }

    /** `validate_operation`: whether name is registered. */
    method ValidateOperation(name: string) returns (ok: bool)
      requires Valid()
      ensures ok <==> name in operations
      ensures ok <==> name in names
    {
      ok := name in operations;
    }

    /** `execute_operation`: an unregistered name is refused with the list of
        supported names and nothing is invoked; otherwise the registered
        function runs on the arguments and an exception it raises is
        reported by its class. */
    method ExecuteOperation(operation: string, args: A) returns (r: Result<Success<A, V>, ExecError>)
      requires Valid()
      ensures operation !in operations <==> r == Err(Unsupported(operation, names))
      ensures operation in operations ==>
                match operations[operation](args)
                case Ok(v) => r == Ok(Success(operation, args, v))
                case Err(e) => r == Err(ReportRaised(operation, e))
    {
      var ok := ValidateOperation(operation);
      if !ok {
        var supported := GetSupportedOperations();
        return Err(Unsupported(operation, supported));
      }
      var outcome := operations[operation](args);
      match outcome
      case Ok(v) => r := Ok(Success(operation, args, v));
      case Err(e) => r := Err(ReportRaised(operation, e));
    }
  }

  /** The `get_conversion_key` format: from + "_to_" + to. */
  function ConversionKey(fromUnit: string, toUnit: string): (k: string)
    ensures |k| == |fromUnit| + 4 + |toUnit|
    ensures k[..|fromUnit|] == fromUnit && k[|fromUnit| + 4..] == toUnit
    ensures k[|fromUnit|..|fromUnit| + 4] == "_to_"
  {
    fromUnit + "_to_" + toUnit
  }

  /** No character of s is an underscore. */
  predicate NoUnderscore(s: string)
  {
    forall i :: 0 <= i < |s| ==> s[i] != '_'
  }

  /** For unit names without underscores the key determines both units. */
  lemma ConversionKeyInjective(f1: string, t1: string, f2: string, t2: string)
    requires NoUnderscore(f1) && NoUnderscore(f2)
    requires ConversionKey(f1, t1) == ConversionKey(f2, t2)
    ensures f1 == f2 && t1 == t2
  {
    var k := ConversionKey(f1, t1);
    assert k[|f1|] == '_' && k[|f2|] == '_';
    assert |f1| == |f2|;
  }

  /** A registered conversion: a factor to multiply by, or a function of the
      value and the extra keyword arguments that may raise. */
  datatype Conversion = Factor(factor: real) | Computed(apply: (real, map<string, real>) -> Result<real, Raised>)

  /** What `convert` reports: the converted value, with the duration when a
      `time_hours` argument other than 1 was given. */
  datatype Converted = Converted(value: real, fromUnit: string, toUnit: string, result: real, hours: Option<real>)

  datatype ConvertError = UnsupportedConversion(fromUnit: string, toUnit: string) | ConversionFailed(e: Raised)

  /** A tool over a nested dictionary from source unit to target unit to conversion. */
  class ConversionTool {
    var toolName: string
    var conversionFactors: map<string, map<string, Conversion>>

    /** A new conversion tool has no conversions. */
    constructor ()
      ensures toolName == "conversion_tool" && conversionFactors == map[]
    {
      toolName := "conversion_tool";
      conversionFactors := map[];
    }

    /** `register_conversion`: creates the inner table of an unseen source
        unit, then sets the entry for the target unit; every other entry is
        left as it was. */
    method RegisterConversion(fromUnit: string, toUnit: string, conversion: Conversion)
      modifies this
      ensures toolName == old(toolName)
      ensures conversionFactors.Keys == old(conversionFactors).Keys + {fromUnit}
      ensures conversionFactors[fromUnit] ==
                (if fromUnit in old(conversionFactors) then old(conversionFactors)[fromUnit] else map[])[toUnit := conversion]
      ensures forall u :: u in old(conversionFactors) && u != fromUnit ==> conversionFactors[u] == old(conversionFactors)[u]
    {
      if fromUnit !in conversionFactors {
        conversionFactors := conversionFactors[fromUnit := map[]];
      }
      conversionFactors := conversionFactors[fromUnit := conversionFactors[fromUnit][toUnit := conversion]];
    }

    /** Whether a conversion from fromUnit to toUnit is registered. */
    predicate Registered(fromUnit: string, toUnit: string)
      reads this
    {
      fromUnit in conversionFactors && toUnit in conversionFactors[fromUnit]
    }

    /** `validate_conversion`: both keys are present. */
    method ValidateConversion(fromUnit: string, toUnit: string) returns (ok: bool)
      ensures ok <==> fromUnit in conversionFactors && toUnit in conversionFactors[fromUnit]
    {
      ok := fromUnit in conversionFactors && toUnit in conversionFactors[fromUnit];
    }

    /** `convert`: an unregistered pair is an error; a factor multiplies the
        value; a function is applied to the value and the keyword arguments,
        and an exception it raises is reported. */
    method Convert(fromUnit: string, toUnit: string, value: real, kwargs: map<string, real>)
      returns (r: Result<Converted, ConvertError>)
      ensures !Registered(fromUnit, toUnit) <==> r == Err(UnsupportedConversion(fromUnit, toUnit))
      ensures r.Ok? ==> r.value.value == value && r.value.fromUnit == fromUnit && r.value.toUnit == toUnit
      ensures r.Ok? ==> (r.value.hours.Some? <==> "time_hours" in kwargs && kwargs["time_hours"] != 1.0)
      ensures r.Ok? && r.value.hours.Some? ==> r.value.hours.value == kwargs["time_hours"]
      ensures Registered(fromUnit, toUnit) ==>
                match conversionFactors[fromUnit][toUnit]
                case Factor(f) => r.Ok? && r.value.result == value * f
                case Computed(g) =>
                  (g(value, kwargs).Ok? ==> r.Ok? && r.value.result == g(value, kwargs).value) &&
                  (g(value, kwargs).Err? ==> r == Err(ConversionFailed(g(value, kwargs).error)))
    {
      var ok := ValidateConversion(fromUnit, toUnit);
      if !ok {
        return Err(UnsupportedConversion(fromUnit, toUnit));
      }
      var result: real;
      match conversionFactors[fromUnit][toUnit] {
        case Factor(f) =>
          result := value * f;
        case Computed(g) =>
          var outcome := g(value, kwargs);
          if outcome.Err? {
            return Err(ConversionFailed(outcome.error));
          }
          result := outcome.value;
      }
      var hours := if "time_hours" in kwargs && kwargs["time_hours"] != 1.0 then Some(kwargs["time_hours"]) else None;
      r := Ok(Converted(value, fromUnit, toUnit, result, hours));
    }
  }

  /** Registering a conversion makes it valid and leaves the validity of
      every other pair unchanged. */
  method RegisterThenValidate(tool: ConversionTool, fromUnit: string, toUnit: string, c: Conversion, f: string, t: string)
    returns (before: bool, after: bool)
    modifies tool
    ensures after <==> (f == fromUnit && t == toUnit) || before
  {
    before := tool.ValidateConversion(f, t);
    tool.RegisterConversion(fromUnit, toUnit, c);
    after := tool.ValidateConversion(f, t);
  }

  // ------------------------------------------------------------ validators

  datatype ValidationError = NegativeValue | ZeroValue | OutOfRange | InvalidAngleUnit

  /** `validate_positive`: only a negative value is refused; zero passes. */
  function ValidatePositive(value: real): (r: Outcome<ValidationError>)
    ensures r.Fail? <==> value < 0.0
    ensures r.Fail? ==> r.error == NegativeValue
  {
    if value < 0.0 then Fail(NegativeValue) else Pass
  }

  /** `validate_non_zero`: only zero is refused. */
  function ValidateNonZero(value: real): (r: Outcome<ValidationError>)
    ensures r.Fail? <==> value == 0.0
    ensures r.Fail? ==> r.error == ZeroValue
  {
    if value == 0.0 then Fail(ZeroValue) else Pass
  }

  /** `validate_range`: a value outside the closed interval [minVal, maxVal] is refused. */
  function ValidateRange(value: real, minVal: real, maxVal: real): (r: Outcome<ValidationError>)
    ensures r.Pass? <==> minVal <= value <= maxVal
    ensures r.Fail? ==> r.error == OutOfRange
  {
    if !(minVal <= value <= maxVal) then Fail(OutOfRange) else Pass
  }

  /** `validate_angle_unit`: only "radians" and "degrees" pass. */
  function ValidateAngleUnit(angleUnit: string): (r: Outcome<ValidationError>)
    ensures r.Pass? <==> angleUnit == "radians" || angleUnit == "degrees"
    ensures r.Fail? ==> r.error == InvalidAngleUnit
  {
    if angleUnit !in ["radians", "degrees"] then Fail(InvalidAngleUnit) else Pass
  }

  /** An empty interval refuses every value; a one-point interval accepts only its point. */
  lemma RangeEdges(value: real, m: real)
    ensures ValidateRange(value, m + 1.0, m).Fail?
    ensures ValidateRange(value, m, m).Pass? <==> value == m
  {
  }

  // ------------------------------------------------------- safe operations

  datatype MathError = ZeroDivision | NegativeRoot | LogDomain | LogBase

  /** `safe_divide`: a zero divisor is an error; otherwise the quotient,
      which multiplied back by b gives a. */
  function SafeDivide(a: real, b: real): (r: Result<real, MathError>)
    ensures r.Err? <==> b == 0.0
    ensures r.Err? ==> r.error == ZeroDivision
    ensures r.Ok? ==> r.value * b == a
  {
    if b == 0.0 then Err(ZeroDivision) else Ok(a / b)
  }

  /** s is the non-negative square root of x. */
  ghost predicate IsRoot(s: real, x: real)
  {
    s >= 0.0 && s * s == x
  }

  /** `safe_sqrt`: a negative argument is an error; otherwise `math.sqrt`,
      passed in as sqrt and taken to return the non-negative root. */
  function SafeSqrt(value: real, sqrt: real -> real): (r: Result<real, MathError>)
    requires value >= 0.0 ==> IsRoot(sqrt(value), value)
    ensures r.Err? <==> value < 0.0
    ensures r.Err? ==> r.error == NegativeRoot
    ensures r.Ok? ==> r.value >= 0.0 && r.value * r.value == value
  {
    if value < 0.0 then Err(NegativeRoot) else Ok(sqrt(value))
  }

  /** `safe_log`: a non-positive value is an error, then a given base that is
      non-positive or 1; otherwise the natural logarithm `ln`, divided by the
      base's logarithm when a base is given. ln is `math.log`, taken to be
      non-zero away from 1. */
  function SafeLog(value: real, base: Option<real>, ln: real -> real): (r: Result<real, MathError>)
    requires base.Some? && base.value > 0.0 && base.value != 1.0 ==> ln(base.value) != 0.0
    ensures r.Err? <==> value <= 0.0 || (base.Some? && (base.value <= 0.0 || base.value == 1.0))
    ensures value <= 0.0 ==> r == Err(LogDomain)
    ensures value > 0.0 && r.Err? ==> r == Err(LogBase)
    ensures r.Ok? && base.None? ==> r.value == ln(value)
    ensures r.Ok? && base.Some? ==> r.value * ln(base.value) == ln(value)
  {
    if value <= 0.0 then Err(LogDomain)
    else if base.Some? then
      if base.value <= 0.0 || base.value == 1.0 then Err(LogBase)
      else Ok(ln(value) / ln(base.value))
    else Ok(ln(value))
  }
}
