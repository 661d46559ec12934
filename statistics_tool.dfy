/** The consolidated statistics tool: the number-list tokenizer, the
    minimum-count check, range statistics, the percentile routine and the
    routing of the operation name. Turning one token into a float is
    Python's `float()`, passed in as `parse`; mean, median, mode, standard
    deviation and variance are Python's `statistics` module, to which the
    tool only hands the parsed list. */
module StatisticsTool {
  import opened Wrappers
  import opened Text
  import opened Sorting
  import DataAnalysis

  datatype StatsError =
    | NoNumbers
    | NoValidNumbers
    | InvalidNumberFormat
    | TooFewNumbers(minCount: nat)
    | MissingPercentile
    | PercentileOutOfRange
    | UnsupportedOperation(operation: string)

  // ---------------------------------------------------------- tokenizer

  /** The comma-split pieces that are not blank, each stripped. */
  function CommaTokens(pieces: seq<string>): (r: seq<string>)
    ensures |r| <= |pieces|
    ensures "" !in r
  {
    if |pieces| == 0 then []
    else
      var t := Strip(pieces[0]);
      (if t == "" then [] else [t]) + CommaTokens(pieces[1..])
  }

  /** The tokens `_parse_numbers` converts: with a comma anywhere in s, the
      non-blank comma-separated pieces, stripped; otherwise the
      whitespace-separated words (which stripping leaves unchanged). */
  function Tokens(s: string): (r: seq<string>)
    ensures forall k :: 0 <= k < |r| ==> r[k] != ""
  {
    if ',' in s then CommaTokens(SplitOn(s, ','))
    else SplitWhitespace(s)
  }

  /** Every token converted, or None as soon as one does not convert. */
  function ParseAll(tokens: seq<string>, parse: string -> Option<real>): (r: Option<seq<real>>)
    ensures r.None? <==> exists k :: 0 <= k < |tokens| && parse(tokens[k]).None?
    ensures r.Some? ==> |r.value| == |tokens|
    ensures r.Some? ==> forall k :: 0 <= k < |tokens| ==> parse(tokens[k]) == Some(r.value[k])
  {
    if |tokens| == 0 then Some([])
    else
      match parse(tokens[0]) {
        case None => None
        case Some(x) =>
          var rest := ParseAll(tokens[1..], parse);
          assert forall k :: 1 <= k < |tokens| ==> tokens[k] == tokens[1..][k - 1];
          if rest.None? then None else Some([x] + rest.value)
      }
  }

  /** The tokens of a non-blank string converted: no token at all means no
      valid number, and a token that does not convert an invalid format. */
  function ParseTokens(tokens: seq<string>, parse: string -> Option<real>): (r: Result<seq<real>, StatsError>)
    ensures r.Err? ==> r.error == NoValidNumbers || r.error == InvalidNumberFormat
    ensures r == Err(NoValidNumbers) <==> tokens == []
    ensures r == Err(InvalidNumberFormat) <==> exists k :: 0 <= k < |tokens| && parse(tokens[k]).None?
    ensures r.Ok? ==> |r.value| == |tokens| >= 1
    ensures r.Ok? ==> forall k :: 0 <= k < |r.value| ==> parse(tokens[k]) == Some(r.value[k])
  {
    match ParseAll(tokens, parse) {
      case None => Err(InvalidNumberFormat)
      case Some(xs) => if |xs| == 0 then Err(NoValidNumbers) else Ok(xs)
    }
  }

  /** `_parse_numbers`: a missing or all-whitespace string is rejected, a
      token that does not convert is an invalid format, and a string with
      no token at all (only commas and blanks) holds no valid number. */
  function ParseNumbers(s: string, parse: string -> Option<real>): (r: Result<seq<real>, StatsError>)
    ensures r == Err(NoNumbers) <==> Blank(s)
    ensures r == Err(NoValidNumbers) <==> !Blank(s) && Tokens(s) == []
    ensures r == Err(InvalidNumberFormat) <==>
              !Blank(s) && exists k :: 0 <= k < |Tokens(s)| && parse(Tokens(s)[k]).None?
    ensures r.Ok? ==> |r.value| == |Tokens(s)| >= 1
    ensures r.Ok? ==> forall k :: 0 <= k < |r.value| ==> parse(Tokens(s)[k]) == Some(r.value[k])
    ensures r.Ok? <==>
              !Blank(s) && Tokens(s) != [] && forall k :: 0 <= k < |Tokens(s)| ==> parse(Tokens(s)[k]).Some?
  {
    StripEmptyIffBlank(s);
    if |s| == 0 || Strip(s) == "" then Err(NoNumbers)
    else ParseTokens(Tokens(s), parse)
  }

  /** A word without whitespace is its own strip. */
  lemma StripSolid(w: string)
    requires Solid(w)
    ensures Strip(w) == w
  {
    if |w| > 0 {
      assert !IsSpace(w[0]);
      assert StripLeft(w) == w;
      assert !IsSpace(w[|w| - 1]);
    }
  }

  /** A word without whitespace passes the comma filter as it is. */
  lemma CommaTokensConsWord(w: string, rest: seq<string>)
    requires |w| > 0 && Solid(w)
    ensures CommaTokens([w] + rest) == [w] + CommaTokens(rest)
  {
    StripSolid(w);
    assert ([w] + rest)[1..] == rest;
  }

  /** Stripped non-blank pieces pass through the comma filter unchanged. */
  lemma {:induction false} CommaTokensOfWords(pieces: seq<string>)
    requires forall k :: 0 <= k < |pieces| ==> |pieces[k]| > 0 && Solid(pieces[k])
    ensures CommaTokens(pieces) == pieces
  {
    if |pieces| > 0 {
      var w, rest := pieces[0], pieces[1..];
      assert pieces == [w] + rest;
      CommaTokensConsWord(w, rest);
      CommaTokensOfWords(rest);
    }
  }

  /** Numerals joined by commas tokenize back into the numerals. */
  lemma JoinedTokens(tokens: seq<string>)
    requires |tokens| >= 2
    requires forall k :: 0 <= k < |tokens| ==> |tokens[k]| > 0 && Solid(tokens[k]) && Free(tokens[k], ',')
    ensures !Blank(Join(tokens, ',')) && Tokens(Join(tokens, ',')) == tokens
  {
    var s := Join(tokens, ',');
    assert s == tokens[0] + [','] + Join(tokens[1..], ',');
    assert s[|tokens[0]|] == ',';
    assert s[0] == tokens[0][0];
    SplitJoin(tokens, ',');
    CommaTokensOfWords(tokens);
  }

  /** Tokens that all convert give their values, in order. */
  lemma ParseTokensAll(tokens: seq<string>, parse: string -> Option<real>)
    requires |tokens| >= 1
    requires forall k :: 0 <= k < |tokens| ==> parse(tokens[k]).Some?
    ensures ParseTokens(tokens, parse)
         == Ok(seq(|tokens|, k requires 0 <= k < |tokens| => parse(tokens[k]).value))
  {
    var r := ParseTokens(tokens, parse);
    var want := seq(|tokens|, k requires 0 <= k < |tokens| => parse(tokens[k]).value);
    assert r.Ok?;
    forall k | 0 <= k < |tokens|
      ensures r.value[k] == want[k]
    {
      assert parse(tokens[k]) == Some(r.value[k]);
    }
    assert r.value == want;
  }

  /** Writing two or more numerals (without whitespace or commas) joined by
      commas and parsing the result gives their values back, in order. */
  lemma ParseCommaList(tokens: seq<string>, parse: string -> Option<real>)
    requires |tokens| >= 2
    requires forall k :: 0 <= k < |tokens| ==> |tokens[k]| > 0 && Solid(tokens[k]) && Free(tokens[k], ',')
    requires forall k :: 0 <= k < |tokens| ==> parse(tokens[k]).Some?
    ensures ParseNumbers(Join(tokens, ','), parse)
         == Ok(seq(|tokens|, k requires 0 <= k < |tokens| => parse(tokens[k]).value))
  {
    var s := Join(tokens, ',');
    JoinedTokens(tokens);
    assert ParseNumbers(s, parse) == ParseTokens(tokens, parse) by {
      StripEmptyIffBlank(s);
    }
    ParseTokensAll(tokens, parse);
  }

  // ----------------------------------------------------------- validation

  /** `_validate_minimum_count`. */
  function ValidateMinimumCount(xs: seq<real>, minCount: nat): (o: Outcome<StatsError>)
    ensures o.Fail? <==> |xs| < minCount
    ensures o.Fail? ==> o.error == TooFewNumbers(minCount)
  {
    if |xs| < minCount then Fail(TooFewNumbers(minCount)) else Pass
  }

  // ----------------------------------------------------------- percentile

  /** The 0-based index `(p / 100) * (n - 1)` into the sorted list. */
  function PercentileIndex(p: real, n: nat): (index: real)
    requires n >= 1 && 0.0 <= p <= 100.0
    ensures 0.0 <= index <= (n - 1) as real
  {
    var m, f := (n - 1) as real, p / 100.0;
    DataAnalysis.MulMonoReal(0.0, f, m);
    DataAnalysis.MulMonoReal(f, 1.0, m);
    assert f * m <= 1.0 * m;
    assert 1.0 * m == m;
    f * m
  }

  /** `_interpolate_percentile` at the 1-based position index + 1, for a
      0-based index inside the list: the element at an integral index, and
      otherwise the interpolation between the element at its floor and the
      next one. */
  lemma InterpolateAtIndex(s: seq<real>, index: real)
    requires |s| > 1 && 0.0 <= index <= (|s| - 1) as real
    ensures var lower := index.Floor;
      0 <= lower < |s| &&
      (index == lower as real ==> DataAnalysis.InterpolatePercentile(s, index + 1.0) == s[lower]) &&
      (index != lower as real ==>
         lower + 1 < |s| &&
         DataAnalysis.InterpolatePercentile(s, index + 1.0)
         == DataAnalysis.Lerp(s[lower], s[lower + 1], index - lower as real))
  {
    var lower := index.Floor;
    var pos := index + 1.0;
    assert lower as real <= index < lower as real + 1.0;
    assert pos.Floor == lower + 1;
    if index != lower as real {
      assert 0 <= lower < |s| - 1;
      assert 1.0 < pos < |s| as real;
    }
  }

  /** The interpolating branch of the `percentile` operation on a sorted
      list: one element is itself, an integral index picks its element,
      and otherwise the two elements around the index are weighted by the
      fractional part. */
  function LinearPercentile(s: seq<real>, p: real): (r: real)
    requires |s| >= 1 && 0.0 <= p <= 100.0
    ensures r == DataAnalysis.InterpolatePercentile(s, PercentileIndex(p, |s|) + 1.0)
  {
    var n := |s|;
    if n == 1 then s[0]
    else
      var index := PercentileIndex(p, n);
      var lower := index.Floor;
      InterpolateAtIndex(s, index);
      if index == lower as real then s[lower]
      else
        var upper := if lower + 1 < n - 1 then lower + 1 else n - 1;
        var weight := index - lower as real;
        assert upper == lower + 1;
        assert s[lower] * (1.0 - weight) + s[upper] * weight == s[lower] + weight * (s[upper] - s[lower]);
        s[lower] * (1.0 - weight) + s[upper] * weight
  }

  /** The index grows with p. */
  lemma PercentileIndexMonotone(p1: real, p2: real, n: nat)
    requires n >= 1 && 0.0 <= p1 <= p2 <= 100.0
    ensures PercentileIndex(p1, n) <= PercentileIndex(p2, n)
  {
    var m := (n - 1) as real;
    assert p1 / 100.0 <= p2 / 100.0;
    assert PercentileIndex(p1, n) == (p1 / 100.0) * m;
    assert PercentileIndex(p2, n) == (p2 / 100.0) * m;
    DataAnalysis.MulMonoReal(p1 / 100.0, p2 / 100.0, m);
  }

  /** The formula gives the first element at p = 0 and the last at p = 100. */
  lemma LinearAtEnds(s: seq<real>)
    requires |s| >= 1
    ensures LinearPercentile(s, 0.0) == s[0]
    ensures LinearPercentile(s, 100.0) == s[|s| - 1]
  {
    var n := |s|;
    assert PercentileIndex(0.0, n) == 0.0;
    assert PercentileIndex(100.0, n) == (n - 1) as real;
  }

  /** On a sorted list the formula stays within the first and last
      elements and never decreases as p grows. */
  lemma LinearPercentileMonotone(s: seq<real>, p1: real, p2: real)
    requires |s| >= 1 && Sorted(s)
    requires 0.0 <= p1 <= p2 <= 100.0
    ensures s[0] <= LinearPercentile(s, p1) <= LinearPercentile(s, p2) <= s[|s| - 1]
  {
    var n := |s|;
    var i1, i2 := PercentileIndex(p1, n), PercentileIndex(p2, n);
    PercentileIndexMonotone(p1, p2, n);
    DataAnalysis.InterpolateMonotone(s, i1 + 1.0, i2 + 1.0);
  }

  /** The `percentile` operation once p is known to lie in [0, 100]: the
      minimum for 0, the maximum for 100, the median for 50 and the
      interpolation formula on the sorted data otherwise. */
  function Percentile(data: seq<real>, p: real): (r: real)
    requires |data| >= 1 && 0.0 <= p <= 100.0
    ensures r == LinearPercentile(Sort(data), p)
    ensures Min(data) <= r <= Max(data)
  {
    var s := Sort(data);
    SortedFirstIsMin(data);
    SortedLastIsMax(data);
    LinearPercentileMonotone(s, p, p);
    if p == 0.0 then LinearAtEnds(s); Min(data)
    else if p == 100.0 then LinearAtEnds(s); Max(data)
    else if p == 50.0 then MedianIsFiftiethPercentile(s); DataAnalysis.Median(s)
    else LinearPercentile(s, p)
  }

  /** The three special cases give what the formula gives: the routine is
      the formula on the sorted data for every p in [0, 100]. */
  lemma PercentileIsLinear(data: seq<real>, p: real)
    requires |data| >= 1 && 0.0 <= p <= 100.0
    ensures Percentile(data, p) == LinearPercentile(Sort(data), p)
  {
    if p == 0.0 || p == 100.0 {
      PercentileAtEnds(data);
    } else if p == 50.0 {
      MedianIsFiftiethPercentile(Sort(data));
    }
  }

  /** At 0 and 100 the minimum and maximum are the formula's end values. */
  lemma PercentileAtEnds(data: seq<real>)
    requires |data| >= 1
    ensures Percentile(data, 0.0) == LinearPercentile(Sort(data), 0.0)
    ensures Percentile(data, 100.0) == LinearPercentile(Sort(data), 100.0)
  {
    var s := Sort(data);
    LinearAtEnds(s);
    SortedFirstIsMin(data);
    SortedLastIsMax(data);
  }

  /** The median is the formula at p = 50. */
  lemma MedianIsFiftiethPercentile(s: seq<real>)
    requires |s| >= 1
    ensures DataAnalysis.Median(s) == LinearPercentile(s, 50.0)
  {
    var n := |s|;
    var h := n / 2;
    var index := PercentileIndex(50.0, n);
    assert index == (n - 1) as real / 2.0;
    if n == 1 {
    } else if n % 2 == 1 {
      assert n == 2 * h + 1;
      assert index == h as real;
    } else {
      assert n == 2 * h;
      assert index == h as real - 0.5;
      assert index.Floor == h - 1;
    }
  }

  /** Every percentile lies between the minimum and the maximum, and a
      larger p never gives a smaller value. */
  lemma PercentileMonotone(data: seq<real>, p1: real, p2: real)
    requires |data| >= 1 && 0.0 <= p1 <= p2 <= 100.0
    ensures Min(data) <= Percentile(data, p1) <= Percentile(data, p2) <= Max(data)
  {
    var s := Sort(data);
    assert Percentile(data, p1) == LinearPercentile(s, p1) by { PercentileIsLinear(data, p1); }
    assert Percentile(data, p2) == LinearPercentile(s, p2) by { PercentileIsLinear(data, p2); }
    assert s[0] <= LinearPercentile(s, p1) <= LinearPercentile(s, p2) <= s[|s| - 1] by {
      LinearPercentileMonotone(s, p1, p2);
    }
    assert s[0] == Min(data) by { SortedFirstIsMin(data); }
    assert s[|s| - 1] == Max(data) by { SortedLastIsMax(data); }
  }

  // --------------------------------------------------------------- routing

  /** What an operation produces: the list handed to the `statistics`
      module for mean, median, mode, standard deviation and variance, the
      range statistics, or a percentile with its value. */
  datatype Statistic =
    | Delegated(operation: string, data: seq<real>)
    | RangeStats(min: real, max: real, range: real)
    | PercentileOf(percentile: real, result: real)

  const SupportedOperations: seq<string> :=
    ["mean", "median", "mode", "standard_deviation", "variance", "range_stats", "percentile"]

  /** The routing of `StatisticsTool.calculate` once the numbers are parsed. */
  function Dispatch(operation: string, xs: seq<real>, percentile: Option<real>): (r: Result<Statistic, StatsError>)
    requires |xs| >= 1
    ensures r.Ok? <==>
              operation in SupportedOperations &&
              !((operation == "standard_deviation" || operation == "variance") && |xs| < 2) &&
              (operation == "percentile" ==> percentile.Some? && 0.0 <= percentile.value <= 100.0)
  {
    if operation == "mean" || operation == "median" || operation == "mode" then
      Ok(Delegated(operation, xs))
    else if operation == "standard_deviation" || operation == "variance" then
      match ValidateMinimumCount(xs, 2) {
        case Fail(e) => Err(e)
        case Pass => Ok(Delegated(operation, xs))
      }
    else if operation == "range_stats" then
      var lo, hi := Min(xs), Max(xs);
      Ok(RangeStats(lo, hi, hi - lo))
    else if operation == "percentile" then
      if percentile.None? then Err(MissingPercentile)
      else if !(0.0 <= percentile.value <= 100.0) then Err(PercentileOutOfRange)
      else
        var p := percentile.value;
        Ok(PercentileOf(p, Percentile(xs, p)))
    else Err(UnsupportedOperation(operation))
  }

  /** `StatisticsTool.calculate`: the numbers are parsed before the operation
      is looked at, so a parse error wins over an unknown operation. */
  function Calculate(operation: string, numbers: string, percentile: Option<real>,
                     parse: string -> Option<real>): (r: Result<Statistic, StatsError>)
    ensures ParseNumbers(numbers, parse).Err? ==> r == Err(ParseNumbers(numbers, parse).error)
    ensures ParseNumbers(numbers, parse).Ok? ==>
              r == Dispatch(operation, ParseNumbers(numbers, parse).value, percentile)
  {
    match ParseNumbers(numbers, parse) {
      case Err(e) => Err(e)
      case Ok(xs) => Dispatch(operation, xs, percentile)
    }
  }

  /** The operation is rejected exactly when it is not one of the seven
      supported names. */
  lemma DispatchUnsupported(operation: string, xs: seq<real>, percentile: Option<real>)
    requires |xs| >= 1
    ensures Dispatch(operation, xs, percentile) == Err(UnsupportedOperation(operation))
        <==> operation !in SupportedOperations
  {
  }

  /** Mean, median and mode receive the list; standard deviation and
      variance receive it only when it holds at least two numbers. */
  lemma DispatchDelegated(operation: string, xs: seq<real>, percentile: Option<real>)
    requires |xs| >= 1 && operation in SupportedOperations[..5]
    ensures var r := Dispatch(operation, xs, percentile);
            (r == Err(TooFewNumbers(2)) <==>
               (operation == "standard_deviation" || operation == "variance") && |xs| < 2) &&
            (r.Err? || r == Ok(Delegated(operation, xs)))
  {
  }

  /** `range_stats` reports the least and the greatest number, both taken
      from the list, and their difference, which is never negative. */
  lemma DispatchRangeStats(xs: seq<real>, percentile: Option<real>)
    requires |xs| >= 1
    ensures var r := Dispatch("range_stats", xs, percentile);
            r.Ok? && r.value.RangeStats? &&
            r.value.min in xs && r.value.max in xs &&
            (forall k :: 0 <= k < |xs| ==> r.value.min <= xs[k] <= r.value.max) &&
            r.value.range == r.value.max - r.value.min >= 0.0
  {
    assert Min(xs) <= Max(xs);
  }

  /** `percentile` needs the parameter and a value in [0, 100]; it then
      reports the interpolation formula on the sorted numbers, which lies
      between their minimum and maximum. */
  lemma DispatchPercentile(xs: seq<real>, percentile: Option<real>)
    requires |xs| >= 1
    ensures var r := Dispatch("percentile", xs, percentile);
            (r == Err(MissingPercentile) <==> percentile.None?) &&
            (r == Err(PercentileOutOfRange) <==>
               percentile.Some? && !(0.0 <= percentile.value <= 100.0)) &&
            (r.Ok? <==> percentile.Some? && 0.0 <= percentile.value <= 100.0) &&
            (r.Ok? ==> r.value.PercentileOf? && r.value.percentile == percentile.value &&
                       r.value.result == LinearPercentile(Sort(xs), percentile.value) &&
                       Min(xs) <= r.value.result <= Max(xs))
  {
    var r := Dispatch("percentile", xs, percentile);
    assert "percentile" != "mean" && "percentile" != "median" && "percentile" != "mode";
    assert "percentile" != "standard_deviation" && "percentile" != "variance";
    assert "percentile" != "range_stats";
    if percentile.Some? && 0.0 <= percentile.value <= 100.0 {
      var p := percentile.value;
      assert r == Ok(PercentileOf(p, Percentile(xs, p)));
      PercentileIsLinear(xs, p);
      PercentileMonotone(xs, p, p);
    }
  }
}
