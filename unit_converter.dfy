/**
 * The unit converter (unit_converter.py): the conversion table, fraction parsing,
 * Fahrenheit to Celsius, the conversion of one measurement, and the rewriting of a
 * whole text with `pattern.sub`. Python floats are modelled by exact reals; the
 * values the converter prints are whole numbers or whole numbers of hundredths.
 */
module UnitConverter {
  import opened Wrappers
  import opened Text
  import opened Numbers
  import opened MeasurementPattern

  // ------------------------------------------------------------------
  // The conversion table
  // ------------------------------------------------------------------

  /** An entry of the table: a factor into a metric unit, or the temperature marker ('celsius', None). */
  datatype Conversion = Scale(metric: string, factor: real) | ToCelsius

  /** The table, keyed by the units' spellings (unit_converter.py, lines 12-45). */
  function ConversionOf(u: UnitName): Conversion {
    match u
    case Cup | Cups => Scale("ml", 236.588)
    case Tablespoon | Tablespoons | Tbsp => Scale("ml", 14.787)
    case Teaspoon | Teaspoons | Tsp => Scale("ml", 4.929)
    case FluidOunce | FluidOunces | FlOz => Scale("ml", 29.574)
    case Pint | Pints => Scale("ml", 473.176)
    case Quart | Quarts => Scale("l", 0.946)
    case Gallon | Gallons => Scale("l", 3.785)
    case Ounce | Ounces | Oz => Scale("g", 28.350)
    case Pound | Pounds | Lb | Lbs => Scale("g", 453.592)
    case Fahrenheit | F | DegreesF => ToCelsius
  }

  /** The names convert_measurement sends to the temperature branch. */
  predicate IsTemperatureKey(key: string) {
    key == "fahrenheit" || key == "f" || key == "°f"
  }

  /** The temperature names are exactly the spellings of the units the table marks as temperatures. */
  lemma TemperatureSpelling(u: UnitName)
    ensures IsTemperatureKey(Spelling(u)) <==> ConversionOf(u) == ToCelsius
  {
    match u
    case Fahrenheit | F | DegreesF =>
    case Cup | Cups | Tablespoon | Tablespoons | Tbsp | Teaspoon | Teaspoons | Tsp | FluidOunce
      | FluidOunces | FlOz | Pint | Pints | Quart | Quarts | Gallon | Gallons | Ounce | Ounces
      | Oz | Pound | Pounds | Lb | Lbs =>
  }

  /** Only the temperature names map to the temperature marker. */
  lemma TableScale(key: string)
    requires UnitNamed(key).Some? && !IsTemperatureKey(key)
    ensures ConversionOf(UnitNamed(key).value).Scale?
  {
    TemperatureSpelling(UnitNamed(key).value);
  }

  // ------------------------------------------------------------------
  // Fractions and temperatures
  // ------------------------------------------------------------------

  datatype ConversionError = ValueError | ZeroDivisionError

  /**
   * convert_fraction_to_decimal: with a '/', the text before the first '/' divided by the
   * text between the first and the second '/'; otherwise the whole text as a float.
   */
  function FractionToDecimal(s: string): (r: Result<real, ConversionError>)
  {
    if Contains(s, "/") then
      ContainsChar(s, '/');
      var k := IndexOf(s, '/', 0);
      var rest := s[k + 1..];
      var denominator := rest[..IndexOf(rest, '/', 0)];
      match ParseDecimal(s[..k])
      case None => Failure(ValueError)
      case Some(x) =>
        match ParseDecimal(denominator)
        case None => Failure(ValueError)
        case Some(y) => if y == 0.0 then Failure(ZeroDivisionError) else Success(x / y)
    else
      match ParseDecimal(s)
      case None => Failure(ValueError)
      case Some(x) => Success(x)
  }

  /** Without a '/', the whole text is read by float(). */
  lemma FractionOfWhole(s: string)
    requires forall i :: 0 <= i < |s| ==> s[i] != '/'
    ensures ParseDecimal(s).Some? ==> FractionToDecimal(s) == Success(ParseDecimal(s).value)
    ensures ParseDecimal(s).None? ==> FractionToDecimal(s) == Failure(ValueError)
  {
    ContainsChar(s, '/');
  }

  /** `x/y` with digits x and a decimal y: the quotient, or ZeroDivisionError when y is zero. */
  lemma FractionOfParts(x: string, y: string)
    requires IsDigitRun(x) && ParseDecimal(y).Some?
    requires forall i :: 0 <= i < |y| ==> y[i] != '/'
    ensures ParseDecimal(y).value == 0.0 ==> FractionToDecimal(x + "/" + y) == Failure(ZeroDivisionError)
    ensures ParseDecimal(y).value != 0.0 ==>
      FractionToDecimal(x + "/" + y) == Success(DigitsValue(x) as real / ParseDecimal(y).value)
  {
    var s := x + "/" + y;
    forall i | 0 <= i < |x| ensures s[i] != '/' {
      assert s[i] == x[i];
    }
    IndexOfAt(s, '/', 0, |x|);
    ContainsChar(s, '/');
    assert s[..|x|] == x;
    assert s[|x| + 1..] == y;
    assert y[..IndexOf(y, '/', 0)] == y;
  }

  /** A fraction of two digit runs is their quotient, or ZeroDivisionError over zero. */
  lemma FractionOfDigits(x: string, y: string)
    requires IsDigitRun(x) && IsDigitRun(y)
    ensures DigitsValue(y) == 0 ==> FractionToDecimal(x + "/" + y) == Failure(ZeroDivisionError)
    ensures DigitsValue(y) != 0 ==>
      FractionToDecimal(x + "/" + y) == Success(DigitsValue(x) as real / DigitsValue(y) as real)
  {
    FractionOfParts(x, y);
  }

  /** float() reads `\d+(?:\.\d+)?`, which holds no '/'. */
  lemma DecimalReads(s: string, q: nat)
    requires 0 < q <= |s| && DigitsBetween(s, 0, q)
    requires q == |s| || (s[q] == '.' && q + 1 < |s| && DigitsBetween(s, q + 1, |s|))
    ensures ParseDecimal(s).Some?
    ensures forall i :: 0 <= i < |s| ==> s[i] != '/'
  {
    if q == |s| {
      assert IsDigitRun(s);
    } else {
      assert s == s[..q] + "." + s[q + 1..];
      assert IsDigitRun(s[q + 1..]);
      ParseDecimalOfPoint(s[..q], s[q + 1..]);
    }
  }

  /** The amount the pattern captures always reads as a number: at worst it divides by zero. */
  lemma AmountParses(s: string, p: nat, q: nat)
    requires NumberSplit(s, 0, p, q, |s|)
    ensures FractionToDecimal(s).Success? || FractionToDecimal(s) == Failure(ZeroDivisionError)
  {
    if q == p {
      DecimalReads(s, p);
      FractionOfWhole(s);
    } else {
      var x, y := s[..p], s[p + 1..];
      assert s == x + "/" + y;
      assert IsDigitRun(x);
      assert DigitsBetween(y, 0, q - p - 1) by {
        forall i | 0 <= i < q - p - 1 ensures IsDigit(y[i]) {
          assert y[i] == s[p + 1 + i];
        }
      }
      if q < |s| {
        assert y[q - p - 1] == s[q];
        assert DigitsBetween(y, q - p, |y|) by {
          forall i | q - p <= i < |y| ensures IsDigit(y[i]) {
            assert y[i] == s[p + 1 + i];
          }
        }
      }
      DecimalReads(y, q - p - 1);
      FractionOfParts(x, y);
    }
  }

  /** The amount of every match reads as a number: at worst it divides by zero. */
  lemma MatchAmountParses(t: string)
    requires MatchPrefix(t).Some?
    ensures FractionToDecimal(MatchPrefix(t).value.amount) != Failure(ValueError)
  {
    var p, q := MatchPrefixAmount(t);
    AmountParses(MatchPrefix(t).value.amount, p, q);
  }

  /** fahrenheit_to_celsius: round((f - 32) * 5 / 9), the nearest integer with ties to even. */
  function FahrenheitToCelsius(f: real): (c: int)
    ensures Abs(c as real - (f - 32.0) * 5.0 / 9.0) <= 0.5
  {
    RoundHalfEven((f - 32.0) * 5.0 / 9.0)
  }

  lemma FahrenheitExamples()
    ensures FahrenheitToCelsius(350.0) == 177
    ensures FahrenheitToCelsius(212.0) == 100
    ensures FahrenheitToCelsius(32.0) == 0
    ensures FahrenheitToCelsius(0.0) == -18
  {
    assert (350.0 - 32.0) * 5.0 / 9.0 == 176.0 + 6.0 / 9.0;
    assert ((350.0 - 32.0) * 5.0 / 9.0).Floor == 176;
    assert (0.0 - 32.0) * 5.0 / 9.0 == -18.0 + 2.0 / 9.0;
    assert ((0.0 - 32.0) * 5.0 / 9.0).Floor == -18;
    RoundOfInteger(100);
    RoundOfInteger(0);
  }

  // ------------------------------------------------------------------
  // One measurement
  // ------------------------------------------------------------------

  /** What convert_measurement returns as the amount: an int, a float with at most two decimals, or the input. */
  datatype Amount = Whole(n: int) | Hundredths(cents: int) | Unchanged(x: real)

  /** The number an Amount stands for. */
  function Value(a: Amount): real {
    match a
    case Whole(n) => n as real
    case Hundredths(c) => c as real / 100.0
    case Unchanged(x) => x
  }

  /** unit.lower().strip() */
  function Key(unit: string): string {
    Strip(Lower(unit))
  }

  /** The table entry convert_measurement uses for a non-temperature unit in the table. */
  function ScaleFor(unit: string): (s: Conversion)
    requires UnitNamed(Key(unit)).Some? && !IsTemperatureKey(Key(unit))
    ensures s.Scale?
  {
    TableScale(Key(unit));
    ConversionOf(UnitNamed(Key(unit)).value)
  }

  /** ml and g move up to l and kg from 1000 on. */
  predicate Promoted(metric: string, converted: real) {
    (metric == "ml" || metric == "g") && converted >= 1000.0
  }

  /** The rounding step of convert_measurement, on the converted amount in the entry's unit. */
  function RoundMetric(metric: string, converted: real): (r: (Amount, string))
    ensures Promoted(metric, converted) ==>
      r.1 == (if metric == "ml" then "l" else "kg") && r.0.Hundredths?
    ensures !Promoted(metric, converted) && converted < 10.0 ==>
      r.1 == metric && r.0.Hundredths? && r.0.cents % 10 == 0
    ensures !Promoted(metric, converted) && converted >= 10.0 ==>
      r.1 == metric && r.0.Whole?
  {
    if metric == "ml" && converted >= 1000.0 then (Hundredths(RoundToHundredths(converted / 1000.0)), "l")
    else if metric == "g" && converted >= 1000.0 then (Hundredths(RoundToHundredths(converted / 1000.0)), "kg")
    else if converted < 10.0 then (Hundredths(RoundToTenths(converted)), metric)
    else (Whole(RoundHalfEven(converted)), metric)
  }

  /**
   * How close the rounded amount is: within 0.005 l or kg once promoted, within 0.05 below
   * 10, within 0.5 otherwise.
   */
  lemma RoundMetricClose(metric: string, converted: real)
    ensures var r := RoundMetric(metric, converted);
      (Promoted(metric, converted) ==> Abs(Value(r.0) - converted / 1000.0) <= 0.005) &&
      (!Promoted(metric, converted) && converted < 10.0 ==> Abs(Value(r.0) - converted) <= 0.05) &&
      (!Promoted(metric, converted) && converted >= 10.0 ==> Abs(Value(r.0) - converted) <= 0.5)
  {
    if Promoted(metric, converted) {
      var cents := RoundToHundredths(converted / 1000.0);
      assert Value(RoundMetric(metric, converted).0) == cents as real / 100.0;
    } else if converted < 10.0 {
      var cents := RoundToTenths(converted);
      assert Value(RoundMetric(metric, converted).0) == cents as real / 100.0;
    } else {
      var n := RoundHalfEven(converted);
      assert Value(RoundMetric(metric, converted).0) == n as real;
    }
  }

  /** The scaling and rounding step of convert_measurement for an entry of the table. */
  function Rounded(amount: real, s: Conversion): (r: (Amount, string))
    requires s.Scale?
    ensures !r.0.Unchanged?
  {
    RoundMetric(s.metric, amount * s.factor)
  }

  /**
   * convert_measurement: Fahrenheit to whole degrees Celsius; a table unit multiplied by its
   * factor and rounded as Rounded says; anything else unchanged.
   */
  function ConvertMeasurement(amount: real, unit: string): (r: (Amount, string))
    ensures IsTemperatureKey(Key(unit)) ==> r.1 == "°C" && r.0.Whole?
    ensures !IsTemperatureKey(Key(unit)) && UnitNamed(Key(unit)).None? ==> r == (Unchanged(amount), unit)
    ensures !IsTemperatureKey(Key(unit)) && UnitNamed(Key(unit)).Some? ==> r == Rounded(amount, ScaleFor(unit))
  {
    var key := Key(unit);
    if IsTemperatureKey(key) then (Whole(FahrenheitToCelsius(amount)), "°C")
    else if UnitNamed(key).None? then (Unchanged(amount), unit)
    else Rounded(amount, ScaleFor(unit))
  }

  /** A temperature unit gives the whole number of degrees Celsius nearest to (F - 32) * 5 / 9. */
  lemma TemperatureConverts(amount: real, unit: string)
    requires IsTemperatureKey(Key(unit))
    ensures var r := ConvertMeasurement(amount, unit);
      r.1 == "°C" && r.0.Whole? && Abs(Value(r.0) - (amount - 32.0) * 5.0 / 9.0) <= 0.5
  {
    var c := FahrenheitToCelsius(amount);
    assert ConvertMeasurement(amount, unit) == (Whole(c), "°C");
  }

  /** A unit of the table, in any case and between any spaces, converts by its own table entry. */
  lemma KnownUnitConverts(amount: real, unit: string, u: UnitName)
    requires Key(unit) == Spelling(u)
    ensures ConversionOf(u) == ToCelsius ==>
      ConvertMeasurement(amount, unit) == (Whole(FahrenheitToCelsius(amount)), "°C")
    ensures ConversionOf(u).Scale? ==> ConvertMeasurement(amount, unit) == Rounded(amount, ConversionOf(u))
  {
    UnitNamedSpelling(u);
    TemperatureSpelling(u);
  }

  /** ...so it is never passed through unchanged. */
  lemma KnownUnitChanges(amount: real, unit: string, u: UnitName)
    requires Key(unit) == Spelling(u)
    ensures !ConvertMeasurement(amount, unit).0.Unchanged?
  {
    KnownUnitConverts(amount, unit, u);
    var c := ConversionOf(u);
    if c.Scale? {
      assert ConvertMeasurement(amount, unit) == Rounded(amount, c);
    } else {
      assert ConvertMeasurement(amount, unit) == (Whole(FahrenheitToCelsius(amount)), "°C");
    }
  }

  /** A unit written as typed, whose lower-case form is its spelling, is keyed by that spelling. */
  lemma KeyOfUnit(unit: string, u: UnitName)
    requires Lower(unit) == Spelling(u)
    ensures Key(unit) == Spelling(u)
  {
    UnitsHaveShape(u);
    KeyOfSpelled(unit, Spelling(u));
  }

  /** A table unit typed in any case converts by its entry. */
  lemma ConvertsByTable(amount: real, unit: string, u: UnitName, r: (Amount, string))
    requires Lower(unit) == Spelling(u) && ConversionOf(u).Scale?
    requires Rounded(amount, ConversionOf(u)) == r
    ensures ConvertMeasurement(amount, unit) == r
  {
    KeyOfUnit(unit, u);
    KnownUnitConverts(amount, unit, u);
  }

  lemma ConvertCupsExample()
    ensures ConvertMeasurement(2.0, "cups") == (Whole(473), "ml")
    ensures ConvertMeasurement(5.0, "cups") == (Hundredths(118), "l")
  {
    CupsSpelled();
    CupsRounded();
    ConvertsByTable(2.0, "cups", Cups, (Whole(473), "ml"));
    ConvertsByTable(5.0, "cups", Cups, (Hundredths(118), "l"));
  }

  lemma CupsSpelled()
    ensures Lower("cups") == Spelling(Cups)
  {
  }

  lemma CupsRounded()
    ensures Rounded(2.0, ConversionOf(Cups)) == (Whole(473), "ml")
    ensures Rounded(5.0, ConversionOf(Cups)) == (Hundredths(118), "l")
  {
    assert ConversionOf(Cups) == Scale("ml", 236.588);
    assert 2.0 * 236.588 == 473.176;
    RoundDown(473.176, 473);
    assert 5.0 * 236.588 == 1182.94;
    assert 1182.94 / 1000.0 * 100.0 == 118.294;
    RoundDown(118.294, 118);
  }

  lemma ConvertTspExample()
    ensures ConvertMeasurement(1.0, "Tsp") == (Hundredths(490), "ml")
  {
    TspSpelled();
    TspRounded();
    ConvertsByTable(1.0, "Tsp", Tsp, (Hundredths(490), "ml"));
  }

  lemma TspSpelled()
    ensures Lower("Tsp") == Spelling(Tsp)
  {
  }

  lemma TspRounded()
    ensures Rounded(1.0, ConversionOf(Tsp)) == (Hundredths(490), "ml")
  {
    assert ConversionOf(Tsp) == Scale("ml", 4.929);
    assert 1.0 * 4.929 == 4.929;
    assert 4.929 * 10.0 == 49.29;
    RoundDown(49.29, 49);
  }

  lemma ConvertQuartsExample()
    ensures ConvertMeasurement(12.0, "quarts") == (Whole(11), "l")
  {
    QuartsSpelled();
    QuartsRounded();
    ConvertsByTable(12.0, "quarts", Quarts, (Whole(11), "l"));
  }

  lemma QuartsSpelled()
    ensures Lower("quarts") == Spelling(Quarts)
  {
  }

  lemma QuartsRounded()
    ensures Rounded(12.0, ConversionOf(Quarts)) == (Whole(11), "l")
  {
    assert ConversionOf(Quarts) == Scale("l", 0.946);
    assert 12.0 * 0.946 == 11.352;
    RoundDown(11.352, 11);
  }

  lemma ConvertTemperatureExample()
    ensures ConvertMeasurement(350.0, "°F") == (Whole(177), "°C")
  {
    assert Key("°F") == "°f" by {
      assert Lower("°F") == Spelling(DegreesF);
      KeyOfUnit("°F", DegreesF);
    }
    FahrenheitExamples();
  }

  /** A word that is not in the table is passed through with the amount. */
  lemma ConvertUnknownExample()
    ensures ConvertMeasurement(2.0, "stone") == (Unchanged(2.0), "stone")
  {
    assert Key("stone") == "stone" by {
      assert Lower("stone") == "stone";
      StripUnpadded("stone");
    }
    assert UnitNamed("stone").None? by {
      assert Signature("stone") == (5, 's', 'e');
      NotAUnit("stone");
    }
  }

  // ------------------------------------------------------------------
  // Printing and the text rewrite
  // ------------------------------------------------------------------

  /** f"{converted_amount}" for an int or a float with at most two decimals. */
  function RenderAmount(a: Amount): string
    requires !a.Unchanged?
  {
    match a
    case Whole(n) => IntToString(n)
    case Hundredths(c) => RenderFloat(c)
  }

  /** The printed amount reads back as the amount. */
  lemma RenderAmountReadsBack(a: Amount)
    requires !a.Unchanged? && Value(a) >= 0.0
    ensures ParseDecimal(RenderAmount(a)) == Some(Value(a))
  {
    match a
    case Whole(n) =>
      assert RenderAmount(a) == NatToString(n);
      ParseNatToString(n);
    case Hundredths(c) =>
      assert c >= 0;
      RenderFloatRoundTrip(c);
  }

  /** A text that lower-cases to a unit's spelling has that spelling as its key and ends in a letter. */
  lemma KeyOfSpelled(s: string, x: string)
    requires Lower(s) == x && UnitShape(x)
    ensures Key(s) == x && IsAlpha(s[|s| - 1])
  {
    StripUnpadded(x);
    assert LowerChar(s[|s| - 1]) == x[|x| - 1];
  }

  /** A unit typed in any case converts, and its last character is a letter. */
  lemma SpelledUnitChanges(unit: string, u: UnitName, x: real)
    requires Lower(unit) == Spelling(u)
    ensures |unit| > 0 && IsAlpha(unit[|unit| - 1])
    ensures !ConvertMeasurement(x, unit).0.Unchanged?
  {
    UnitsHaveShape(u);
    KeyOfSpelled(unit, Spelling(u));
    KnownUnitChanges(x, unit, u);
  }

  /** The unit of a match converts, and the match ends in a letter. */
  lemma MatchConverts(t: string, m: Match, x: real)
    requires MatchPrefix(t) == Some(m)
    ensures !ConvertMeasurement(x, m.unit).0.Unchanged?
    ensures IsAlpha(t[m.end - 1])
  {
    var u := MatchPrefixUnit(t);
    SpelledUnitChanges(m.unit, u, x);
    assert t[m.end - 1] == m.unit[|m.unit| - 1];
  }

  /** f"{converted_amount} {metric_unit} ({amount_str} {unit})" */
  function Formatted(converted: Amount, metric: string, amountText: string, unit: string): (r: string)
    requires !converted.Unchanged?
    ensures |r| > 0 && r[|r| - 1] == ')'
  {
    Layout(RenderAmount(converted), metric, amountText, unit)
  }

  /**
   * replace_measurement: the converted amount, the metric unit and, in parentheses, the
   * amount and the unit as written; the matched text itself when the amount does not parse.
   */
  function Replacement(t: string, m: Match): (r: string)
    requires MatchPrefix(t) == Some(m)
    ensures r == t[..m.end] <==> FractionToDecimal(m.amount) == Failure(ZeroDivisionError)
    ensures FractionToDecimal(m.amount).Success? ==>
      var c := ConvertMeasurement(FractionToDecimal(m.amount).value, m.unit);
      !c.0.Unchanged? && r == RenderAmount(c.0) + " " + c.1 + " (" + m.amount + " " + m.unit + ")"
  {
    match FractionToDecimal(m.amount)
    case Failure(_) =>
      MatchAmountParses(t);
      t[..m.end]
    case Success(x) =>
      MatchConverts(t, m, x);
      var r := Formatted(ConvertMeasurement(x, m.unit).0, ConvertMeasurement(x, m.unit).1, m.amount, m.unit);
      assert t[..m.end][m.end - 1] == t[m.end - 1];
      assert r[|r| - 1] != t[..m.end][m.end - 1];
      r
  }

  // ------------------------------------------------------------------
  // Reading a replacement back
  // ------------------------------------------------------------------

  predicate NoSpace(s: string) {
    forall i :: 0 <= i < |s| ==> s[i] != ' '
  }

  /** The text before the first c in s and the text after it, or None when s holds no c. */
  function SplitFirst(s: string, c: char): (r: Option<(string, string)>)
    ensures r.Some? ==> s == r.value.0 + [c] + r.value.1 && forall i :: 0 <= i < |r.value.0| ==> r.value.0[i] != c
    ensures r.None? ==> forall i :: 0 <= i < |s| ==> s[i] != c
  {
    var k := IndexOf(s, c, 0);
    if k < |s| then
      assert s == s[..k] + [c] + s[k + 1..];
      Some((s[..k], s[k + 1..]))
    else None
  }

  /** Splitting at the first c finds the c that follows a c-free text. */
  lemma SplitFirstOf(a: string, c: char, b: string)
    requires forall i :: 0 <= i < |a| ==> a[i] != c
    ensures SplitFirst(a + [c] + b, c) == Some((a, b))
  {
    var s := a + [c] + b;
    forall i | 0 <= i < |a| ensures s[i] != c {
      assert s[i] == a[i];
    }
    IndexOfAt(s, c, 0, |a|);
    assert s[..|a|] == a;
    assert s[|a| + 1..] == b;
  }

  /**
   * The four fields of a text laid out as "A M (S U)": the texts before the first space, up to
   * the next space, and, inside the parentheses that close the text, before and after its first
   * space.
   */
  function FieldsOf(r: string): Option<(string, string, string, string)> {
    match SplitFirst(r, ' ')
    case None => None
    case Some((a, rest)) =>
      match SplitFirst(rest, ' ')
      case None => None
      case Some((metric, paren)) =>
        if |paren| >= 2 && paren[0] == '(' && paren[|paren| - 1] == ')' then
          match SplitFirst(paren[1..|paren| - 1], ' ')
          case None => None
          case Some((amount, unit)) => Some((a, metric, amount, unit))
        else None
  }

  /** "A M (S U)" */
  function Layout(a: string, metric: string, amount: string, unit: string): string {
    a + " " + metric + " (" + amount + " " + unit + ")"
  }

  lemma LayoutNested(a: string, metric: string, amount: string, unit: string)
    ensures Layout(a, metric, amount, unit) == a + [' '] + (metric + [' '] + (['('] + (amount + [' '] + unit) + [')']))
  {
  }

  lemma ParenthesisedInner(paren: string)
    requires |paren| >= 2 && paren[0] == '(' && paren[|paren| - 1] == ')'
    ensures paren == ['('] + paren[1..|paren| - 1] + [')']
  {
  }

  /** Every text whose fields can be read is the layout of those fields. */
  lemma FieldsOfLayout(r: string)
    requires FieldsOf(r).Some?
    ensures var f := FieldsOf(r).value;
      NoSpace(f.0) && NoSpace(f.1) && NoSpace(f.2) && r == Layout(f.0, f.1, f.2, f.3)
  {
    var s1 := SplitFirst(r, ' ').value;
    var s2 := SplitFirst(s1.1, ' ').value;
    var paren := s2.1;
    var inner := paren[1..|paren| - 1];
    var s3 := SplitFirst(inner, ' ').value;
    assert FieldsOf(r).value == (s1.0, s2.0, s3.0, s3.1);
    ParenthesisedInner(paren);
    LayoutNested(s1.0, s2.0, s3.0, s3.1);
  }

  /** The f-string's fields read back from its output, when none but the unit holds a space. */
  lemma FormattedReadsBack(converted: Amount, metric: string, amountText: string, unit: string)
    requires !converted.Unchanged?
    requires NoSpace(RenderAmount(converted)) && NoSpace(metric) && NoSpace(amountText)
    ensures FieldsOf(Formatted(converted, metric, amountText, unit)) ==
      Some((RenderAmount(converted), metric, amountText, unit))
  {
    LayoutReadsBack(RenderAmount(converted), metric, amountText, unit);
  }

  lemma LayoutReadsBack(a: string, metric: string, amount: string, unit: string)
    requires NoSpace(a) && NoSpace(metric) && NoSpace(amount)
    ensures FieldsOf(Layout(a, metric, amount, unit)) == Some((a, metric, amount, unit))
  {
    var inner := amount + [' '] + unit;
    var paren := ['('] + inner + [')'];
    var rest := metric + [' '] + paren;
    LayoutNested(a, metric, amount, unit);
    SplitFirstOf(a, ' ', rest);
    SplitFirstOf(metric, ' ', paren);
    assert paren[1..|paren| - 1] == inner;
    SplitFirstOf(amount, ' ', unit);
  }

  lemma DigitsNoSpace(s: string)
    requires AllDigits(s)
    ensures NoSpace(s)
  {
  }

  lemma NoSpaceAppend(a: string, b: string)
    requires NoSpace(a) && NoSpace(b)
    ensures NoSpace(a + b)
  {
    forall i | 0 <= i < |a + b| ensures (a + b)[i] != ' ' {
      if i < |a| {
        assert (a + b)[i] == a[i];
      } else {
        assert (a + b)[i] == b[i - |a|];
      }
    }
  }

  /** The printed amount is one word: a sign, digits and a decimal point. */
  lemma RenderAmountNoSpace(a: Amount)
    requires !a.Unchanged?
    ensures NoSpace(RenderAmount(a))
  {
    match a
    case Whole(n) => IntNoSpace(n);
    case Hundredths(cents) => FloatNoSpace(cents);
  }

  lemma IntNoSpace(n: int)
    ensures NoSpace(IntToString(n))
  {
    var digits := NatToString(if n < 0 then -n else n);
    DigitsNoSpace(digits);
    if n < 0 {
      NoSpaceAppend("-", digits);
    }
  }

  lemma FloatNoSpace(cents: int)
    ensures NoSpace(RenderFloat(cents))
  {
    var c := if cents < 0 then -cents else cents;
    var sign := if cents < 0 then "-" else "";
    var ip := NatToString(c / 100);
    var fd := FractionDigits(c % 100);
    FractionDigitsValue(c % 100);
    DigitsNoSpace(ip);
    DigitsNoSpace(fd);
    NoSpaceAppend(ip, ".");
    NoSpaceAppend(ip + ".", fd);
    NoSpaceAppend(sign, ip + "." + fd);
    assert RenderFloat(cents) == sign + (ip + "." + fd);
  }

  /** The table converts only into ml, l and g. */
  lemma TableMetrics(u: UnitName)
    ensures ConversionOf(u).Scale? ==>
      ConversionOf(u).metric == "ml" || ConversionOf(u).metric == "l" || ConversionOf(u).metric == "g"
  {
  }

  /** A unit that converts comes out as ml, l, g, kg or °C. */
  lemma MetricUnitOf(amount: real, unit: string)
    requires !ConvertMeasurement(amount, unit).0.Unchanged?
    ensures var metric := ConvertMeasurement(amount, unit).1;
      metric == "ml" || metric == "l" || metric == "g" || metric == "kg" || metric == "°C"
  {
    if !IsTemperatureKey(Key(unit)) {
      TableMetrics(UnitNamed(Key(unit)).value);
    }
  }

  lemma MetricNoSpace(metric: string)
    requires metric == "ml" || metric == "l" || metric == "g" || metric == "kg" || metric == "°C"
    ensures NoSpace(metric)
  {
  }

  /** The amount the pattern captures is digits, '/' and '.'. */
  lemma AmountNoSpace(t: string)
    requires MatchPrefix(t).Some?
    ensures NoSpace(MatchPrefix(t).value.amount)
  {
    var p, q := MatchPrefixAmount(t);
    NumberNoSpace(MatchPrefix(t).value.amount, p, q);
  }

  lemma NumberNoSpace(s: string, p: nat, q: nat)
    requires NumberSplit(s, 0, p, q, |s|)
    ensures NoSpace(s)
  {
    forall i | 0 <= i < |s| ensures s[i] != ' ' {
      if i != p && i != q {
        assert IsDigit(s[i]);
      }
    }
  }

  /** The amount of a match is the text it starts with. */
  lemma MatchAmountPrefix(t: string)
    requires MatchPrefix(t).Some?
    ensures |MatchPrefix(t).value.amount| <= |t| && MatchPrefix(t).value.amount == t[..|MatchPrefix(t).value.amount|]
  {
    var p, q := MatchPrefixAmount(t);
  }

  /**
   * A converted match reads back as the converted amount, the metric unit, and the amount and
   * the unit exactly as they stand at the start and at the end of the matched text.
   */
  lemma ReplacementReadsBack(t: string, m: Match, x: real)
    requires MatchPrefix(t) == Some(m) && FractionToDecimal(m.amount) == Success(x)
    ensures var c := ConvertMeasurement(x, m.unit);
      !c.0.Unchanged? && |m.amount| <= m.end && |m.unit| <= m.end &&
      FieldsOf(Replacement(t, m)) ==
        Some((RenderAmount(c.0), c.1, t[..|m.amount|], t[m.end - |m.unit|..m.end]))
  {
    var c := ConvertMeasurement(x, m.unit);
    MatchConverts(t, m, x);
    var u := MatchPrefixUnit(t);
    MatchAmountPrefix(t);
    AmountNoSpace(t);
    RenderAmountNoSpace(c.0);
    MetricUnitOf(x, m.unit);
    MetricNoSpace(c.1);
    FormattedReadsBack(c.0, c.1, m.amount, m.unit);
    assert |m.amount| <= m.end by {
      assert m.amount == t[..NumberEnd(t, 0)];
    }
  }

  /** convert_text: `pattern.sub(replace_measurement, text)`, scanning from left to right. */
  function ConvertText(t: string): string
    decreases |t|
  {
    if |t| == 0 then ""
    else
      match MatchPrefix(t)
      case Some(m) => Replacement(t, m) + ConvertText(t[m.end..])
      case None => [t[0]] + ConvertText(t[1..])
  }

  /** Text without digits holds no measurement and comes out unchanged. */
  lemma {:induction false} ConvertTextNoDigits(t: string)
    requires forall i :: 0 <= i < |t| ==> !IsDigit(t[i])
    ensures ConvertText(t) == t
    decreases |t|
  {
    if |t| > 0 {
      ConvertTextNoDigits(t[1..]);
    }
  }

  /** Where the pattern does not match, the rewrite copies one character and goes on. */
  lemma ConvertTextCopies(t: string)
    requires |t| > 0 && MatchPrefix(t).None?
    ensures ConvertText(t) == [t[0]] + ConvertText(t[1..])
  {
  }

  /** The rewrite copies every character before the first position where the pattern matches. */
  lemma {:induction false} ConvertTextSkips(t: string, n: nat)
    requires n <= |t|
    requires forall i :: 0 <= i < n ==> MatchPrefix(t[i..]).None?
    ensures ConvertText(t) == t[..n] + ConvertText(t[n..])
    decreases n
  {
    if n > 0 {
      SliceAfterFirst(t, n);
      assert MatchPrefix(t[0..]).None?;
      ConvertTextCopies(t);
      NoMatchInTail(t, n);
      ConvertTextSkips(t[1..], n - 1);
      ConcatAssoc([t[0]], t[1..][..n - 1], ConvertText(t[n..]));
    }
  }

  lemma NoMatchInTail(t: string, n: nat)
    requires 0 < n <= |t|
    requires forall i :: 0 <= i < n ==> MatchPrefix(t[i..]).None?
    ensures forall i :: 0 <= i < n - 1 ==> MatchPrefix(t[1..][i..]).None?
  {
    forall i | 0 <= i < n - 1 ensures MatchPrefix(t[1..][i..]).None? {
      assert t[1..][i..] == t[i + 1..];
    }
  }

  lemma ConcatAssoc(x: string, y: string, z: string)
    ensures x + (y + z) == (x + y) + z
  {
  }

  lemma SliceAfterFirst(t: string, n: nat)
    requires 0 < n <= |t|
    ensures t[0..] == t && t[1..][n - 1..] == t[n..] && t[..n] == [t[0]] + t[1..][..n - 1]
  {
  }

  /** A match whose amount divides by zero is copied as written, and the rewrite goes on after it. */
  lemma ConvertTextKeepsZeroDivision(t: string)
    requires MatchPrefix(t).Some?
    requires FractionToDecimal(MatchPrefix(t).value.amount) == Failure(ZeroDivisionError)
    ensures ConvertText(t) == t[..MatchPrefix(t).value.end] + ConvertText(t[MatchPrefix(t).value.end..])
  {
  }

  /** Any other match is replaced by its conversion, which ends in ')'. */
  lemma ConvertTextReplaces(t: string)
    requires MatchPrefix(t).Some?
    requires FractionToDecimal(MatchPrefix(t).value.amount).Success?
    ensures var m := MatchPrefix(t).value;
      ConvertText(t) == Replacement(t, m) + ConvertText(t[m.end..]) && Replacement(t, m) != t[..m.end]
  {
  }
}
