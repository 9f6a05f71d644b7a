/**
 * The measurement pattern of the unit converter (unit_converter.py, lines 49-54):
 *
 *   (\d+(?:/\d+)?(?:\.\d+)?)\s*(?:to\s+\d+(?:/\d+)?(?:\.\d+)?\s*)?(<units>)\b   (case-insensitive)
 *
 * MatchPrefix is the scanner: it finds the match Python's backtracking engine finds
 * at the start of a string. The predicates further down describe the same pattern
 * declaratively (any way of cutting the text into the pattern's parts), and
 * MatchPrefixSound / MatchPrefixComplete prove that the two agree, which also
 * shows that a match found at a position is the only one there.
 */
module MeasurementPattern {
  import opened Wrappers
  import opened Text

  /** The unit alternatives of the pattern; the same words key the conversion table. */
  datatype UnitName =
    Cup | Cups | Tablespoon | Tablespoons | Tbsp | Teaspoon | Teaspoons | Tsp | FluidOunce
    | FluidOunces | FlOz | Pint | Pints | Quart | Quarts | Gallon | Gallons | Ounce | Ounces
    | Oz | Pound | Pounds | Lb | Lbs | DegreesF | Fahrenheit | F

  /** The unit as the pattern and the conversion table spell it. */
  function Spelling(u: UnitName): string {
    match u
    case Cup => "cup"
    case Cups => "cups"
    case Tablespoon => "tablespoon"
    case Tablespoons => "tablespoons"
    case Tbsp => "tbsp"
    case Teaspoon => "teaspoon"
    case Teaspoons => "teaspoons"
    case Tsp => "tsp"
    case FluidOunce => "fluid ounce"
    case FluidOunces => "fluid ounces"
    case FlOz => "fl oz"
    case Pint => "pint"
    case Pints => "pints"
    case Quart => "quart"
    case Quarts => "quarts"
    case Gallon => "gallon"
    case Gallons => "gallons"
    case Ounce => "ounce"
    case Ounces => "ounces"
    case Oz => "oz"
    case Pound => "pound"
    case Pounds => "pounds"
    case Lb => "lb"
    case Lbs => "lbs"
    case DegreesF => "°f"
    case Fahrenheit => "fahrenheit"
    case F => "f"
  }

  /** The first of alts spelled s, if any. */
  function UnitNamedIn(s: string, alts: seq<UnitName>): (r: Option<UnitName>)
    ensures r.Some? ==> Spelling(r.value) == s && r.value in alts
  {
    if |alts| == 0 then None
    else if Spelling(alts[0]) == s then Some(alts[0])
    else UnitNamedIn(s, alts[1..])
  }

  /** The unit a lower-cased, stripped key names, if any: membership in the conversion table. */
  function UnitNamed(s: string): (r: Option<UnitName>)
    ensures r.Some? ==> Spelling(r.value) == s
  {
    UnitNamedIn(s, Alternatives)
  }

  /** Length, first and last character: no two spellings share all three. */
  function Signature(x: string): (int, char, char) {
    if |x| == 0 then (0, ' ', ' ') else (|x|, x[0], x[|x| - 1])
  }

  /** The unit with a given signature, if any. */
  function UnitOfSignature(g: (int, char, char)): Option<UnitName> {
    match g
    case (3, 'c', 'p') => Some(Cup)
    case (4, 'c', 's') => Some(Cups)
    case (10, 't', 'n') => Some(Tablespoon)
    case (11, 't', 's') => Some(Tablespoons)
    case (4, 't', 'p') => Some(Tbsp)
    case (8, 't', 'n') => Some(Teaspoon)
    case (9, 't', 's') => Some(Teaspoons)
    case (3, 't', 'p') => Some(Tsp)
    case (11, 'f', 'e') => Some(FluidOunce)
    case (12, 'f', 's') => Some(FluidOunces)
    case (5, 'f', 'z') => Some(FlOz)
    case (4, 'p', 't') => Some(Pint)
    case (5, 'p', 's') => Some(Pints)
    case (5, 'q', 't') => Some(Quart)
    case (6, 'q', 's') => Some(Quarts)
    case (6, 'g', 'n') => Some(Gallon)
    case (7, 'g', 's') => Some(Gallons)
    case (5, 'o', 'e') => Some(Ounce)
    case (6, 'o', 's') => Some(Ounces)
    case (2, 'o', 'z') => Some(Oz)
    case (5, 'p', 'd') => Some(Pound)
    case (6, 'p', 's') => Some(Pounds)
    case (2, 'l', 'b') => Some(Lb)
    case (3, 'l', 's') => Some(Lbs)
    case (2, '°', 'f') => Some(DegreesF)
    case (10, 'f', 't') => Some(Fahrenheit)
    case (1, 'f', 'f') => Some(F)
    case _ => None
  }

  lemma SignatureIdentifies(u: UnitName)
    ensures UnitOfSignature(Signature(Spelling(u))) == Some(u)
  {
    match u
    case Cup => assert Signature("cup") == (3, 'c', 'p');
    case Cups => assert Signature("cups") == (4, 'c', 's');
    case Tablespoon => assert Signature("tablespoon") == (10, 't', 'n');
    case Tablespoons => assert Signature("tablespoons") == (11, 't', 's');
    case Tbsp => assert Signature("tbsp") == (4, 't', 'p');
    case Teaspoon => assert Signature("teaspoon") == (8, 't', 'n');
    case Teaspoons => assert Signature("teaspoons") == (9, 't', 's');
    case Tsp => assert Signature("tsp") == (3, 't', 'p');
    case FluidOunce => assert Signature("fluid ounce") == (11, 'f', 'e');
    case FluidOunces => assert Signature("fluid ounces") == (12, 'f', 's');
    case FlOz => assert Signature("fl oz") == (5, 'f', 'z');
    case Pint => assert Signature("pint") == (4, 'p', 't');
    case Pints => assert Signature("pints") == (5, 'p', 's');
    case Quart => assert Signature("quart") == (5, 'q', 't');
    case Quarts => assert Signature("quarts") == (6, 'q', 's');
    case Gallon => assert Signature("gallon") == (6, 'g', 'n');
    case Gallons => assert Signature("gallons") == (7, 'g', 's');
    case Ounce => assert Signature("ounce") == (5, 'o', 'e');
    case Ounces => assert Signature("ounces") == (6, 'o', 's');
    case Oz => assert Signature("oz") == (2, 'o', 'z');
    case Pound => assert Signature("pound") == (5, 'p', 'd');
    case Pounds => assert Signature("pounds") == (6, 'p', 's');
    case Lb => assert Signature("lb") == (2, 'l', 'b');
    case Lbs => assert Signature("lbs") == (3, 'l', 's');
    case DegreesF => assert Signature("°f") == (2, '°', 'f');
    case Fahrenheit => assert Signature("fahrenheit") == (10, 'f', 't');
    case F => assert Signature("f") == (1, 'f', 'f');
  }

  /** Different units are spelled differently. */
  lemma SpellingInjective(u: UnitName, v: UnitName)
    requires Spelling(u) == Spelling(v)
    ensures u == v
  {
    SignatureIdentifies(u);
    SignatureIdentifies(v);
  }

  /** A unit among alts is the first of them with its spelling. */
  lemma {:induction false} UnitNamedInFinds(s: string, alts: seq<UnitName>, u: UnitName)
    requires u in alts && Spelling(u) == s
    ensures UnitNamedIn(s, alts) == Some(u)
  {
    if alts[0] != u {
      SignatureIdentifies(alts[0]);
      SignatureIdentifies(u);
      UnitNamedInFinds(s, alts[1..], u);
    }
  }

  /** Each unit is found again under its own spelling. */
  lemma UnitNamedSpelling(u: UnitName)
    ensures UnitNamed(Spelling(u)) == Some(u)
  {
    AlternativesComplete(u);
    UnitNamedInFinds(Spelling(u), Alternatives, u);
  }

  /** A name the table knows has that unit's signature... */
  lemma SignatureOfNamed(s: string)
    ensures UnitNamed(s).Some? ==> UnitOfSignature(Signature(s)) == UnitNamed(s)
  {
    if UnitNamed(s).Some? {
      SignatureIdentifies(UnitNamed(s).value);
    }
  }

  /** ...so a text with no unit's signature is not a unit. */
  lemma NotAUnit(s: string)
    requires UnitOfSignature(Signature(s)).None?
    ensures UnitNamed(s).None?
  {
    SignatureOfNamed(s);
  }

  /** The alternatives in the order the alternation tries them. */
  const Alternatives: seq<UnitName> := [Cup, Cups, Tablespoon, Tablespoons, Tbsp, Teaspoon, Teaspoons, Tsp, FluidOunce, FluidOunces, FlOz, Pint, Pints, Quart, Quarts, Gallon, Gallons, Ounce, Ounces, Oz, Pound, Pounds, Lb, Lbs, DegreesF, Fahrenheit, F]

  predicate SpacesBetween(t: string, i: nat, j: nat)
    requires i <= j <= |t|
  {
    forall k :: i <= k < j ==> IsSpace(t[k])
  }

  /** `\b` at position k: a word character on exactly one side. */
  predicate Boundary(t: string, k: nat)
    requires k <= |t|
  {
    (k > 0 && IsWordChar(t[k - 1])) != (k < |t| && IsWordChar(t[k]))
  }

  // ------------------------------------------------------------------
  // The scanner
  // ------------------------------------------------------------------

  /** End of `\d+(?:/\d+)?(?:\.\d+)?` taken greedily from i. */
  function NumberEnd(t: string, i: nat): (a: nat)
    requires i < |t| && IsDigit(t[i])
    ensures i < a <= |t|
  {
    var p := DigitRunEnd(t, i);
    var q := if p + 1 < |t| && t[p] == '/' && IsDigit(t[p + 1]) then DigitRunEnd(t, p + 1) else p;
    if q + 1 < |t| && t[q] == '.' && IsDigit(t[q + 1]) then DigitRunEnd(t, q + 1) else q
  }

  /** End of the optional `to\s+<number>\s*` group when it matches at b. */
  function RangeEnd(t: string, b: nat): (r: Option<nat>)
    requires b <= |t|
    ensures r.Some? ==> b < r.value <= |t|
  {
    if b + 2 <= |t| && Lower(t[b..b + 2]) == "to" then
      var d := SpaceRun(t, b + 2);
      if d > b + 2 && d < |t| && IsDigit(t[d]) then Some(SpaceRun(t, NumberEnd(t, d))) else None
    else None
  }

  /** Where the unit starts: after the range group if it matches at b, else at b. */
  function UnitStart(t: string, b: nat): (c: nat)
    requires b <= |t|
    ensures b <= c <= |t|
  {
    match RangeEnd(t, b)
    case Some(e) => e
    case None => b
  }

  /** t[c..] starts with x, ignoring case. */
  predicate LowerAt(t: string, c: nat, x: string) {
    c + |x| <= |t| && Lower(t[c..c + |x|]) == x
  }

  /** Where unit u ends when it starts at c. */
  function UnitEnd(c: nat, u: UnitName): nat {
    c + |Spelling(u)|
  }

  /** t[c..] starts with unit u, ignoring case. */
  predicate UnitAt(t: string, c: nat, u: UnitName) {
    LowerAt(t, c, Spelling(u))
  }

  /** The first of alts that matches at c and is followed by `\b`. */
  function UnitFrom(t: string, c: nat, alts: seq<UnitName>): (r: Option<UnitName>)
    ensures r.Some? ==> r.value in alts && UnitAt(t, c, r.value) && Boundary(t, UnitEnd(c, r.value))
  {
    if |alts| == 0 then None
    else if UnitAt(t, c, alts[0]) && Boundary(t, UnitEnd(c, alts[0])) then Some(alts[0])
    else UnitFrom(t, c, alts[1..])
  }

  /** A match: group 1 (the amount), group 2 (the unit as typed) and where the match ends. */
  datatype Match = Match(amount: string, unit: string, end: nat)

  /** The match of the pattern at the start of t, if there is one. */
  function MatchPrefix(t: string): (r: Option<Match>)
    ensures r.Some? ==> 0 < r.value.end <= |t|
  {
    if |t| == 0 || !IsDigit(t[0]) then None
    else
      var a := NumberEnd(t, 0);
      var c := UnitStart(t, SpaceRun(t, a));
      match UnitFrom(t, c, Alternatives)
      case None => None
      case Some(u) => Some(Match(t[..a], t[c..UnitEnd(c, u)], UnitEnd(c, u)))
  }

  // ------------------------------------------------------------------
  // The pattern, declaratively
  // ------------------------------------------------------------------

  /** t[i..a] is `\d+(?:/\d+)?(?:\.\d+)?`, cut at p (end of the integer part) and q (end of the fraction). */
  predicate NumberSplit(t: string, i: nat, p: nat, q: nat, a: nat) {
    i < p <= q <= a <= |t| && DigitsBetween(t, i, p) &&
    (q == p || (t[p] == '/' && p + 1 < q && DigitsBetween(t, p + 1, q))) &&
    (a == q || (t[q] == '.' && q + 1 < a && DigitsBetween(t, q + 1, a)))
  }

  ghost predicate NumberSpan(t: string, i: nat, a: nat) {
    exists p, q :: NumberSplit(t, i, p, q, a)
  }

  /** t[b..c] is `to\s+<number>\s*`, the number being t[d..e]. */
  ghost predicate RangeSplit(t: string, b: nat, d: nat, e: nat, c: nat) {
    b + 2 < d < e <= c <= |t| && Lower(t[b..b + 2]) == "to" &&
    SpacesBetween(t, b + 2, d) && NumberSpan(t, d, e) && SpacesBetween(t, e, c)
  }

  ghost predicate RangeSpan(t: string, b: nat, c: nat) {
    exists d, e :: RangeSplit(t, b, d, e, c)
  }

  /** Everything of the pattern before the unit: the number ends at a, the spaces at b, the range at c. */
  ghost predicate LeadSplit(t: string, a: nat, b: nat, c: nat) {
    a <= b <= c <= |t| && NumberSpan(t, 0, a) && SpacesBetween(t, a, b) && (c == b || RangeSpan(t, b, c))
  }

  /** The whole pattern matches at the start of t, cut at a, b and c, with unit u after c. */
  ghost predicate PatternSplit(t: string, a: nat, b: nat, c: nat, u: UnitName) {
    LeadSplit(t, a, b, c) && UnitAt(t, c, u) && Boundary(t, UnitEnd(c, u))
  }

  /** t[..k] matches the pattern. */
  ghost predicate PatternMatch(t: string, k: nat) {
    exists a, b, c, u :: PatternSplit(t, a, b, c, u) && UnitEnd(c, u) == k
  }

  // ------------------------------------------------------------------
  // Facts about the unit spellings
  // ------------------------------------------------------------------

  /** Starts with a lower-case letter or '°', ends with a letter, does not start with "to". */
  predicate UnitShape(x: string) {
    |x| > 0 && (IsLowerLetter(x[0]) || x[0] == '°') && IsLowerLetter(x[|x| - 1]) &&
    !(|x| >= 2 && x[0] == 't' && x[1] == 'o')
  }

  lemma UnitsHaveShape(u: UnitName)
    ensures UnitShape(Spelling(u))
  {
  }

  /** Every character of s from i on is a lower-case letter. */
  predicate LettersFrom(s: string, i: nat)
    decreases |s| - i
  {
    i >= |s| || (IsLowerLetter(s[i]) && LettersFrom(s, i + 1))
  }

  lemma {:induction false} LettersFromAt(s: string, i: nat, m: nat)
    requires LettersFrom(s, i) && i <= m < |s|
    ensures IsLowerLetter(s[m])
    decreases m - i
  {
    if i < m {
      LettersFromAt(s, i + 1, m);
    }
  }

  /** The spellings that are not all letters. */
  predicate SpacedOrDegree(y: string) {
    y == "fluid ounce" || y == "fluid ounces" || y == "fl oz" || y == "°f"
  }

  lemma SpellingLetters(u: UnitName)
    ensures LettersFrom(Spelling(u), 0) || SpacedOrDegree(Spelling(u))
  {
    match u
    case Cup => assert LettersFrom("cup", 0);
    case Cups => assert LettersFrom("cups", 0);
    case Tablespoon => assert LettersFrom("tablespoon", 0);
    case Tablespoons => assert LettersFrom("tablespoons", 0);
    case Tbsp => assert LettersFrom("tbsp", 0);
    case Teaspoon => assert LettersFrom("teaspoon", 0);
    case Teaspoons => assert LettersFrom("teaspoons", 0);
    case Tsp => assert LettersFrom("tsp", 0);
    case Pint => assert LettersFrom("pint", 0);
    case Pints => assert LettersFrom("pints", 0);
    case Quart => assert LettersFrom("quart", 0);
    case Quarts => assert LettersFrom("quarts", 0);
    case Gallon => assert LettersFrom("gallon", 0);
    case Gallons => assert LettersFrom("gallons", 0);
    case Ounce => assert LettersFrom("ounce", 0);
    case Ounces => assert LettersFrom("ounces", 0);
    case Oz => assert LettersFrom("oz", 0);
    case Pound => assert LettersFrom("pound", 0);
    case Pounds => assert LettersFrom("pounds", 0);
    case Lb => assert LettersFrom("lb", 0);
    case Lbs => assert LettersFrom("lbs", 0);
    case Fahrenheit => assert LettersFrom("fahrenheit", 0);
    case F => assert LettersFrom("f", 0);
    case _ =>
  }

  /** The words before the space of "fluid ounce" and "fl oz" are not units. */
  lemma SpellingNotCut(u: UnitName)
    ensures Spelling(u) != "fluid" && Spelling(u) != "fl"
  {
  }

  lemma {:induction false} FluidOuncePrefix(x: string, y: string)
    requires |x| < |y| && y[..|x|] == x && x != "fluid" && x != ""
    requires y == "fluid ounce" || y == "fluid ounces"
    ensures IsLowerLetter(y[|x|])
  {
    assert LettersFrom("fluid", 0) && LettersFrom("ounces", 0);
    assert |x| != 5;
    if |x| < 5 {
      LettersFromAt("fluid", 0, |x|);
      assert y[|x|] == "fluid"[|x|];
    } else {
      LettersFromAt("ounces", 0, |x| - 6);
      assert y[|x|] == "ounces"[|x| - 6];
    }
  }

  /** A unit-shaped x other than "fluid" and "fl" that is a proper prefix of y is followed by a letter. */
  lemma PrefixThenLetter(x: string, y: string)
    requires UnitShape(x) && x != "fluid" && x != "fl"
    requires LettersFrom(y, 0) || SpacedOrDegree(y)
    requires |x| < |y| && y[..|x|] == x
    ensures IsLowerLetter(y[|x|])
  {
    if LettersFrom(y, 0) {
      LettersFromAt(y, 0, |x|);
    } else if y == "fluid ounce" || y == "fluid ounces" {
      FluidOuncePrefix(x, y);
    } else if y == "fl oz" {
      assert |x| != 2;
      assert y[|x|] == 'l' || y[|x|] == 'o' || y[|x|] == 'z';
    }
  }

  /** If x is a proper prefix of y, the next character of y is a letter. */
  predicate PrefixThenLetterAt(x: string, y: string) {
    |x| < |y| && y[..|x|] == x ==> IsLowerLetter(y[|x|])
  }

  /** A unit that is a proper prefix of another is followed in it by a letter. */
  lemma UnitsPrefixFree(u: UnitName, v: UnitName)
    ensures PrefixThenLetterAt(Spelling(u), Spelling(v))
  {
    var x, y := Spelling(u), Spelling(v);
    UnitsHaveShape(u);
    SpellingNotCut(u);
    SpellingLetters(v);
    if |x| < |y| && y[..|x|] == x {
      PrefixThenLetter(x, y);
    }
  }

  // ------------------------------------------------------------------
  // The scanner's pieces against their declarative descriptions
  // ------------------------------------------------------------------

  lemma {:induction false} SpaceRunAt(t: string, i: nat, j: nat)
    requires i <= j <= |t| && SpacesBetween(t, i, j) && (j < |t| ==> !IsSpace(t[j]))
    ensures SpaceRun(t, i) == j
    decreases j - i
  {
    if i < j {
      SpaceRunAt(t, i + 1, j);
    }
  }

  lemma SpaceRunSpaces(t: string, i: nat)
    requires i <= |t|
    ensures SpacesBetween(t, i, SpaceRun(t, i))
  {
    var j := SpaceRun(t, i);
    forall k | i <= k < j
      ensures IsSpace(t[k])
    {
      assert t[k] == t[i..j][k - i];
    }
  }

  /** A character that cannot continue `\d+(?:/\d+)?(?:\.\d+)?`. */
  predicate EndsNumber(t: string, a: nat) {
    a < |t| ==> !IsDigit(t[a]) && t[a] != '/' && t[a] != '.'
  }

  /** The greedy number scan is a number... */
  lemma NumberEndSpans(t: string, i: nat)
    requires i < |t| && IsDigit(t[i])
    ensures NumberSpan(t, i, NumberEnd(t, i))
  {
    var p := DigitRunEnd(t, i);
    var q := if p + 1 < |t| && t[p] == '/' && IsDigit(t[p + 1]) then DigitRunEnd(t, p + 1) else p;
    assert NumberSplit(t, i, p, q, NumberEnd(t, i));
  }

  /** ...and it is the only one that the next character does not continue. */
  lemma NumberEndOfSplit(t: string, i: nat, p: nat, q: nat, a: nat)
    requires NumberSplit(t, i, p, q, a) && EndsNumber(t, a)
    ensures NumberEnd(t, i) == a
  {
    DigitRunEndAt(t, i, p);
    if q > p {
      DigitRunEndAt(t, p + 1, q);
    }
    if a > q {
      DigitRunEndAt(t, q + 1, a);
    }
  }

  lemma RangeEndSpans(t: string, b: nat)
    requires b <= |t| && RangeEnd(t, b).Some?
    ensures RangeSpan(t, b, RangeEnd(t, b).value)
  {
    var d := SpaceRun(t, b + 2);
    var e := NumberEnd(t, d);
    SpaceRunSpaces(t, b + 2);
    SpaceRunSpaces(t, e);
    NumberEndSpans(t, d);
    assert RangeSplit(t, b, d, e, RangeEnd(t, b).value);
  }

  lemma RangeEndOfSpan(t: string, b: nat, c: nat)
    requires RangeSpan(t, b, c) && (c < |t| ==> !IsSpace(t[c]) && EndsNumber(t, c))
    ensures RangeEnd(t, b) == Some(c)
  {
    var d, e :| RangeSplit(t, b, d, e, c);
    SpaceRunAt(t, b + 2, d);
    var p, q :| NumberSplit(t, d, p, q, e);
    NumberEndOfSplit(t, d, p, q, e);
    SpaceRunAt(t, e, c);
  }

  /** Where a unit-shaped word matches, the text has a letter or '°'. */
  lemma WordStart(t: string, c: nat, x: string)
    requires UnitShape(x) && LowerAt(t, c, x)
    ensures IsAlpha(t[c]) || t[c] == '°'
  {
    assert x[0] == LowerChar(t[c..c + |x|][0]);
  }

  /** The optional range group cannot match where a unit-shaped word matches followed by `\b`. */
  lemma NoRangeBeforeWord(t: string, b: nat, x: string)
    requires UnitShape(x) && LowerAt(t, b, x) && Boundary(t, b + |x|)
    ensures RangeEnd(t, b) == None
  {
    assert x[0] == LowerChar(t[b..b + |x|][0]);
    LowerCharKeepsClasses(t[b]);
    if b + 2 <= |t| {
      LowerCharKeepsClasses(t[b + 1]);
      assert |x| >= 2 ==> x[1] == LowerChar(t[b..b + |x|][1]);
      assert Lower(t[b..b + 2])[1] == LowerChar(t[b + 1]);
      assert Lower(t[b..b + 2])[0] == LowerChar(t[b]);
    }
  }

  /** After the number and the spaces comes "to" or the unit, so a letter or '°'. */
  lemma LeadThenWord(t: string, a: nat, b: nat, c: nat, x: string)
    requires LeadSplit(t, a, b, c) && UnitShape(x) && LowerAt(t, c, x)
    ensures IsAlpha(t[b]) || t[b] == '°'
  {
    if c > b {
      var d, e :| RangeSplit(t, b, d, e, c);
      assert Lower(t[b..b + 2])[0] == LowerChar(t[b]);
    } else {
      WordStart(t, c, x);
    }
  }

  /** The scanner finds the number and the spaces after it... */
  lemma ScanFindsNumber(t: string, a: nat, b: nat, c: nat, x: string)
    requires LeadSplit(t, a, b, c) && UnitShape(x) && LowerAt(t, c, x)
    ensures |t| > 0 && IsDigit(t[0]) && NumberEnd(t, 0) == a && SpaceRun(t, a) == b
  {
    LeadThenWord(t, a, b, c, x);
    assert EndsNumber(t, a) by {
      if a < b {
        assert IsSpace(t[a]);
      }
    }
    var p, q :| NumberSplit(t, 0, p, q, a);
    NumberEndOfSplit(t, 0, p, q, a);
    SpaceRunAt(t, a, b);
  }

  /** ...and the range group, if there is one. */
  lemma ScanFindsRange(t: string, a: nat, b: nat, c: nat, x: string)
    requires LeadSplit(t, a, b, c) && UnitShape(x) && LowerAt(t, c, x) && Boundary(t, c + |x|)
    ensures UnitStart(t, b) == c
  {
    if c == b {
      NoRangeBeforeWord(t, b, x);
    } else {
      WordStart(t, c, x);
      RangeEndOfSpan(t, b, c);
    }
  }

  /** A shorter word that matches where a longer one does is not followed by `\b`. */
  lemma ShorterWordNoBoundary(t: string, c: nat, x: string, y: string)
    requires UnitShape(x) && |x| < |y| && PrefixThenLetterAt(x, y)
    requires LowerAt(t, c, x) && LowerAt(t, c, y)
    ensures !Boundary(t, c + |x|)
  {
    var k := c + |x|;
    assert y[..|x|] == x by {
      forall i | 0 <= i < |x|
        ensures y[i] == x[i]
      {
        assert y[i] == LowerChar(t[c..c + |y|][i]) && x[i] == LowerChar(t[c..k][i]);
      }
    }
    assert y[|x|] == LowerChar(t[k]) by {
      assert t[c..c + |y|][|x|] == t[k];
    }
    assert x[|x| - 1] == LowerChar(t[k - 1]) by {
      assert t[c..k][|x| - 1] == t[k - 1];
    }
    LowerCharKeepsClasses(t[k]);
    LowerCharKeepsClasses(t[k - 1]);
  }

  /** Of two unit-shaped words that match at c and are followed by `\b`, neither is a proper prefix of the other. */
  lemma WordMatchUnique(t: string, c: nat, x: string, y: string)
    requires UnitShape(x) && UnitShape(y) && PrefixThenLetterAt(x, y) && PrefixThenLetterAt(y, x)
    requires LowerAt(t, c, x) && Boundary(t, c + |x|) && LowerAt(t, c, y) && Boundary(t, c + |y|)
    ensures x == y
  {
    if |x| < |y| {
      ShorterWordNoBoundary(t, c, x, y);
    } else if |y| < |x| {
      ShorterWordNoBoundary(t, c, y, x);
    }
  }

  /** At most one unit matches at a position and is followed by `\b`. */
  lemma UnitMatchUnique(t: string, c: nat, u: UnitName, v: UnitName)
    requires UnitAt(t, c, u) && Boundary(t, UnitEnd(c, u)) && UnitAt(t, c, v) && Boundary(t, UnitEnd(c, v))
    ensures u == v
  {
    UnitsHaveShape(u);
    UnitsHaveShape(v);
    UnitsPrefixFree(u, v);
    UnitsPrefixFree(v, u);
    WordMatchUnique(t, c, Spelling(u), Spelling(v));
    SpellingInjective(u, v);
  }

  lemma {:induction false} UnitFromFinds(t: string, c: nat, alts: seq<UnitName>, v: UnitName)
    requires v in alts && UnitAt(t, c, v) && Boundary(t, UnitEnd(c, v))
    ensures UnitFrom(t, c, alts) == Some(v)
  {
    if UnitAt(t, c, alts[0]) && Boundary(t, UnitEnd(c, alts[0])) {
      UnitMatchUnique(t, c, alts[0], v);
    } else {
      UnitFromFinds(t, c, alts[1..], v);
    }
  }

  /** Every unit is one of the alternatives. */
  lemma AlternativesComplete(u: UnitName)
    ensures u in Alternatives
  {
  }

  /** m is the match of t cut at a, b and c: group 1 is t[..a], group 2 is unit u as typed. */
  ghost predicate CutAs(t: string, m: Match, a: nat, b: nat, c: nat, u: UnitName) {
    PatternSplit(t, a, b, c, u) && m == Match(t[..a], t[c..UnitEnd(c, u)], UnitEnd(c, u))
  }

  /** The unit a match reports closes the match and reads, lower-cased, as a spelling. */
  lemma MatchPrefixUnit(t: string) returns (u: UnitName)
    requires MatchPrefix(t).Some?
    ensures var m := MatchPrefix(t).value;
      |m.unit| <= m.end && m.unit == t[m.end - |m.unit|..m.end] && Lower(m.unit) == Spelling(u)
  {
    var c;
    c, u := MatchPrefixCut(t);
    SliceEndingAt(t, c, UnitEnd(c, u), Spelling(u));
  }

  /** Where the unit of a match starts, and which unit it is. */
  lemma MatchPrefixCut(t: string) returns (c: nat, u: UnitName)
    requires MatchPrefix(t).Some?
    ensures LowerAt(t, c, Spelling(u))
    ensures MatchPrefix(t).value.unit == t[c..UnitEnd(c, u)] && MatchPrefix(t).value.end == UnitEnd(c, u)
  {
    c := UnitStart(t, SpaceRun(t, NumberEnd(t, 0)));
    u := UnitFrom(t, c, Alternatives).value;
  }

  lemma SliceEndingAt(t: string, c: nat, k: nat, x: string)
    requires k == c + |x| && LowerAt(t, c, x)
    ensures |t[c..k]| <= k && t[c..k] == t[k - |t[c..k]|..k] && Lower(t[c..k]) == x
  {
  }

  /** The amount a match reports is itself `\d+(?:/\d+)?(?:\.\d+)?`, cut at p and q. */
  lemma MatchPrefixAmount(t: string) returns (p: nat, q: nat)
    requires MatchPrefix(t).Some?
    ensures NumberSplit(MatchPrefix(t).value.amount, 0, p, q, |MatchPrefix(t).value.amount|)
  {
    var a := NumberEnd(t, 0);
    NumberEndSpans(t, 0);
    p, q :| NumberSplit(t, 0, p, q, a);
    NumberSplitPrefix(t, p, q, a);
  }

  /** Cutting the text right after a number keeps the number. */
  lemma NumberSplitPrefix(t: string, p: nat, q: nat, a: nat)
    requires NumberSplit(t, 0, p, q, a)
    ensures NumberSplit(t[..a], 0, p, q, a)
  {
    var s := t[..a];
    forall k | 0 <= k < a ensures s[k] == t[k] {
    }
  }

  /** Whatever the scanner returns is a match of the pattern, cut as the scanner cut it. */
  lemma MatchPrefixSound(t: string)
    requires MatchPrefix(t).Some?
    ensures exists a, b, c, u :: CutAs(t, MatchPrefix(t).value, a, b, c, u)
  {
    var a := NumberEnd(t, 0);
    var b := SpaceRun(t, a);
    var c := UnitStart(t, b);
    var u := UnitFrom(t, c, Alternatives).value;
    NumberEndSpans(t, 0);
    SpaceRunSpaces(t, a);
    if RangeEnd(t, b).Some? {
      RangeEndSpans(t, b);
    }
    assert LeadSplit(t, a, b, c);
    assert CutAs(t, MatchPrefix(t).value, a, b, c, u);
  }

  /** Every way of matching the pattern at the start of t is the one the scanner finds. */
  lemma MatchPrefixComplete(t: string, a: nat, b: nat, c: nat, u: UnitName)
    requires PatternSplit(t, a, b, c, u)
    ensures MatchPrefix(t) == Some(Match(t[..a], t[c..UnitEnd(c, u)], UnitEnd(c, u)))
  {
    UnitsHaveShape(u);
    ScanFindsNumber(t, a, b, c, Spelling(u));
    ScanFindsRange(t, a, b, c, Spelling(u));
    AlternativesComplete(u);
    UnitFromFinds(t, c, Alternatives, u);
  }

  /** The pattern matches t[..k] exactly when the scanner's match ends at k: matches are unique. */
  lemma PatternMatchIff(t: string, k: nat)
    ensures PatternMatch(t, k) <==> MatchPrefix(t).Some? && MatchPrefix(t).value.end == k
  {
    if PatternMatch(t, k) {
      var a, b, c, u :| PatternSplit(t, a, b, c, u) && UnitEnd(c, u) == k;
      MatchPrefixComplete(t, a, b, c, u);
    }
    if MatchPrefix(t).Some? && MatchPrefix(t).value.end == k {
      MatchPrefixSound(t);
    }
  }
}
