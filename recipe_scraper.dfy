/**
 * The text helpers of the NYT Cooking scraper: reading an ISO 8601 duration of the
 * form PTnHnM as English, normalising a JSON-LD Recipe object into the scraper's
 * recipe record, and rendering that record as markdown.
 */
module RecipeScraper {
  import opened Wrappers
  import opened Text
  import opened Json

  /** The one exception the normalisation can raise: `startswith` on a non-string. */
  datatype ScrapeError = AttributeError

  // ------------------------------------------------------------------
  // parse_iso_duration
  // ------------------------------------------------------------------

  /** A position k > from holding the designator d right after a digit. */
  predicate DesignatedAt(s: string, from: nat, d: char, k: nat) {
    from < k < |s| && s[k] == d && IsDigit(s[k - 1])
  }

  /**
   * `re.search(r'(\d+)<d>', s[from:])`: the value of the first maximal digit run that
   * is immediately followed by d. A run not followed by d can be skipped whole, since
   * every start inside it reaches the same end.
   */
  function DesignatorFrom(s: string, from: nat, d: char): (r: Option<nat>)
    requires from <= |s| && !IsDigit(d)
    ensures r.Some? <==> exists k :: DesignatedAt(s, from, d, k)
    decreases |s| - from
  {
    if from == |s| then None
    else if IsDigit(s[from]) then
      var j := DigitRunEnd(s, from);
      assert j == DigitRunEnd(s, from + 1);
      if j < |s| && s[j] == d then
        assert DesignatedAt(s, from, d, j);
        Some(DigitsValue(s[from..j]))
      else
        var r := DesignatorFrom(s, j, d);
        assert forall k :: DesignatedAt(s, from, d, k) ==> DesignatedAt(s, j, d, k) by {
          forall k: nat | DesignatedAt(s, from, d, k) ensures DesignatedAt(s, j, d, k) {
            assert j < k;
          }
        }
        assert forall k :: DesignatedAt(s, j, d, k) ==> DesignatedAt(s, from, d, k);
        r
    else
      var next := DesignatorFrom(s, from + 1, d);
      assert next.Some? ==> exists k :: DesignatedAt(s, from, d, k) by {
        if next.Some? {
          var k :| DesignatedAt(s, from + 1, d, k);
          assert DesignatedAt(s, from, d, k);
        }
      }
      assert (exists k :: DesignatedAt(s, from, d, k)) ==> next.Some? by {
        if exists k :: DesignatedAt(s, from, d, k) {
          var k :| DesignatedAt(s, from, d, k);
          assert DesignatedAt(s, from + 1, d, k);
        }
      }
      next
  }

  /** No designator strictly between from and k. */
  predicate NoneDesignatedBefore(s: string, from: nat, d: char, k: nat) {
    forall k' :: from < k' < k ==> !DesignatedAt(s, from, d, k')
  }

  /**
   * What re.search finds: the first designated position k, and the value of the
   * maximal digit run [i, k) in front of it.
   */
  lemma {:induction false} DesignatorFirst(s: string, from: nat, d: char)
    requires from <= |s| && !IsDigit(d) && DesignatorFrom(s, from, d).Some?
    ensures exists i, k ::
      && from <= i < k && DesignatedAt(s, from, d, k) && NoneDesignatedBefore(s, from, d, k)
      && DigitsBetween(s, i, k) && (i == from || !IsDigit(s[i - 1]))
      && DesignatorFrom(s, from, d).value == DigitsValue(s[i..k])
    decreases |s| - from
  {
    var r := DesignatorFrom(s, from, d);
    if IsDigit(s[from]) {
      var j := DigitRunEnd(s, from);
      if j < |s| && s[j] == d {
        NoneDesignatedInRun(s, from, j, d);
        assert DesignatedAt(s, from, d, j);
        assert r.value == DigitsValue(s[from..j]);
      } else {
        assert r == DesignatorFrom(s, j, d);
        DesignatorFirst(s, j, d);
        var i, k :| j <= i < k && DesignatedAt(s, j, d, k) && NoneDesignatedBefore(s, j, d, k)
          && DigitsBetween(s, i, k) && (i == j || !IsDigit(s[i - 1]))
          && r.value == DigitsValue(s[i..k]);
        assert i != j;
        NoneDesignatedAcrossRun(s, from, j, d, k);
        assert DesignatedAt(s, from, d, k);
      }
    } else {
      assert r == DesignatorFrom(s, from + 1, d);
      DesignatorFirst(s, from + 1, d);
      var i, k :| from + 1 <= i < k && DesignatedAt(s, from + 1, d, k) && NoneDesignatedBefore(s, from + 1, d, k)
        && DigitsBetween(s, i, k) && (i == from + 1 || !IsDigit(s[i - 1]))
        && r.value == DigitsValue(s[i..k]);
      NoneDesignatedAcrossChar(s, from, d, k);
      assert DesignatedAt(s, from, d, k);
    }
  }

  /** Inside a digit run no position is designated. */
  lemma NoneDesignatedInRun(s: string, from: nat, j: nat, d: char)
    requires from <= j <= |s| && DigitsBetween(s, from, j) && !IsDigit(d)
    ensures NoneDesignatedBefore(s, from, d, j)
  {
    forall k' | from < k' < j ensures !DesignatedAt(s, from, d, k') {
      assert IsDigit(s[k']);
    }
  }

  /** Skipping a digit run that is not followed by d adds no designated position. */
  lemma NoneDesignatedAcrossRun(s: string, from: nat, j: nat, d: char, k: nat)
    requires from <= j < k <= |s| && DigitsBetween(s, from, j) && s[j] != d && !IsDigit(d)
    requires NoneDesignatedBefore(s, j, d, k)
    ensures NoneDesignatedBefore(s, from, d, k)
  {
    NoneDesignatedInRun(s, from, j, d);
    forall k' | from < k' < k ensures !DesignatedAt(s, from, d, k') {
      if k' > j { assert !DesignatedAt(s, j, d, k'); }
    }
  }

  /** Skipping one non-digit adds no designated position. */
  lemma NoneDesignatedAcrossChar(s: string, from: nat, d: char, k: nat)
    requires from < k <= |s| && !IsDigit(s[from])
    requires NoneDesignatedBefore(s, from + 1, d, k)
    ensures NoneDesignatedBefore(s, from, d, k)
  {
    forall k' | from < k' < k ensures !DesignatedAt(s, from, d, k') {
      if k' > from + 1 { assert !DesignatedAt(s, from + 1, d, k'); }
    }
  }

  /** f"{n} {noun}{'s' if n > 1 else ''}" */
  function Counted(n: nat, noun: string): string {
    NatToString(n) + " " + noun + (if n > 1 then "s" else "")
  }

  /** The non-zero parts joined by a space, or the text itself when both are zero. */
  function DurationWords(hours: nat, minutes: nat, rest: string): string {
    var parts := (if hours > 0 then [Counted(hours, "hour")] else [])
      + (if minutes > 0 then [Counted(minutes, "minute")] else []);
    if |parts| > 0 then Join(" ", parts) else rest
  }

  /** The English reading of the text after 'PT'. */
  function DurationText(rest: string): string {
    DurationWords(DesignatorFrom(rest, 0, 'H').GetOr(0), DesignatorFrom(rest, 0, 'M').GetOr(0), rest)
  }

  /** What parse_iso_duration returns, or the exception it raises, for a JSON value. */
  function IsoDuration(duration: Json): (r: Result<Json, ScrapeError>)
    ensures r.Failure? <==> Truthy(duration) && !duration.JStr?
    ensures !Truthy(duration) ==> r == Success(duration)
    ensures duration.JStr? && !StartsWith(duration.s, "PT") ==> r == Success(duration)
    ensures duration.JStr? && StartsWith(duration.s, "PT") ==> r == Success(JStr(DurationText(duration.s[2..])))
  {
    if !Truthy(duration) then Success(duration)
    else if !duration.JStr? then Failure(AttributeError)
    else if !StartsWith(duration.s, "PT") then Success(duration)
    else Success(JStr(DurationText(duration.s[2..])))
  }

  method ParseIsoDuration(duration: Json) returns (r: Result<Json, ScrapeError>)
    ensures r == IsoDuration(duration)
  {
    if !Truthy(duration) {
      return Success(duration);
    }
    if !duration.JStr? {
      return Failure(AttributeError);
    }
    if !StartsWith(duration.s, "PT") {
      return Success(duration);
    }
    var rest := duration.s[2..];
    var hours := 0;
    var minutes := 0;
    var hourMatch := DesignatorFrom(rest, 0, 'H');
    if hourMatch.Some? {
      hours := hourMatch.value;
    }
    var minMatch := DesignatorFrom(rest, 0, 'M');
    if minMatch.Some? {
      minutes := minMatch.value;
    }
    var parts: seq<string> := [];
    if hours > 0 {
      parts := parts + [Counted(hours, "hour")];
    }
    if minutes > 0 {
      parts := parts + [Counted(minutes, "minute")];
    }
    if |parts| > 0 {
      r := Success(JStr(Join(" ", parts)));
    } else {
      r := Success(JStr(rest));
    }
  }

  /** A maximal digit run from i that is followed by d is the designated one. */
  lemma DesignatorHere(s: string, i: nat, j: nat, d: char)
    requires i < j < |s| && DigitsBetween(s, i, j) && s[j] == d && !IsDigit(d)
    ensures DesignatorFrom(s, i, d) == Some(DigitsValue(s[i..j]))
  {
    DigitRunEndAt(s, i, j);
  }

  /** A maximal digit run from i that is followed by something else is skipped whole. */
  lemma DesignatorSkips(s: string, i: nat, j: nat, d: char)
    requires i < j < |s| && DigitsBetween(s, i, j) && s[j] != d && !IsDigit(s[j]) && !IsDigit(d)
    ensures DesignatorFrom(s, i, d) == DesignatorFrom(s, j, d)
  {
    DigitRunEndAt(s, i, j);
  }

  /** str(n) followed by a non-digit: the str(n) prefix is a maximal digit run. */
  lemma NumeralRun(n: nat, c: char, rest: string)
    requires !IsDigit(c)
    ensures var s := NatToString(n) + [c] + rest;
      DigitsBetween(s, 0, |NatToString(n)|) && s[|NatToString(n)|] == c
      && s[0..|NatToString(n)|] == NatToString(n)
  {
    var s := NatToString(n) + [c] + rest;
    assert s[0..|NatToString(n)|] == NatToString(n);
  }

  /** The text after 'PT' in "PT<h>H<m>M". */
  function HoursMinutes(h: nat, m: nat): string {
    NatToString(h) + "H" + NatToString(m) + "M"
  }

  /** str(n) right before the designator, from position |pre| on, is the value found there. */
  lemma NumeralDesignated(pre: string, n: nat, d: char, rest: string)
    requires !IsDigit(d)
    ensures DesignatorFrom(pre + NatToString(n) + [d] + rest, |pre|, d) == Some(n)
  {
    var b := NatToString(n);
    var s := pre + b + [d] + rest;
    var i, j := |pre|, |pre| + |b|;
    forall k | i <= k < j ensures IsDigit(s[k]) {
      assert s[k] == b[k - i];
    }
    assert s[i..j] == b;
    assert s[j] == d;
    DigitsValueOfNatToString(n);
    DesignatorHere(s, i, j, d);
  }

  lemma HoursOf(h: nat, m: nat)
    ensures DesignatorFrom(HoursMinutes(h, m), 0, 'H') == Some(h)
  {
    assert HoursMinutes(h, m) == [] + NatToString(h) + ['H'] + (NatToString(m) + "M");
    NumeralDesignated([], h, 'H', NatToString(m) + "M");
  }

  lemma MinutesOf(h: nat, m: nat)
    ensures DesignatorFrom(HoursMinutes(h, m), 0, 'M') == Some(m)
  {
    var a := NatToString(h);
    var b := NatToString(m);
    var s := HoursMinutes(h, m);
    assert s == a + ['H'] + (b + "M");
    NumeralRun(h, 'H', b + "M");
    DesignatorSkips(s, 0, |a|, 'M');
    assert DesignatorFrom(s, |a|, 'M') == DesignatorFrom(s, |a| + 1, 'M');
    assert s == (a + "H") + b + ['M'] + [];
    NumeralDesignated(a + "H", m, 'M', []);
  }

  /** Reading "<h>H<m>M" recovers the hours and minutes that wrote it. */
  lemma DurationRoundTrip(h: nat, m: nat)
    ensures DurationText(HoursMinutes(h, m)) == DurationWords(h, m, HoursMinutes(h, m))
  {
    HoursOf(h, m);
    MinutesOf(h, m);
  }

  /** Non-zero parts are written "N hour(s)" and "N minute(s)", joined by a space; none leaves the text. */
  lemma DurationWordsParts(h: nat, m: nat, rest: string)
    ensures DurationWords(h, m, rest) ==
      if h > 0 && m > 0 then Counted(h, "hour") + " " + Counted(m, "minute")
      else if h > 0 then Counted(h, "hour")
      else if m > 0 then Counted(m, "minute")
      else rest
  {
    if h > 0 && m > 0 {
      var parts := [Counted(h, "hour")] + [Counted(m, "minute")];
      assert parts[1..] == [Counted(m, "minute")];
      assert Join(" ", parts) == parts[0] + " " + Join(" ", parts[1..]);
    }
  }

  /** A string starting with 'PT' is read from the text after it. */
  lemma DurationAfterPT(rest: string)
    ensures IsoDuration(JStr("PT" + rest)) == Success(JStr(DurationText(rest)))
  {
    assert ("PT" + rest)[2..] == rest;
    assert ("PT" + rest)[..2] == "PT";
  }

  lemma DurationFiveMinutes()
    ensures IsoDuration(JStr("PT5M")) == Success(JStr("5 minutes"))
  {
    assert "PT5M"[2..] == "5M";
    assert DesignatorFrom("5M", 0, 'H').None?;
    DesignatorHere("5M", 0, 1, 'M');
    assert "5M"[0..1] == "5";
    assert DigitsValue("5") == 5;
    assert Counted(5, "minute") == "5 minutes" by {
      assert NatToString(5) == "5";
    }
  }

  lemma DurationHourAndHalf()
    ensures IsoDuration(JStr("PT1H30M")) == Success(JStr("1 hour 30 minutes"))
  {
    HourAndHalfAfterPT();
    HourAndHalfParts();
    HourAndHalfWords();
  }

  lemma HourAndHalfAfterPT()
    ensures IsoDuration(JStr("PT1H30M")) == Success(JStr(DurationText("1H30M")))
  {
    assert "PT1H30M" == "PT" + "1H30M";
    DurationAfterPT("1H30M");
  }

  lemma HourAndHalfParts()
    ensures DurationText("1H30M") == DurationWords(1, 30, "1H30M")
  {
    assert HoursMinutes(1, 30) == "1H30M" by {
      assert NatToString(30) == "30";
    }
    DurationRoundTrip(1, 30);
  }

  lemma HourAndHalfWords()
    ensures DurationWords(1, 30, "1H30M") == "1 hour 30 minutes"
  {
    DurationWordsParts(1, 30, "1H30M");
    assert Counted(1, "hour") == "1 hour";
    assert Counted(30, "minute") == "30 minutes" by {
      assert NatToString(30) == "30";
    }
    assert "1 hour" + " " + "30 minutes" == "1 hour 30 minutes";
  }

  /** A duration with neither hours nor minutes keeps the text after 'PT'. */
  lemma DurationSecondsOnly()
    ensures IsoDuration(JStr("PT30S")) == Success(JStr("30S"))
  {
    assert "PT30S"[2..] == "30S";
    assert DesignatorFrom("30S", 0, 'H').None?;
    assert DesignatorFrom("30S", 0, 'M').None?;
  }

  // ------------------------------------------------------------------
  // _parse_json_ld_recipe
  // ------------------------------------------------------------------

  /** The scraper's recipe record; `yield` is a Python keyword spelt out here. */
  datatype Recipe = Recipe(
    title: Json,
    description: Json,
    recipeYield: Json,
    prep: Json,
    cook: Json,
    total: Json,
    ingredients: seq<Json>,
    instructions: seq<string>,
    author: Json,
    url: Json,
    image: Json)

  /** recipe['image']: a dict's url, a non-empty list's first entry (or its url), a string, else ''. */
  function ImageOf(image: Json): (r: Json)
    ensures image.JObj? ==> r == Get(image.fields, "url", JStr(""))
    ensures image.JArr? && |image.items| > 0 && image.items[0].JObj? ==> r == Get(image.items[0].fields, "url", JStr(""))
    ensures image.JArr? && |image.items| > 0 && !image.items[0].JObj? ==> r == image.items[0]
    ensures image.JStr? ==> r == image
    ensures !image.JObj? && !image.JStr? && !(image.JArr? && |image.items| > 0) ==> r == JStr("")
  {
    match image
    case JObj(fields) => Get(fields, "url", JStr(""))
    case JArr(items) =>
      if |items| == 0 then JStr("")
      else if items[0].JObj? then Get(items[0].fields, "url", JStr(""))
      else items[0]
    case JStr(_) => image
    case _ => JStr("")
  }

  /** recipe['ingredients']: a list kept as is, a string wrapped into a list, else empty. */
  function IngredientsOf(ingredients: Json): (r: seq<Json>)
    ensures ingredients.JArr? ==> r == ingredients.items
    ensures ingredients.JStr? ==> r == [ingredients]
    ensures !ingredients.JArr? && !ingredients.JStr? ==> r == []
  {
    match ingredients
    case JArr(items) => items
    case JStr(_) => [ingredients]
    case _ => []
  }

  /** The text an instruction entry offers: a dict's 'text', a string itself, else nothing. */
  function StepText(item: Json): Option<Json> {
    match item
    case JObj(fields) => Some(Get(fields, "text", JStr("")))
    case JStr(_) => Some(item)
    case _ => None
  }

  /** The step line for the entry at 1-based position n, if it has text. */
  function StepAt(n: nat, item: Json): seq<string> {
    var text := StepText(item);
    if text.Some? && Truthy(text.value) then [NatToString(n) + ". " + Str(text.value)] else []
  }

  /** The numbered steps of an instruction list, numbered by position in the list. */
  function NumberedSteps(items: seq<Json>): seq<string> {
    if |items| == 0 then []
    else NumberedSteps(items[..|items| - 1]) + StepAt(|items|, items[|items| - 1])
  }

  /** recipe['instructions']: numbered steps of a list, a string wrapped into a list, else empty. */
  function InstructionsOf(instructions: Json): (r: seq<string>)
    ensures instructions.JArr? ==> r == NumberedSteps(instructions.items)
    ensures instructions.JStr? ==> r == [instructions.s]
    ensures !instructions.JArr? && !instructions.JStr? ==> r == []
  {
    match instructions
    case JArr(items) => NumberedSteps(items)
    case JStr(s) => [s]
    case _ => []
  }

  /** recipe['author']: a dict's name, a non-empty list's first name or str(), else str() when truthy. */
  function AuthorOf(author: Json): (r: Json)
    ensures author.JObj? ==> r == Get(author.fields, "name", JStr(""))
    ensures author.JArr? && |author.items| > 0 ==>
      r == if author.items[0].JObj? then Get(author.items[0].fields, "name", JStr("")) else JStr(Str(author.items[0]))
    ensures !author.JObj? && !(author.JArr? && |author.items| > 0) ==>
      r == JStr(if Truthy(author) then Str(author) else "")
  {
    match author
    case JObj(fields) => Get(fields, "name", JStr(""))
    case JArr(items) =>
      if |items| > 0 then
        if items[0].JObj? then Get(items[0].fields, "name", JStr("")) else JStr(Str(items[0]))
      else JStr("")
    case _ => JStr(if Truthy(author) then Str(author) else "")
  }

  /** A URL entry of schema.org's image: a URL string, or an object whose 'url' is a string or absent. */
  predicate UrlEntry(j: Json) {
    j.JStr? || (j.JObj? && Get(j.fields, "url", JStr("")).JStr?)
  }

  /** r is the value stored under 'url' in the object j. */
  predicate UrlValue(j: Json, r: Json) {
    j.JObj? && exists k :: 0 <= k < |j.fields| && j.fields[k] == ("url", r)
  }

  /**
   * An image of one of schema.org's shapes, a URL entry or a list starting with one, gives a
   * string. Whatever the shape, the image is '' or a value the input holds: the input
   * itself, its first entry, or a 'url' of either.
   */
  lemma ImageShapes(image: Json)
    ensures UrlEntry(image) || (image.JArr? && (|image.items| == 0 || UrlEntry(image.items[0]))) ==>
      ImageOf(image).JStr?
    ensures var r := ImageOf(image);
      r == JStr("") || r == image || UrlValue(image, r) ||
      (image.JArr? && |image.items| > 0 && (r == image.items[0] || UrlValue(image.items[0], r)))
  {
  }

  /** A Person entry: anything but an object whose 'name' is not a string. */
  predicate PersonEntry(j: Json) {
    !j.JObj? || Get(j.fields, "name", JStr("")).JStr?
  }

  /**
   * An author of one of schema.org's shapes gives a string: a name string is kept, a list of
   * names gives its first, and a falsy author gives ''.
   */
  lemma AuthorShapes(author: Json)
    ensures PersonEntry(author) && (author.JArr? && |author.items| > 0 ==> PersonEntry(author.items[0])) ==>
      AuthorOf(author).JStr?
    ensures author.JStr? ==> AuthorOf(author) == author
    ensures author.JArr? && |author.items| > 0 && author.items[0].JStr? ==> AuthorOf(author) == author.items[0]
    ensures !Truthy(author) ==> AuthorOf(author) == JStr("")
  {
    if author.JArr? && |author.items| > 0 && author.items[0].JStr? {
      StrOfValues(author.items[0]);
    }
    if author.JStr? {
      StrOfValues(author);
    }
  }

  /**
   * Ingredients of schema.org's shapes, a string or a list of strings, are printed one
   * "- <text>" line per string, in order; any other value prints no ingredient.
   */
  lemma IngredientTextLines(ingredients: Json)
    ensures ingredients.JStr? ==> IngredientLines(IngredientsOf(ingredients)) == ["- " + ingredients.s]
    ensures ingredients.JArr? && (forall k :: 0 <= k < |ingredients.items| ==> ingredients.items[k].JStr?) ==>
      var lines := IngredientLines(IngredientsOf(ingredients));
      |lines| == |ingredients.items| &&
      forall k :: 0 <= k < |ingredients.items| ==> lines[k] == "- " + ingredients.items[k].s
    ensures !ingredients.JArr? && !ingredients.JStr? ==> IngredientLines(IngredientsOf(ingredients)) == []
  {
    if ingredients.JStr? {
      StrOfValues(ingredients);
    }
    if ingredients.JArr? {
      forall k | 0 <= k < |ingredients.items| && ingredients.items[k].JStr? {
        StrOfValues(ingredients.items[k]);
      }
    }
  }

  /** The enumerate(..., 1) loop over an instruction list. */
  method NumberSteps(items: seq<Json>) returns (steps: seq<string>)
    ensures steps == NumberedSteps(items)
  {
    steps := [];
    for k := 0 to |items|
      invariant steps == NumberedSteps(items[..k])
    {
      assert items[..k + 1][..k] == items[..k];
      var item := items[k];
      var text: Json;
      if item.JObj? {
        text := Get(item.fields, "text", JStr(""));
      } else if item.JStr? {
        text := item;
      } else {
        continue;
      }
      if Truthy(text) {
        steps := steps + [NatToString(k + 1) + ". " + Str(text)];
      }
    }
    assert items[..|items|] == items;
  }

  method ParseJsonLdRecipe(data: seq<(string, Json)>) returns (r: Result<Recipe, ScrapeError>)
    ensures r.Failure? <==>
      IsoDuration(Get(data, "prepTime", JStr(""))).Failure?
      || IsoDuration(Get(data, "cookTime", JStr(""))).Failure?
      || IsoDuration(Get(data, "totalTime", JStr(""))).Failure?
    ensures r.Success? ==> r.value == Recipe(
      Get(data, "name", JStr("")),
      Get(data, "description", JStr("")),
      Get(data, "recipeYield", JStr("")),
      IsoDuration(Get(data, "prepTime", JStr(""))).value,
      IsoDuration(Get(data, "cookTime", JStr(""))).value,
      IsoDuration(Get(data, "totalTime", JStr(""))).value,
      IngredientsOf(Get(data, "recipeIngredient", JArr([]))),
      InstructionsOf(Get(data, "recipeInstructions", JArr([]))),
      AuthorOf(Get(data, "author", JObj([]))),
      Get(data, "url", JStr("")),
      ImageOf(Get(data, "image", JStr(""))))
  {
    var prep := ParseIsoDuration(Get(data, "prepTime", JStr("")));
    if prep.Failure? {
      return Failure(prep.error);
    }
    var cook := ParseIsoDuration(Get(data, "cookTime", JStr("")));
    if cook.Failure? {
      return Failure(cook.error);
    }
    var total := ParseIsoDuration(Get(data, "totalTime", JStr("")));
    if total.Failure? {
      return Failure(total.error);
    }
    var recipe := Recipe(
      Get(data, "name", JStr("")),
      Get(data, "description", JStr("")),
      Get(data, "recipeYield", JStr("")),
      prep.value, cook.value, total.value,
      [], [], JStr(""),
      Get(data, "url", JStr("")),
      JStr(""));

    recipe := recipe.(image := ImageOf(Get(data, "image", JStr(""))));
    recipe := recipe.(ingredients := IngredientsOf(Get(data, "recipeIngredient", JArr([]))));
    var instructions := Get(data, "recipeInstructions", JArr([]));
    if instructions.JArr? {
      var steps := NumberSteps(instructions.items);
      recipe := recipe.(instructions := steps);
    } else if instructions.JStr? {
      recipe := recipe.(instructions := [instructions.s]);
    }
    recipe := recipe.(author := AuthorOf(Get(data, "author", JObj([]))));
    return Success(recipe);
  }

  /** Every step names its entry's 1-based position and that entry's text. */
  lemma {:induction false} StepsFromPositions(items: seq<Json>)
    ensures |NumberedSteps(items)| <= |items|
    ensures forall line :: line in NumberedSteps(items) ==> exists i ::
      0 <= i < |items| && StepText(items[i]).Some? && Truthy(StepText(items[i]).value)
      && line == NatToString(i + 1) + ". " + Str(StepText(items[i]).value)
  {
    if |items| > 0 {
      var front := items[..|items| - 1];
      StepsFromPositions(front);
      forall line | line in NumberedSteps(items) ensures exists i ::
        0 <= i < |items| && StepText(items[i]).Some? && Truthy(StepText(items[i]).value)
        && line == NatToString(i + 1) + ". " + Str(StepText(items[i]).value)
      {
        if line in NumberedSteps(front) {
          var i :| 0 <= i < |front| && StepText(front[i]).Some? && Truthy(StepText(front[i]).value)
            && line == NatToString(i + 1) + ". " + Str(StepText(front[i]).value);
          assert front[i] == items[i];
        } else {
          assert line in StepAt(|items|, items[|items| - 1]);
        }
      }
    }
  }

  /** When every entry is a non-empty string, step k is numbered k + 1 and nothing is dropped. */
  lemma {:induction false} StepsWithoutGaps(items: seq<Json>)
    requires forall i :: 0 <= i < |items| ==> items[i].JStr? && |items[i].s| > 0
    ensures |NumberedSteps(items)| == |items|
    ensures forall k :: 0 <= k < |items| ==> NumberedSteps(items)[k] == NatToString(k + 1) + ". " + items[k].s
  {
    if |items| > 0 {
      var front := items[..|items| - 1];
      StepsWithoutGaps(front);
      assert NumberedSteps(items) == NumberedSteps(front) + [NatToString(|items|) + ". " + items[|items| - 1].s];
    }
  }

  /** A skipped entry leaves a gap: the steps after it keep their source positions. */
  lemma StepsGapExample()
    ensures NumberedSteps([JStr("Mix"), JStr(""), JInt(7), JObj([("text", JStr("Bake"))])]) == ["1. Mix", "4. Bake"]
  {
    var items := [JStr("Mix"), JStr(""), JInt(7), JObj([("text", JStr("Bake"))])];
    assert StepAt(1, items[0]) == ["1. Mix"] by {
      assert NatToString(1) == "1";
      assert StepText(items[0]) == Some(JStr("Mix"));
      assert Str(JStr("Mix")) == "Mix";
      assert "1" + ". " + "Mix" == "1. Mix";
    }
    assert StepAt(2, items[1]) == [];
    assert StepAt(3, items[2]) == [];
    assert StepAt(4, items[3]) == ["4. Bake"] by {
      assert NatToString(4) == "4";
      assert Get([("text", JStr("Bake"))], "text", JStr("")) == JStr("Bake");
      assert StepText(items[3]) == Some(JStr("Bake"));
      assert Str(JStr("Bake")) == "Bake";
      assert "4" + ". " + "Bake" == "4. Bake";
    }
    assert items[..1][..0] == [];
    assert NumberedSteps(items[..1]) == ["1. Mix"];
    assert items[..2][..1] == items[..1];
    assert NumberedSteps(items[..2]) == ["1. Mix"];
    assert items[..3][..2] == items[..2];
    assert NumberedSteps(items[..3]) == ["1. Mix"];
    assert items[..3] == items[..|items| - 1];
  }

  // ------------------------------------------------------------------
  // format_recipe
  // ------------------------------------------------------------------

  /** A one-element list when the field is truthy, else nothing. */
  function LineIf(field: Json, line: string): seq<string> {
    if Truthy(field) then [line] else []
  }

  /** The "Prep:", "Cook:" and "Total:" entries for the truthy times. */
  function TimeInfo(recipe: Recipe): seq<string> {
    LineIf(recipe.prep, "Prep: " + Str(recipe.prep))
    + LineIf(recipe.cook, "Cook: " + Str(recipe.cook))
    + LineIf(recipe.total, "Total: " + Str(recipe.total))
  }

  /** Title line, then the by-line, description, yield and time lines that are present. */
  function HeaderLines(recipe: Recipe): seq<string> {
    ["# " + Str(recipe.title) + "\n"]
    + LineIf(recipe.author, "**By:** " + Str(recipe.author) + "\n")
    + LineIf(recipe.description, Str(recipe.description) + "\n")
    + LineIf(recipe.recipeYield, "**Yield:** " + Str(recipe.recipeYield) + "\n")
    + (if |TimeInfo(recipe)| > 0 then ["**Time:** " + Join(", ", TimeInfo(recipe)) + "\n"] else [])
  }

  /** The line of one ingredient: "- " and the ingredient's text. */
  function Bullet(ingredient: Json): string {
    "- " + Str(ingredient)
  }

  /** One "- <ingredient>" line per ingredient, in order. */
  function IngredientLines(ingredients: seq<Json>): (r: seq<string>)
    ensures |r| == |ingredients|
    ensures forall i :: 0 <= i < |ingredients| ==> r[i] == Bullet(ingredients[i])
  {
    seq(|ingredients|, i requires 0 <= i < |ingredients| => Bullet(ingredients[i]))
  }

  /** Listing one more ingredient appends its line. */
  lemma IngredientLinesAppend(ingredients: seq<Json>, k: nat)
    requires k < |ingredients|
    ensures IngredientLines(ingredients[..k + 1]) == IngredientLines(ingredients[..k]) + [Bullet(ingredients[k])]
  {
    var longer := IngredientLines(ingredients[..k + 1]);
    var shorter := IngredientLines(ingredients[..k]) + [Bullet(ingredients[k])];
    forall i | 0 <= i < k + 1 ensures longer[i] == shorter[i] {
      assert ingredients[..k + 1][i] == ingredients[i];
      if i < k {
        assert ingredients[..k][i] == ingredients[i];
      }
    }
  }

  function StepLines(steps: seq<string>): seq<string> {
    if |steps| == 0 then [] else StepLines(steps[..|steps| - 1]) + [steps[|steps| - 1], ""]
  }

  /** The header lines, then the ingredients section and the instructions section. */
  function Layout(header: seq<string>, ingredients: seq<Json>, steps: seq<string>): seq<string> {
    header + ["## Ingredients\n"] + IngredientLines(ingredients) + ["", "## Instructions\n"] + StepLines(steps)
  }

  /** The pieces format_recipe joins with newlines. */
  function RecipeLines(recipe: Recipe): seq<string> {
    Layout(HeaderLines(recipe), recipe.ingredients, recipe.instructions)
  }

  /** The first part of format_recipe: the title, by-line, description, yield and time lines. */
  method FormatHeader(recipe: Recipe) returns (output: seq<string>)
    ensures output == HeaderLines(recipe)
  {
    output := [];
    output := output + ["# " + Str(recipe.title) + "\n"];
    if Truthy(recipe.author) {
      output := output + ["**By:** " + Str(recipe.author) + "\n"];
    }
    assert output == ["# " + Str(recipe.title) + "\n"] + LineIf(recipe.author, "**By:** " + Str(recipe.author) + "\n");
    if Truthy(recipe.description) {
      output := output + [Str(recipe.description) + "\n"];
    }
    assert output == ["# " + Str(recipe.title) + "\n"] + LineIf(recipe.author, "**By:** " + Str(recipe.author) + "\n")
      + LineIf(recipe.description, Str(recipe.description) + "\n");
    if Truthy(recipe.recipeYield) {
      output := output + ["**Yield:** " + Str(recipe.recipeYield) + "\n"];
    }
    assert output == ["# " + Str(recipe.title) + "\n"] + LineIf(recipe.author, "**By:** " + Str(recipe.author) + "\n")
      + LineIf(recipe.description, Str(recipe.description) + "\n")
      + LineIf(recipe.recipeYield, "**Yield:** " + Str(recipe.recipeYield) + "\n");
    var timeInfo: seq<string> := [];
    if Truthy(recipe.prep) {
      timeInfo := timeInfo + ["Prep: " + Str(recipe.prep)];
    }
    assert timeInfo == LineIf(recipe.prep, "Prep: " + Str(recipe.prep));
    if Truthy(recipe.cook) {
      timeInfo := timeInfo + ["Cook: " + Str(recipe.cook)];
    }
    assert timeInfo == LineIf(recipe.prep, "Prep: " + Str(recipe.prep)) + LineIf(recipe.cook, "Cook: " + Str(recipe.cook));
    if Truthy(recipe.total) {
      timeInfo := timeInfo + ["Total: " + Str(recipe.total)];
    }
    assert timeInfo == TimeInfo(recipe);
    if |timeInfo| > 0 {
      output := output + ["**Time:** " + Join(", ", timeInfo) + "\n"];
    }
  }

  method FormatRecipe(recipe: Recipe) returns (text: string)
    ensures text == Join("\n", RecipeLines(recipe))
  {
    var header := FormatHeader(recipe);
    var top := header + ["## Ingredients\n"];
    var output := top;
    var ingredients := recipe.ingredients;
    for k := 0 to |ingredients|
      invariant output == top + IngredientLines(ingredients[..k])
    {
      IngredientLinesAppend(ingredients, k);
      output := output + [Bullet(ingredients[k])];
    }
    assert ingredients[..|ingredients|] == ingredients;
    ghost var listed := output;
    output := output + [""];
    output := output + ["## Instructions\n"];
    assert output == listed + ["", "## Instructions\n"];
    var mid := output;
    var steps := recipe.instructions;
    for k := 0 to |steps|
      invariant output == mid + StepLines(steps[..k])
    {
      assert steps[..k + 1][..k] == steps[..k];
      output := output + [steps[k]];
      output := output + [""];
    }
    assert steps[..|steps|] == steps;
    assert output == Layout(header, ingredients, steps);
    text := Join("\n", output);
  }

  /** The header has the title line, one line per truthy by-line, description and yield, and a time line when any time is set. */
  lemma HeaderCount(recipe: Recipe)
    ensures |HeaderLines(recipe)| == 1
      + (if Truthy(recipe.author) then 1 else 0)
      + (if Truthy(recipe.description) then 1 else 0)
      + (if Truthy(recipe.recipeYield) then 1 else 0)
      + (if Truthy(recipe.prep) || Truthy(recipe.cook) || Truthy(recipe.total) then 1 else 0)
    ensures HeaderLines(recipe)[0] == "# " + Str(recipe.title) + "\n"
  {
  }

  lemma {:induction false} StepLinesAt(steps: seq<string>)
    ensures |StepLines(steps)| == 2 * |steps|
    ensures forall i :: 0 <= i < |steps| ==> StepLines(steps)[2 * i] == steps[i] && StepLines(steps)[2 * i + 1] == ""
  {
    if |steps| > 0 {
      var n := |steps| - 1;
      var front := steps[..n];
      StepLinesAt(front);
      var lines := StepLines(steps);
      assert lines == StepLines(front) + [steps[n], ""];
      forall i | 0 <= i < |steps| ensures lines[2 * i] == steps[i] && lines[2 * i + 1] == "" {
        if i < n {
          assert front[i] == steps[i];
        }
      }
    }
  }

  /** The positions in hd + [x] + items + [y, z] + st, for lines of any kind. */
  lemma SectionsAt<T>(hd: seq<T>, x: T, items: seq<T>, y: T, z: T, st: seq<T>)
    ensures var lines := hd + [x] + items + [y, z] + st;
      var m := |hd| + |items|;
      |lines| == m + 3 + |st|
      && lines[|hd|] == x
      && (forall i :: 0 <= i < |items| ==> lines[|hd| + 1 + i] == items[i])
      && lines[m + 1] == y && lines[m + 2] == z
      && forall j :: 0 <= j < |st| ==> lines[m + 3 + j] == st[j]
  {
    var lines := hd + [x] + items + [y, z] + st;
    var a := hd + [x] + items;
    assert lines == a + ([y, z] + st);
    forall i | 0 <= i < |items| ensures lines[|hd| + 1 + i] == items[i] {
      assert lines[|hd| + 1 + i] == a[|hd| + 1 + i];
    }
  }

  /** The positions of the lines after a header hd. */
  lemma LinesAfterHeader(hd: seq<string>, ingredients: seq<Json>, steps: seq<string>)
    ensures var lines := Layout(hd, ingredients, steps);
      var h := |hd|;
      var n := |ingredients|;
      |lines| == h + n + 3 + 2 * |steps|
      && lines[h] == "## Ingredients\n"
      && (forall i :: 0 <= i < n ==> lines[h + 1 + i] == Bullet(ingredients[i]))
      && lines[h + n + 1] == ""
      && lines[h + n + 2] == "## Instructions\n"
      && (forall i :: 0 <= i < |steps| ==> lines[h + n + 3 + 2 * i] == steps[i] && lines[h + n + 4 + 2 * i] == "")
  {
    var listed := IngredientLines(ingredients);
    var st := StepLines(steps);
    SectionsAt(hd, "## Ingredients\n", listed, "", "## Instructions\n", st);
    StepLinesAt(steps);
    var lines := Layout(hd, ingredients, steps);
    var m := |hd| + |ingredients|;
    forall i | 0 <= i < |steps| ensures lines[m + 3 + 2 * i] == steps[i] && lines[m + 4 + 2 * i] == "" {
      assert lines[m + 3 + 2 * i] == st[2 * i];
      assert lines[m + 3 + (2 * i + 1)] == st[2 * i + 1];
    }
  }

  /**
   * The layout of the rendered recipe: after the h header lines come the ingredients
   * heading, one "- <ingredient>" line per ingredient, a blank line, the instructions
   * heading, and each instruction followed by a blank line.
   */
  lemma FormatLayout(recipe: Recipe)
    ensures var lines := RecipeLines(recipe);
      var h := |HeaderLines(recipe)|;
      var n := |recipe.ingredients|;
      |lines| == h + n + 3 + 2 * |recipe.instructions|
      && lines[h] == "## Ingredients\n"
      && (forall i :: 0 <= i < n ==> lines[h + 1 + i] == Bullet(recipe.ingredients[i]))
      && lines[h + n + 1] == ""
      && lines[h + n + 2] == "## Instructions\n"
      && (forall i :: 0 <= i < |recipe.instructions| ==>
            lines[h + n + 3 + 2 * i] == recipe.instructions[i] && lines[h + n + 4 + 2 * i] == "")
  {
    LinesAfterHeader(HeaderLines(recipe), recipe.ingredients, recipe.instructions);
  }

  /** The rendered recipe starts with its title line. */
  lemma FormatStartsWithTitle(recipe: Recipe)
    ensures StartsWith(Join("\n", RecipeLines(recipe)), "# " + Str(recipe.title) + "\n")
  {
    var lines := RecipeLines(recipe);
    HeaderCount(recipe);
    assert lines[0] == HeaderLines(recipe)[0];
    JoinStartsWith("\n", lines);
  }
}
