# Recipe translator core, modelled in Dafny

The recipe translator downloads an NYT Cooking recipe, converts its imperial measurements to
metric, and has it translated. This project models the deterministic logic at its centre:

- **Unit converter** (`unit_converter.py`): the conversion table, `convert_fraction_to_decimal`,
  `fahrenheit_to_celsius`, `convert_measurement` with its promotion to l/kg and its rounding, and
  `convert_text`. The measurement regular expression is a scanner, proved to find exactly the
  matches the pattern defines (`MeasurementPattern`).
- **Scraper helpers** (`recipe_scraper.py`): `parse_iso_duration`, `_parse_json_ld_recipe` over a
  small JSON value type, and `format_recipe`.
- **Settings file** (`settings.py`): loading with default merging, the getters, the
  `update_*` setters, `reset_to_defaults`, `add_language` and `remove_language`. These run over a
  class whose one field is the settings file's contents.
- **User file** (`auth.py`): `load_users` seeding, `User.get`, `get_by_username`,
  `verify_password`, `create`, `list_all`, `change_password` and `delete_user`. These run over a
  class whose one field is the users file's contents. Hashes are parameters.
- **Database models** (`models.py`): `Recipe.get_translation`, `Settings.get` and `Settings.set`,
  `User.is_admin`, and the two uniqueness constraints.
- **Migrations**: `get_language_info` and the translation copy loop of
  `migrate_to_multi_translation.py`, and the `is_shareable` loop of `migrate_add_shareable.py`,
  which updates an array of recipes in place.
- **Request checks**: the input validation of `POST /api/translate` and the filename sanitiser of
  `POST /api/download` (`app.py`), and the URL check and output path of `recipe_translator.py`.

Numbers are exact rationals (`real`). Python's `round` is `Numbers.RoundHalfEven`, and
`round(x, n)` is a whole number of hundredths. A table or dict is a sequence of entries in
insertion order, so first-match loops mean what they mean in Python. The settings module uses a
`map`, since it only tests keys.

The table's factors are 236.588, 14.787, 4.929, 29.574, 28.350 and 453.592; ml and g are
promoted from 1000 on and rounded to two decimals.

## Model

| member | source | states |
|---|---|---|
| Numbers.RoundHalfEven | unit_converter.py:66 | round(x) is within 0.5 of x, and an exact tie goes to the even integer |
| Numbers.RoundIsNearest | unit_converter.py:66 | no integer is closer to x than round(x) |
| Numbers.RoundDown | unit_converter.py:103 | a value less than half above an integer rounds to that integer |
| Numbers.RoundOfInteger | unit_converter.py:103 | rounding an integer gives it back |
| Numbers.RoundToTenths | unit_converter.py:101 | round(x, 1) is a multiple of a tenth within 0.05 of x |
| Numbers.RoundToHundredths | unit_converter.py:93 | round(x, 2) is within 0.005 of x |
| Numbers.ParseDecimalOfPoint | unit_converter.py:62 | float() of the literal `a.b` is its decimal value |
| Numbers.RenderFloatRoundTrip | unit_converter.py:127 | the printed form of a value with at most two decimals reads back as the same value |
| MeasurementPattern.UnitNamedIn | unit_converter.py:12-45 | a unit found for a key is spelled as that key and is one of the candidates |
| MeasurementPattern.UnitNamed | unit_converter.py:87 | a table hit names the unit spelled as the key |
| MeasurementPattern.UnitNamedSpelling | unit_converter.py:87 | every unit's spelling is a key of the table that leads back to it |
| MeasurementPattern.SpellingInjective | unit_converter.py:12-45 | no two units share a spelling |
| MeasurementPattern.NotAUnit | unit_converter.py:87 | a text of no unit's length and first and last letters is not in the table |
| MeasurementPattern.AlternativesComplete | unit_converter.py:51-53 | the alternation lists every unit of the table |
| MeasurementPattern.NumberEnd | unit_converter.py:50 | the greedy scan of `\d+(?:/\d+)?(?:\.\d+)?` consumes at least one character |
| MeasurementPattern.NumberEndSpans | unit_converter.py:50 | the greedy scan always ends at a number of the pattern's shape |
| MeasurementPattern.NumberEndOfSplit | unit_converter.py:50 | a number the next character cannot continue is the one the scan finds |
| MeasurementPattern.RangeEnd | unit_converter.py:50 | the optional `to <number>` group, when it matches, consumes text |
| MeasurementPattern.NoRangeBeforeWord | unit_converter.py:50 | the range group cannot match where a unit word followed by a boundary does |
| MeasurementPattern.UnitFrom | unit_converter.py:51-53 | the unit chosen matches at the position, case-insensitively, and is followed by a word boundary |
| MeasurementPattern.UnitsPrefixFree | unit_converter.py:51-53 | a unit that is a proper prefix of another is followed in it by a letter |
| MeasurementPattern.UnitMatchUnique | unit_converter.py:51-53 | at most one unit matches at a position and ends at a word boundary, so the alternation order cannot change the result |
| MeasurementPattern.MatchPrefix | unit_converter.py:49-54 | a match consumes a non-empty prefix of the text |
| MeasurementPattern.MatchPrefixSound | unit_converter.py:49-54 | every match the scanner returns is a match of the pattern, with the groups cut where the pattern cuts them |
| MeasurementPattern.MatchPrefixComplete | unit_converter.py:49-54 | every way the pattern can match at the start is the scanner's match |
| MeasurementPattern.PatternMatchIff | unit_converter.py:49-54 | the pattern matches a prefix of length k exactly when the scanner's match ends at k |
| MeasurementPattern.MatchPrefixAmount | unit_converter.py:118 | group 1 is itself a number of the pattern's shape |
| MeasurementPattern.MatchPrefixUnit | unit_converter.py:119 | group 2 is the unit as typed, ends the match, and lower-cases to a unit's spelling |
| UnitConverter.TemperatureSpelling | unit_converter.py:42-44 | the names that take the temperature branch are exactly the units the table maps to ('celsius', None) |
| UnitConverter.TableScale | unit_converter.py:82-88 | any other table unit has a factor |
| UnitConverter.FractionOfWhole | unit_converter.py:59-62 | text without '/' is read as a whole by the decimal reader, and a text it rejects gives ValueError |
| UnitConverter.FractionOfParts | unit_converter.py:59-61 | `x/y` is x divided by y, or ZeroDivisionError when y is zero |
| UnitConverter.FractionOfDigits | unit_converter.py:59-61 | a fraction of two digit runs is their quotient, or ZeroDivisionError over zero |
| UnitConverter.DecimalReads | unit_converter.py:62 | a decimal of the pattern's shape parses and holds no '/' |
| UnitConverter.AmountParses | unit_converter.py:121-122 | an amount of the pattern's shape never gives a ValueError; at worst it divides by zero |
| UnitConverter.MatchAmountParses | unit_converter.py:118-122 | the amount of every match never gives a ValueError |
| UnitConverter.FahrenheitToCelsius | unit_converter.py:64-66 | the result is the integer nearest (f - 32) * 5 / 9 |
| UnitConverter.FahrenheitExamples | unit_converter.py:64-66 | 350 gives 177, 212 gives 100, 32 gives 0 and 0 gives -18 |
| UnitConverter.ScaleFor | unit_converter.py:87-88 | a non-temperature table unit is looked up to a factor |
| UnitConverter.RoundMetric | unit_converter.py:91-103 | ml and g from 1000 on become l and kg, kept to hundredths; other values below 10 keep the unit and are a whole number of tenths; from 10 on they keep the unit and are a whole number |
| UnitConverter.RoundMetricClose | unit_converter.py:91-103 | the rounded value is within 0.005 of the l or kg value when promoted, within 0.05 below 10, and within 0.5 otherwise |
| UnitConverter.Rounded | unit_converter.py:88-103 | a table unit always gives a converted amount, never the unchanged one |
| UnitConverter.ConvertMeasurement | unit_converter.py:79-105 | temperature units give a whole number of degrees '°C'; table units scale and round as Rounded says; other units come back unchanged with the amount |
| UnitConverter.TemperatureConverts | unit_converter.py:64-66 | a temperature unit gives whole degrees '°C' within 0.5 of (F - 32) * 5 / 9 |
| UnitConverter.KnownUnitConverts | unit_converter.py:79-103 | a table unit in any case and with surrounding blanks converts by its own entry |
| UnitConverter.KnownUnitChanges | unit_converter.py:79-103 | a table unit is never passed through unchanged |
| UnitConverter.KeyOfUnit | unit_converter.py:79 | a unit that lower-cases to a spelling has that spelling as its key |
| UnitConverter.ConvertsByTable | unit_converter.py:79-103 | a table unit typed in any case converts by its table entry |
| UnitConverter.ConvertCupsExample | unit_converter.py:14-15 | 2 cups give 473 ml; 5 cups give 1.18 l |
| UnitConverter.ConvertTspExample | unit_converter.py:21 | 1 Tsp gives 4.9 ml |
| UnitConverter.ConvertQuartsExample | unit_converter.py:27-28 | 12 quarts give 11 l: a table target of l is not promoted |
| UnitConverter.ConvertTemperatureExample | unit_converter.py:82-84 | 350 °F gives 177 °C |
| UnitConverter.ConvertUnknownExample | unit_converter.py:105 | 2 stone stays 2 stone |
| UnitConverter.RenderAmountReadsBack | unit_converter.py:127 | the printed converted amount reads back as its value |
| UnitConverter.KeyOfSpelled | unit_converter.py:79 | text that lower-cases to a spelling is keyed by it and ends with a letter |
| UnitConverter.SpelledUnitChanges | unit_converter.py:119-123 | a unit typed in any case always converts |
| UnitConverter.MatchConverts | unit_converter.py:119-123 | the unit of every match converts, and the match ends with a letter |
| UnitConverter.Formatted | unit_converter.py:126-129 | a replacement ends with ')' |
| UnitConverter.Replacement | unit_converter.py:117-131 | the match is kept as written exactly when its amount divides by zero; otherwise it is "<converted> <metric unit> (<amount as written> <unit as written>)" with the converted pair of convert_measurement |
| UnitConverter.SplitFirst | unit_converter.py:126-129 | a split at the first c gives the c-free text before it and the rest, with the c between them; None exactly when there is no c |
| UnitConverter.SplitFirstOf | unit_converter.py:126-129 | a text free of c, then c, then anything splits back into the two parts |
| UnitConverter.FieldsOfLayout | unit_converter.py:126-129 | a text whose four fields can be read is exactly the f-string layout of those fields, and the first three hold no space |
| UnitConverter.LayoutReadsBack | unit_converter.py:126-129 | the f-string layout of four fields, the first three without spaces, reads back as those four fields |
| UnitConverter.FormattedReadsBack | unit_converter.py:126-129 | the printed replacement reads back as the printed amount, the metric unit, the amount text and the unit |
| UnitConverter.RenderAmountNoSpace | unit_converter.py:127 | the printed converted amount holds no space |
| UnitConverter.IntNoSpace | unit_converter.py:127 | str() of an int holds no space |
| UnitConverter.FloatNoSpace | unit_converter.py:127 | str() of a float with at most two decimals holds no space |
| UnitConverter.TableMetrics | unit_converter.py:12-45 | the table's targets are ml, l and g |
| UnitConverter.MetricUnitOf | unit_converter.py:79-103 | a unit that converts comes out as ml, l, g, kg or °C |
| UnitConverter.AmountNoSpace | unit_converter.py:118 | group 1 holds no space |
| UnitConverter.NumberNoSpace | unit_converter.py:50 | a number of the pattern's shape holds no space |
| UnitConverter.MatchAmountPrefix | unit_converter.py:118 | group 1 is the text the match starts with |
| UnitConverter.ReplacementReadsBack | unit_converter.py:117-129 | a converted match reads back as the converted amount, the metric unit, and group 1 and group 2 exactly as they stand at the start and at the end of the matched text |
| UnitConverter.ConvertTextNoDigits | unit_converter.py:133 | text without digits comes out unchanged |
| UnitConverter.ConvertTextSkips | unit_converter.py:133 | everything before the first match is copied verbatim |
| UnitConverter.ConvertTextKeepsZeroDivision | unit_converter.py:130-131 | a match whose amount divides by zero is copied, and the scan resumes after it |
| UnitConverter.ConvertTextReplaces | unit_converter.py:121-129 | every other match is replaced by its converted form (the text Replacement states) different from the match, and the scan resumes after it |
| Json.Get | recipe_scraper.py:110 | dict.get gives the default for a missing key, or a value stored under the key |
| Json.GetLast | recipe_scraper.py:110 | of duplicate keys in the decoded object, the last one wins |
| Json.StrOfValues | recipe_scraper.py:165 | str() gives a string itself, "None", "True"/"False", the decimal digits of an int, a list in brackets and a dict in braces |
| RecipeScraper.DesignatorFrom | recipe_scraper.py:24-31 | `re.search(r'(\d+)H')` and `(\d+)M` find something exactly when some digit is directly followed by the designator |
| RecipeScraper.DesignatorFirst | recipe_scraper.py:24-31 | the value found is that of the whole digit run before the first designator |
| RecipeScraper.IsoDuration | recipe_scraper.py:16-40 | a falsy value or a string without 'PT' comes back unchanged; a string with 'PT' is read after it; another truthy value raises |
| RecipeScraper.ParseIsoDuration | recipe_scraper.py:11-40 | the step-by-step parse computes IsoDuration |
| RecipeScraper.DesignatorHere | recipe_scraper.py:24 | a maximal digit run before the designator is the one found |
| RecipeScraper.DesignatorSkips | recipe_scraper.py:24 | a digit run followed by another character is skipped whole |
| RecipeScraper.HoursOf | recipe_scraper.py:24-26 | "<h>H<m>M" has h hours |
| RecipeScraper.MinutesOf | recipe_scraper.py:29-31 | "<h>H<m>M" has m minutes |
| RecipeScraper.DurationRoundTrip | recipe_scraper.py:24-38 | reading "<h>H<m>M" renders the h and m that wrote it |
| RecipeScraper.DurationWordsParts | recipe_scraper.py:34-40 | non-zero parts are "N hour" and "N minute", with 's' above 1, joined by a space; with none the text is kept |
| RecipeScraper.DurationAfterPT | recipe_scraper.py:16-19 | a string starting with 'PT' is read from what follows |
| RecipeScraper.DurationFiveMinutes | recipe_scraper.py:14 | PT5M gives "5 minutes" |
| RecipeScraper.DurationHourAndHalf | recipe_scraper.py:14 | PT1H30M gives "1 hour 30 minutes" |
| RecipeScraper.HourAndHalfAfterPT | recipe_scraper.py:19 | PT1H30M is read from "1H30M" |
| RecipeScraper.HourAndHalfParts | recipe_scraper.py:24-31 | "1H30M" has 1 hour and 30 minutes |
| RecipeScraper.HourAndHalfWords | recipe_scraper.py:34-40 | 1 hour and 30 minutes read "1 hour 30 minutes" |
| RecipeScraper.DurationSecondsOnly | recipe_scraper.py:19-40 | PT30S gives "30S": without hours or minutes the text after 'PT' is kept |
| RecipeScraper.ImageShapes | recipe_scraper.py:126-135 | the image is '', the value itself, a url stored in the dict, the first entry, or a url stored in the first entry; a string, or a dict or list of them whose url is a string, gives a string |
| RecipeScraper.IngredientTextLines | recipe_scraper.py:138-142 | a string ingredient field prints as one "- " line; a list of strings prints one "- " line per entry, in order; anything else prints none |
| RecipeScraper.InstructionsOf | recipe_scraper.py:145-158 | a list gives its numbered steps, a string a one-element list, anything else [] |
| RecipeScraper.AuthorShapes | recipe_scraper.py:161-167 | a string author is kept, a list whose first entry is a string gives it, a falsy author gives '', and any author whose name fields are strings gives a string |
| RecipeScraper.NumberSteps | recipe_scraper.py:146-156 | the enumerate loop computes the numbered steps |
| RecipeScraper.ParseJsonLdRecipe | recipe_scraper.py:107-169 | fails exactly when a time field raises; otherwise every field of the record is the normalised field of the input |
| RecipeScraper.StepsFromPositions | recipe_scraper.py:146-156 | every step is numbered with its entry's 1-based position and carries that entry's text |
| RecipeScraper.StepsWithoutGaps | recipe_scraper.py:147-156 | when every entry is a non-empty string, step k is numbered k + 1 and none is dropped |
| RecipeScraper.StepsGapExample | recipe_scraper.py:147-156 | skipped entries leave gaps: ["Mix", "", 7, {text: "Bake"}] gives "1. Mix" and "4. Bake" |
| RecipeScraper.FormatHeader | recipe_scraper.py:239-262 | the appends compute the header lines |
| RecipeScraper.FormatRecipe | recipe_scraper.py:237-276 | the appends, joined with "\n", compute the rendered recipe |
| RecipeScraper.HeaderCount | recipe_scraper.py:241-262 | the title line comes first, and the author, description, yield and time lines appear only when truthy |
| RecipeScraper.IngredientLines | recipe_scraper.py:266-267 | one "- <ingredient>" line per ingredient, in order |
| RecipeScraper.StepLinesAt | recipe_scraper.py:272-274 | each instruction is followed by a blank line |
| RecipeScraper.FormatLayout | recipe_scraper.py:264-276 | the exact line layout after the header: ingredients heading, one line per ingredient, a blank line, the instructions heading, each step then a blank line |
| RecipeScraper.FormatStartsWithTitle | recipe_scraper.py:241 | the rendered text starts with "# <title>\n" |
| Settings.Strings | settings.py:10-26 | the language list of the defaults as JSON strings |
| Settings.DefaultKeysAreDefaults | settings.py:9-67 | the keys the merge loop visits are exactly the default keys |
| Settings.Loaded | settings.py:70-87 | every default key is present after a load |
| Settings.SortNames | settings.py:108 | list.sort gives a sorted permutation |
| Settings.Insert | settings.py:108 | inserting adds exactly one name |
| Settings.InsertSorted | settings.py:108 | inserting into a sorted list keeps it sorted |
| Settings.SortedHeadIsLeast | settings.py:108 | the first name of a sorted list is the least |
| Settings.SortedUnique | settings.py:108 | two sorted permutations of the same names are equal |
| Settings.FirstIndex | settings.py:118 | list.remove removes the first occurrence |
| Settings.SettingsStore.constructor | settings.py:7 | the store starts with the given file |
| Settings.SettingsStore.MergeDefaults | settings.py:82-84 | the loop gives the defaults overridden by the stored values |
| Settings.SettingsStore.Save | settings.py:90-94 | the file then holds exactly the saved settings |
| Settings.SettingsStore.Load | settings.py:70-87 | returns the loaded settings; a missing file is created with the defaults, other files are untouched |
| Settings.SettingsStore.GetSetting | settings.py:124-133 | a getter returns the loaded value of its key |
| Settings.SettingsStore.UpdateSetting | settings.py:136-147 | an update writes the loaded settings with one key replaced |
| Settings.SettingsStore.GetLanguages | settings.py:97-100 | returns the loaded 'languages' |
| Settings.SettingsStore.GetTranslationPrompt | settings.py:124-127 | returns the loaded 'translation_prompt' |
| Settings.SettingsStore.GetSystemPrompt | settings.py:130-133 | returns the loaded 'system_prompt' |
| Settings.SettingsStore.GetAiModel | settings.py:155-158 | returns the loaded 'ai_model' |
| Settings.SettingsStore.GetNytCookie | settings.py:168-171 | returns the loaded 'nyt_cookie' |
| Settings.SettingsStore.GetAiProvider | settings.py:181-184 | returns the loaded 'ai_provider' |
| Settings.SettingsStore.UpdateTranslationPrompt | settings.py:136-140 | writes the loaded settings with 'translation_prompt' replaced |
| Settings.SettingsStore.UpdateSystemPrompt | settings.py:143-147 | writes the loaded settings with 'system_prompt' replaced |
| Settings.SettingsStore.UpdateAiModel | settings.py:161-165 | writes the loaded settings with 'ai_model' replaced |
| Settings.SettingsStore.UpdateNytCookie | settings.py:174-178 | writes the loaded settings with 'nyt_cookie' replaced |
| Settings.SettingsStore.UpdateAiProvider | settings.py:187-191 | writes the loaded settings with 'ai_provider' replaced |
| Settings.SettingsStore.ResetToDefaults | settings.py:150-152 | the file then holds exactly the defaults |
| Settings.SettingsStore.AddLanguage | settings.py:103-111 | returns what add_language decides on the loaded settings and saves only what it decides to save |
| Settings.SettingsStore.RemoveLanguage | settings.py:114-121 | returns what remove_language decides on the loaded settings and saves only what it decides to save |
| Settings.LoadedKeepsStored | settings.py:82-87 | stored keys keep their values, missing default keys get the default, and no other key appears |
| Settings.ResetGivesDefaults | settings.py:150-152 | after a reset every getter returns its default |
| Settings.UpdateSetsOneKey | settings.py:136-147 | an update sets its key and leaves every other loaded key and value as it was |
| Settings.AddLanguageRefusal | settings.py:106-111 | it saves exactly when it returns True; an empty or listed name gives False and saves nothing |
| Settings.AddLanguageAdds | settings.py:106-110 | on True it saves a sorted list of the old names plus the new one, with every other key unchanged |
| Settings.AddLanguageTwice | settings.py:106 | adding the same name again gives False and saves nothing |
| Settings.LoadedComplete | settings.py:82-85 | loading an object with every default key gives the object itself |
| Settings.AddLanguageTwiceOnFile | settings.py:103-111 | over the file, a second add_language of the same name changes nothing |
| Settings.RemoveLanguageRefusal | settings.py:117-121 | 'English' is never removed, so is an absent name, and it saves exactly when it returns True |
| Settings.RemoveLanguageRemoves | settings.py:117-120 | on True exactly the first occurrence is removed, with every other key unchanged |
| Auth.FirstWhere | auth.py:38-41 | the first entry satisfying the test, or None when there is none |
| Auth.ParseIntOfNatToString | auth.py:64 | int(str(n)) == n |
| Auth.MaxId | auth.py:64 | fails with ValueError exactly when some id is not an integer; otherwise it is the largest id, or 0 |
| Auth.Listing | auth.py:79-86 | one (id, username, role) per user, in table order |
| Auth.UserStore.constructor | auth.py:10 | the store starts with the given file, with unique ids |
| Auth.UserStore.Save | auth.py:108-112 | the file then holds exactly the saved table |
| Auth.UserStore.Load | auth.py:89-105 | a missing file is seeded with the admin; an unreadable one fails with a JSON error; the ids stay unique |
| Auth.UserStore.Get | auth.py:25-32 | returns the user under the id, or None |
| Auth.UserStore.GetByUsername | auth.py:34-41 | returns the first user with the name, or None |
| Auth.UserStore.VerifyPassword | auth.py:43-51 | returns the first user with the name whose hash passes the check, or None |
| Auth.UserStore.Create | auth.py:53-77 | returns and saves what create decides; the ids stay unique |
| Auth.UserStore.ChangePassword | auth.py:115-122 | returns and saves what change_password decides |
| Auth.UserStore.DeleteUser | auth.py:125-132 | returns and saves what delete_user decides |
| Auth.UserStore.ListAll | auth.py:79-86 | returns the listing of the loaded table |
| Auth.HighestId | auth.py:64 | the max over the parsed ids computes MaxId |
| Auth.MaxIdPrefixFails | auth.py:64 | an id that fails to parse makes the whole max fail |
| Auth.NewIdFresh | auth.py:64 | the new id differs from every existing id |
| Auth.ChangePasswordKeepsIds | auth.py:118-119 | changing a password keeps the ids unique |
| Auth.DeleteKeepsIds | auth.py:128-129 | deleting keeps the ids unique |
| Auth.IdIndexIs | auth.py:29 | the first entry with the id is found |
| Auth.NameIndexIs | auth.py:38-40 | the first entry with the name is found |
| Auth.IdIndexNone | auth.py:29 | an id that no entry has is not found |
| Auth.UniqueIdAt | auth.py:29 | with unique ids, the entry holding the id is the one found |
| Auth.SeedIsAdmin | auth.py:21-23 | without a file, id '1' is the admin with role 'admin', which is_admin accepts, and the seed is saved |
| Auth.CreateRefusesTaken | auth.py:58-61 | a taken username gives None and saves nothing |
| Auth.CreateRejectsBadId | auth.py:64 | an id that is not an integer raises ValueError and saves nothing |
| Auth.CreateStores | auth.py:64-77 | a free username is stored under a fresh id with the hash and role; the returned user has those fields; every other id reads as before |
| Auth.CreateThenFind | auth.py:34-41 | after a create, looking up the username gives the created user |
| Auth.ChangePasswordOnly | auth.py:115-122 | a known id gets the new hash and nothing else changes; an unknown id gives False and saves nothing |
| Auth.DeleteRemovesOne | auth.py:125-132 | id '1' and unknown ids give False and save nothing; otherwise exactly that entry is removed |
| Auth.VerifyIsLookupThenCheck | auth.py:43-51 | the user returned has the name and passes the check; with unique names this is looking up the name, then checking |
| Models.TranslationsOf | models.py:68 | the translations of a recipe are exactly the rows with its id |
| Models.FirstTranslation | models.py:111-116 | the first translation with the code, or None exactly when none has it |
| Models.GetTranslation | models.py:111-116 | the loop with early return computes FirstTranslation |
| Models.TranslationFound | models.py:144-146 | under the unique constraint, the translation found for (recipe, code) is the stored row |
| Models.TranslationMissing | models.py:111-116 | without a row for the code, the result is None |
| Models.DefaultRoleIsNotAdmin | models.py:20 | a user created without a role is not an admin; role 'admin' makes one (is_admin at lines 30-32) |
| Models.KeyIndex | models.py:235 | filter_by(key).first() finds the first row with the key, or none exists |
| Models.Lookup | models.py:232-236 | Settings.get gives the default for a missing key; with unique keys it gives the row's value |
| Models.SettingsTable.constructor | models.py:225 | the table starts empty, under the unique constraint |
| Models.SettingsTable.Get | models.py:232-236 | the method computes Lookup |
| Models.SettingsTable.Set | models.py:238-249 | the table becomes the upsert, the keys stay unique, and the returned row holds the key and value |
| Models.UpsertKeepsKeysUnique | models.py:225 | set keeps settings.key unique |
| Models.UpsertRows | models.py:241-247 | an existing key is overwritten with no row added; a new key adds one row at the end; other rows are kept |
| Models.SetThenGet | models.py:232-249 | after set(k, v), get(k) is v and every other key reads as before |
| Models.SetTwice | models.py:238-249 | a second set on the same key wins and adds no row |
| MigrateMultiTranslation.FirstKeyIn | migrate_to_multi_translation.py:27-29 | a match is the value of a map key occurring in the lower-cased string |
| MigrateMultiTranslation.LowerKeys | migrate_to_multi_translation.py:28 | the map keys lower-case to "spanish", "french" and "english" |
| MigrateMultiTranslation.LanguageInfoChoice | migrate_to_multi_translation.py:22-31 | French iff named without Spanish; English iff named without Spanish or French; Spanish otherwise, including falsy input |
| MigrateMultiTranslation.LanguageInfoInMap | migrate_to_multi_translation.py:16-31 | the result is always one of the map's values |
| MigrateMultiTranslation.LowerFrenchCanada | migrate_to_multi_translation.py:28 | "French (Canada)" lower-cases to "french (canada)" |
| MigrateMultiTranslation.FrenchCanada | migrate_to_multi_translation.py:27-29 | "French (Canada)" gives ('fr', 'French') |
| MigrateMultiTranslation.SpanishBeforeFrench | migrate_to_multi_translation.py:27-29 | "spanish/french" gives ('es', 'Spanish') |
| MigrateMultiTranslation.SelectedOne | migrate_to_multi_translation.py:87-92 | a recipe is selected, as one row carrying its id, title, content, ingredients, instructions and language, exactly when its translated title is present and non-empty |
| MigrateMultiTranslation.SelectedAppend | migrate_to_multi_translation.py:87-92 | the query filters row by row: selecting from a + b selects from a, then from b |
| MigrateMultiTranslation.SelectedMembers | migrate_to_multi_translation.py:87-92 | the selected rows are exactly the rows of the recipes with a non-empty translated title |
| MigrateMultiTranslation.OldTranslationsCovered | migrate_to_multi_translation.py:87-131 | afterwards every recipe with a non-empty translated title has a translation for its language code |
| MigrateMultiTranslation.RowLanguage | migrate_to_multi_translation.py:103 | a null or empty language becomes 'Spanish'; any other is kept |
| MigrateMultiTranslation.NewTranslation | migrate_to_multi_translation.py:116-128 | the inserted row has the recipe's id, language code and name, title, ingredients and instructions; the content is kept, and null content becomes '' |
| MigrateMultiTranslation.CopyTranslations | migrate_to_multi_translation.py:97-131 | the loop computes the resulting table and migration_count |
| MigrateMultiTranslation.MigratedAppends | migrate_to_multi_translation.py:116-129 | rows are only appended, migration_count is the number added, and each added row translates a handled recipe |
| MigrateMultiTranslation.HasTranslationKept | migrate_to_multi_translation.py:108-114 | appending rows never hides an existing translation |
| MigrateMultiTranslation.MigratedCovers | migrate_to_multi_translation.py:108-128 | afterwards every handled recipe has a translation for its code |
| MigrateMultiTranslation.MigratedNothingNew | migrate_to_multi_translation.py:108-114 | when every recipe already has its translation, nothing is inserted and the count is 0 |
| MigrateMultiTranslation.MigrationIdempotent | migrate_to_multi_translation.py:108-129 | a second run on the same data inserts nothing and counts 0 |
| MigrateMultiTranslation.MigratedKeepsUnique | migrate_to_multi_translation.py:108-128 | the loop never creates a second row for a (recipe, code) |
| MigrateShareable.CountSwitchedOff | migrate_add_shareable.py:36 | the count never exceeds the number of recipes |
| MigrateShareable.ClassifyAll | migrate_add_shareable.py:30-38 | each recipe is classified on its own |
| MigrateShareable.MarkShareable | migrate_add_shareable.py:27-41 | the loop updates each recipe in place as Classify says and returns the number switched to False |
| MigrateShareable.ClassifyOutcome | migrate_add_shareable.py:32-38 | a set flag is untouched; an unset one becomes False exactly for an NYT URL, and True otherwise, including a missing or empty URL |
| MigrateShareable.CountIsSwitchedRecipes | migrate_add_shareable.py:29-41 | updated_count is the number of recipes whose flag went from unset to False |
| MigrateShareable.ClassifyIdempotent | migrate_add_shareable.py:32 | afterwards every flag is set, so a second run changes nothing and counts 0 |
| MigrateShareable.NoneUnsetCountsZero | migrate_add_shareable.py:32 | with every flag set nothing is counted |
| MigrateShareable.LowerNytUrl | migrate_add_shareable.py:34 | "www.NYTimes.com" lower-cases to "www.nytimes.com" |
| MigrateShareable.NytTestIgnoresCase | migrate_add_shareable.py:34-35 | two URLs equal up to case are classified alike |
| MigrateShareable.NytUrlInAnyCase | migrate_add_shareable.py:34-35 | example: a URL with "NYTimes" in mixed case is recognised as NYT |
| App.SafeChar | app.py:118 | a kept character is allowed and unchanged; any other becomes '_' |
| App.Sanitized | app.py:118 | the comprehension keeps the length and maps each character by SafeChar |
| App.DownloadNameShape | app.py:118-120 | ends with '.md', keeps the sanitised name as its prefix, grows by 0 or 3 characters, and holds only allowed characters |
| App.SuffixAddedIffMissing | app.py:119-120 | '.md' is appended exactly when the name as sent does not end with it |
| App.DownloadNameIdempotent | app.py:118-120 | sanitising a download name again changes nothing |
| App.DefaultFilename | app.py:115 | a request without a filename downloads as recipe.md |
| App.Chars | app.py:118 | iterating over a string visits its characters as one-character strings |
| App.JoinSafeChars | app.py:118 | joining the sanitised characters of a string is sanitising the string |
| App.JoinSafeAllowed | app.py:118 | whatever the items, the joined name holds only allowed characters |
| App.DistinctKeysOf | app.py:118 | iterating over a dict visits every key it holds, each exactly once |
| App.StringFilename | app.py:115-120 | a string filename downloads under its sanitised, suffixed name |
| App.FilenameRaises | app.py:115-118 | the sanitiser raises exactly for a null, a boolean, a number, or a list holding a non-string |
| App.DownloadFileNameShape | app.py:115-120 | any name that is produced ends with '.md' and holds only allowed characters |
| App.SuffixedShape | app.py:119-120 | the suffix step ends the name with '.md', adding it only when missing |
| App.ListFilename | app.py:118 | the list ["ab", "c!"] downloads as "ab_.md" |
| App.ObjectFilename | app.py:118 | the dict {"x": 1} downloads as "x.md" |
| App.ValidateTranslate | app.py:50-61 | a 400 carries one of the two messages, and an accepted url holds the NYT Cooking domain |
| App.UrlChecks | app.py:51-56 | a blank url gives 'URL is required' before the domain is checked; a url without the domain gives the second message |
| App.AcceptedDefaults | app.py:58-61 | the cookie defaults to None, the two flags to true, and the language to TARGET_LANGUAGE or 'English' |
| App.Blank | app.py:59 | stripping '' gives '' |
| App.CookieStripped | app.py:59 | a blank cookie becomes None; another is kept, stripped |
| RecipeTranslator.UrlExit | recipe_translator.py:76-78 | exit status 1 exactly when the url lacks 'cooking.nytimes.com' |
| RecipeTranslator.KeepWordsAndSpaces | recipe_translator.py:128 | keeps only alphanumeric and whitespace characters, never lengthening |
| RecipeTranslator.SpacesToUnderscores | recipe_translator.py:129 | ' ' becomes '_' and every other character is kept |
| RecipeTranslator.KeptLength | recipe_translator.py:128 | one character out per alphanumeric or whitespace character in |
| RecipeTranslator.KeptFromInput | recipe_translator.py:128 | every kept character comes from the input |
| RecipeTranslator.KeepAppend | recipe_translator.py:128 | the filter works piecewise over a concatenation |
| RecipeTranslator.KeepAllKept | recipe_translator.py:128 | text of kept characters passes unchanged |
| RecipeTranslator.TitleFilenameShape | recipe_translator.py:127-130 | ends with '.md', has one character per kept title character, and holds no space and no upper-case letter |
| RecipeTranslator.OutputPath | recipe_translator.py:123-131 | a non-empty --output is the path; otherwise there is a path exactly when the title is a string (any other title raises at .lower()) |
| RecipeTranslator.DefaultPathUnderRecipes | recipe_translator.py:123-131 | without --output a string title gives a path under recipes/ that ends with '.md' |
| RecipeTranslator.TabSurvives | recipe_translator.py:128-129 | "a\tb c" gives "a\tb_c.md": only ' ' becomes '_' |
| RecipeTranslator.LowerPadThai | recipe_translator.py:127 | "Pad_Thai!" lower-cases to "pad_thai!" |
| RecipeTranslator.KeepPadThai | recipe_translator.py:128 | the filter turns "pad_thai!" into "padthai" |
| RecipeTranslator.PunctuationDropped | recipe_translator.py:127-130 | "Pad_Thai!" gives "padthai.md": punctuation, '_' included, is dropped |
| Text.Lower | recipe_translator.py:127 | str.lower keeps the length and lower-cases each letter |
| Text.Strip | app.py:51 | str.strip removes exactly the whitespace at both ends |
| Text.ContainsIff | app.py:55 | `sub in s` holds exactly when sub occurs at some position |
| Text.DigitsValueOfNatToString | auth.py:64 | reading back str(n) gives n |

## Left out

- Characters: letters, digits, `isalnum`, `\d`, `\w` and `lower()` are ASCII only. Python applies these to all of Unicode. `isspace` uses Python's own whitespace set.
- Floats: amounts and factors are exact rationals. Binary rounding, and `round` at ties produced by binary error, are not reproduced. Printed floats are modelled for values with at most two decimals only.
- `Json.Repr`: repr() of a value does no escaping inside strings.
- Json.Repr: an object with duplicate keys is printed with every pair. Python's dict keeps one entry per key, at the first key's position with the last value.
- Non-integer JSON numbers are not part of the JSON value type.
- File and process I/O are not modelled: `mkdir`, `open`, `json.dump`/`json.load`, `sys.exit`, `print`. Each store's file is a field. An unreadable or non-object file is one state.
- Password hashing: `generate_password_hash` results are parameters, including the seeded hash of 'admin123', which is salted at random. `check_password_hash` is a function parameter.
- Auth.UserStore.Get: the model treats any stored record as truthy. The file holds only well-formed records, so a record missing 'username', 'password' or 'role' (a KeyError) is not modelled.
- Auth.ParseInt: int() is modelled with surrounding whitespace, an optional sign and ASCII digits. Underscores and non-ASCII digits are not accepted.
- Timestamps are not modelled: `created_at`/`updated_at` and `datetime.utcnow`.
- The ORM and SQL are not modelled: sessions, commits, `to_dict`, `set_password`/`check_password` of the database user, and steps 1, 2, 4 and 5 of the multi-translation migration. A table is a sequence of rows and a query is a filter over it.
- MigrateShareable.RecipeFlags: the Recipe model in models.py declares no `is_shareable` column, so `hasattr` is false there. The model reads a missing attribute as None.
- Settings: the defaults dict is copied shallowly (settings.py:76, 84), so its language list is shared. This aliasing is not modelled; the model uses value semantics.
- Flask and argparse glue is not modelled: request decoding, responses, `send_file`, `os.getenv` (a parameter), and the scrape–convert–translate sequence. This covers the swallowed conversion failure of app.py:72-78 and the download's `content` field.
- App.DownloadFileName: when the sanitiser raises, the model gives None; the handler's except branch turns this into a 500 response, which is not modelled.
- The scraper's HTTP fetch and HTML parsing are not modelled: `scrape_recipe`, `_extract_json_ld`, `_extract_from_html`.
- The LLM clients (`groq_translator.py`, `mistral_translator.py`, `grok_translator.py`) call external services and are not modelled.
- UnitConverter.FractionToDecimal: float() is modelled only on `digits` and `digits.digits`, which is all the pattern's group 1 can hold (MatchAmountParses). Signs, exponents, surrounding spaces, "inf", "5.", ".5" and underscores are not modelled.
- UnitConverter.FractionOfWhole: inherits that reading of float(); texts float() accepts beyond the two literal forms give ValueError in the model.
- UnitConverter.ConvertText: its effect on concrete texts such as "1 to 2 cups" is not proved. The general lemmas cover copying, skipping, zero division and replacement. A range being consumed follows from MatchPrefixComplete and the amount being group 1.
