/**
 * Application settings: a JSON object of six keys kept in one file. Every operation
 * loads the file first (filling in the default of any missing key), and the updating
 * operations write the whole object back.
 */
module Settings {
  import opened Wrappers
  import opened Text
  import opened Json

  // ------------------------------------------------------------------
  // The defaults
  // ------------------------------------------------------------------

  const DefaultLanguages: seq<string> := [
    "Spanish", "French", "German", "Italian", "Portuguese", "Chinese", "Japanese",
    "Korean", "Arabic", "Russian", "Dutch", "Swedish", "Polish", "Turkish", "English"]

  const DefaultTranslationPrompt: string :=
    "You are a professional recipe translator specializing in culinary translations. Translate the following recipe to {language}.\n" +
    "\n" +
    "**CRITICAL FORMATTING RULES:**\n" +
    "1. For ingredients lists: Use a dash (-) or bullet (•) at the start of EACH ingredient line\n" +
    "2. For instruction steps: Use numbered format (1., 2., 3., etc.) at the start of EACH step\n" +
    "3. Keep ONE blank line between sections (Ingredients, Instructions, etc.)\n" +
    "4. Keep markdown headers (## for sections like \"Ingrédients\" and \"Instructions\")\n" +
    "\n" +
    "**Translation Guidelines:**\n" +
    "5. Translate ALL text naturally and idiomatically in {language}\n" +
    "6. Keep ALL numbers and measurements in parentheses EXACTLY as shown (already converted to metric)\n" +
    "7. Translate cooking terms accurately (sauté, blanch, fold, etc.)\n" +
    "8. Use proper culinary vocabulary in {language}\n" +
    "\n" +
    "**Example Format:**\n" +
    "## Ingrédients\n" +
    "\n" +
    "- First ingredient here\n" +
    "- Second ingredient here\n" +
    "- Third ingredient here\n" +
    "\n" +
    "## Instructions\n" +
    "\n" +
    "1. First step of instructions here.\n" +
    "2. Second step here.\n" +
    "3. Third step here.\n" +
    "\n" +
    "**Important:** Provide ONLY the translated recipe. No preamble, no explanations.\n" +
    "\n" +
    "---\n" +
    "\n" +
    "{recipe_text}\n" +
    "\n" +
    "---\n" +
    "\n" +
    "Translated recipe:"

  const DefaultSystemPrompt: string :=
    "You are a professional recipe translator. Translate recipes accurately while preserving all formatting and measurements."

  /** The default keys in the order DEFAULT_SETTINGS lists them. */
  const DefaultKeys: seq<string> :=
    ["languages", "translation_prompt", "system_prompt", "ai_provider", "ai_model", "nyt_cookie"]

  function Strings(names: seq<string>): (r: seq<Json>)
    ensures |r| == |names| && forall i :: 0 <= i < |names| ==> r[i] == JStr(names[i])
  {
    seq(|names|, i requires 0 <= i < |names| => JStr(names[i]))
  }

  const Defaults: map<string, Json> := map[
    "languages" := JArr(Strings(DefaultLanguages)),
    "translation_prompt" := JStr(DefaultTranslationPrompt),
    "system_prompt" := JStr(DefaultSystemPrompt),
    "ai_provider" := JStr("mistral"),
    "ai_model" := JStr("open-mistral-nemo"),
    "nyt_cookie" := JStr("")]

  lemma DefaultKeysAreDefaults()
    ensures forall key :: key in DefaultKeys <==> key in Defaults
  {
  }

  // ------------------------------------------------------------------
  // The file and load_settings
  // ------------------------------------------------------------------

  /** The settings file: absent, unreadable (or not a JSON object), or holding an object. */
  datatype SettingsFile = Missing | Corrupt | Stored(settings: map<string, Json>)

  /** What load_settings returns: the stored object with every missing default filled in. */
  function Loaded(f: SettingsFile): (s: map<string, Json>)
    ensures Defaults.Keys <= s.Keys
  {
    if f.Stored? then Defaults + f.settings else Defaults
  }

  /** The file after load_settings: a missing file is created holding the defaults. */
  function AfterLoad(f: SettingsFile): SettingsFile {
    if f.Missing? then Stored(Defaults) else f
  }

  /** What the Python exceptions here are about. */
  datatype SettingsError = TypeError | AttributeError

  /** Python's `language in value` for the value stored under 'languages'; None when it raises. */
  function LanguageIn(language: string, value: Json): Option<bool> {
    match value
    case JArr(items) => Some(JStr(language) in items)
    case JStr(s) => Some(Contains(s, language))
    case JObj(fields) => Some(HasKey(fields, language))
    case _ => None
  }

  predicate AllStrings(items: seq<Json>) {
    forall i :: 0 <= i < |items| ==> items[i].JStr?
  }

  function Names(items: seq<Json>): (r: seq<string>)
    requires AllStrings(items)
    ensures |r| == |items| && forall i :: 0 <= i < |items| ==> items[i] == JStr(r[i])
  {
    seq(|items|, i requires 0 <= i < |items| => items[i].s)
  }

  // ------------------------------------------------------------------
  // list.sort() on strings: code-point order
  // ------------------------------------------------------------------

  /** Python's `a <= b` on strings. */
  predicate LexLe(a: string, b: string) {
    |a| == 0 || (|b| > 0 && (a[0] < b[0] || (a[0] == b[0] && LexLe(a[1..], b[1..]))))
  }

  lemma {:induction false} LexLeTotal(a: string, b: string)
    ensures LexLe(a, b) || LexLe(b, a)
  {
    if |a| > 0 && |b| > 0 && a[0] == b[0] {
      LexLeTotal(a[1..], b[1..]);
    }
  }

  lemma {:induction false} LexLeTrans(a: string, b: string, c: string)
    requires LexLe(a, b) && LexLe(b, c)
    ensures LexLe(a, c)
  {
    if |a| > 0 && a[0] == b[0] && b[0] == c[0] {
      LexLeTrans(a[1..], b[1..], c[1..]);
    }
  }

  lemma {:induction false} LexLeAntisym(a: string, b: string)
    requires LexLe(a, b) && LexLe(b, a)
    ensures a == b
  {
    if |a| > 0 {
      LexLeAntisym(a[1..], b[1..]);
      assert a == [a[0]] + a[1..] && b == [b[0]] + b[1..];
    }
  }

  predicate SortedNames(xs: seq<string>) {
    forall i, j :: 0 <= i < j < |xs| ==> LexLe(xs[i], xs[j])
  }

  function Insert(x: string, xs: seq<string>): (r: seq<string>)
    ensures multiset(r) == multiset(xs) + multiset{x}
    ensures |r| == |xs| + 1
    ensures forall y :: y in r ==> y == x || y in xs
  {
    if |xs| == 0 then [x]
    else if LexLe(x, xs[0]) then [x] + xs
    else
      assert xs == [xs[0]] + xs[1..];
      [xs[0]] + Insert(x, xs[1..])
  }

  lemma {:induction false} InsertSorted(x: string, xs: seq<string>)
    requires SortedNames(xs)
    ensures SortedNames(Insert(x, xs))
  {
    if |xs| > 0 && LexLe(x, xs[0]) {
      var r := Insert(x, xs);
      forall i, j | 0 <= i < j < |r| ensures LexLe(r[i], r[j]) {
        if i == 0 && j > 1 {
          LexLeTrans(x, xs[0], xs[j - 1]);
        }
      }
    } else if |xs| > 0 {
      var tail := xs[1..];
      InsertSorted(x, tail);
      var t := Insert(x, tail);
      var r := Insert(x, xs);
      assert r == [xs[0]] + t;
      LexLeTotal(x, xs[0]);
      forall j | 0 <= j < |t| ensures LexLe(xs[0], t[j]) {
        assert t[j] in t;
        if t[j] != x {
          var k :| 0 <= k < |tail| && tail[k] == t[j];
          assert xs[k + 1] == t[j];
        }
      }
      forall i, j | 0 <= i < j < |r| ensures LexLe(r[i], r[j]) {
        if i == 0 {
          assert r[j] == t[j - 1];
        } else {
          assert r[i] == t[i - 1] && r[j] == t[j - 1];
        }
      }
    }
  }

  /** list.sort(): the names in ascending code-point order. */
  function SortNames(xs: seq<string>): (r: seq<string>)
    ensures SortedNames(r) && multiset(r) == multiset(xs)
  {
    if |xs| == 0 then []
    else
      assert xs == [xs[0]] + xs[1..];
      InsertSorted(xs[0], SortNames(xs[1..]));
      Insert(xs[0], SortNames(xs[1..]))
  }

  lemma SortedHeadIsLeast(xs: seq<string>, y: string)
    requires SortedNames(xs) && y in xs
    ensures LexLe(xs[0], y)
  {
    var i :| 0 <= i < |xs| && xs[i] == y;
    if i == 0 {
      LexLeTotal(y, y);
    }
  }

  /** A sorted arrangement of given names is the only one: sorting does not depend on the order it starts from. */
  lemma {:induction false} SortedUnique(xs: seq<string>, ys: seq<string>)
    requires SortedNames(xs) && SortedNames(ys) && multiset(xs) == multiset(ys)
    ensures xs == ys
    decreases |xs|
  {
    assert |xs| == |multiset(xs)| == |ys|;
    if |xs| > 0 {
      SortedHeadsEqual(xs, ys);
      TailMultisets(xs, ys);
      SortedUnique(xs[1..], ys[1..]);
      assert xs == [xs[0]] + xs[1..] && ys == [ys[0]] + ys[1..];
    }
  }

  /** Two sorted arrangements of the same names start with the same name. */
  lemma SortedHeadsEqual(xs: seq<string>, ys: seq<string>)
    requires SortedNames(xs) && SortedNames(ys) && multiset(xs) == multiset(ys) && |xs| > 0
    ensures |ys| > 0 && xs[0] == ys[0]
  {
    assert xs[0] in multiset(ys);
    assert |ys| > 0;
    assert ys[0] in multiset(xs);
    SortedHeadIsLeast(ys, xs[0]);
    SortedHeadIsLeast(xs, ys[0]);
    LexLeAntisym(xs[0], ys[0]);
  }

  /** Removing the same first name from two arrangements of the same names leaves equal multisets. */
  lemma TailMultisets(xs: seq<string>, ys: seq<string>)
    requires |xs| > 0 && |ys| > 0 && xs[0] == ys[0] && multiset(xs) == multiset(ys)
    ensures multiset(xs[1..]) == multiset(ys[1..])
  {
    assert xs == [xs[0]] + xs[1..] && ys == [ys[0]] + ys[1..];
    assert multiset(xs) == multiset{xs[0]} + multiset(xs[1..]);
    assert multiset(ys) == multiset{ys[0]} + multiset(ys[1..]);
    assert multiset(xs[1..]) == multiset(xs) - multiset{xs[0]};
    assert multiset(ys[1..]) == multiset(ys) - multiset{ys[0]};
  }

  // ------------------------------------------------------------------
  // The operations, as functions of the file
  // ------------------------------------------------------------------

  /**
   * add_language on the loaded settings: its result, and the settings it saves (None
   * when it saves nothing).
   */
  function AddToLanguages(s: map<string, Json>, language: string): (Result<bool, SettingsError>, Option<map<string, Json>>)
    requires "languages" in s
  {
    var value := s["languages"];
    if |language| == 0 then (Success(false), None)
    else match LanguageIn(language, value)
      case None => (Failure(TypeError), None)
      case Some(true) => (Success(false), None)
      case Some(false) =>
        if !value.JArr? then (Failure(AttributeError), None)
        else if !AllStrings(value.items) then (Failure(TypeError), None)
        else (Success(true), Some(s["languages" := JArr(Strings(SortNames(Names(value.items) + [language])))]))
  }

  /** The position of the first entry equal to x. */
  function FirstIndex(items: seq<Json>, x: Json): (k: nat)
    requires x in items
    ensures k < |items| && items[k] == x && x !in items[..k]
  {
    if items[0] == x then 0 else 1 + FirstIndex(items[1..], x)
  }

  /** remove_language on the loaded settings: its result and the settings it saves. */
  function RemoveFromLanguages(s: map<string, Json>, language: string): (Result<bool, SettingsError>, Option<map<string, Json>>)
    requires "languages" in s
  {
    var value := s["languages"];
    match LanguageIn(language, value)
    case None => (Failure(TypeError), None)
    case Some(found) =>
      if !found || language == "English" then (Success(false), None)
      else if !value.JArr? then (Failure(AttributeError), None)
      else
        var k := FirstIndex(value.items, JStr(language));
        (Success(true), Some(s["languages" := JArr(value.items[..k] + value.items[k + 1..])]))
  }

  /** The file after an operation that loads and then saves what it computed, if anything. */
  function Written(f: SettingsFile, saved: Option<map<string, Json>>): SettingsFile {
    if saved.Some? then Stored(saved.value) else AfterLoad(f)
  }

  /** The update_* functions: the loaded settings with one key replaced, written back. */
  function UpdateOutcome(f: SettingsFile, key: string, value: Json): SettingsFile {
    Stored(Loaded(f)[key := value])
  }

  // ------------------------------------------------------------------
  // The settings file as a mutable store
  // ------------------------------------------------------------------

  class SettingsStore {
    var file: SettingsFile

    constructor (initial: SettingsFile)
      ensures file == initial
    {
      file := initial;
    }

    /** The loop of load_settings: each default key missing from the stored object is added. */
    static method MergeDefaults(stored: map<string, Json>, defaults: map<string, Json>, keys: seq<string>)
      returns (settings: map<string, Json>)
      requires forall key :: key in keys <==> key in defaults
      ensures settings == defaults + stored
    {
      settings := stored;
      for k := 0 to |keys|
        invariant forall key :: key in settings <==> key in stored || key in keys[..k]
        invariant forall key :: key in stored ==> settings[key] == stored[key]
        invariant forall key :: key in settings && key !in stored ==> settings[key] == defaults[key]
      {
        var key := keys[k];
        assert keys[..k + 1] == keys[..k] + [key];
        if key !in settings {
          settings := settings[key := defaults[key]];
        }
      }
      assert keys[..|keys|] == keys;
      assert settings.Keys == (defaults + stored).Keys;
    }

    method Save(settings: map<string, Json>)
      modifies this
      ensures file == Stored(settings)
    {
      file := Stored(settings);
    }

    method Load() returns (settings: map<string, Json>)
      modifies this
      ensures settings == Loaded(old(file)) && file == AfterLoad(old(file))
    {
      if file.Missing? {
        Save(Defaults);
        return Defaults;
      }
      if file.Corrupt? {
        return Defaults;
      }
      DefaultKeysAreDefaults();
      settings := MergeDefaults(file.settings, Defaults, DefaultKeys);
    }

    /** settings.get(key, DEFAULT_SETTINGS[key]) after a load, for a default key. */
    method GetSetting(key: string) returns (value: Json)
      requires key in Defaults
      modifies this
      ensures value == Loaded(old(file))[key] && file == AfterLoad(old(file))
    {
      var settings := Load();
      // The default of settings.get never applies: the load filled in every default key.
      value := settings[key];
    }

    method UpdateSetting(key: string, value: Json)
      modifies this
      ensures file == UpdateOutcome(old(file), key, value)
    {
      var settings := Load();
      settings := settings[key := value];
      Save(settings);
    }

    method GetLanguages() returns (value: Json)
      modifies this
      ensures value == Loaded(old(file))["languages"] && file == AfterLoad(old(file))
    {
      value := GetSetting("languages");
    }

    method GetTranslationPrompt() returns (value: Json)
      modifies this
      ensures value == Loaded(old(file))["translation_prompt"] && file == AfterLoad(old(file))
    {
      value := GetSetting("translation_prompt");
    }

    method GetSystemPrompt() returns (value: Json)
      modifies this
      ensures value == Loaded(old(file))["system_prompt"] && file == AfterLoad(old(file))
    {
      value := GetSetting("system_prompt");
    }

    method GetAiModel() returns (value: Json)
      modifies this
      ensures value == Loaded(old(file))["ai_model"] && file == AfterLoad(old(file))
    {
      value := GetSetting("ai_model");
    }

    method GetNytCookie() returns (value: Json)
      modifies this
      ensures value == Loaded(old(file))["nyt_cookie"] && file == AfterLoad(old(file))
    {
      value := GetSetting("nyt_cookie");
    }

    method GetAiProvider() returns (value: Json)
      modifies this
      ensures value == Loaded(old(file))["ai_provider"] && file == AfterLoad(old(file))
    {
      value := GetSetting("ai_provider");
    }

    method UpdateTranslationPrompt(prompt: Json)
      modifies this
      ensures file == UpdateOutcome(old(file), "translation_prompt", prompt)
    {
      UpdateSetting("translation_prompt", prompt);
    }

    method UpdateSystemPrompt(prompt: Json)
      modifies this
      ensures file == UpdateOutcome(old(file), "system_prompt", prompt)
    {
      UpdateSetting("system_prompt", prompt);
    }

    method UpdateAiModel(model: Json)
      modifies this
      ensures file == UpdateOutcome(old(file), "ai_model", model)
    {
      UpdateSetting("ai_model", model);
    }

    method UpdateNytCookie(cookie: Json)
      modifies this
      ensures file == UpdateOutcome(old(file), "nyt_cookie", cookie)
    {
      UpdateSetting("nyt_cookie", cookie);
    }

    method UpdateAiProvider(provider: Json)
      modifies this
      ensures file == UpdateOutcome(old(file), "ai_provider", provider)
    {
      UpdateSetting("ai_provider", provider);
    }

    method ResetToDefaults()
      modifies this
      ensures file == Stored(Defaults)
    {
      Save(Defaults);
    }

    method AddLanguage(language: string) returns (r: Result<bool, SettingsError>)
      modifies this
      ensures var o := AddToLanguages(Loaded(old(file)), language);
        r == o.0 && file == Written(old(file), o.1)
    {
      var settings := Load();
      var value := settings["languages"];
      if |language| == 0 {
        return Success(false);
      }
      var found := LanguageIn(language, value);
      if found.None? {
        return Failure(TypeError);
      }
      if found.value {
        return Success(false);
      }
      if !value.JArr? {
        return Failure(AttributeError);
      }
      var items := value.items + [JStr(language)];
      if !AllStrings(value.items) {
        return Failure(TypeError);
      }
      assert Names(items) == Names(value.items) + [language];
      settings := settings["languages" := JArr(Strings(SortNames(Names(items))))];
      Save(settings);
      return Success(true);
    }

    method RemoveLanguage(language: string) returns (r: Result<bool, SettingsError>)
      modifies this
      ensures var o := RemoveFromLanguages(Loaded(old(file)), language);
        r == o.0 && file == Written(old(file), o.1)
    {
      var settings := Load();
      var value := settings["languages"];
      var found := LanguageIn(language, value);
      if found.None? {
        return Failure(TypeError);
      }
      if !found.value || language == "English" {
        return Success(false);
      }
      if !value.JArr? {
        return Failure(AttributeError);
      }
      var k := FirstIndex(value.items, JStr(language));
      settings := settings["languages" := JArr(value.items[..k] + value.items[k + 1..])];
      Save(settings);
      return Success(true);
    }
  }

  // ------------------------------------------------------------------
  // Properties
  // ------------------------------------------------------------------

  /** After a load every default key is present, and stored keys keep their stored values. */
  lemma LoadedKeepsStored(f: SettingsFile, key: string)
    ensures key in Defaults ==> key in Loaded(f)
    ensures f.Stored? && key in f.settings ==> Loaded(f)[key] == f.settings[key]
    ensures (!f.Stored? || key !in f.settings) && key in Defaults ==> Loaded(f)[key] == Defaults[key]
    ensures key in Loaded(f) ==> key in Defaults || (f.Stored? && key in f.settings)
  {
  }

  /** After reset_to_defaults every getter returns its default. */
  lemma ResetGivesDefaults()
    ensures Loaded(Stored(Defaults)) == Defaults
  {
    assert Defaults + Defaults == Defaults;
  }

  /** An update sets exactly one key and leaves every other loaded value as it was. */
  lemma UpdateSetsOneKey(f: SettingsFile, key: string, value: Json, other: string)
    ensures Loaded(UpdateOutcome(f, key, value))[key] == value
    ensures other != key && other in Loaded(f) ==> Loaded(UpdateOutcome(f, key, value))[other] == Loaded(f)[other]
    ensures Loaded(UpdateOutcome(f, key, value)).Keys == Loaded(f).Keys + {key}
  {
  }

  /** add_language saves only when it returns True, and refuses an empty name. */
  lemma AddLanguageRefusal(s: map<string, Json>, language: string)
    requires "languages" in s
    ensures AddToLanguages(s, language).0 == Success(true) <==> AddToLanguages(s, language).1.Some?
    ensures |language| == 0 ==> AddToLanguages(s, language).0 == Success(false)
    ensures LanguageIn(language, s["languages"]) == Some(true) ==> AddToLanguages(s, language) == (Success(false), None)
  {
  }

  /**
   * A successful add_language saves a sorted list of strings holding the old names and the
   * new one, and every other key unchanged.
   */
  lemma AddLanguageAdds(s: map<string, Json>, language: string)
    requires "languages" in s && AddToLanguages(s, language).0 == Success(true)
    ensures var saved := AddToLanguages(s, language).1;
      var before := s["languages"];
      && saved.Some? && saved.value.Keys == s.Keys
      && (forall key :: key in s && key != "languages" ==> saved.value[key] == s[key])
      && before.JArr? && AllStrings(before.items) && JStr(language) !in before.items && |language| > 0
      && saved.value["languages"].JArr? && AllStrings(saved.value["languages"].items)
      && SortedNames(Names(saved.value["languages"].items))
      && multiset(Names(saved.value["languages"].items)) == multiset(Names(before.items)) + multiset{language}
  {
    var names := SortNames(Names(s["languages"].items) + [language]);
    assert Names(Strings(names)) == names;
  }

  /** Adding a language a second time returns False and saves nothing. */
  lemma AddLanguageTwice(s: map<string, Json>, language: string)
    requires "languages" in s && AddToLanguages(s, language).0 == Success(true)
    ensures var saved := AddToLanguages(s, language).1.value;
      AddToLanguages(saved, language) == (Success(false), None)
  {
    AddLanguageAdds(s, language);
    var saved := AddToLanguages(s, language).1.value;
    var items := saved["languages"].items;
    assert JStr(language) in items by {
      assert language in multiset(Names(items));
      var i :| 0 <= i < |items| && Names(items)[i] == language;
      assert items[i] == JStr(language);
    }
  }

  /** Loading an object that already holds every default key gives the object itself. */
  lemma LoadedComplete(m: map<string, Json>)
    requires Defaults.Keys <= m.Keys
    ensures Loaded(Stored(m)) == m
  {
  }

  /** Over the file: once add_language has returned True, calling it again changes nothing. */
  lemma AddLanguageTwiceOnFile(f: SettingsFile, language: string)
    requires AddToLanguages(Loaded(f), language).0 == Success(true)
    ensures var after := Written(f, AddToLanguages(Loaded(f), language).1);
      var again := AddToLanguages(Loaded(after), language);
      again.0 == Success(false) && Written(after, again.1) == after
  {
    var saved := AddToLanguages(Loaded(f), language).1.value;
    AddLanguageAdds(Loaded(f), language);
    LoadedComplete(saved);
    AddLanguageTwice(Loaded(f), language);
  }

  /** remove_language never removes 'English', returns False for an absent name, and saves only on True. */
  lemma RemoveLanguageRefusal(s: map<string, Json>, language: string)
    requires "languages" in s
    ensures language == "English" ==> RemoveFromLanguages(s, language).0 != Success(true)
    ensures LanguageIn(language, s["languages"]) == Some(false) ==> RemoveFromLanguages(s, language) == (Success(false), None)
    ensures RemoveFromLanguages(s, language).0 == Success(true) <==> RemoveFromLanguages(s, language).1.Some?
  {
  }

  /** A successful remove_language drops exactly the first occurrence of the name and keeps every other key. */
  lemma RemoveLanguageRemoves(s: map<string, Json>, language: string)
    requires "languages" in s && RemoveFromLanguages(s, language).0 == Success(true)
    ensures var saved := RemoveFromLanguages(s, language).1;
      var before := s["languages"];
      && language != "English"
      && saved.Some? && saved.value.Keys == s.Keys
      && (forall key :: key in s && key != "languages" ==> saved.value[key] == s[key])
      && before.JArr? && saved.value["languages"].JArr?
      && |saved.value["languages"].items| + 1 == |before.items|
      && multiset(saved.value["languages"].items) + multiset{JStr(language)} == multiset(before.items)
      && exists k :: 0 <= k < |before.items| && JStr(language) !in before.items[..k]
           && saved.value["languages"].items == before.items[..k] + before.items[k + 1..]
  {
    var items := s["languages"].items;
    var k := FirstIndex(items, JStr(language));
    assert items == items[..k] + [items[k]] + items[k + 1..];
  }
}
