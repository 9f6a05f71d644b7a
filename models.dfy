/**
 * The database rows of models.py that carry behaviour: a recipe's translations and the
 * lookup of one by language code, the key/value settings table with its upsert, and the
 * two uniqueness constraints. A table is a sequence of rows in the order a query meets them.
 */
module Models {
  import opened Wrappers

  /** A recipe_translations row; the JSON ingredient and instruction columns keep their stored text. */
  datatype Translation = Translation(
    recipeId: int,
    languageCode: string,
    languageName: string,
    title: string,
    content: string,
    ingredients: Option<string>,
    instructions: Option<string>)

  /** The constraint uix_recipe_language: one translation per (recipe_id, language_code). */
  predicate UniqueTranslations(rows: seq<Translation>) {
    forall i, j :: 0 <= i < j < |rows| ==>
      (rows[i].recipeId, rows[i].languageCode) != (rows[j].recipeId, rows[j].languageCode)
  }

  /** recipe.translations: the rows whose recipe_id is the recipe's id, in table order. */
  function TranslationsOf(rows: seq<Translation>, recipeId: int): (r: seq<Translation>)
    ensures forall t :: t in r <==> t in rows && t.recipeId == recipeId
    ensures |r| <= |rows|
  {
    if |rows| == 0 then []
    else
      var front := TranslationsOf(rows[..|rows| - 1], recipeId);
      var last := rows[|rows| - 1];
      assert rows == rows[..|rows| - 1] + [last];
      if last.recipeId == recipeId then front + [last] else front
  }

  /** The translation get_translation returns: the first one with that language code. */
  function FirstTranslation(translations: seq<Translation>, code: string): (r: Option<Translation>)
    ensures r.None? <==> forall k :: 0 <= k < |translations| ==> translations[k].languageCode != code
    ensures r.Some? ==> r.value.languageCode == code
    ensures r.Some? ==>
      exists i :: 0 <= i < |translations| && translations[i] == r.value &&
        (forall k :: 0 <= k < i ==> translations[k].languageCode != code)
  {
    if |translations| == 0 then None
    else if translations[0].languageCode == code then Some(translations[0])
    else
      var r := FirstTranslation(translations[1..], code);
      assert forall k :: 0 <= k < |translations| - 1 ==> translations[1..][k] == translations[k + 1];
      if r.Some? then
        var i :| 0 <= i < |translations| - 1 && translations[1..][i] == r.value &&
          forall k :: 0 <= k < i ==> translations[1..][k].languageCode != code;
        assert translations[i + 1] == r.value;
        r
      else r
  }

  /** Recipe.get_translation: the loop with early return. */
  method GetTranslation(translations: seq<Translation>, code: string) returns (r: Option<Translation>)
    ensures r == FirstTranslation(translations, code)
  {
    var k := 0;
    while k < |translations|
      invariant k <= |translations|
      invariant FirstTranslation(translations, code) == FirstTranslation(translations[k..], code)
    {
      if translations[k].languageCode == code {
        return Some(translations[k]);
      }
      assert translations[k..][1..] == translations[k + 1..];
      k := k + 1;
    }
    return None;
  }

  /**
   * Under the unique constraint, the translation a recipe finds for a code is the row
   * stored for that (recipe, code), wherever in the table it sits.
   */
  lemma TranslationFound(rows: seq<Translation>, t: Translation)
    requires UniqueTranslations(rows)
    requires t in rows
    ensures FirstTranslation(TranslationsOf(rows, t.recipeId), t.languageCode) == Some(t)
  {
    var ts := TranslationsOf(rows, t.recipeId);
    var r := FirstTranslation(ts, t.languageCode);
    var j :| 0 <= j < |ts| && ts[j] == t;
    assert r.Some?;
    var u := r.value;
    assert u in rows && t in rows;
    var a :| 0 <= a < |rows| && rows[a] == u;
    var b :| 0 <= b < |rows| && rows[b] == t;
    assert (rows[a].recipeId, rows[a].languageCode) == (rows[b].recipeId, rows[b].languageCode);
    assert a == b;
  }

  /** Without a row for the code, get_translation is None. */
  lemma TranslationMissing(rows: seq<Translation>, recipeId: int, code: string)
    requires forall t :: t in rows && t.recipeId == recipeId ==> t.languageCode != code
    ensures FirstTranslation(TranslationsOf(rows, recipeId), code) == None
  {
    var ts := TranslationsOf(rows, recipeId);
    forall k | 0 <= k < |ts| ensures ts[k].languageCode != code {
      assert ts[k] in ts;
    }
  }

  /** A users row of the database model; role defaults to 'user'. */
  datatype User = User(id: int, username: string, passwordHash: string, role: string)

  function NewUser(id: int, username: string, passwordHash: string): User {
    User(id, username, passwordHash, "user")
  }

  /** User.is_admin. */
  predicate IsAdmin(u: User) {
    u.role == "admin"
  }

  /** A user created without a role is not an admin, and changing only the role to 'admin' makes one. */
  lemma DefaultRoleIsNotAdmin(id: int, username: string, passwordHash: string)
    ensures !IsAdmin(NewUser(id, username, passwordHash))
    ensures IsAdmin(NewUser(id, username, passwordHash).(role := "admin"))
  {
  }

  /** A settings row: its key and its nullable text value. */
  datatype Setting = Setting(key: string, value: Option<string>)

  /** The unique constraint on settings.key. */
  predicate UniqueKeys(rows: seq<Setting>) {
    forall i, j :: 0 <= i < j < |rows| ==> rows[i].key != rows[j].key
  }

  /** filter_by(key=key).first(): the index of the first row with the key. */
  function KeyIndex(rows: seq<Setting>, key: string): (r: Option<nat>)
    ensures r.Some? ==> r.value < |rows| && rows[r.value].key == key
    ensures r.Some? ==> forall k :: 0 <= k < r.value ==> rows[k].key != key
    ensures r.None? ==> forall k :: 0 <= k < |rows| ==> rows[k].key != key
  {
    if |rows| == 0 then None
    else if rows[0].key == key then Some(0)
    else
      match KeyIndex(rows[1..], key)
      case None => None
      case Some(k) => Some(k + 1)
  }

  /** Settings.get(key, default). */
  function Lookup(rows: seq<Setting>, key: string, default: Option<string>): (r: Option<string>)
    ensures (forall k :: 0 <= k < |rows| ==> rows[k].key != key) ==> r == default
    ensures UniqueKeys(rows) ==> forall k :: 0 <= k < |rows| && rows[k].key == key ==> r == rows[k].value
  {
    match KeyIndex(rows, key)
    case None => default
    case Some(i) =>
      assert UniqueKeys(rows) ==> forall k :: 0 <= k < |rows| && rows[k].key == key ==> k == i by {
        if UniqueKeys(rows) {
          forall k | 0 <= k < |rows| && rows[k].key == key ensures k == i {
            assert !(k < i);
            assert !(i < k);
          }
        }
      }
      rows[i].value
  }

  /** What Settings.set leaves in the table: the existing row overwritten, or one row added. */
  function Upsert(rows: seq<Setting>, key: string, value: Option<string>): seq<Setting> {
    match KeyIndex(rows, key)
    case Some(i) => rows[i := rows[i].(value := value)]
    case None => rows + [Setting(key, value)]
  }

  /** The settings table. */
  class SettingsTable {
    var rows: seq<Setting>

    predicate Valid()
      reads this
    {
      UniqueKeys(rows)
    }

    constructor ()
      ensures rows == []
      ensures Valid()
    {
      rows := [];
    }

    /** Settings.get. */
    method Get(key: string, default: Option<string>) returns (r: Option<string>)
      ensures r == Lookup(rows, key, default)
    {
      var i := KeyIndex(rows, key);
      if i.Some? {
        return rows[i.value].value;
      }
      return default;
    }

    /** Settings.set: returns the row now holding the key. */
    method Set(key: string, value: Option<string>) returns (setting: Setting)
      requires Valid()
      modifies this
      ensures Valid()
      ensures rows == Upsert(old(rows), key, value)
      ensures setting == Setting(key, value)
    {
      var i := KeyIndex(rows, key);
      if i.Some? {
        setting := rows[i.value].(value := value);
        rows := rows[i.value := setting];
      } else {
        setting := Setting(key, value);
        rows := rows + [setting];
      }
      UpsertKeepsKeysUnique(old(rows), key, value);
    }
  }

  /** The upsert never breaks the unique constraint. */
  lemma UpsertKeepsKeysUnique(rows: seq<Setting>, key: string, value: Option<string>)
    requires UniqueKeys(rows)
    ensures UniqueKeys(Upsert(rows, key, value))
  {
  }

  /**
   * set on a present key overwrites its row and adds none; on a new key it adds one row
   * at the end. Either way every other row is kept.
   */
  lemma UpsertRows(rows: seq<Setting>, key: string, value: Option<string>)
    ensures var r := Upsert(rows, key, value);
      ((exists k :: 0 <= k < |rows| && rows[k].key == key) ==> |r| == |rows|) &&
      ((forall k :: 0 <= k < |rows| ==> rows[k].key != key) ==> r == rows + [Setting(key, value)]) &&
      (forall k :: 0 <= k < |rows| && rows[k].key != key ==> r[k] == rows[k])
  {
  }

  /** After set(k, v), get(k) is v, and other keys read as before. */
  lemma SetThenGet(rows: seq<Setting>, key: string, value: Option<string>, default: Option<string>, other: string)
    requires UniqueKeys(rows)
    requires other != key
    ensures Lookup(Upsert(rows, key, value), key, default) == value
    ensures Lookup(Upsert(rows, key, value), other, default) == Lookup(rows, other, default)
  {
    var r := Upsert(rows, key, value);
    UpsertKeepsKeysUnique(rows, key, value);
    match KeyIndex(rows, key)
    case Some(i) =>
      assert r[i].key == key && r[i].value == value;
      assert forall k :: 0 <= k < |rows| && k != i ==> r[k] == rows[k];
    case None =>
      assert r[|rows|] == Setting(key, value);
      assert forall k :: 0 <= k < |rows| ==> r[k] == rows[k];
  }

  /** A second set on the same key wins: set(k, v) then set(k, v2) reads back v2, with one row for k. */
  lemma SetTwice(rows: seq<Setting>, key: string, v1: Option<string>, v2: Option<string>, default: Option<string>)
    requires UniqueKeys(rows)
    ensures Lookup(Upsert(Upsert(rows, key, v1), key, v2), key, default) == v2
    ensures |Upsert(Upsert(rows, key, v1), key, v2)| == |Upsert(rows, key, v1)|
  {
    UpsertKeepsKeysUnique(rows, key, v1);
    SetThenGet(Upsert(rows, key, v1), key, v2, default, key + "'");
    var r1 := Upsert(rows, key, v1);
    match KeyIndex(rows, key)
    case Some(i) =>
      assert r1[i].key == key;
    case None =>
      assert r1[|rows|].key == key;
  }
}
