/**
 * Step 3 of migrate_to_multi_translation.py: every recipe that still carries a translation in
 * its old single-translation columns gets a recipe_translations row, unless a row for that
 * (recipe, language code) already exists. The language column is mapped to a code and a
 * name by get_language_info.
 */
module MigrateMultiTranslation {
  import opened Wrappers
  import opened Text
  import opened Models

  /** LANGUAGE_MAP, in its insertion order. */
  const LanguageMap: seq<(string, (string, string))> := [
    ("Spanish", ("es", "Spanish")),
    ("French", ("fr", "French")),
    ("English", ("en", "English"))
  ]

  const DefaultInfo: (string, string) := ("es", "Spanish")

  /** The first map entry whose lower-cased key occurs in `lowered`. */
  function FirstKeyIn(entries: seq<(string, (string, string))>, lowered: string): (r: Option<(string, string)>)
    ensures r.Some? ==> exists i :: 0 <= i < |entries| && entries[i].1 == r.value && Contains(lowered, Lower(entries[i].0))
  {
    if |entries| == 0 then None
    else if Contains(lowered, Lower(entries[0].0)) then Some(entries[0].1)
    else
      var r := FirstKeyIn(entries[1..], lowered);
      if r.Some? then
        var i :| 0 <= i < |entries| - 1 && entries[1..][i].1 == r.value && Contains(lowered, Lower(entries[1..][i].0));
        assert entries[i + 1] == entries[1..][i];
        r
      else r
  }

  /** get_language_info; None and the empty string are the falsy inputs. */
  function LanguageInfo(language: Option<string>): (string, string) {
    if language.None? || language.value == "" then DefaultInfo
    else FirstKeyIn(LanguageMap, Lower(language.value)).GetOr(DefaultInfo)
  }

  lemma LowerKeys()
    ensures Lower("Spanish") == "spanish"
    ensures Lower("French") == "french"
    ensures Lower("English") == "english"
  {
  }

  /** The language name a lookup matches on: the lower-cased string contains the key. */
  predicate Names(language: string, key: string) {
    Contains(Lower(language), key)
  }

  /**
   * Which code get_language_info picks: Spanish wins whenever it is named, French when it is
   * named without Spanish, English only when neither is named, and Spanish when nothing is.
   */
  lemma LanguageInfoChoice(language: Option<string>)
    ensures var r := LanguageInfo(language);
      var named := language.Some? && language.value != "";
      (r == ("fr", "French") <==> named && !Names(language.value, "spanish") && Names(language.value, "french")) &&
      (r == ("en", "English") <==>
        named && !Names(language.value, "spanish") && !Names(language.value, "french") && Names(language.value, "english")) &&
      (r == ("es", "Spanish") <==>
        !named || Names(language.value, "spanish") ||
        (!Names(language.value, "french") && !Names(language.value, "english")))
  {
    LowerKeys();
    if language.Some? && language.value != "" {
      var lowered := Lower(language.value);
      var l1, l2 := LanguageMap[1..], LanguageMap[1..][1..];
      assert l1 == [("French", ("fr", "French")), ("English", ("en", "English"))];
      assert l2 == [("English", ("en", "English"))];
      assert l2[1..] == [];
      assert FirstKeyIn(l2, lowered) == if Contains(lowered, "english") then Some(("en", "English")) else None;
      assert FirstKeyIn(l1, lowered) ==
        if Contains(lowered, "french") then Some(("fr", "French")) else FirstKeyIn(l2, lowered);
      assert FirstKeyIn(LanguageMap, lowered) ==
        if Contains(lowered, "spanish") then Some(("es", "Spanish")) else FirstKeyIn(l1, lowered);
    }
  }

  /** The result is always one of the map's values. */
  lemma LanguageInfoInMap(language: Option<string>)
    ensures exists i :: 0 <= i < |LanguageMap| && LanguageInfo(language) == LanguageMap[i].1
  {
    LanguageInfoChoice(language);
    assert LanguageMap[0].1 == ("es", "Spanish");
    assert LanguageMap[1].1 == ("fr", "French");
    assert LanguageMap[2].1 == ("en", "English");
  }

  lemma LowerFrenchCanada()
    ensures Lower("French (Canada)") == "french (canada)"
  {
  }

  /** A name that mentions only French maps to French. */
  lemma FrenchCanada()
    ensures LanguageInfo(Some("French (Canada)")) == ("fr", "French")
  {
    var s := "french (canada)";
    LowerFrenchCanada();
    FirstCharAbsent(s, "spanish");
    assert s[0..6] == "french";
    LanguageInfoChoice(Some("French (Canada)"));
  }

  /** When two keys occur, the one earlier in the map wins. */
  lemma SpanishBeforeFrench()
    ensures LanguageInfo(Some("spanish/french")) == ("es", "Spanish")
  {
    var s := "spanish/french";
    assert Lower(s) == s;
    assert s[0..7] == "spanish";
    LanguageInfoChoice(Some(s));
  }

  /** A row of the step-3 query: a recipe whose title_translated is set and non-empty. */
  datatype TranslatedRecipe = TranslatedRecipe(
    id: int,
    title: string,
    content: Option<string>,
    ingredients: Option<string>,
    instructions: Option<string>,
    language: Option<string>)

  /** A recipes row with its old translation columns. */
  datatype OldRecipe = OldRecipe(
    id: int,
    titleTranslated: Option<string>,
    contentTranslated: Option<string>,
    ingredientsTranslated: Option<string>,
    instructionsTranslated: Option<string>,
    language: Option<string>)

  /** The WHERE clause of step 3: title_translated is set and not empty. */
  predicate HasOldTranslation(o: OldRecipe) {
    o.titleTranslated.Some? && o.titleTranslated.value != ""
  }

  /** The six columns the step-3 query reads from a recipe it selects. */
  function RowOf(o: OldRecipe): TranslatedRecipe
    requires HasOldTranslation(o)
  {
    TranslatedRecipe(o.id, o.titleTranslated.value, o.contentTranslated,
      o.ingredientsTranslated, o.instructionsTranslated, o.language)
  }

  /** The SELECT ... WHERE title_translated IS NOT NULL AND title_translated != '' of step 3. */
  function Selected(recipes: seq<OldRecipe>): (r: seq<TranslatedRecipe>)
    ensures |r| <= |recipes|
    ensures forall k :: 0 <= k < |r| ==> r[k].title != ""
  {
    if |recipes| == 0 then []
    else
      var front := Selected(recipes[..|recipes| - 1]);
      var o := recipes[|recipes| - 1];
      if HasOldTranslation(o) then front + [RowOf(o)] else front
  }

  /** A single recipe is selected, with its columns, exactly when it has an old translation. */
  lemma SelectedOne(o: OldRecipe)
    ensures Selected([o]) == if HasOldTranslation(o) then [RowOf(o)] else []
  {
    assert [o][..0] == [];
  }

  /** The query keeps table order: selecting from a + b selects from a, then from b. */
  lemma {:induction false} SelectedAppend(a: seq<OldRecipe>, b: seq<OldRecipe>)
    ensures Selected(a + b) == Selected(a) + Selected(b)
    decreases |b|
  {
    if |b| == 0 {
      assert a + b == a;
    } else {
      var b' := b[..|b| - 1];
      assert (a + b)[..|a + b| - 1] == a + b';
      SelectedAppend(a, b');
    }
  }

  /** The selected rows are exactly the rows of the recipes that have an old translation. */
  lemma {:induction false} SelectedMembers(recipes: seq<OldRecipe>)
    ensures forall x :: x in Selected(recipes) <==>
      exists i :: 0 <= i < |recipes| && HasOldTranslation(recipes[i]) && x == RowOf(recipes[i])
  {
    if |recipes| > 0 {
      var n := |recipes| - 1;
      var front := recipes[..n];
      SelectedMembers(front);
      forall x ensures x in Selected(recipes) <==>
        exists i :: 0 <= i < |recipes| && HasOldTranslation(recipes[i]) && x == RowOf(recipes[i])
      {
        if x in Selected(front) {
          var i :| 0 <= i < |front| && HasOldTranslation(front[i]) && x == RowOf(front[i]);
          assert recipes[i] == front[i];
        }
        if exists i :: 0 <= i < |recipes| && HasOldTranslation(recipes[i]) && x == RowOf(recipes[i]) {
          var i :| 0 <= i < |recipes| && HasOldTranslation(recipes[i]) && x == RowOf(recipes[i]);
          if i < n {
            assert recipes[i] == front[i];
          }
        }
      }
    }
  }

  /** `row[5] or 'Spanish'`: a null or empty language becomes 'Spanish', any other is kept. */
  function RowLanguage(row: TranslatedRecipe): (l: string)
    ensures l != ""
    ensures row.language.None? || row.language == Some("") ==> l == "Spanish"
    ensures row.language.Some? && row.language.value != "" ==> l == row.language.value
  {
    if row.language.Some? && row.language.value != "" then row.language.value else "Spanish"
  }

  function RowCode(row: TranslatedRecipe): string {
    LanguageInfo(Some(RowLanguage(row))).0
  }

  /**
   * The translation row inserted for a recipe: its id, the code and name get_language_info
   * gives for its language, its title, its content with null as '', and its ingredients and
   * instructions as they are.
   */
  function NewTranslation(row: TranslatedRecipe): (t: Translation)
    ensures t.recipeId == row.id && t.languageCode == RowCode(row)
    ensures t.languageName == LanguageInfo(Some(RowLanguage(row))).1
    ensures t.title == row.title
    ensures row.content.None? ==> t.content == ""
    ensures row.content.Some? ==> t.content == row.content.value
    ensures t.ingredients == row.ingredients && t.instructions == row.instructions
  {
    var info := LanguageInfo(Some(RowLanguage(row)));
    Translation(row.id, info.0, info.1, row.title, row.content.GetOr(""), row.ingredients, row.instructions)
  }

  /** The SELECT of the existence check. */
  predicate HasTranslation(table: seq<Translation>, recipeId: int, code: string) {
    exists k :: 0 <= k < |table| && table[k].recipeId == recipeId && table[k].languageCode == code
  }

  /** The table and migration_count after the loop has handled `rows`, in order. */
  function Migrated(rows: seq<TranslatedRecipe>, table: seq<Translation>): (seq<Translation>, nat) {
    if |rows| == 0 then (table, 0)
    else
      var before := Migrated(rows[..|rows| - 1], table);
      var row := rows[|rows| - 1];
      if HasTranslation(before.0, row.id, RowCode(row)) then before
      else (before.0 + [NewTranslation(row)], before.1 + 1)
  }

  /** Handling one more row extends the table by that row's translation unless it is present. */
  lemma MigratedStep(rows: seq<TranslatedRecipe>, k: nat, table: seq<Translation>,
                     result: seq<Translation>, count: nat)
    requires k < |rows| && (result, count) == Migrated(rows[..k], table)
    ensures Migrated(rows[..k + 1], table) ==
      if HasTranslation(result, rows[k].id, RowCode(rows[k])) then (result, count)
      else (result + [NewTranslation(rows[k])], count + 1)
  {
    assert rows[..k + 1][..k] == rows[..k];
  }

  /** The step-3 loop, inserting into and counting against the translations table. */
  method CopyTranslations(rows: seq<TranslatedRecipe>, table: seq<Translation>)
    returns (result: seq<Translation>, migrationCount: nat)
    ensures (result, migrationCount) == Migrated(rows, table)
  {
    result := table;
    migrationCount := 0;
    for k := 0 to |rows|
      invariant (result, migrationCount) == Migrated(rows[..k], table)
    {
      MigratedStep(rows, k, table, result, migrationCount);
      var row := rows[k];
      var language := if row.language.Some? && row.language.value != "" then row.language.value else "Spanish";
      var info := LanguageInfo(Some(language));
      assert language == RowLanguage(row) && info.0 == RowCode(row);
      var existing := HasTranslation(result, row.id, info.0);
      if !existing {
        var added := Translation(row.id, info.0, info.1, row.title, row.content.GetOr(""),
          row.ingredients, row.instructions);
        assert added == NewTranslation(row);
        result := result + [added];
        migrationCount := migrationCount + 1;
      }
    }
    assert rows[..|rows|] == rows;
  }

  /**
   * The loop only appends: existing rows stay as they were, migration_count is the number of
   * rows added, and each added row is the translation of one of the handled recipes.
   */
  lemma {:induction false} MigratedAppends(rows: seq<TranslatedRecipe>, table: seq<Translation>)
    ensures var m := Migrated(rows, table);
      |m.0| == |table| + m.1 && m.0[..|table|] == table &&
      forall j :: |table| <= j < |m.0| ==> exists i :: 0 <= i < |rows| && m.0[j] == NewTranslation(rows[i])
  {
    if |rows| > 0 {
      var front := rows[..|rows| - 1];
      MigratedAppends(front, table);
      var before := Migrated(front, table);
      var m := Migrated(rows, table);
      forall j | |table| <= j < |m.0| ensures exists i :: 0 <= i < |rows| && m.0[j] == NewTranslation(rows[i]) {
        if j < |before.0| {
          var i :| 0 <= i < |front| && before.0[j] == NewTranslation(front[i]);
          assert m.0[j] == before.0[j] && front[i] == rows[i];
        } else {
          assert m.0[j] == NewTranslation(rows[|rows| - 1]);
        }
      }
    }
  }

  /** A translation present before a step is still present after it. */
  lemma HasTranslationKept(before: seq<Translation>, after: seq<Translation>, recipeId: int, code: string)
    requires |before| <= |after| && after[..|before|] == before
    requires HasTranslation(before, recipeId, code)
    ensures HasTranslation(after, recipeId, code)
  {
    var k :| 0 <= k < |before| && before[k].recipeId == recipeId && before[k].languageCode == code;
    assert after[k] == before[k];
  }

  /** Afterwards every handled recipe has a translation for its language code. */
  lemma {:induction false} MigratedCovers(rows: seq<TranslatedRecipe>, table: seq<Translation>)
    ensures forall i :: 0 <= i < |rows| ==> HasTranslation(Migrated(rows, table).0, rows[i].id, RowCode(rows[i]))
  {
    if |rows| > 0 {
      var front := rows[..|rows| - 1];
      MigratedCovers(front, table);
      var before := Migrated(front, table).0;
      var after := Migrated(rows, table).0;
      var last := rows[|rows| - 1];
      var code := RowCode(last);
      if HasTranslation(before, last.id, code) {
        assert after == before;
      } else {
        assert after == before + [NewTranslation(last)];
        assert after[|before|].recipeId == last.id && after[|before|].languageCode == code;
      }
      assert |before| <= |after| && after[..|before|] == before;
      assert HasTranslation(after, last.id, code);
      forall i | 0 <= i < |front| ensures HasTranslation(after, rows[i].id, RowCode(rows[i])) {
        assert rows[i] == front[i];
        HasTranslationKept(before, after, rows[i].id, RowCode(rows[i]));
      }
    }
  }

  /** When every recipe already has its translation, the loop inserts nothing. */
  lemma {:induction false} MigratedNothingNew(rows: seq<TranslatedRecipe>, table: seq<Translation>)
    requires forall i :: 0 <= i < |rows| ==> HasTranslation(table, rows[i].id, RowCode(rows[i]))
    ensures Migrated(rows, table) == (table, 0)
  {
    if |rows| > 0 {
      var front := rows[..|rows| - 1];
      assert forall i :: 0 <= i < |front| ==> front[i] == rows[i];
      MigratedNothingNew(front, table);
    }
  }

  /** Running the migration a second time on the same data inserts nothing and counts 0. */
  lemma MigrationIdempotent(rows: seq<TranslatedRecipe>, table: seq<Translation>)
    ensures var once := Migrated(rows, table).0;
      Migrated(rows, once) == (once, 0)
  {
    MigratedCovers(rows, table);
    MigratedNothingNew(rows, Migrated(rows, table).0);
  }

  /** The loop never creates a second translation for the same (recipe, language code). */
  lemma {:induction false} MigratedKeepsUnique(rows: seq<TranslatedRecipe>, table: seq<Translation>)
    requires UniqueTranslations(table)
    ensures UniqueTranslations(Migrated(rows, table).0)
  {
    if |rows| > 0 {
      var front := rows[..|rows| - 1];
      MigratedKeepsUnique(front, table);
      var before := Migrated(front, table).0;
      var last := rows[|rows| - 1];
      if !HasTranslation(before, last.id, RowCode(last)) {
        var after := before + [NewTranslation(last)];
        forall i, j | 0 <= i < j < |after|
          ensures (after[i].recipeId, after[i].languageCode) != (after[j].recipeId, after[j].languageCode)
        {
          if j < |before| {
            assert after[i] == before[i] && after[j] == before[j];
          } else {
            assert after[i] == before[i];
          }
        }
      }
    }
  }

  /**
   * Step 3 end to end: afterwards every recipe whose title_translated is set and non-empty has
   * a translation for the code of its language column.
   */
  lemma OldTranslationsCovered(recipes: seq<OldRecipe>, table: seq<Translation>)
    ensures forall i :: 0 <= i < |recipes| && HasOldTranslation(recipes[i]) ==>
      HasTranslation(Migrated(Selected(recipes), table).0, recipes[i].id, RowCode(RowOf(recipes[i])))
  {
    var rows := Selected(recipes);
    SelectedMembers(recipes);
    MigratedCovers(rows, table);
    forall i | 0 <= i < |recipes| && HasOldTranslation(recipes[i])
      ensures HasTranslation(Migrated(rows, table).0, recipes[i].id, RowCode(RowOf(recipes[i])))
    {
      var x := RowOf(recipes[i]);
      assert x in rows;
      var k :| 0 <= k < |rows| && rows[k] == x;
    }
  }
}
