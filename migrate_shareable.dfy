/**
 * The classification loop of migrate_add_shareable.py: every recipe whose is_shareable is
 * unset is marked not shareable when its source URL is on nytimes.com, and shareable
 * otherwise; the NYT ones are counted.
 */
module MigrateShareable {
  import opened Wrappers
  import opened Text

  /**
   * The two columns the loop reads and writes. An is_shareable attribute the model lacks
   * reads the same as a null one.
   */
  datatype RecipeFlags = RecipeFlags(sourceUrl: Option<string>, isShareable: Option<bool>)

  /** `recipe.source_url and 'nytimes.com' in recipe.source_url.lower()`. */
  predicate FromNyt(url: Option<string>) {
    url.Some? && url.value != "" && Contains(Lower(url.value), "nytimes.com")
  }

  /** What the loop body does to one recipe. */
  function Classify(r: RecipeFlags): RecipeFlags {
    if r.isShareable.None? then r.(isShareable := Some(!FromNyt(r.sourceUrl))) else r
  }

  /** The recipes the loop switches to not shareable, which are the ones it counts. */
  predicate SwitchedOff(r: RecipeFlags) {
    r.isShareable.None? && FromNyt(r.sourceUrl)
  }

  function CountSwitchedOff(rs: seq<RecipeFlags>): (n: nat)
    ensures n <= |rs|
  {
    if |rs| == 0 then 0
    else CountSwitchedOff(rs[..|rs| - 1]) + if SwitchedOff(rs[|rs| - 1]) then 1 else 0
  }

  function ClassifyAll(rs: seq<RecipeFlags>): (r: seq<RecipeFlags>)
    ensures |r| == |rs|
    ensures forall k :: 0 <= k < |rs| ==> r[k] == Classify(rs[k])
  {
    seq(|rs|, k requires 0 <= k < |rs| => Classify(rs[k]))
  }

  /** The loop of migrate(), updating the recipes in place and returning updated_count. */
  method MarkShareable(recipes: array<RecipeFlags>) returns (updatedCount: nat)
    modifies recipes
    ensures recipes[..] == ClassifyAll(old(recipes[..]))
    ensures updatedCount == CountSwitchedOff(old(recipes[..]))
  {
    ghost var before := recipes[..];
    updatedCount := 0;
    for k := 0 to recipes.Length
      invariant recipes[..k] == ClassifyAll(before[..k])
      invariant recipes[k..] == before[k..]
      invariant updatedCount == CountSwitchedOff(before[..k])
    {
      assert before[..k + 1][..k] == before[..k];
      assert recipes[k] == before[k];
      var recipe := recipes[k];
      if recipe.isShareable.None? {
        if recipe.sourceUrl.Some? && recipe.sourceUrl.value != "" && Contains(Lower(recipe.sourceUrl.value), "nytimes.com") {
          recipes[k] := recipe.(isShareable := Some(false));
          updatedCount := updatedCount + 1;
        } else {
          recipes[k] := recipe.(isShareable := Some(true));
        }
      }
      assert recipes[..k + 1] == recipes[..k] + [recipes[k]];
    }
    assert before[..recipes.Length] == before;
    assert recipes[..recipes.Length] == recipes[..];
  }

  /**
   * Per recipe: an already-set flag is untouched; an unset one becomes False exactly when
   * the URL is on nytimes.com, and True otherwise (a missing or empty URL included).
   */
  lemma ClassifyOutcome(r: RecipeFlags)
    ensures r.isShareable.Some? ==> Classify(r) == r
    ensures Classify(r).sourceUrl == r.sourceUrl && Classify(r).isShareable.Some?
    ensures r.isShareable.None? ==> (Classify(r).isShareable == Some(false) <==> SwitchedOff(r))
    ensures (r.sourceUrl.None? || r.sourceUrl == Some("")) && r.isShareable.None? ==> Classify(r).isShareable == Some(true)
  {
  }

  /** The indices of the recipes switched to not shareable. */
  function SwitchedIndices(rs: seq<RecipeFlags>): set<nat> {
    set k: nat | k < |rs| && SwitchedOff(rs[k])
  }

  /** Adding one recipe adds its index to the switched ones exactly when it is switched. */
  lemma SwitchedIndicesStep(rs: seq<RecipeFlags>)
    requires |rs| > 0
    ensures var n := |rs| - 1;
      SwitchedIndices(rs) == SwitchedIndices(rs[..n]) + (if SwitchedOff(rs[n]) then {n} else {})
      && n !in SwitchedIndices(rs[..n])
  {
    var n := |rs| - 1;
    var front := rs[..n];
    var extra: set<nat> := if SwitchedOff(rs[n]) then {n} else {};
    forall k: nat ensures k in SwitchedIndices(rs) <==> k in SwitchedIndices(front) + extra {
      if k < n {
        assert front[k] == rs[k];
      }
    }
  }

  /** updated_count is the number of recipes whose flag went from unset to False. */
  lemma {:induction false} CountIsSwitchedRecipes(rs: seq<RecipeFlags>)
    ensures CountSwitchedOff(rs) == |SwitchedIndices(rs)|
    ensures forall k: nat :: k < |rs| ==>
      (k in SwitchedIndices(rs) <==> rs[k].isShareable.None? && ClassifyAll(rs)[k].isShareable == Some(false))
  {
    if |rs| > 0 {
      CountIsSwitchedRecipes(rs[..|rs| - 1]);
      SwitchedIndicesStep(rs);
    } else {
      assert SwitchedIndices(rs) == {};
    }
  }

  /** Afterwards every flag is set, so a second run changes nothing and counts nothing. */
  lemma {:induction false} ClassifyIdempotent(rs: seq<RecipeFlags>)
    ensures forall k :: 0 <= k < |rs| ==> ClassifyAll(rs)[k].isShareable.Some?
    ensures ClassifyAll(ClassifyAll(rs)) == ClassifyAll(rs)
    ensures CountSwitchedOff(ClassifyAll(rs)) == 0
  {
    var after := ClassifyAll(rs);
    NoneUnsetCountsZero(after);
  }

  lemma {:induction false} NoneUnsetCountsZero(rs: seq<RecipeFlags>)
    requires forall k :: 0 <= k < |rs| ==> rs[k].isShareable.Some?
    ensures CountSwitchedOff(rs) == 0
  {
    if |rs| > 0 {
      var front := rs[..|rs| - 1];
      assert forall k :: 0 <= k < |front| ==> front[k] == rs[k];
      NoneUnsetCountsZero(front);
    }
  }

  lemma LowerNytUrl()
    ensures Lower("www.NYTimes.com") == "www.nytimes.com"
  {
  }

  /**
   * The domain test ignores case: two URLs that lower-case alike are classified alike, and
   * only the URL itself differs in the results.
   */
  lemma NytTestIgnoresCase(u: string, v: string, flag: Option<bool>)
    requires Lower(u) == Lower(v)
    ensures Classify(RecipeFlags(Some(u), flag)) ==
      Classify(RecipeFlags(Some(v), flag)).(sourceUrl := Some(u))
  {
    assert |u| == |Lower(u)| == |Lower(v)| == |v|;
  }

  /** A URL in mixed case is recognised as NYT. */
  lemma NytUrlInAnyCase()
    ensures Classify(RecipeFlags(Some("www.NYTimes.com"), None)) ==
      RecipeFlags(Some("www.NYTimes.com"), Some(false))
  {
    var lowered := "www.nytimes.com";
    LowerNytUrl();
    assert lowered[4..] == "nytimes.com";
    ContainsIff(lowered, "nytimes.com");
    assert OccursAt(lowered, "nytimes.com", 4);
  }
}
