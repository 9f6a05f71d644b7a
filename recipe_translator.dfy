/**
 * The two decisions of the recipe_translator.py command line: the URL check that aborts the
 * run, and the output path derived from the recipe title when no --output is given.
 */
module RecipeTranslator {
  import opened Wrappers
  import opened Text
  import opened Json

  /** The exit status the URL check ends the program with, or None when the run goes on. */
  function UrlExit(url: string): (r: Option<int>)
    ensures r.Some? <==> !Contains(url, "cooking.nytimes.com")
    ensures r.Some? ==> r.value == 1
  {
    if !Contains(url, "cooking.nytimes.com") then Some(1) else None
  }

  /** The comprehension keeping the characters that are alphanumeric or whitespace. */
  function KeepWordsAndSpaces(s: string): (r: string)
    ensures |r| <= |s|
    ensures forall i :: 0 <= i < |r| ==> IsAlnum(r[i]) || IsSpace(r[i])
  {
    if |s| == 0 then ""
    else
      var front := KeepWordsAndSpaces(s[..|s| - 1]);
      var c := s[|s| - 1];
      if IsAlnum(c) || IsSpace(c) then front + [c] else front
  }

  /** str.replace(' ', '_'). */
  function SpacesToUnderscores(s: string): (r: string)
    ensures |r| == |s|
    ensures forall i :: 0 <= i < |s| ==> r[i] == (if s[i] == ' ' then '_' else s[i])
  {
    seq(|s|, i requires 0 <= i < |s| => if s[i] == ' ' then '_' else s[i])
  }

  /** The file name built from the title. */
  function TitleFilename(title: string): string {
    SpacesToUnderscores(KeepWordsAndSpaces(Lower(title))) + ".md"
  }

  /**
   * The output path: --output when given (and non-empty), else recipes/<name>.md built from
   * the title. The title is whatever the recipe's 'name' held; `.lower()` on a title that is
   * not a string raises AttributeError, which is None here.
   */
  function OutputPath(output: Option<string>, title: Json): (r: Option<string>)
    ensures output.Some? && output.value != "" ==> r == Some(output.value)
    ensures r.None? <==> (output.None? || output.value == "") && !title.JStr?
  {
    if output.Some? && output.value != "" then Some(output.value)
    else if title.JStr? then Some("recipes/" + TitleFilename(title.s))
    else None
  }

  /** The number of characters of s the filter keeps. */
  function KeptCount(s: string): nat {
    if |s| == 0 then 0
    else KeptCount(s[..|s| - 1]) + if IsAlnum(s[|s| - 1]) || IsSpace(s[|s| - 1]) then 1 else 0
  }

  /** The filter keeps one character per alphanumeric or whitespace character of its input. */
  lemma {:induction false} KeptLength(s: string)
    ensures |KeepWordsAndSpaces(s)| == KeptCount(s)
  {
    if |s| > 0 {
      KeptLength(s[..|s| - 1]);
    }
  }

  /** Every character the filter keeps comes from its input. */
  lemma {:induction false} KeptFromInput(s: string)
    ensures forall i :: 0 <= i < |KeepWordsAndSpaces(s)| ==> KeepWordsAndSpaces(s)[i] in s
  {
    if |s| > 0 {
      var front := s[..|s| - 1];
      KeptFromInput(front);
      var r := KeepWordsAndSpaces(s);
      var f := KeepWordsAndSpaces(front);
      forall i | 0 <= i < |r| ensures r[i] in s {
        if i < |f| {
          assert r[i] == f[i];
          var j :| 0 <= j < |front| && front[j] == f[i];
          assert s[j] == front[j];
        } else {
          assert r[i] == s[|s| - 1];
        }
      }
    }
  }

  /** The filter works piecewise: filtering a concatenation concatenates the filtered parts. */
  lemma {:induction false} KeepAppend(a: string, b: string)
    ensures KeepWordsAndSpaces(a + b) == KeepWordsAndSpaces(a) + KeepWordsAndSpaces(b)
    decreases |b|
  {
    if |b| == 0 {
      assert a + b == a;
    } else {
      var b' := b[..|b| - 1];
      assert (a + b)[..|a + b| - 1] == a + b';
      KeepAppend(a, b');
    }
  }

  /** A string of alphanumeric and whitespace characters passes the filter unchanged. */
  lemma {:induction false} KeepAllKept(s: string)
    requires forall i :: 0 <= i < |s| ==> IsAlnum(s[i]) || IsSpace(s[i])
    ensures KeepWordsAndSpaces(s) == s
  {
    if |s| > 0 {
      var front := s[..|s| - 1];
      assert forall i :: 0 <= i < |front| ==> front[i] == s[i];
      KeepAllKept(front);
      assert s == front + [s[|s| - 1]];
    }
  }

  /**
   * The file name is the filtered, lower-cased title with '.md' after it: it has no space and
   * no upper-case letter, every character is a lower-case letter, a digit, '_' or other
   * whitespace, and it has one character per kept title character.
   */
  lemma TitleFilenameShape(title: string)
    ensures var name := TitleFilename(title);
      EndsWith(name, ".md") &&
      |name| == KeptCount(Lower(title)) + 3 &&
      forall i :: 0 <= i < |name| - 3 ==>
        name[i] != ' ' && !IsUpper(name[i]) && (IsAlnum(name[i]) || name[i] == '_' || IsSpace(name[i]))
  {
    var lowered := Lower(title);
    var kept := KeepWordsAndSpaces(lowered);
    KeptLength(lowered);
    KeptFromInput(lowered);
    var name := TitleFilename(title);
    assert name[|name| - 3..] == ".md";
    forall i | 0 <= i < |name| - 3
      ensures name[i] != ' ' && !IsUpper(name[i]) && (IsAlnum(name[i]) || name[i] == '_' || IsSpace(name[i]))
    {
      assert kept[i] in lowered;
      var j :| 0 <= j < |lowered| && lowered[j] == kept[i];
      assert !IsUpper(lowered[j]);
    }
  }

  /** Without --output the file goes under recipes/. */
  lemma DefaultPathUnderRecipes(title: string)
    ensures OutputPath(None, JStr(title)).Some?
    ensures StartsWith(OutputPath(None, JStr(title)).value, "recipes/")
    ensures EndsWith(OutputPath(None, JStr(title)).value, ".md")
  {
    var name := TitleFilename(title);
    assert ("recipes/" + name)[..8] == "recipes/";
    TitleFilenameShape(title);
    assert ("recipes/" + name)[|"recipes/" + name| - 3..] == name[|name| - 3..];
  }

  /** A tab in the title survives while spaces become underscores. */
  lemma TabSurvives()
    ensures TitleFilename("a\tb c") == "a\tb_c.md"
  {
    assert Lower("a\tb c") == "a\tb c";
    KeepAllKept("a\tb c");
    assert KeepWordsAndSpaces("a\tb c") == "a\tb c";
    assert SpacesToUnderscores("a\tb c") == "a\tb_c";
  }

  lemma LowerPadThai()
    ensures Lower("Pad_Thai!") == "pad_thai!"
  {
  }

  lemma KeepPadThai()
    ensures KeepWordsAndSpaces("pad_thai!") == "padthai"
  {
    assert "pad_thai!" == "pad" + ("_" + ("thai" + "!"));
    KeepAppend("pad", "_" + ("thai" + "!"));
    KeepAppend("_", "thai" + "!");
    KeepAppend("thai", "!");
    KeepPadThaiPieces();
  }

  lemma KeepPadThaiPieces()
    ensures KeepWordsAndSpaces("pad") == "pad" && KeepWordsAndSpaces("thai") == "thai"
    ensures KeepWordsAndSpaces("_") == "" && KeepWordsAndSpaces("!") == ""
  {
    KeepAllKept("pad");
    KeepAllKept("thai");
  }

  /** Punctuation, an underscore included, is dropped from the title. */
  lemma PunctuationDropped()
    ensures TitleFilename("Pad_Thai!") == "padthai.md"
  {
    LowerPadThai();
    KeepPadThai();
    assert SpacesToUnderscores("padthai") == "padthai";
  }
}
