/**
 * The two pieces of request handling in app.py that decide something: the input checks of
 * POST /api/translate and the filename sanitiser of POST /api/download. The request body is
 * the decoded JSON value; the TARGET_LANGUAGE environment variable is a parameter.
 */
module App {
  import opened Wrappers
  import opened Text
  import opened Json

  /** The characters the sanitiser keeps besides letters and digits. */
  predicate Allowed(c: char) {
    IsAlnum(c) || c == ' ' || c == '-' || c == '_' || c == '.'
  }

  function SafeChar(c: char): (r: char)
    ensures Allowed(r)
    ensures Allowed(c) ==> r == c
    ensures !Allowed(c) ==> r == '_'
  {
    if Allowed(c) then c else '_'
  }

  /** The join over the characters of the filename. */
  function Sanitized(name: string): (r: string)
    ensures |r| == |name|
    ensures forall i :: 0 <= i < |name| ==> r[i] == SafeChar(name[i])
  {
    seq(|name|, i requires 0 <= i < |name| => SafeChar(name[i]))
  }

  /** '.md' appended unless the name already ends with it. */
  function Suffixed(s: string): string {
    if EndsWith(s, ".md") then s else s + ".md"
  }

  /** The download name for a filename string: sanitised, with '.md' appended unless it already ends so. */
  function DownloadName(name: string): string {
    Suffixed(Sanitized(name))
  }

  /** `c.isalnum()` for an item that is a whole string: non-empty and alphanumeric throughout. */
  predicate IsAlnumText(p: string) {
    |p| > 0 && forall i :: 0 <= i < |p| ==> IsAlnum(p[i])
  }

  /** The comprehension's expression for one item: kept when isalnum() or one of the four allowed strings, else '_'. */
  function SafePiece(p: string): string {
    if IsAlnumText(p) || p == " " || p == "-" || p == "_" || p == "." then p else "_"
  }

  /** `''.join(...)` over the items the comprehension visits. */
  function JoinSafe(pieces: seq<string>): string {
    if |pieces| == 0 then "" else JoinSafe(pieces[..|pieces| - 1]) + SafePiece(pieces[|pieces| - 1])
  }

  /** The one-character strings iterating over a string gives. */
  function Chars(s: string): (r: seq<string>)
    ensures |r| == |s| && forall i :: 0 <= i < |s| ==> r[i] == [s[i]]
  {
    seq(|s|, i requires 0 <= i < |s| => [s[i]])
  }

  /** The keys of a dict, in first-insertion order and each once, as iterating over it gives them. */
  function DistinctKeys(fields: seq<(string, Json)>): seq<string> {
    if |fields| == 0 then []
    else
      var front := DistinctKeys(fields[..|fields| - 1]);
      var key := fields[|fields| - 1].0;
      if key in front then front else front + [key]
  }

  /** Iterating over a dict gives every key it holds, each exactly once. */
  lemma {:induction false} DistinctKeysOf(fields: seq<(string, Json)>)
    ensures forall k :: k in DistinctKeys(fields) <==> exists i :: 0 <= i < |fields| && fields[i].0 == k
    ensures forall i, j :: 0 <= i < j < |DistinctKeys(fields)| ==> DistinctKeys(fields)[i] != DistinctKeys(fields)[j]
  {
    if |fields| > 0 {
      var front := fields[..|fields| - 1];
      DistinctKeysOf(front);
      forall k ensures k in DistinctKeys(fields) <==> exists i :: 0 <= i < |fields| && fields[i].0 == k {
        if k in DistinctKeys(fields) && k != fields[|fields| - 1].0 {
          var i :| 0 <= i < |front| && front[i].0 == k;
          assert fields[i].0 == k;
        }
        if exists i :: 0 <= i < |fields| && fields[i].0 == k {
          var i :| 0 <= i < |fields| && fields[i].0 == k;
          if i < |front| {
            assert front[i].0 == k;
          }
        }
      }
    }
  }

  /**
   * What `for c in filename` visits: a string's characters, a list's entries, a dict's keys.
   * None when the comprehension raises: a null, boolean or number is not iterable, and a list
   * entry that is not a string has no isalnum().
   */
  function FilenameItems(f: Json): Option<seq<string>> {
    match f
    case JStr(s) => Some(Chars(s))
    case JArr(items) =>
      if forall k :: 0 <= k < |items| ==> items[k].JStr? then
        Some(seq(|items|, k requires 0 <= k < |items| => items[k].s))
      else None
    case JObj(fields) => Some(DistinctKeys(fields))
    case _ => None
  }

  /** Lines 115-120 of download_recipe: the file name, or None when sanitising raises (a 500). */
  function DownloadFileName(fields: seq<(string, Json)>): Option<string> {
    var items := FilenameItems(Get(fields, "filename", JStr("recipe.md")));
    if items.None? then None else Some(Suffixed(JoinSafe(items.value)))
  }

  /**
   * The name keeps the length of the input, every character is one the sanitiser allows,
   * allowed characters survive in place, others become '_', and the name ends with '.md'.
   */
  lemma DownloadNameShape(name: string)
    ensures var r := DownloadName(name);
      EndsWith(r, ".md") &&
      (|r| == |name| || |r| == |name| + 3) &&
      r[..|name|] == Sanitized(name) &&
      (forall i :: 0 <= i < |r| ==> Allowed(r[i]))
  {
    var s := Sanitized(name);
    var r := DownloadName(name);
    if !EndsWith(s, ".md") {
      assert r[|s|..] == ".md";
      assert forall i :: |s| <= i < |r| ==> r[i] == ".md"[i - |s|];
    }
    assert r[..|name|] == s;
  }

  /** '.md' is appended exactly when the name as sent does not already end with it. */
  lemma SuffixAddedIffMissing(name: string)
    ensures DownloadName(name) == Sanitized(name) <==> EndsWith(name, ".md")
  {
    var s := Sanitized(name);
    if |name| >= 3 {
      var n := |name|;
      assert s[n - 3..] == [SafeChar(name[n - 3]), SafeChar(name[n - 2]), SafeChar(name[n - 1])];
      assert name[n - 3..] == [name[n - 3], name[n - 2], name[n - 1]];
    }
    assert |DownloadName(name)| == |s| <==> EndsWith(s, ".md");
  }

  /** Sanitising a download name again changes nothing. */
  lemma DownloadNameIdempotent(name: string)
    ensures DownloadName(DownloadName(name)) == DownloadName(name)
  {
    var r := DownloadName(name);
    DownloadNameShape(name);
    assert Sanitized(r) == r;
  }

  /** Joining the sanitised characters of a string gives the sanitised string. */
  lemma {:induction false} JoinSafeChars(name: string)
    ensures JoinSafe(Chars(name)) == Sanitized(name)
  {
    if |name| > 0 {
      var n := |name| - 1;
      var front := name[..n];
      assert Chars(name)[..n] == Chars(front);
      JoinSafeChars(front);
      assert SafePiece([name[n]]) == [SafeChar(name[n])];
      assert Sanitized(name) == Sanitized(front) + [SafeChar(name[n])];
    }
  }

  /** Every character the join produces is one the sanitiser allows. */
  lemma {:induction false} JoinSafeAllowed(pieces: seq<string>)
    ensures forall i :: 0 <= i < |JoinSafe(pieces)| ==> Allowed(JoinSafe(pieces)[i])
  {
    if |pieces| > 0 {
      var front := pieces[..|pieces| - 1];
      JoinSafeAllowed(front);
      var a, b := JoinSafe(front), SafePiece(pieces[|pieces| - 1]);
      assert forall i :: 0 <= i < |b| ==> Allowed(b[i]);
      assert JoinSafe(pieces) == a + b;
    }
  }

  /** A string filename gets the name DownloadName gives. */
  lemma StringFilename(fields: seq<(string, Json)>, name: string)
    requires Get(fields, "filename", JStr("recipe.md")) == JStr(name)
    ensures DownloadFileName(fields) == Some(DownloadName(name))
  {
    JoinSafeChars(name);
  }

  /**
   * Sanitising raises exactly for a null, boolean or number, or a list holding something
   * other than a string.
   */
  lemma FilenameRaises(fields: seq<(string, Json)>)
    ensures var f := Get(fields, "filename", JStr("recipe.md"));
      DownloadFileName(fields).None? <==>
        f.JNull? || f.JBool? || f.JInt? || (f.JArr? && exists k :: 0 <= k < |f.items| && !f.items[k].JStr?)
  {
  }

  /** Whatever the filename is, a name that comes out ends with '.md' and holds only allowed characters. */
  lemma DownloadFileNameShape(fields: seq<(string, Json)>)
    requires DownloadFileName(fields).Some?
    ensures var r := DownloadFileName(fields).value;
      EndsWith(r, ".md") && forall i :: 0 <= i < |r| ==> Allowed(r[i])
  {
    var items := FilenameItems(Get(fields, "filename", JStr("recipe.md"))).value;
    var joined := JoinSafe(items);
    JoinSafeAllowed(items);
    SuffixedShape(joined);
    var r := Suffixed(joined);
    forall i | 0 <= i < |r| ensures Allowed(r[i]) {
      if i < |joined| {
        assert r[i] == joined[i];
      } else {
        assert r[i] in ".md";
      }
    }
  }

  /** Suffixing keeps the name as its prefix and makes it end with '.md'. */
  lemma SuffixedShape(s: string)
    ensures var r := Suffixed(s);
      EndsWith(r, ".md") && (r == s || r == s + ".md") &&
      (forall i :: 0 <= i < |s| ==> r[i] == s[i]) &&
      forall i :: |s| <= i < |r| ==> r[i] in ".md"
  {
    var r := Suffixed(s);
    if !EndsWith(s, ".md") {
      assert r[|s|..] == ".md";
      assert forall i :: |s| <= i < |r| ==> r[i] == ".md"[i - |s|];
    }
  }

  /** A request without a filename downloads as recipe.md. */
  lemma DefaultFilename()
    ensures DownloadFileName([]) == Some("recipe.md")
  {
    JoinSafeChars("recipe.md");
    var s := Sanitized("recipe.md");
    assert s == "recipe.md";
  }

  /** A list of strings is joined item by item: ["ab", "c!"] downloads as "ab_.md". */
  lemma ListFilename()
    ensures DownloadFileName([("filename", JArr([JStr("ab"), JStr("c!")]))]) == Some("ab_.md")
  {
    var f := JArr([JStr("ab"), JStr("c!")]);
    ListItems();
    JoinListItems();
    assert Suffixed("ab_") == "ab_.md" by {
      assert "ab_"[0..] == "ab_";
    }
    assert Get([("filename", f)], "filename", JStr("recipe.md")) == f;
  }

  lemma ListItems()
    ensures FilenameItems(JArr([JStr("ab"), JStr("c!")])) == Some(["ab", "c!"])
  {
    var f := JArr([JStr("ab"), JStr("c!")]);
    var listed := seq(|f.items|, k requires 0 <= k < |f.items| => f.items[k].s);
    assert listed[0] == "ab" && listed[1] == "c!";
    assert listed == ["ab", "c!"];
  }

  lemma JoinListItems()
    ensures JoinSafe(["ab", "c!"]) == "ab_"
  {
    var items := ["ab", "c!"];
    assert SafePiece("ab") == "ab" by {
      assert IsAlnum("ab"[0]) && IsAlnum("ab"[1]);
    }
    assert SafePiece("c!") == "_" by {
      assert !IsAlnum("c!"[1]);
    }
    assert items[..1] == ["ab"] && ["ab"][..0] == [];
    assert JoinSafe(["ab"]) == "ab";
  }

  /** A dict is iterated over its keys: {"x": 1} downloads as "x.md". */
  lemma ObjectFilename()
    ensures DownloadFileName([("filename", JObj([("x", JInt(1))]))]) == Some("x.md")
  {
    var f := JObj([("x", JInt(1))]);
    assert Get([("filename", f)], "filename", JStr("recipe.md")) == f;
    assert DistinctKeys(f.fields) == ["x"] by {
      assert f.fields[..0] == [];
    }
    assert JoinSafe(["x"]) == "x" by {
      assert IsAlnum("x"[0]);
      assert ["x"][..0] == [];
    }
    assert Suffixed("x") == "x.md";
    var fields := [("filename", f)];
    assert DownloadFileName(fields) == Some(Suffixed(JoinSafe(["x"])));
  }

  /** The validated inputs of a translate request. */
  datatype TranslateRequest = TranslateRequest(
    url: string,
    language: Json,
    nytCookie: Option<string>,
    convertUnits: Json,
    translate: Json)

  /** The outcome of the checks: a 400 with its message, a 500, or the request to go on with. */
  datatype Validation =
    | BadRequest(message: string)
    | ServerError
    | Proceed(request: TranslateRequest)

  /**
   * Lines 50-61 of translate_recipe. A body that is not an object, or a url or nyt_cookie
   * that is not a string, raises inside the handler and ends in its 500 branch.
   */
  function ValidateTranslate(data: Json, targetLanguage: Option<string>): (v: Validation)
    ensures v.BadRequest? ==> v.message == "URL is required" || v.message == "Please provide a valid NYT Cooking URL"
    ensures v.Proceed? ==> Contains(v.request.url, "cooking.nytimes.com")
  {
    if !data.JObj? then ServerError
    else
      var fields := data.fields;
      var rawUrl := Get(fields, "url", JStr(""));
      if !rawUrl.JStr? then ServerError
      else
        var url := Strip(rawUrl.s);
        if url == "" then BadRequest("URL is required")
        else if !Contains(url, "cooking.nytimes.com") then BadRequest("Please provide a valid NYT Cooking URL")
        else
          var language := Get(fields, "language", JStr(targetLanguage.GetOr("English")));
          var rawCookie := Get(fields, "nyt_cookie", JStr(""));
          if !rawCookie.JStr? then ServerError
          else
            var cookie := Strip(rawCookie.s);
            Proceed(TranslateRequest(
              url,
              language,
              if cookie == "" then None else Some(cookie),
              Get(fields, "convert_units", JBool(true)),
              Get(fields, "translate", JBool(true))))
  }

  /**
   * A url that is blank after stripping (a missing one included) is refused before the
   * domain is looked at; one without the NYT Cooking domain is refused next.
   */
  lemma UrlChecks(fields: seq<(string, Json)>, url: string, targetLanguage: Option<string>)
    requires Get(fields, "url", JStr("")) == JStr(url)
    ensures AllSpace(url) ==> ValidateTranslate(JObj(fields), targetLanguage) == BadRequest("URL is required")
    ensures !AllSpace(url) && !Contains(Strip(url), "cooking.nytimes.com") ==>
      ValidateTranslate(JObj(fields), targetLanguage) == BadRequest("Please provide a valid NYT Cooking URL")
  {
  }

  /**
   * On an accepted request: the url is the stripped one, a blank or missing cookie becomes
   * None, convert_units and translate default to true, and the language defaults to
   * TARGET_LANGUAGE and then to 'English'.
   */
  lemma AcceptedDefaults(url: string, targetLanguage: Option<string>)
    requires Contains(url, "cooking.nytimes.com")
    requires |url| > 0 && !IsSpace(url[0]) && !IsSpace(url[|url| - 1])
    ensures ValidateTranslate(JObj([("url", JStr(url))]), targetLanguage) ==
      Proceed(TranslateRequest(url, JStr(targetLanguage.GetOr("English")), None, JBool(true), JBool(true)))
  {
    StripUnpadded(url);
    Blank();
  }

  lemma Blank()
    ensures Strip("") == ""
  {
  }

  /** A cookie of whitespace only counts as no cookie; another cookie is kept, stripped. */
  lemma CookieStripped(url: string, cookie: string, targetLanguage: Option<string>)
    requires Contains(url, "cooking.nytimes.com")
    requires |url| > 0 && !IsSpace(url[0]) && !IsSpace(url[|url| - 1])
    ensures var v := ValidateTranslate(JObj([("url", JStr(url)), ("nyt_cookie", JStr(cookie))]), targetLanguage);
      v.Proceed? && v.request.nytCookie == (if AllSpace(cookie) then None else Some(Strip(cookie)))
  {
    StripUnpadded(url);
    var fields := [("url", JStr(url)), ("nyt_cookie", JStr(cookie))];
    assert Get(fields, "url", JStr("")) == JStr(url) by {
      assert fields[..1] == [("url", JStr(url))];
    }
  }
}
