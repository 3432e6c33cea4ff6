/**
 * The post component (`App\Component\PostRenderer`): it renders one post's
 * content in one language through a named Latte template.
 *
 * The template name is checked against `/^[-.a-z0-9]+$/i` before the file is
 * looked for; `file_exists` is the foreign `fileExists`. The 20-minute cache in
 * front of the post lookup is not modelled: every render reads the table.
 */
module PostRendering {
  import opened Common
  import opened Posts

  /** A character of the class `[-.a-z0-9]` under the case-insensitive flag. */
  predicate NameChar(c: char) {
    c == '-' || c == '.' || ('a' <= c <= 'z') || ('A' <= c <= 'Z') || ('0' <= c <= '9')
  }

  predicate AllNameChars(s: string) {
    forall i :: 0 <= i < |s| ==> NameChar(s[i])
  }

  /**
   * The pattern matches: a non-empty run of name characters from the start,
   * followed by the end of the subject or by a newline that ends it (without
   * the `D` modifier, PCRE's `$` also matches before a final newline).
   */
  predicate PatternMatches(name: string) {
    exists k :: 1 <= k <= |name| && AllNameChars(name[..k]) && (name[k..] == "" || name[k..] == "\n")
  }

  /**
   * The anchored scan a regex engine performs for this pattern: take the
   * longest run of name characters, then test what remains.
   */
  method ScanTemplateName(name: string) returns (matched: bool)
    ensures matched <==> PatternMatches(name)
  {
    var i := 0;
    while i < |name| && NameChar(name[i])
      invariant 0 <= i <= |name|
      invariant AllNameChars(name[..i])
    {
      i := i + 1;
    }
    matched := i > 0 && (i == |name| || (i == |name| - 1 && name[i] == '\n'));
    if matched {
      assert AllNameChars(name[..i]) && (name[i..] == "" || name[i..] == "\n");
    }
    if PatternMatches(name) {
      // Any split the pattern allows ends where the longest run ends.
      var k :| 1 <= k <= |name| && AllNameChars(name[..k]) && (name[k..] == "" || name[k..] == "\n");
      assert forall j :: 0 <= j < k ==> NameChar(name[j]) by {
        forall j | 0 <= j < k ensures NameChar(name[j]) { assert name[..k][j] == name[j]; }
      }
      assert forall j :: 0 <= j < i ==> NameChar(name[j]) by {
        forall j | 0 <= j < i ensures NameChar(name[j]) { assert name[..i][j] == name[j]; }
      }
      assert k < |name| ==> name[k] == '\n' by {
        if k < |name| { assert name[k..][0] == name[k]; }
      }
      if k > i {
        assert false;
      }
      if k < i {
        assert false;
      }
    }
  }

  /** The template file: the component directory, a slash, the name, `.latte`. */
  function TemplateFile(dir: string, name: string): string {
    dir + "/" + name + ".latte"
  }

  datatype RenderOutcome =
    /** ApplicationException: the name does not match the pattern. */
    | InvalidTemplateName
    /** ApplicationException: no such template file. */
    | MissingTemplate(file: string)
    /** The template is rendered with these variables. */
    | Rendered(file: string, isEmpty: bool, content: Value)

  /** `'content_' . $lang`. */
  function ContentField(lang: string): string {
    "content_" + lang
  }

  /** `isset($post[$field])` on a prepared post: the column is present and not null. */
  function ContentOf(post: Option<Prepared>, field: string): Value {
    if post.Some? && field in post.value.row && post.value.row[field] != Null then post.value.row[field] else Text("")
  }

  /** `render($key, $lang, $templateName)`: look the post up published-only, then find the template, then fill it in. */
  function Render(db: Table, key: string, lang: string, templateName: string, dir: string,
                  fileExists: string -> bool, now: int): (r: RenderOutcome)
    ensures r.InvalidTemplateName? <==> !PatternMatches(templateName)
    ensures r.MissingTemplate? <==> PatternMatches(templateName) && !fileExists(TemplateFile(dir, templateName))
    ensures r.Rendered? ==> fileExists(r.file)
    ensures r.Rendered? ==> (r.isEmpty <==> (key, Current) !in db || !IsPublished(db[(key, Current)], now))
  {
    var post := TryFindPostByKey(db, key, true, Current, now);
    if !PatternMatches(templateName) then InvalidTemplateName
    else
      var file := TemplateFile(dir, templateName);
      if !fileExists(file) then MissingTemplate(file)
      else Rendered(file, post.None?, ContentOf(post, ContentField(lang)))
  }

  // ---------------------------------------------------------------------------
  // Properties
  // ---------------------------------------------------------------------------

  /** The accepted names, stated without the regex: name characters only, or those followed by one final newline. */
  lemma AcceptedNames(name: string)
    ensures PatternMatches(name) <==>
      (|name| >= 1 && AllNameChars(name)) ||
      (|name| >= 2 && name[|name| - 1] == '\n' && AllNameChars(name[..|name| - 1]))
  {
    if |name| >= 1 && AllNameChars(name) {
      assert name[..|name|] == name;
    }
    if |name| >= 2 && name[|name| - 1] == '\n' && AllNameChars(name[..|name| - 1]) {
      assert name[|name| - 1..] == "\n";
    }
    if PatternMatches(name) {
      var k :| 1 <= k <= |name| && AllNameChars(name[..k]) && (name[k..] == "" || name[k..] == "\n");
      if name[k..] == "" {
        assert name[..k] == name;
      } else {
        assert k == |name| - 1 && name[|name| - 1] == name[k..][0];
      }
    }
  }

  /** An accepted name holds no slash, so the template file is always directly inside the component directory. */
  lemma AcceptedNameStaysInDirectory(dir: string, name: string)
    requires PatternMatches(name)
    ensures '/' !in name
    ensures var f := TemplateFile(dir, name);
      && f[..|dir| + 1] == dir + "/"
      && f[|dir| + 1..] == name + ".latte"
      && forall i :: |dir| + 1 <= i < |f| ==> f[i] != '/'
  {
    AcceptedNames(name);
    var f := TemplateFile(dir, name);
    assert f[|dir| + 1..] == name + ".latte";
    forall i | |dir| + 1 <= i < |f|
      ensures f[i] != '/'
    {
      assert f[i] == (name + ".latte")[i - |dir| - 1];
      if i - |dir| - 1 < |name| {
        assert f[i] == name[i - |dir| - 1];
        if i - |dir| - 1 < |name| - 1 || AllNameChars(name) {
          assert NameChar(name[i - |dir| - 1]) by {
            if !AllNameChars(name) {
              assert name[..|name| - 1][i - |dir| - 1] == name[i - |dir| - 1];
            }
          }
        }
      }
    }
  }

  /** The name is checked before the file: a rejected name fails the same way whatever files exist. */
  lemma NameCheckedBeforeFile(db: Table, key: string, lang: string, templateName: string, dir: string,
                              exists1: string -> bool, exists2: string -> bool, now: int)
    requires !PatternMatches(templateName)
    ensures Render(db, key, lang, templateName, dir, exists1, now) == Render(db, key, lang, templateName, dir, exists2, now)
  {
  }

  /**
   * What a rendered post shows: nothing for an unpublished, planned or
   * expired post; otherwise the language's content column, `''` when that
   * column is missing or null.
   */
  lemma RenderedContent(db: Table, key: string, lang: string, templateName: string, dir: string, fileExists: string -> bool, now: int)
    requires Render(db, key, lang, templateName, dir, fileExists, now).Rendered?
    ensures var r := Render(db, key, lang, templateName, dir, fileExists, now);
      && r.file == dir + "/" + templateName + ".latte"
      && (r.isEmpty ==> r.content == Text(""))
      && (!r.isEmpty ==>
            var row := db[(key, Current)];
            r.content == if "content_" + lang in row && row["content_" + lang] != Null then row["content_" + lang] else Text(""))
  {
  }

  /** A planned or an expired post renders as empty. */
  lemma UnpublishedRendersEmpty(db: Table, key: string, lang: string, templateName: string, dir: string, fileExists: string -> bool, now: int)
    requires (key, Current) in db && (IsPlanned(db[(key, Current)], now) || IsExpired(db[(key, Current)], now))
    requires Render(db, key, lang, templateName, dir, fileExists, now).Rendered?
    ensures Render(db, key, lang, templateName, dir, fileExists, now).isEmpty
    ensures Render(db, key, lang, templateName, dir, fileExists, now).content == Text("")
  {
    PublicationStates(db[(key, Current)], now);
  }
}
