/**
 * The legacy post component (lower-case `app/components`). It caches the
 * looked-up post itself rather than a `{post, isEmpty}` pair and computes
 * `isEmpty` as PHP's `empty($post)`; the name check, the file and the content
 * choice are those of the current component.
 */
module LegacyPostRendering {
  import opened Common
  import opened Posts
  import opened PostRendering

  /** The keys of the array `preparePost` returns: the row's columns and `info`. */
  function ArrayKeys(post: Prepared): set<string> {
    post.row.Keys + {"info"}
  }

  /** PHP's `empty()` on the lookup result: null, or an array with no entries. */
  predicate PhpEmpty(post: Option<Prepared>) {
    post.None? || |ArrayKeys(post.value)| == 0
  }

  /** A prepared post always carries `info`, so `empty()` holds of the lookup result exactly when it is null. */
  lemma EmptyIsNull(post: Option<Prepared>)
    ensures PhpEmpty(post) <==> post.None?
  {
    if post.Some? {
      assert "info" in ArrayKeys(post.value);
    }
  }

  /** The legacy `render($key, $lang, $template)`. */
  function LegacyRender(db: Table, key: string, lang: string, templateName: string, dir: string,
                        fileExists: string -> bool, now: int): (r: RenderOutcome)
    ensures r.InvalidTemplateName? <==> !PatternMatches(templateName)
    ensures r.MissingTemplate? <==> PatternMatches(templateName) && !fileExists(TemplateFile(dir, templateName))
    ensures r.Rendered? ==> (r.isEmpty <==> (key, Current) !in db || !IsPublished(db[(key, Current)], now))
  {
    var post := TryFindPostByKey(db, key, true, Current, now);
    EmptyIsNull(post);
    if !PatternMatches(templateName) then InvalidTemplateName
    else
      var file := TemplateFile(dir, templateName);
      if !fileExists(file) then MissingTemplate(file)
      else Rendered(file, PhpEmpty(post), ContentOf(post, ContentField(lang)))
  }

  /** Both generations of the component render every request the same way. */
  lemma RenderGenerationsAgree(db: Table, key: string, lang: string, templateName: string, dir: string,
                               fileExists: string -> bool, now: int)
    ensures LegacyRender(db, key, lang, templateName, dir, fileExists, now) == Render(db, key, lang, templateName, dir, fileExists, now)
  {
    EmptyIsNull(TryFindPostByKey(db, key, true, Current, now));
  }
}
