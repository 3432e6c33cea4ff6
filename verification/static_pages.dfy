/**
 * The current public page resolver (`App\Presenters\StaticPresenter`): it maps
 * the optional `page` slug and `lang` route parameters to a canonical
 * `(pageKey, lang)` pair, a redirect to the canonical URL, or a 404.
 *
 * The presenter's static tables are an explicit configuration value so that
 * the general properties are proved for any well-formed table and then
 * applied to the site's own `Site` tables. The HTTP request is reduced to
 * what the resolver reads from it: the query parameters, the `lang` cookie,
 * and the browser's language hint.
 */
module StaticPages {
  import opened Common
  import opened PageMaps

  /** One `LANGS` entry: the route code and the locale sent as Content-Language. */
  datatype Lang = Lang(code: string, locale: string)

  /** `LANGS` and `PAGE_MAP`. */
  datatype Config = Config(langs: seq<Lang>, pages: seq<Page>)

  const Site: Config := Config(
    [Lang("en", "en-US"), Lang("cs", "cs-CZ")],
    [
      Page("homepage", Universal("")),
      Page("lunch", PerLanguage(["lunch", "poledne"])),
      Page("dinner", PerLanguage(["dinner", "vecer"])),
      Page("beverages", PerLanguage(["beverages", "napoje"])),
      Page("gallery", PerLanguage(["gallery", "galerie"])),
      Page("contact", PerLanguage(["contact", "kontakt"]))
    ])

  /** A table the resolver can work with: a default language exists and no slug names two pages. */
  ghost predicate WellFormed(cfg: Config) {
    |cfg.langs| > 0 && DistinctSlugs(cfg.pages)
  }

  /**
   * What `getBrowserLang` sees: a Nette request answers through its own
   * `detectLanguage` (a foreign routine, so its answer is an input here);
   * any other request exposes the raw Accept-Language header.
   */
  datatype BrowserHint =
    | Detected(detected: Option<string>)
    | RawHeader(header: Option<string>)

  datatype Request = Request(query: map<string, string>, cookie: Option<string>, browser: BrowserHint)

  /** How a request ends: rendered, redirected (an AbortException), or a 404 / internal error. */
  datatype Outcome =
    | Resolved(pageKey: string, lang: string)
    | Redirect(page: string, lang: string, params: map<string, string>)
    | NotFound
    | ConfigError

  /** `array_keys(LANGS)`. */
  function Codes(cfg: Config): (r: seq<string>)
    ensures |r| == |cfg.langs|
    ensures forall i :: 0 <= i < |r| ==> r[i] == cfg.langs[i].code
  {
    seq(|cfg.langs|, i requires 0 <= i < |cfg.langs| => cfg.langs[i].code)
  }

  /** `isLangValid`: `array_key_exists` of the code among `LANGS`; null is no key. */
  predicate IsLangValid(cfg: Config, lang: Option<string>) {
    lang.Some? && lang.value in Codes(cfg)
  }

  /** `getDefaultLang`: the first key of `LANGS`. */
  function DefaultLang(cfg: Config): (r: string)
    requires |cfg.langs| > 0
    ensures IsLangValid(cfg, Some(r))
  {
    cfg.langs[0].code
  }

  /** `getBrowserLang`. */
  function BrowserLang(hint: BrowserHint, default: string): (r: string)
    ensures hint.Detected? ==> r == if hint.detected.Some? then hint.detected.value else default
    ensures hint.RawHeader? ==>
      var text := if hint.header.Some? then hint.header.value else default;
      |r| == (if |text| < 2 then |text| else 2) && r <= text
  {
    match hint
    case Detected(d) => d.GetOr(default)
    case RawHeader(h) => Prefix(h.GetOr(default), 2)
  }

  /** `getCookiesLang`. */
  function CookiesLang(cookie: Option<string>, default: string): string {
    cookie.GetOr(default)
  }

  /**
   * `determineLang`: browser hint, overridden by the cookie, `'cz'` read as
   * `'cs'`, anything unsupported replaced by the default language.
   */
  function DetermineLang(cfg: Config, req: Request): (r: string)
    requires |cfg.langs| > 0
    ensures IsLangValid(cfg, Some(r))
  {
    var lang := NormaliseCz(CookiesLang(req.cookie, BrowserLang(req.browser, "")));
    if IsLangValid(cfg, Some(lang)) then lang else DefaultLang(cfg)
  }

  /**
   * `getLangKey` as written: `(int) array_key_exists(...)`, so every
   * supported language gets the index 1 and anything else gets null.
   */
  function GetLangKey(cfg: Config, lang: Option<string>): (r: Option<int>)
    ensures r.Some? <==> lang.Some? && NormaliseCz(lang.value) in Codes(cfg)
    ensures r.Some? ==> r.value == 1
  {
    var l := if lang == Some("cz") then Some("cs") else lang;
    if IsLangValid(cfg, l) then Some(1) else None
  }

  /** The language position `getLangKey` was evidently meant to return. */
  function LangIndex(cfg: Config, lang: Option<string>): (r: Option<int>)
    ensures r.Some? <==> lang.Some? && NormaliseCz(lang.value) in Codes(cfg)
    ensures r.Some? ==> 0 <= r.value < |cfg.langs| && cfg.langs[r.value].code == NormaliseCz(lang.value)
  {
    if lang.None? then None
    else
      match IndexOf(Codes(cfg), NormaliseCz(lang.value))
      case None => None
      case Some(i) => Some(i)
  }

  /** Which index `match` reads a page's slugs at: the source's `getLangKey`, or the language's position. */
  datatype KeyScheme = AsWritten | ByPosition

  function LangKey(scheme: KeyScheme, cfg: Config, lang: Option<string>): Option<int> {
    match scheme
    case AsWritten => GetLangKey(cfg, lang)
    case ByPosition => LangIndex(cfg, lang)
  }

  /** `getPageKeyByUrl`: a null slug is looked up as the empty array key. */
  function GetPageKeyByUrl(cfg: Config, page: Option<string>): (r: Result<string, ()>)
    ensures r.Ok? <==> page.GetOr("") in ReversedMap(cfg.pages)
    ensures r.Ok? ==> r.value == ReversedMap(cfg.pages)[page.GetOr("")]
  {
    var url := page.GetOr("");
    var reversed := ReversedMap(cfg.pages);
    if url in reversed then Ok(reversed[url]) else Err(())
  }

  /** The canonical slug of `pageKey` for language index `langId`, falling back to the universal one. */
  function CanonicalSlug(cfg: Config, pageKey: string, langId: Option<int>): (r: Option<string>)
    ensures r.Some? ==> Lookup(cfg.pages, pageKey).Some? && r.value in SlugList(Lookup(cfg.pages, pageKey).value)
    ensures Lookup(cfg.pages, pageKey).Some? && Lookup(cfg.pages, pageKey).value.Universal? ==> r.Some?
    ensures Lookup(cfg.pages, pageKey).Some? && Lookup(cfg.pages, pageKey).value.PerLanguage? ==>
      (r.Some? <==> langId.Some? && 0 <= langId.value < |Lookup(cfg.pages, pageKey).value.slugs|)
  {
    match Lookup(cfg.pages, pageKey)
    case None => None
    case Some(s) =>
      match SlugAt(s, langId)
      case Some(p) => Some(p)
      case None => SlugAt(s, Some(-1))
  }

  /**
   * `redirectTo`: the query parameters united with `lang` and `page`; PHP's
   * `+` keeps the left operand, so existing query keys win.
   */
  function RedirectTo(req: Request, page: string, lang: string): (r: Outcome)
    ensures r.Redirect? && r.page == page && r.lang == lang
    ensures r.params.Keys == req.query.Keys + {"lang", "page"}
    ensures forall k :: k in req.query ==> r.params[k] == req.query[k]
    ensures "lang" !in req.query ==> r.params["lang"] == lang
    ensures "page" !in req.query ==> r.params["page"] == page
  {
    Redirect(page, lang, map["lang" := lang, "page" := page] + req.query)
  }

  /** `$safeLang`: the requested language when it is supported, else `determineLang()`. */
  function SafeLang(cfg: Config, lang: Option<string>, req: Request): (r: string)
    requires |cfg.langs| > 0
    ensures IsLangValid(cfg, Some(r))
    ensures IsLangValid(cfg, lang) ==> Some(r) == lang
    ensures !IsLangValid(cfg, lang) ==> r == DetermineLang(cfg, req)
  {
    if IsLangValid(cfg, lang) then lang.value else DetermineLang(cfg, req)
  }

  /** `match`, with the slug-index scheme as a parameter so the as-written and corrected variants share one body. */
  function MatchWith(cfg: Config, scheme: KeyScheme, page: Option<string>, lang: Option<string>, req: Request): (r: Outcome)
    requires |cfg.langs| > 0
    ensures r.NotFound? <==> (page.Some? || lang.Some?) && page.GetOr("") !in ReversedMap(cfg.pages)
    ensures r.Resolved? ==> lang == Some(r.lang) && IsLangValid(cfg, lang)
    ensures r.Resolved? ==> page.GetOr("") in ReversedMap(cfg.pages) && r.pageKey == ReversedMap(cfg.pages)[page.GetOr("")]
    ensures r.Redirect? ==> IsLangValid(cfg, Some(r.lang)) && (lang != Some(r.lang) || page.GetOr("") != r.page)
    ensures r.ConfigError? ==>
      && page.GetOr("") in ReversedMap(cfg.pages)
      && CanonicalSlug(cfg, ReversedMap(cfg.pages)[page.GetOr("")], LangKey(scheme, cfg, Some(SafeLang(cfg, lang, req)))).None?
  {
    if page.None? && lang.None? then
      RedirectTo(req, "", DetermineLang(cfg, req))
    else
      var safeLang := SafeLang(cfg, lang, req);
      match GetPageKeyByUrl(cfg, page)
      case Err(_) => NotFound
      case Ok(pageKey) =>
        match CanonicalSlug(cfg, pageKey, LangKey(scheme, cfg, Some(safeLang)))
        case None => ConfigError
        case Some(safePage) =>
          if lang != Some(safeLang) || page.GetOr("") != safePage then RedirectTo(req, safePage, safeLang)
          else Resolved(pageKey, safeLang)
  }

  /** `match` as the source has it, over the site's tables. */
  function Match(page: Option<string>, lang: Option<string>, req: Request): (r: Outcome)
    ensures !r.ConfigError?
  {
    SiteSlugsForEveryLang();
    NoConfigError(Site, AsWritten, page, lang, req);
    MatchWith(Site, AsWritten, page, lang, req)
  }

  /** `match` with the language position as the slug index. */
  function MatchIntended(page: Option<string>, lang: Option<string>, req: Request): (r: Outcome)
    ensures !r.ConfigError?
  {
    SiteSlugsForEveryLang();
    NoConfigError(Site, ByPosition, page, lang, req);
    MatchWith(Site, ByPosition, page, lang, req)
  }

  /** `getAllLangsLinks`: null for a page key missing from the table (PHP fails on `count(null)`). */
  function GetAllLangsLinks(cfg: Config, pageKey: string): (r: Option<seq<Link>>)
    ensures r.Some? <==> Lookup(cfg.pages, pageKey).Some?
    ensures r.Some? ==> forall k :: 0 <= k < |r.value| ==> r.value[k].page in SlugList(Lookup(cfg.pages, pageKey).value)
    ensures r.Some? ==> forall k :: 0 <= k < |r.value| && k < |cfg.langs| ==> r.value[k].lang == cfg.langs[k].code
  {
    match Lookup(cfg.pages, pageKey)
    case None => None
    case Some(s) => Some(AllLangsLinks(s, Codes(cfg)))
  }

  /**
   * Every per-language entry has a slug for each language, there are at
   * least two languages (the as-written index is 1), and `cz` is not itself
   * a code (`getLangKey` reads it as `cs`).
   */
  ghost predicate SlugsForEveryLang(cfg: Config) {
    && 2 <= |cfg.langs|
    && "cz" !in Codes(cfg)
    && forall i :: 0 <= i < |cfg.pages| && cfg.pages[i].slugs.PerLanguage? ==> |cfg.pages[i].slugs.slugs| >= |cfg.langs|
  }

  /** With a slug for every language, whatever slug index `match` settles on exists: no configuration error. */
  lemma NoConfigError(cfg: Config, scheme: KeyScheme, page: Option<string>, lang: Option<string>, req: Request)
    requires SlugsForEveryLang(cfg)
    ensures !MatchWith(cfg, scheme, page, lang, req).ConfigError?
  {
    var url := page.GetOr("");
    if (page.Some? || lang.Some?) && url in ReversedMap(cfg.pages) {
      ReversedMapSound(cfg.pages, url);
      var pageKey := ReversedMap(cfg.pages)[url];
      var safeLang := SafeLang(cfg, lang, req);
      assert NormaliseCz(safeLang) == safeLang;
      var slugs := Lookup(cfg.pages, pageKey).value;
      var j :| 0 <= j < |cfg.pages| && cfg.pages[j].key == pageKey && cfg.pages[j].slugs == slugs;
      assert slugs.PerLanguage? ==> |slugs.slugs| >= |cfg.langs|;
      assert CanonicalSlug(cfg, pageKey, LangKey(scheme, cfg, Some(safeLang))).Some?;
    }
  }

  lemma SiteSlugsForEveryLang()
    ensures SlugsForEveryLang(Site)
  {
    SiteCodes();
  }

  // ---------------------------------------------------------------------------
  // Properties of the resolver over any well-formed table
  // ---------------------------------------------------------------------------

  /** The slug `CanonicalSlug` picks belongs to the page it was picked for. */
  lemma CanonicalSlugBelongs(cfg: Config, pageKey: string, langId: Option<int>)
    requires WellFormed(cfg)
    requires CanonicalSlug(cfg, pageKey, langId).Some?
    ensures GetPageKeyByUrl(cfg, CanonicalSlug(cfg, pageKey, langId)) == Ok(pageKey)
  {
    var s := Lookup(cfg.pages, pageKey).value;
    var i :| 0 <= i < |cfg.pages| && cfg.pages[i].key == pageKey && cfg.pages[i].slugs == s;
    var p := CanonicalSlug(cfg, pageKey, langId).value;
    assert p in SlugList(s);
    ReversedMapInverts(cfg.pages, i, p);
  }

  /** The request is already in canonical form: a supported language and the page's canonical slug for it. */
  predicate IsCanonicalWith(cfg: Config, scheme: KeyScheme, page: Option<string>, lang: Option<string>) {
    && IsLangValid(cfg, lang)
    && page.GetOr("") in ReversedMap(cfg.pages)
    && CanonicalSlug(cfg, ReversedMap(cfg.pages)[page.GetOr("")], LangKey(scheme, cfg, lang)) == Some(page.GetOr(""))
  }

  /**
   * A request renders (no redirect) exactly when it is already canonical, and
   * then it renders the page its slug names in the requested language.
   */
  lemma ResolvedIffCanonical(cfg: Config, scheme: KeyScheme, page: Option<string>, lang: Option<string>, req: Request)
    requires WellFormed(cfg)
    ensures MatchWith(cfg, scheme, page, lang, req).Resolved? <==> IsCanonicalWith(cfg, scheme, page, lang)
    ensures MatchWith(cfg, scheme, page, lang, req).Resolved? ==>
      MatchWith(cfg, scheme, page, lang, req) == Resolved(ReversedMap(cfg.pages)[page.GetOr("")], lang.value)
  {
  }

  /** A redirect happens exactly when the language or the slug differs from the canonical one. */
  lemma RedirectIffNotCanonical(cfg: Config, scheme: KeyScheme, page: Option<string>, lang: Option<string>, req: Request)
    requires WellFormed(cfg)
    requires page.Some? || lang.Some?
    requires page.GetOr("") in ReversedMap(cfg.pages)
    requires CanonicalSlug(cfg, ReversedMap(cfg.pages)[page.GetOr("")], LangKey(scheme, cfg, Some(SafeLang(cfg, lang, req)))).Some?
    ensures MatchWith(cfg, scheme, page, lang, req).Redirect? <==> !IsCanonicalWith(cfg, scheme, page, lang)
  {
  }

  /**
   * When the query carries neither `lang` nor `page`, the redirect target is
   * a fixed point: the route parameters handed to `redirect` are the
   * canonical pair, and resolving them renders the page in the target
   * language, whatever cookie, header or query the follow-up request carries.
   */
  lemma RedirectTargetResolves(cfg: Config, scheme: KeyScheme, page: Option<string>, lang: Option<string>, req: Request, next: Request)
    requires WellFormed(cfg)
    requires MatchWith(cfg, scheme, page, lang, req).Redirect?
    requires page.Some? || lang.Some?
    requires "lang" !in req.query && "page" !in req.query
    ensures var o := MatchWith(cfg, scheme, page, lang, req);
      && "page" in o.params && "lang" in o.params
      && o.params["page"] == o.page && o.params["lang"] == o.lang
      && MatchWith(cfg, scheme, Some(o.params["page"]), Some(o.params["lang"]), next) == Resolved(GetPageKeyByUrl(cfg, page).value, o.lang)
  {
    var safeLang := SafeLang(cfg, lang, req);
    var pageKey := GetPageKeyByUrl(cfg, page).value;
    CanonicalSlugBelongs(cfg, pageKey, LangKey(scheme, cfg, Some(safeLang)));
  }

  /** One evaluation step of `match` once the slug's page and its canonical slug are known. */
  lemma MatchStep(cfg: Config, scheme: KeyScheme, page: Option<string>, lang: Option<string>, req: Request, pageKey: string, safePage: string)
    requires |cfg.langs| > 0
    requires page.Some? || lang.Some?
    requires GetPageKeyByUrl(cfg, page) == Ok(pageKey)
    requires CanonicalSlug(cfg, pageKey, LangKey(scheme, cfg, Some(SafeLang(cfg, lang, req)))) == Some(safePage)
    ensures var safeLang := SafeLang(cfg, lang, req);
      MatchWith(cfg, scheme, page, lang, req) ==
        if lang != Some(safeLang) || page.GetOr("") != safePage then RedirectTo(req, safePage, safeLang) else Resolved(pageKey, safeLang)
  {
  }

  /**
   * An unsupported route language is never rendered; when the slug is known
   * the request is redirected to the language `determineLang` picks.
   */
  lemma InvalidLangNotResolved(cfg: Config, scheme: KeyScheme, page: Option<string>, lang: Option<string>, req: Request)
    requires WellFormed(cfg)
    requires lang.Some? && !IsLangValid(cfg, lang)
    ensures !MatchWith(cfg, scheme, page, lang, req).Resolved?
    ensures MatchWith(cfg, scheme, page, lang, req).Redirect? ==> MatchWith(cfg, scheme, page, lang, req).lang == DetermineLang(cfg, req)
  {
  }

  /**
   * A table where every page key is listed once, every language code once
   * (and none is the `'cz'` alias), and every per-language page has one slug
   * per language.
   */
  ghost predicate LinksComplete(cfg: Config) {
    && (forall a, b :: 0 <= a < b < |cfg.pages| ==> cfg.pages[a].key != cfg.pages[b].key)
    && (forall a, b :: 0 <= a < b < |cfg.langs| ==> cfg.langs[a].code != cfg.langs[b].code)
    && (forall a :: 0 <= a < |cfg.langs| ==> cfg.langs[a].code != "cz")
    && (forall a :: 0 <= a < |cfg.pages| && cfg.pages[a].slugs.PerLanguage? ==> |cfg.pages[a].slugs.slugs| == |cfg.langs|)
  }

  /**
   * With the language position as slug index, the k-th alternate-language
   * link of a page renders that page in language k without a redirect.
   */
  lemma AltLinkResolves(cfg: Config, i: int, k: int, req: Request)
    requires WellFormed(cfg) && LinksComplete(cfg)
    requires 0 <= i < |cfg.pages| && 0 <= k < |cfg.langs|
    ensures GetAllLangsLinks(cfg, cfg.pages[i].key).Some?
    ensures var links := GetAllLangsLinks(cfg, cfg.pages[i].key).value;
      var slug := if cfg.pages[i].slugs.Universal? then cfg.pages[i].slugs.slug else cfg.pages[i].slugs.slugs[k];
      && k < |links|
      && links[k] == Link(cfg.langs[k].code, slug)
      && MatchWith(cfg, ByPosition, Some(slug), Some(cfg.langs[k].code), req) == Resolved(cfg.pages[i].key, cfg.langs[k].code)
  {
    AltLinkAt(cfg, i, k);
    AltSlugResolves(cfg, i, k, req);
  }

  /** The page's slug for language k, requested in language k, renders the page without a redirect. */
  lemma AltSlugResolves(cfg: Config, i: int, k: int, req: Request)
    requires WellFormed(cfg) && LinksComplete(cfg)
    requires 0 <= i < |cfg.pages| && 0 <= k < |cfg.langs|
    ensures var slug := if cfg.pages[i].slugs.Universal? then cfg.pages[i].slugs.slug else cfg.pages[i].slugs.slugs[k];
      MatchWith(cfg, ByPosition, Some(slug), Some(cfg.langs[k].code), req) == Resolved(cfg.pages[i].key, cfg.langs[k].code)
  {
    var page := cfg.pages[i];
    var code := cfg.langs[k].code;
    var slug := if page.slugs.Universal? then page.slugs.slug else page.slugs.slugs[k];
    AltSlugCanonical(cfg, i, k, req);
    MatchStep(cfg, ByPosition, Some(slug), Some(code), req, page.key, slug);
  }

  /** The page's slug for language k is found under the page's key and is its canonical slug for language k. */
  lemma AltSlugCanonical(cfg: Config, i: int, k: int, req: Request)
    requires WellFormed(cfg) && LinksComplete(cfg)
    requires 0 <= i < |cfg.pages| && 0 <= k < |cfg.langs|
    ensures var slug := if cfg.pages[i].slugs.Universal? then cfg.pages[i].slugs.slug else cfg.pages[i].slugs.slugs[k];
      && SafeLang(cfg, Some(cfg.langs[k].code), req) == cfg.langs[k].code
      && GetPageKeyByUrl(cfg, Some(slug)) == Ok(cfg.pages[i].key)
      && CanonicalSlug(cfg, cfg.pages[i].key, LangKey(ByPosition, cfg, Some(cfg.langs[k].code))) == Some(slug)
  {
    var page := cfg.pages[i];
    LookupFindsUniqueKey(cfg.pages, i);
    var code := cfg.langs[k].code;
    var slug := if page.slugs.Universal? then page.slugs.slug else page.slugs.slugs[k];
    assert slug in SlugList(page.slugs);
    ReversedMapInverts(cfg.pages, i, slug);
    assert Codes(cfg)[k] == code;
    var id := LangIndex(cfg, Some(code));
    assert id == Some(k);
  }

  /** The k-th alternate-language link of a page carries language k and the page's slug for it. */
  lemma AltLinkAt(cfg: Config, i: int, k: int)
    requires WellFormed(cfg) && LinksComplete(cfg)
    requires 0 <= i < |cfg.pages| && 0 <= k < |cfg.langs|
    ensures Lookup(cfg.pages, cfg.pages[i].key) == Some(cfg.pages[i].slugs)
    ensures GetAllLangsLinks(cfg, cfg.pages[i].key).Some?
    ensures var links := GetAllLangsLinks(cfg, cfg.pages[i].key).value;
      var slug := if cfg.pages[i].slugs.Universal? then cfg.pages[i].slugs.slug else cfg.pages[i].slugs.slugs[k];
      k < |links| && links[k] == Link(cfg.langs[k].code, slug)
  {
    LookupFindsUniqueKey(cfg.pages, i);
  }

  /** With pairwise distinct keys, `Lookup` finds entry i under its own key. */
  lemma {:induction false} LookupFindsUniqueKey(pages: seq<Page>, i: int)
    requires 0 <= i < |pages|
    requires forall a, b :: 0 <= a < b < |pages| ==> pages[a].key != pages[b].key
    ensures Lookup(pages, pages[i].key) == Some(pages[i].slugs)
  {
    if i > 0 {
      assert pages[0].key != pages[i].key;
      assert pages[1..][i - 1] == pages[i];
      LookupFindsUniqueKey(pages[1..], i - 1);
    }
  }

  /** A slug outside the table is a 404 whatever the language. */
  lemma UnknownSlugNotFound(cfg: Config, scheme: KeyScheme, page: string, lang: Option<string>, req: Request)
    requires WellFormed(cfg)
    requires forall i :: 0 <= i < |cfg.pages| ==> page !in SlugList(cfg.pages[i].slugs)
    ensures MatchWith(cfg, scheme, Some(page), lang, req) == NotFound
  {
    if page in ReversedMap(cfg.pages) {
      ReversedMapSound(cfg.pages, page);
    }
  }

  /** A cookie decides the language whatever the browser says. */
  lemma CookieOverridesBrowser(cfg: Config, req: Request, other: BrowserHint)
    requires |cfg.langs| > 0
    requires req.cookie.Some?
    ensures DetermineLang(cfg, req) == DetermineLang(cfg, req.(browser := other))
  {
  }

  /** An unsupported cookie yields the default language, not the browser's. */
  lemma InvalidCookieGivesDefault(cfg: Config, req: Request)
    requires |cfg.langs| > 0
    requires req.cookie.Some? && NormaliseCz(req.cookie.value) !in Codes(cfg)
    ensures DetermineLang(cfg, req) == cfg.langs[0].code
  {
  }

  /** Without a cookie, a supported browser language is taken as it is. */
  lemma BrowserLangWithoutCookie(cfg: Config, req: Request)
    requires |cfg.langs| > 0
    requires req.cookie.None?
    requires BrowserLang(req.browser, "") in Codes(cfg) && BrowserLang(req.browser, "") != "cz"
    ensures DetermineLang(cfg, req) == BrowserLang(req.browser, "")
  {
  }

  // ---------------------------------------------------------------------------
  // The site's own tables
  // ---------------------------------------------------------------------------

  lemma SiteCodes()
    ensures Codes(Site) == ["en", "cs"]
  {
  }

  /** The configured slugs are pairwise distinct across pages. */
  lemma SiteWellFormed()
    ensures WellFormed(Site)
  {
    forall i, s | 0 <= i < |Site.pages| && s in SlugList(Site.pages[i].slugs)
      ensures SiteSlugOwner(s) == i
    {
      if i == 0 {
      } else if i == 1 {
      } else if i == 2 {
      } else if i == 3 {
      } else if i == 4 {
      } else {
      }
    }
    OwnedSlugsDistinct(Site.pages, SiteSlugOwner);
  }

  /** Every slug of the site leads back to its own page key. */
  lemma SiteSlugsInvert(i: int, s: string)
    requires 0 <= i < |Site.pages| && s in SlugList(Site.pages[i].slugs)
    ensures GetPageKeyByUrl(Site, Some(s)) == Ok(Site.pages[i].key)
  {
    SiteWellFormed();
    ReversedMapInverts(Site.pages, i, s);
  }

  /** `determineLang` always answers `'en'` or `'cs'`; with an unusable cookie it is `'en'`, and `'cz'` means `'cs'`. */
  lemma SiteDetermineLang(req: Request)
    ensures DetermineLang(Site, req) in {"en", "cs"}
    ensures req.cookie == Some("cz") ==> DetermineLang(Site, req) == "cs"
    ensures req.cookie.Some? && req.cookie.value !in {"en", "cs", "cz"} ==> DetermineLang(Site, req) == "en"
  {
    SiteCodes();
  }

  /** `getLangKey` gives null to unsupported languages and 1 to every supported one. */
  lemma SiteLangKey(lang: Option<string>)
    ensures GetLangKey(Site, lang) == if lang in {Some("en"), Some("cs"), Some("cz")} then Some(1) else None
  {
    SiteCodes();
  }

  /** With neither page nor lang, the visitor is sent to the homepage slug in the preferred language. */
  lemma BothAbsentRedirectsHome(req: Request)
    ensures Match(None, None, req).Redirect?
    ensures Match(None, None, req).page == ""
    ensures Match(None, None, req).lang == DetermineLang(Site, req)
  {
  }

  /** When the query carries neither `lang` nor `page`, the homepage redirect's route parameters render the homepage. */
  lemma HomeRedirectResolves(req: Request, next: Request)
    requires "lang" !in req.query && "page" !in req.query
    ensures var o := Match(None, None, req);
      && "page" in o.params && "lang" in o.params
      && o.params["page"] == "" && o.params["lang"] == o.lang
      && Match(Some(o.params["page"]), Some(o.params["lang"]), next) == Resolved("homepage", o.lang)
  {
    var lang := Match(None, None, req).lang;
    assert lang == DetermineLang(Site, req);
    SiteSlugsInvert(0, "");
    HomeCanonical(GetLangKey(Site, Some(lang)));
    MatchStep(Site, AsWritten, Some(""), Some(lang), next, "homepage", "");
  }

  /**
   * When the query carries neither `lang` nor `page`, every redirect `match`
   * issues leads to route parameters that render without a further redirect.
   */
  lemma MatchRedirectTargetResolves(page: Option<string>, lang: Option<string>, req: Request, next: Request)
    requires Match(page, lang, req).Redirect?
    requires "lang" !in req.query && "page" !in req.query
    ensures var o := Match(page, lang, req);
      "page" in o.params && "lang" in o.params && Match(Some(o.params["page"]), Some(o.params["lang"]), next).Resolved?
  {
    if page.None? && lang.None? {
      HomeRedirectResolves(req, next);
    } else {
      SiteWellFormed();
      RedirectTargetResolves(Site, AsWritten, page, lang, req, next);
    }
  }

  /**
   * A query `lang` outranks the canonical language in the redirect: the route
   * `cz/poledne` with `?lang=cz` is redirected to the route parameters
   * `cz/poledne` again, which do not render for any follow-up request.
   */
  lemma QueryLangRedirectsToSameRoute(cookie: Option<string>, browser: BrowserHint, next: Request)
    ensures var req := Request(map["lang" := "cz"], cookie, browser);
      && DetermineLang(Site, req) != "cz"
      && Match(Some("poledne"), Some("cz"), req) == Redirect("poledne", DetermineLang(Site, req), map["lang" := "cz", "page" := "poledne"])
    ensures Match(Some("poledne"), Some("cz"), next).Redirect?
  {
    var req := Request(map["lang" := "cz"], cookie, browser);
    CzPoledneRedirects(req);
    SiteDetermineLang(req);
    QueryLangWins(req, "poledne", DetermineLang(Site, req));
    CzPoledneRedirects(next);
  }

  /** A query holding only `lang` keeps that `lang` in the redirect's parameters. */
  lemma QueryLangWins(req: Request, page: string, lang: string)
    requires req.query == map["lang" := "cz"]
    ensures RedirectTo(req, page, lang) == Redirect(page, lang, map["lang" := "cz", "page" := page])
  {
    var r := RedirectTo(req, page, lang);
    assert r.params == map["lang" := "cz", "page" := page];
  }

  /** The route `cz/poledne` is redirected to `poledne` in the language `determineLang` picks. */
  lemma CzPoledneRedirects(req: Request)
    ensures Match(Some("poledne"), Some("cz"), req) == RedirectTo(req, "poledne", DetermineLang(Site, req))
  {
    var safeLang := DetermineLang(Site, req);
    SiteCodes();
    assert !IsLangValid(Site, Some("cz"));
    SiteDetermineLang(req);
    SiteLangKey(Some(safeLang));
    LunchCanonical();
    SiteSlugsInvert(1, "poledne");
    MatchStep(Site, AsWritten, Some("poledne"), Some("cz"), req, "lunch", "poledne");
  }

  /** A missing page with a given language is the homepage. */
  lemma AbsentPageIsHomepage(lang: string, req: Request)
    ensures var o := Match(None, Some(lang), req);
      (o.Resolved? && o.pageKey == "homepage") || (o.Redirect? && o.page == "")
  {
    var safeLang := SafeLang(Site, Some(lang), req);
    SiteSlugsInvert(0, "");
    HomeCanonical(GetLangKey(Site, Some(safeLang)));
    MatchStep(Site, AsWritten, None, Some(lang), req, "homepage", "");
  }

  /** The homepage's only slug is its universal one, whatever the language index. */
  lemma HomeCanonical(id: Option<int>)
    ensures CanonicalSlug(Site, "homepage", id) == Some("")
  {
  }

  /**
   * Because every supported language gets index 1, a page with per-language
   * slugs canonicalises to its index-1 (Czech) slug under either language,
   * and the homepage falls back to its universal slug.
   */
  lemma CanonicalSlugIsIndexOne(i: int, lang: string)
    requires 0 <= i < |Site.pages| && lang in {"en", "cs"}
    ensures Site.pages[i].slugs.PerLanguage? ==> CanonicalSlug(Site, Site.pages[i].key, GetLangKey(Site, Some(lang))) == Some(Site.pages[i].slugs.slugs[1])
    ensures Site.pages[i].slugs.Universal? ==> CanonicalSlug(Site, Site.pages[i].key, GetLangKey(Site, Some(lang))) == Some("")
  {
    SiteLangKey(Some(lang));
    SiteLinksComplete();
    LookupFindsUniqueKey(Site.pages, i);
  }

  /**
   * A `'cz'` route parameter is not normalised: it fails `isLangValid`, so the
   * request is never rendered and a known page redirects to the language
   * `determineLang` picks.
   */
  lemma CzRouteLangIsRedirected(page: Option<string>, req: Request)
    ensures !Match(page, Some("cz"), req).Resolved?
    ensures Match(page, Some("cz"), req).Redirect? ==> Match(page, Some("cz"), req).lang == DetermineLang(Site, req)
  {
    SiteWellFormed();
    SiteCodes();
    InvalidLangNotResolved(Site, AsWritten, page, Some("cz"), req);
  }

  /**
   * `getAllLangsLinks` gives one link per language: the universal slug for
   * every language, otherwise slug i under language i.
   */
  lemma AllLangsLinksPerLanguage(cfg: Config, i: int)
    requires LinksComplete(cfg) && 0 <= i < |cfg.pages|
    ensures GetAllLangsLinks(cfg, cfg.pages[i].key).Some?
    ensures var links := GetAllLangsLinks(cfg, cfg.pages[i].key).value;
      |links| == |cfg.langs| &&
      forall k :: 0 <= k < |links| ==>
        && links[k].lang == cfg.langs[k].code
        && links[k].page == if cfg.pages[i].slugs.Universal? then cfg.pages[i].slugs.slug else cfg.pages[i].slugs.slugs[k]
  {
    LookupFindsUniqueKey(cfg.pages, i);
  }

  /**
   * As written, the English alternate link of a two-slug page is not
   * canonical: following it redirects to the Czech slug.
   */
  lemma EnglishAltLinkRedirects(req: Request)
    ensures GetAllLangsLinks(Site, "lunch") == Some([Link("en", "lunch"), Link("cs", "poledne")])
    ensures Match(Some("lunch"), Some("en"), req).Redirect?
    ensures Match(Some("lunch"), Some("en"), req).page == "poledne"
  {
    LunchLinks();
    SiteSlugsInvert(1, "lunch");
    EnglishIsValid();
    LunchCanonical();
    MatchStep(Site, AsWritten, Some("lunch"), Some("en"), req, "lunch", "poledne");
  }

  lemma LunchLinks()
    ensures GetAllLangsLinks(Site, "lunch") == Some([Link("en", "lunch"), Link("cs", "poledne")])
  {
    SiteCodes();
    LunchCanonical();
    var links := AllLangsLinks(PerLanguage(["lunch", "poledne"]), ["en", "cs"]);
    assert links[0] == Link("en", "lunch") && links[1] == Link("cs", "poledne");
    assert links == [Link("en", "lunch"), Link("cs", "poledne")];
  }

  lemma EnglishIsValid()
    ensures IsLangValid(Site, Some("en")) && GetLangKey(Site, Some("en")) == Some(1)
  {
    SiteCodes();
  }

  lemma LunchCanonical()
    ensures CanonicalSlug(Site, "lunch", Some(1)) == Some("poledne")
  {
    assert Lookup(Site.pages, "lunch") == Some(PerLanguage(["lunch", "poledne"]));
  }

  /** Page keys and language codes are listed once each, and every page has a slug per language. */
  lemma SiteLinksComplete()
    ensures LinksComplete(Site)
  {
  }

  /**
   * With the language position as slug index, every alternate-language link
   * renders its page in its language without a redirect.
   */
  lemma IntendedAltLinksResolve(i: int, k: int, req: Request)
    requires 0 <= i < |Site.pages|
    requires 0 <= k < |Site.langs|
    ensures var links := GetAllLangsLinks(Site, Site.pages[i].key);
      && links.Some? && k < |links.value|
      && links.value[k].lang == Site.langs[k].code && links.value[k].page in SlugList(Site.pages[i].slugs)
      && MatchIntended(Some(links.value[k].page), Some(links.value[k].lang), req) == Resolved(Site.pages[i].key, links.value[k].lang)
  {
    SiteWellFormed();
    SiteLinksComplete();
    AltLinkResolves(Site, i, k, req);
  }
}
