/**
 * The legacy public page resolver (`App\Presenters\StaticPresenter` in the
 * lower-case `app/presenters` tree). Unlike the current one it lets the slug
 * decide the language: a per-language slug at position i belongs to
 * language i, and only the universal homepage slug takes its language from
 * the request. It also knows a few alias slugs that jump straight to the
 * homepage.
 *
 * As for the current resolver, the class's tables are a configuration value,
 * the general properties are proved for any well-formed table, and `Site`
 * holds the class's own tables.
 *
 * PHP's loose `==` between two strings compares them as numbers only when
 * both are numeric; no slug or language code here is numeric, and `null`
 * compares equal to `''`, so every comparison the resolver makes is string
 * equality after reading `null` as `''`.
 */
module LegacyStaticPages {
  import opened Common
  import opened PageMaps

  /** `$langs`, `$pageMap` and `$aliases`; an alias slug maps to its `(page, lang)` target. */
  datatype Config = Config(langs: seq<string>, pages: seq<Page>, aliases: map<string, Link>)

  const Site: Config := Config(
    ["cs", "en"],
    [
      Page("homepage", Universal("")),
      Page("lunch", PerLanguage(["poledne", "lunch"])),
      Page("dinner", PerLanguage(["vecer", "dinner"])),
      Page("beverages", PerLanguage(["napoje", "beverages"])),
      Page("gallery", PerLanguage(["galerie", "gallery"])),
      Page("contact", PerLanguage(["kontakt", "contact"]))
    ],
    map["home" := Link("en", ""), "uvod" := Link("cs", ""), "index" := Link("cs", "")])

  /**
   * What `determineLang` reads: the string `getBrowserLang`'s header lookup
   * returns (`None` reads as its default `''`) and the `lang` cookie.
   * `RequestOf` builds it the way the class does.
   */
  datatype Request = Request(header: Option<string>, cookie: Option<string>)

  /**
   * Nette's HTTP request header table. The request factory names each
   * header after its `HTTP_*` server variable with the prefix dropped and
   * `_` turned into `-`, and the request lower-cases the names, so no name
   * holds `_`.
   */
  type Headers = map<string, string>

  predicate NetteNamed(headers: Headers) {
    forall name :: name in headers ==> '_' !in name
  }

  /** `Nette\Http\Request::getHeader`: the lower-cased name is looked up, the default answers a miss. */
  function GetHeader(headers: Headers, name: string, default: string): (r: string)
    ensures Lower(name) in headers ==> r == headers[Lower(name)]
    ensures Lower(name) !in headers ==> r == default
  {
    if Lower(name) in headers then headers[Lower(name)] else default
  }

  /** The request `determineLang` sees: `getBrowserLang` asks for `HTTP_ACCEPT_LANGUAGE` with default `''`. */
  function RequestOf(headers: Headers, cookie: Option<string>): Request {
    Request(Some(GetHeader(headers, "HTTP_ACCEPT_LANGUAGE", "")), cookie)
  }

  /** The request the current resolver builds: it asks for `Accept-Language`. */
  function IntendedRequestOf(headers: Headers, cookie: Option<string>): Request {
    Request(Some(GetHeader(headers, "Accept-Language", "")), cookie)
  }

  /** Rendered, redirected (an AbortException), or a BadRequestException. */
  datatype Outcome =
    | Resolved(pageKey: string, lang: Option<string>)
    | Redirect(page: string, lang: Option<string>)
    | BadRequest

  /** `empty()` of an optional string: null, `''` or `'0'`. */
  predicate IsEmpty(s: Option<string>) {
    s.None? || !Truthy(s.value)
  }

  /**
   * `determineLang`: the first two characters of the header lookup, overridden
   * by the cookie, `'cz'` read as `'cs'`, anything unsupported replaced by
   * the literal `'en'`.
   */
  function DetermineLang(langs: seq<string>, req: Request): (r: string)
    ensures r in langs || r == "en"
  {
    var lang := NormaliseCz(req.cookie.GetOr(Prefix(req.header.GetOr(""), 2)));
    if lang in langs then lang else "en"
  }

  /** `getLangKey`: `array_search`, where a null language is compared as `''`. */
  function SearchLang(langs: seq<string>, lang: Option<string>): Option<nat> {
    IndexOf(langs, lang.GetOr(""))
  }

  /** `$this->langs[$langId]`: an undefined index reads as null. */
  function LangAt(langs: seq<string>, id: int): (r: Option<string>)
    ensures r.Some? <==> 0 <= id < |langs|
    ensures r.Some? ==> r.value == langs[id]
  {
    if 0 <= id < |langs| then Some(langs[id]) else None
  }

  /** The loose `==` between a table language and the request's language. */
  predicate LooseEq(a: Option<string>, b: Option<string>) {
    a.GetOr("") == b.GetOr("")
  }

  /**
   * The position of `url` within one entry, as the inner `foreach` finds it:
   * `-1` for the universal slug, otherwise the first matching language index.
   */
  function SlugIndex(s: Slugs, url: string): (r: Option<int>)
    ensures r.Some? <==> url in SlugList(s)
    ensures r.Some? && s.Universal? ==> r.value == -1
    ensures r.Some? && s.PerLanguage? ==> 0 <= r.value < |s.slugs| && s.slugs[r.value] == url
    ensures r.Some? && s.PerLanguage? ==> forall j :: 0 <= j < r.value ==> s.slugs[j] != url
  {
    match s
    case Universal(u) => if u == url then Some(-1 as int) else None
    case PerLanguage(ss) =>
      match IndexOf(ss, url)
      case None => None
      case Some(i) => Some(i)
  }

  /**
   * The language index for the universal slug: the request's language when
   * it is listed, else `determineLang`'s; a failed search (`false`) used as
   * an array index reads index 0.
   */
  function UniversalLangId(cfg: Config, lang: Option<string>, req: Request): int {
    match SearchLang(cfg.langs, lang)
    case Some(i) => i
    case None =>
      match IndexOf(cfg.langs, DetermineLang(cfg.langs, req))
      case Some(j) => j
      case None => 0
  }

  /** The body of the inner loop once `url` matched the slug at `langId` of `page`. */
  function Decide(cfg: Config, page: Page, langId: int, url: string, lang: Option<string>, req: Request): (r: Outcome)
    ensures !r.BadRequest?
    ensures r.Resolved? ==> r.pageKey == page.key && r.lang == lang
    ensures r.Redirect? ==> r.page == url
    ensures langId != -1 ==> (r.Resolved? <==> LooseEq(LangAt(cfg.langs, langId), lang))
    ensures langId != -1 && r.Redirect? ==> r.lang == LangAt(cfg.langs, langId)
  {
    var id := if langId == -1 then UniversalLangId(cfg, lang, req) else langId;
    var target := LangAt(cfg.langs, id);
    if LooseEq(target, lang) then Resolved(page.key, lang) else Redirect(url, target)
  }

  /** The outer `foreach` over `$pageMap`: the first entry holding `url` decides. */
  function Scan(cfg: Config, pages: seq<Page>, url: string, lang: Option<string>, req: Request): (r: Outcome)
    ensures r.BadRequest? <==> forall i :: 0 <= i < |pages| ==> url !in SlugList(pages[i].slugs)
    ensures r.Resolved? ==> r.lang == lang && exists i :: 0 <= i < |pages| && pages[i].key == r.pageKey && url in SlugList(pages[i].slugs)
    ensures r.Redirect? ==> r.page == url
  {
    if pages == [] then BadRequest
    else
      match SlugIndex(pages[0].slugs, url)
      case Some(langId) => Decide(cfg, pages[0], langId, url, lang, req)
      case None => Scan(cfg, pages[1..], url, lang, req)
  }

  /** `match`: aliases first, then the empty request, then the table scan. */
  function Match(cfg: Config, page: Option<string>, lang: Option<string>, req: Request): (r: Outcome)
    ensures r.BadRequest? <==>
      && page.GetOr("") !in cfg.aliases && !(IsEmpty(page) && IsEmpty(lang))
      && forall i :: 0 <= i < |cfg.pages| ==> page.GetOr("") !in SlugList(cfg.pages[i].slugs)
    ensures r.Resolved? ==> r.lang == lang && exists i :: 0 <= i < |cfg.pages| && cfg.pages[i].key == r.pageKey && page.GetOr("") in SlugList(cfg.pages[i].slugs)
  {
    var url := page.GetOr("");
    if url in cfg.aliases then Redirect(cfg.aliases[url].page, Some(cfg.aliases[url].lang))
    else if IsEmpty(page) && IsEmpty(lang) then Redirect("", Some(DetermineLang(cfg.langs, req)))
    else Scan(cfg, cfg.pages, url, lang, req)
  }

  /** `getAllLangsLinks`: null for a page key missing from the table. */
  function GetAllLangsLinks(cfg: Config, pageKey: string): (r: Option<seq<Link>>)
    ensures r.Some? <==> Lookup(cfg.pages, pageKey).Some?
    ensures r.Some? ==> forall k :: 0 <= k < |r.value| ==> r.value[k].page in SlugList(Lookup(cfg.pages, pageKey).value)
    ensures r.Some? ==> forall k :: 0 <= k < |r.value| && k < |cfg.langs| ==> r.value[k].lang == cfg.langs[k]
  {
    match Lookup(cfg.pages, pageKey)
    case None => None
    case Some(s) => Some(AllLangsLinks(s, cfg.langs))
  }

  // ---------------------------------------------------------------------------
  // Properties over any well-formed table
  // ---------------------------------------------------------------------------

  /**
   * A table the resolver handles as intended: the fallback `'en'` is listed,
   * the codes are distinct and truthy, every slug position has a language,
   * no slug names two pages, and no slug is also an alias.
   */
  ghost predicate WellFormed(cfg: Config) {
    && "en" in cfg.langs
    && (forall a, b :: 0 <= a < b < |cfg.langs| ==> cfg.langs[a] != cfg.langs[b])
    && (forall a :: 0 <= a < |cfg.langs| ==> Truthy(cfg.langs[a]))
    && (forall i :: 0 <= i < |cfg.pages| && cfg.pages[i].slugs.PerLanguage? ==> |cfg.pages[i].slugs.slugs| <= |cfg.langs|)
    && DistinctSlugs(cfg.pages)
    && (forall i, s :: 0 <= i < |cfg.pages| && s in SlugList(cfg.pages[i].slugs) ==> s !in cfg.aliases)
  }

  /** With distinct slugs the scan is decided by the one entry holding `url`. */
  lemma {:induction false} ScanFinds(cfg: Config, pages: seq<Page>, i: int, url: string, lang: Option<string>, req: Request)
    requires DistinctSlugs(pages)
    requires 0 <= i < |pages| && url in SlugList(pages[i].slugs)
    ensures SlugIndex(pages[i].slugs, url).Some?
    ensures Scan(cfg, pages, url, lang, req) == Decide(cfg, pages[i], SlugIndex(pages[i].slugs, url).value, url, lang, req)
  {
    if i > 0 {
      assert SlugIndex(pages[0].slugs, url).None?;
      var rest := pages[1..];
      assert rest[i - 1] == pages[i];
      assert DistinctSlugs(rest) by {
        forall a, b, t | 0 <= a < |rest| && 0 <= b < |rest| && t in SlugList(rest[a].slugs) && t in SlugList(rest[b].slugs)
          ensures a == b
        {
          assert rest[a] == pages[a + 1] && rest[b] == pages[b + 1];
        }
      }
      ScanFinds(cfg, rest, i - 1, url, lang, req);
    }
  }

  /** A slug held by no entry ends the scan with a BadRequestException. */
  lemma {:induction false} ScanMisses(cfg: Config, pages: seq<Page>, url: string, lang: Option<string>, req: Request)
    requires forall i :: 0 <= i < |pages| ==> url !in SlugList(pages[i].slugs)
    ensures Scan(cfg, pages, url, lang, req) == BadRequest
  {
    if pages != [] {
      assert url !in SlugList(pages[0].slugs);
      var rest := pages[1..];
      assert forall i :: 0 <= i < |rest| ==> rest[i] == pages[i + 1];
      ScanMisses(cfg, rest, url, lang, req);
    }
  }

  /** An alias redirects to its target before anything else is looked at. */
  lemma AliasRedirects(cfg: Config, page: Option<string>, lang: Option<string>, req: Request)
    requires page.GetOr("") in cfg.aliases
    ensures var target := cfg.aliases[page.GetOr("")];
      Match(cfg, page, lang, req) == Redirect(target.page, Some(target.lang))
  {
  }

  /** With neither a page nor a language (null, `''` or `'0'`), the homepage slug in `determineLang`'s language. */
  lemma EmptyRequestRedirects(cfg: Config, page: Option<string>, lang: Option<string>, req: Request)
    requires page.GetOr("") !in cfg.aliases
    requires IsEmpty(page) && IsEmpty(lang)
    ensures Match(cfg, page, lang, req) == Redirect("", Some(DetermineLang(cfg.langs, req)))
  {
  }

  /**
   * `determineLang` answers a listed language; a cookie decides whatever the
   * header says, and `'cz'` means `'cs'`.
   */
  lemma DetermineLangChain(cfg: Config, req: Request, other: Option<string>)
    requires WellFormed(cfg)
    ensures DetermineLang(cfg.langs, req) in cfg.langs
    ensures req.cookie.Some? ==> DetermineLang(cfg.langs, req) == DetermineLang(cfg.langs, req.(header := other))
    ensures req.cookie.Some? && NormaliseCz(req.cookie.value) in cfg.langs ==> DetermineLang(cfg.langs, req) == NormaliseCz(req.cookie.value)
    ensures req.cookie.Some? && NormaliseCz(req.cookie.value) !in cfg.langs ==> DetermineLang(cfg.langs, req) == "en"
    ensures req.cookie.None? && NormaliseCz(Prefix(req.header.GetOr(""), 2)) in cfg.langs ==>
      DetermineLang(cfg.langs, req) == NormaliseCz(Prefix(req.header.GetOr(""), 2))
  {
  }

  /**
   * As written, the header lookup never hits: the name it asks for keeps its
   * `_` after lower-casing, and no header name holds one. Without a cookie
   * the language is therefore `'en'`, whatever Accept-Language says.
   */
  lemma BrowserHeaderNeverRead(headers: Headers)
    requires NetteNamed(headers)
    ensures RequestOf(headers, None).header == Some("")
    ensures DetermineLang(Site.langs, RequestOf(headers, None)) == "en"
  {
    var name := Lower("HTTP_ACCEPT_LANGUAGE");
    assert name[4] == '_';
    assert name !in headers;
    assert Prefix("", 2) == "";
  }

  /** A Czech browser with no cookie, as written, still gets English. */
  lemma CzechBrowserGetsEnglish()
    ensures DetermineLang(Site.langs, RequestOf(map["accept-language" := "cs-CZ,cs;q=0.9"], None)) == "en"
  {
    BrowserHeaderNeverRead(map["accept-language" := "cs-CZ,cs;q=0.9"]);
  }

  /**
   * Asking for `Accept-Language`, as the current resolver does, finds the
   * header: without a cookie its first two characters decide when they name
   * a listed language, and a Czech browser gets Czech.
   */
  lemma IntendedHeaderDecides(headers: Headers, cookie: Option<string>)
    requires "accept-language" in headers
    ensures cookie.None? && NormaliseCz(Prefix(headers["accept-language"], 2)) in Site.langs ==>
      DetermineLang(Site.langs, IntendedRequestOf(headers, cookie)) == NormaliseCz(Prefix(headers["accept-language"], 2))
    ensures cookie.None? && Prefix(headers["accept-language"], 2) == "cs" ==>
      DetermineLang(Site.langs, IntendedRequestOf(headers, cookie)) == "cs"
  {
    assert Lower("Accept-Language") == "accept-language";
  }

  /**
   * A per-language slug fixes the language at its position: the request is
   * rendered when it asks for that language and redirected to it otherwise.
   */
  lemma PerLanguageSlugDecides(cfg: Config, i: int, k: int, lang: Option<string>, req: Request)
    requires WellFormed(cfg)
    requires 0 <= i < |cfg.pages| && cfg.pages[i].slugs.PerLanguage?
    requires 0 <= k < |cfg.pages[i].slugs.slugs|
    requires forall j :: 0 <= j < k ==> cfg.pages[i].slugs.slugs[j] != cfg.pages[i].slugs.slugs[k]
    requires Truthy(cfg.pages[i].slugs.slugs[k]) || !IsEmpty(lang)
    ensures var slug := cfg.pages[i].slugs.slugs[k];
      Match(cfg, Some(slug), lang, req) ==
        if lang == Some(cfg.langs[k]) then Resolved(cfg.pages[i].key, lang) else Redirect(slug, Some(cfg.langs[k]))
  {
    var slug := cfg.pages[i].slugs.slugs[k];
    assert slug in SlugList(cfg.pages[i].slugs);
    ScanFinds(cfg, cfg.pages, i, slug, lang, req);
    assert Truthy(cfg.langs[k]);
  }

  /**
   * The universal slug keeps the request's language when it is listed and
   * takes `determineLang`'s otherwise; it redirects exactly when that differs
   * from the request.
   */
  lemma UniversalSlugDecides(cfg: Config, i: int, lang: Option<string>, req: Request)
    requires WellFormed(cfg)
    requires 0 <= i < |cfg.pages| && cfg.pages[i].slugs.Universal?
    requires Truthy(cfg.pages[i].slugs.slug) || !IsEmpty(lang)
    ensures var slug := cfg.pages[i].slugs.slug;
      var safe := if lang.Some? && lang.value in cfg.langs then lang.value else DetermineLang(cfg.langs, req);
      Match(cfg, Some(slug), lang, req) ==
        if lang == Some(safe) then Resolved(cfg.pages[i].key, lang) else Redirect(slug, Some(safe))
  {
    var slug := cfg.pages[i].slugs.slug;
    assert slug in SlugList(cfg.pages[i].slugs);
    ScanFinds(cfg, cfg.pages, i, slug, lang, req);
    if lang.None? {
      assert "" !in cfg.langs by {
        forall a | 0 <= a < |cfg.langs| ensures cfg.langs[a] != "" { assert Truthy(cfg.langs[a]); }
      }
    }
  }

  /** A slug outside the table (and not an alias) is a BadRequestException, unless the request is empty. */
  lemma UnknownSlugIsBadRequest(cfg: Config, page: Option<string>, lang: Option<string>, req: Request)
    requires page.GetOr("") !in cfg.aliases
    requires !(IsEmpty(page) && IsEmpty(lang))
    requires forall i :: 0 <= i < |cfg.pages| ==> page.GetOr("") !in SlugList(cfg.pages[i].slugs)
    ensures Match(cfg, page, lang, req) == BadRequest
  {
    ScanMisses(cfg, cfg.pages, page.GetOr(""), lang, req);
  }

  /** The language index the scan settles on for a matched slug is a listed language. */
  lemma DecideTargetListed(cfg: Config, i: int, url: string, lang: Option<string>, req: Request)
    requires WellFormed(cfg)
    requires 0 <= i < |cfg.pages| && url in SlugList(cfg.pages[i].slugs)
    ensures var langId := SlugIndex(cfg.pages[i].slugs, url).value;
      var id := if langId == -1 then UniversalLangId(cfg, lang, req) else langId;
      0 <= id < |cfg.langs|
  {
    var langId := SlugIndex(cfg.pages[i].slugs, url).value;
    if langId == -1 {
      DetermineLangChain(cfg, req, None);
    }
  }

  /**
   * Every redirect the scan issues leads to a request that renders the same
   * page, in the target language, without a further redirect.
   */
  lemma ScanRedirectResolves(cfg: Config, page: Option<string>, lang: Option<string>, req: Request, next: Request)
    requires WellFormed(cfg)
    requires page.GetOr("") !in cfg.aliases
    requires !(IsEmpty(page) && IsEmpty(lang))
    requires Match(cfg, page, lang, req).Redirect?
    ensures var o := Match(cfg, page, lang, req);
      o.lang.Some? &&
      exists i :: 0 <= i < |cfg.pages| && o.page in SlugList(cfg.pages[i].slugs) &&
        Match(cfg, Some(o.page), o.lang, next) == Resolved(cfg.pages[i].key, o.lang)
  {
    var url := page.GetOr("");
    if i :| 0 <= i < |cfg.pages| && url in SlugList(cfg.pages[i].slugs) {
      ScanFinds(cfg, cfg.pages, i, url, lang, req);
      DecideTargetListed(cfg, i, url, lang, req);
      var o := Match(cfg, page, lang, req);
      var code := o.lang.value;
      assert Truthy(code) by {
        var langId := SlugIndex(cfg.pages[i].slugs, url).value;
        var id := if langId == -1 then UniversalLangId(cfg, lang, req) else langId;
        assert code == cfg.langs[id];
      }
      ScanFinds(cfg, cfg.pages, i, url, o.lang, next);
      var s := cfg.pages[i].slugs;
      if s.Universal? {
        var j := SearchLang(cfg.langs, o.lang);
        assert j.Some?;
      }
    } else {
      UnknownSlugIsBadRequest(cfg, page, lang, req);
    }
  }

  /**
   * The alternate-language links cover every language for a universal page
   * and pair language i with slug i otherwise; each link renders its page in
   * its language without a redirect.
   */
  lemma AltLinkResolves(cfg: Config, i: int, k: int, req: Request)
    requires WellFormed(cfg)
    requires forall a, b :: 0 <= a < b < |cfg.pages| ==> cfg.pages[a].key != cfg.pages[b].key
    requires 0 <= i < |cfg.pages|
    requires cfg.pages[i].slugs.Universal? ==> 0 <= k < |cfg.langs|
    requires cfg.pages[i].slugs.PerLanguage? ==> 0 <= k < |cfg.pages[i].slugs.slugs|
    ensures GetAllLangsLinks(cfg, cfg.pages[i].key).Some?
    ensures var links := GetAllLangsLinks(cfg, cfg.pages[i].key).value;
      var slug := if cfg.pages[i].slugs.Universal? then cfg.pages[i].slugs.slug else cfg.pages[i].slugs.slugs[k];
      && k < |links|
      && links[k] == Link(cfg.langs[k], slug)
      && (cfg.pages[i].slugs.Universal? || (forall j :: 0 <= j < k ==> cfg.pages[i].slugs.slugs[j] != slug)
          ==> Match(cfg, Some(slug), Some(cfg.langs[k]), req) == Resolved(cfg.pages[i].key, Some(cfg.langs[k])))
  {
    LookupFindsKey(cfg.pages, i);
    assert Truthy(cfg.langs[k]);
    var s := cfg.pages[i].slugs;
    if s.Universal? {
      UniversalSlugDecides(cfg, i, Some(cfg.langs[k]), req);
    } else if forall j :: 0 <= j < k ==> s.slugs[j] != s.slugs[k] {
      PerLanguageSlugDecides(cfg, i, k, Some(cfg.langs[k]), req);
    }
  }

  /** With pairwise distinct keys, `Lookup` finds entry i under its own key. */
  lemma {:induction false} LookupFindsKey(pages: seq<Page>, i: int)
    requires 0 <= i < |pages|
    requires forall a, b :: 0 <= a < b < |pages| ==> pages[a].key != pages[b].key
    ensures Lookup(pages, pages[i].key) == Some(pages[i].slugs)
  {
    if i > 0 {
      assert pages[0].key != pages[i].key;
      assert pages[1..][i - 1] == pages[i];
      LookupFindsKey(pages[1..], i - 1);
    }
  }

  // ---------------------------------------------------------------------------
  // The site's own tables
  // ---------------------------------------------------------------------------

  lemma SiteWellFormed()
    ensures WellFormed(Site)
    ensures forall a, b :: 0 <= a < b < |Site.pages| ==> Site.pages[a].key != Site.pages[b].key
  {
    SiteSlugsDistinct();
    SiteSlugsNotAliases();
  }

  lemma SiteSlugsDistinct()
    ensures DistinctSlugs(Site.pages)
  {
    forall i, s | 0 <= i < |Site.pages| && s in SlugList(Site.pages[i].slugs)
      ensures SiteSlugOwner(s) == i
    {
      if i == 0 {
      } else if i == 1 {
      } else if i == 2 {
      } else if i == 3 {
      } else if i == 4 {
      } else {
      }
    }
    OwnedSlugsDistinct(Site.pages, SiteSlugOwner);
  }

  lemma SiteSlugsNotAliases()
    ensures forall i, s :: 0 <= i < |Site.pages| && s in SlugList(Site.pages[i].slugs) ==> s !in Site.aliases
  {
    assert Site.aliases.Keys == {"home", "uvod", "index"};
  }

  /** `home`, `uvod` and `index` jump to the homepage in English, Czech and Czech, whatever else the request says. */
  lemma SiteAliases(lang: Option<string>, req: Request)
    ensures Match(Site, Some("home"), lang, req) == Redirect("", Some("en"))
    ensures Match(Site, Some("uvod"), lang, req) == Redirect("", Some("cs"))
    ensures Match(Site, Some("index"), lang, req) == Redirect("", Some("cs"))
  {
    AliasRedirects(Site, Some("home"), lang, req);
    AliasRedirects(Site, Some("uvod"), lang, req);
    AliasRedirects(Site, Some("index"), lang, req);
  }

  /** `determineLang` always answers `'cs'` or `'en'`. */
  lemma SiteDetermineLang(req: Request)
    ensures DetermineLang(Site.langs, req) in {"cs", "en"}
  {
  }

  /**
   * Every redirect the site issues, aliases and the empty request included,
   * leads to a request that renders without a further redirect.
   */
  lemma SiteRedirectResolves(page: Option<string>, lang: Option<string>, req: Request, next: Request)
    requires Match(Site, page, lang, req).Redirect?
    ensures var o := Match(Site, page, lang, req);
      Match(Site, Some(o.page), o.lang, next).Resolved?
  {
    SiteWellFormed();
    var o := Match(Site, page, lang, req);
    if page.GetOr("") in Site.aliases || (IsEmpty(page) && IsEmpty(lang)) {
      SiteHomeTarget(page, lang, req);
      SiteDetermineLang(req);
      UniversalSlugDecides(Site, 0, o.lang, next);
    } else {
      ScanRedirectResolves(Site, page, lang, req, next);
    }
  }

  /** The alias and empty-request redirects go to the homepage slug in a listed language. */
  lemma SiteHomeTarget(page: Option<string>, lang: Option<string>, req: Request)
    requires page.GetOr("") in Site.aliases || (IsEmpty(page) && IsEmpty(lang))
    ensures var o := Match(Site, page, lang, req);
      o.Redirect? && o.page == "" && o.lang.Some? && o.lang.value in {"cs", "en"}
  {
    SiteDetermineLang(req);
  }

  /** On the site's tables every alternate-language link renders its page in its language without a redirect. */
  lemma SiteAltLinksResolve(i: int, k: int, req: Request)
    requires 0 <= i < |Site.pages| && 0 <= k < |Site.langs|
    ensures var links := GetAllLangsLinks(Site, Site.pages[i].key).value;
      var slug := if Site.pages[i].slugs.Universal? then Site.pages[i].slugs.slug else Site.pages[i].slugs.slugs[k];
      && k < |links|
      && links[k] == Link(Site.langs[k], slug)
      && Match(Site, Some(slug), Some(Site.langs[k]), req) == Resolved(Site.pages[i].key, Some(Site.langs[k]))
  {
    SiteWellFormed();
    SiteSlugPairs();
    AltLinkResolves(Site, i, k, req);
  }

  /** Each per-language entry has two slugs, and they differ. */
  lemma SiteSlugPairs()
    ensures forall i :: 0 <= i < |Site.pages| && Site.pages[i].slugs.PerLanguage? ==>
      |Site.pages[i].slugs.slugs| == 2 && Site.pages[i].slugs.slugs[0] != Site.pages[i].slugs.slugs[1]
  {
  }
}
