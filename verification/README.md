# ikofein.cz — a Dafny model of the site's rules

The site of café Kofein is a small Nette application. Its own logic is a
handful of rule evaluations. This project models those rules as pure
functions over immutable data and proves properties of them:

- the **page/language resolver** of the static presenter. It decides whether
  a request `(page slug, lang)` renders a page, is redirected to the
  canonical URL, or is a 404 / bad request;
- the **post model**: the publication window (`isPlanned`, `isExpired`,
  `isPublished`), the published-only lookups and the versioning `save`,
  over a map from `(key, version)` to a row;
- the **post editor**: date normalisation and validation before `save`, and
  the detail view's not-found handling;
- the **password reset flow**: the ordered token checks, the key and payload
  a reset issues, the password change, sign-in. It works over the user map
  that `UserManager` changes (`authenticate`, `startReset`, `stopReset`,
  `setPassword`);
- the **post component**: the template-name check (`/^[-.a-z0-9]+$/i`,
  including PCRE's `$` before a final newline), the template file, and the
  content and `isEmpty` choice;
- `WebDir::getPath`;
- the **JWT service**: its constructor's strict Base64 key check (PHP's
  `base64_decode($s, true)`, modelled exactly), the claims `encode` signs,
  and `decode`'s claim checks.

The repository holds two generations of every file. The current one lives in
capitalised directories (`app/Presenters`, `app/Model`, …). The legacy one
lives in lower-case directories. Where their behaviour differs, there are two
modules:

- `StaticPages` and `LegacyStaticPages`;
- `SignFlow` and `LegacySignFlow`;
- `PostEditing` and `LegacyPostEditing`;
- `PostRendering` and `LegacyPostRendering`.

Each pair comes with lemmas that relate the two generations. `Posts` and
`Users` serve both generations: `app/model/Post.php` and `app/Model/Post.php`
apply the same rules, and so do the two `UserManager.php` files. Their rows
below cite whichever file states the property.

Things outside the code are parameters:

- the clock (`now`, whole seconds);
- random values (`newReset`, `fakeKey`, the save hash);
- date parsing (`parse`, `parseTime`);
- decryption (`Decryption`);
- password hashing (`Passwords`);
- `file_exists`;
- the Firebase JWT codec.

Exceptions and redirects are variants of result datatypes.

Modules:

| file | module | source |
|---|---|---|
| common.dfy | `Common` | PHP helpers: `??`, `substr`, `strtoupper`, `array_search`, truthiness |
| page_maps.dfy | `PageMaps` | the shape of a page map, its reversal, alternate-language links |
| static_pages.dfy | `StaticPages` | app/Presenters/StaticPresenter.php |
| legacy_static_pages.dfy | `LegacyStaticPages` | app/presenters/StaticPresenter.php |
| posts.dfy | `Posts` | app/Model/Post.php, app/model/Post.php |
| post_editing.dfy | `PostEditing` | app/AdminModule/Presenters/PostPresenter.php |
| legacy_post_editing.dfy | `LegacyPostEditing` | app/AdminModule/presenters/PostPresenter.php |
| users.dfy | `Users` | app/Model/UserManager.php, app/model/UserManager.php |
| sign_flow.dfy | `SignFlow` | app/AdminModule/Presenters/SignPresenter.php |
| legacy_sign_flow.dfy | `LegacySignFlow` | app/AdminModule/presenters/SignPresenter.php |
| post_rendering.dfy | `PostRendering` | app/Components/Post/PostRenderer.php |
| legacy_post_rendering.dfy | `LegacyPostRendering` | app/components/Post/PostRenderer.php |
| web_dir.dfy | `WebDir` | app/Model/WebDir.php |
| base64_strict.dfy | `Base64Strict` | `base64_decode($s, true)` as used by libs/Crypto/Crypto.php and the JWT constructor |
| jwt.dfy | `Jwt` | app/Model/Jwt/Jwt.php |

The route accepts the language code `cz` beside `cs` and `en`
(app/Router/RouterFactory.php:64). Of the resolver's functions only
`getLangKey` and `determineLang` read `cz` as `cs`
(app/Presenters/StaticPresenter.php:141, :160). A route parameter `lang=cz` fails `isLangValid`, and the
request is redirected to the `determineLang()` language. The model follows
the code (`StaticPages.CzRouteLangIsRedirected`).

## Model

| member | source | states |
|---|---|---|
| PageMaps.ReversedMapSound | app/Presenters/StaticPresenter.php:218-229 | every slug in the reversed page map comes from an entry carrying the page key it maps to |
| PageMaps.ReversedMap | app/Presenters/StaticPresenter.php:218-229 | every slug of every entry is a key of the reversed map |
| PageMaps.ReversedMapInverts | app/Presenters/StaticPresenter.php:218-229 | when no slug names two pages, the reversed map sends every slug of every entry back to that entry's page key |
| PageMaps.AllLangsLinks | app/Presenters/StaticPresenter.php:236-261 | a universal page gets its one slug under every language; otherwise language i gets slug i, one link per slug |
| StaticPages.DefaultLang | app/Presenters/StaticPresenter.php:193-196 | the default language is a supported one |
| StaticPages.BrowserLang | app/Presenters/StaticPresenter.php:173-183 | a Nette request gives the detected language, else the default; any other request gives the first two characters (all of them when shorter) of the Accept-Language header, else of the default |
| StaticPages.DetermineLang | app/Presenters/StaticPresenter.php:155-170 | the preferred language is always a supported language |
| StaticPages.GetLangKey | app/Presenters/StaticPresenter.php:139-152 | null exactly for a missing or unsupported language (after `cz`→`cs`), and 1 for every supported one |
| StaticPages.LangIndex | app/Presenters/StaticPresenter.php:139-152 | the index the lookup was meant to return: the position of the language among the `LANGS` keys, null exactly when unsupported |
| StaticPages.GetPageKeyByUrl | app/Presenters/StaticPresenter.php:202-211 | a slug (null read as `''`) resolves exactly when the reversed page map holds it, to the page key stored there |
| StaticPages.RedirectTo | app/Presenters/StaticPresenter.php:129-136 | the redirect parameters are the query united with `lang` and `page`; keys already in the query keep their values |
| StaticPages.SafeLang | app/Presenters/StaticPresenter.php:94 | the settled language is always supported; it is the requested one when that is supported and `determineLang()` otherwise |
| StaticPages.CanonicalSlug | app/Presenters/StaticPresenter.php:105-113 | the chosen slug belongs to the page; a universal entry always has one; a per-language entry has one exactly when the index lies within its slugs |
| StaticPages.MatchWith | app/Presenters/StaticPresenter.php:81-126 | not found exactly when a page or language was asked for and the slug is unknown; a render keeps the requested supported language and the page its slug names; a redirect goes to a supported language and changes the language or the slug; a configuration error only when the page has no slug at the settled language's index |
| StaticPages.NoConfigError | app/Presenters/StaticPresenter.php:105-113 | when every per-language entry has a slug per language, `match` never reaches the missing-slug exception |
| StaticPages.Match | app/Presenters/StaticPresenter.php:81-126 | over the site's table, `match` never reaches the missing-slug exception |
| StaticPages.MatchIntended | app/Presenters/StaticPresenter.php:81-126 | with the position scheme, the site's table never reaches the missing-slug exception either |
| StaticPages.GetAllLangsLinks | app/Presenters/StaticPresenter.php:236-261 | links exist exactly for a page in the table; every link's slug belongs to that page, and the link at position k carries language k |
| StaticPages.CanonicalSlugBelongs | app/Presenters/StaticPresenter.php:106-113 | the canonical slug chosen for a page resolves back to that page |
| StaticPages.ResolvedIffCanonical | app/Presenters/StaticPresenter.php:81-123 | a request renders without redirect exactly when its language is supported and its slug is the page's canonical slug for it; it then renders that page in that language |
| StaticPages.RedirectIffNotCanonical | app/Presenters/StaticPresenter.php:106-120 | for a known slug with a canonical form, a redirect happens exactly when lang or page differs from the safe language and canonical slug |
| StaticPages.RedirectTargetResolves | app/Presenters/StaticPresenter.php:94-135 | when the query holds neither `lang` nor `page`, the route parameters handed to `redirect` are the canonical pair, and requesting them renders the original slug's page in the target language |
| StaticPages.InvalidLangNotResolved | app/Presenters/StaticPresenter.php:94-120 | an unsupported lang never renders; a redirect goes to the `determineLang()` language |
| StaticPages.AltLinkResolves | app/Presenters/StaticPresenter.php:236-261 | with the language position as slug index, link k of a page is `(lang k, slug k)` and renders that page in that language |
| StaticPages.UnknownSlugNotFound | app/Presenters/StaticPresenter.php:98-102 | a slug outside the page map is a 404 whatever the language |
| StaticPages.CookieOverridesBrowser | app/Presenters/StaticPresenter.php:155-190 | when a cookie is set, the browser's language has no effect on the preferred language |
| StaticPages.InvalidCookieGivesDefault | app/Presenters/StaticPresenter.php:155-196 | an unsupported cookie gives the first `LANGS` key, not the browser language |
| StaticPages.BrowserLangWithoutCookie | app/Presenters/StaticPresenter.php:155-183 | without a cookie, a supported browser language other than `cz` is the preferred language |
| StaticPages.SiteWellFormed | app/Presenters/StaticPresenter.php:17-29 | the site's tables are usable: a default language exists and the slugs are pairwise distinct across pages |
| StaticPages.SiteSlugsInvert | app/Presenters/StaticPresenter.php:22-29 | every slug of `PAGE_MAP` resolves to its own page key |
| StaticPages.SiteDetermineLang | app/Presenters/StaticPresenter.php:155-170 | `determineLang` answers `en` or `cs`; cookie `cz` gives `cs`; any other unsupported cookie gives `en` |
| StaticPages.SiteLangKey | app/Presenters/StaticPresenter.php:139-152 | on the site's tables: `en`, `cs`, `cz` get 1, anything else (and null) gets null |
| StaticPages.BothAbsentRedirectsHome | app/Presenters/StaticPresenter.php:84-90 | with neither page nor lang, the result is a redirect to slug `''` in the `determineLang()` language |
| StaticPages.HomeRedirectResolves | app/Presenters/StaticPresenter.php:84-135 | when the query holds neither `lang` nor `page`, that redirect's route parameters are `''` and that language, and requesting them renders the homepage |
| StaticPages.MatchRedirectTargetResolves | app/Presenters/StaticPresenter.php:81-135 | when the query holds neither `lang` nor `page`, every redirect `match` issues on the site's tables carries route parameters that render |
| StaticPages.QueryLangRedirectsToSameRoute | app/Presenters/StaticPresenter.php:94-135 | a query `lang` outranks the canonical language: `cz/poledne?lang=cz` is redirected to the route `cz/poledne` again, and that route never renders |
| StaticPages.AbsentPageIsHomepage | app/Presenters/StaticPresenter.php:98-115 | a missing page with a lang is the homepage: it renders as `homepage` or redirects to slug `''` |
| StaticPages.HomeCanonical | app/Presenters/StaticPresenter.php:106-113 | the homepage's canonical slug is its universal `''` whatever the language index |
| StaticPages.CanonicalSlugIsIndexOne | app/Presenters/StaticPresenter.php:106-113 | as written, a two-slug page's canonical slug is its index-1 (Czech) slug under both `en` and `cs` |
| StaticPages.CzRouteLangIsRedirected | app/Presenters/StaticPresenter.php:264-267 | a route lang `cz` is not a `LANGS` key: it never renders and redirects to the `determineLang()` language |
| StaticPages.AllLangsLinksPerLanguage | app/Presenters/StaticPresenter.php:236-261 | for any table with distinct keys and complete slug lists, one link per `LANGS` key, in order: the universal slug for every language, else slug k under language k |
| StaticPages.SiteLinksComplete | app/Presenters/StaticPresenter.php:17-29 | page keys and language codes are listed once each, and every two-slug page has a slug per language |
| StaticPages.EnglishAltLinkRedirects | app/Presenters/StaticPresenter.php:139-152 | as written, the English alternate link of `lunch` (`lunch`, `en`) is redirected to `poledne` |
| StaticPages.IntendedAltLinksResolve | app/Presenters/StaticPresenter.php:106-113 | with the language position as index, the k-th alternate-language link carries language k and a slug of its page, and renders that page in language k without a redirect |
| LegacyStaticPages.DetermineLang | app/presenters/StaticPresenter.php:109-120 | the preferred language is always in `langs` or is `en` |
| LegacyStaticPages.LangAt | app/presenters/StaticPresenter.php:86 | `$this->langs[$langId]` exists exactly for an index in range, and is that language |
| LegacyStaticPages.SlugIndex | app/presenters/StaticPresenter.php:77-78 | a slug is found in an entry exactly when it is one of its slugs: a universal one gives -1, a per-language one its first position |
| LegacyStaticPages.Decide | app/presenters/StaticPresenter.php:79-91 | a matched slug never ends in a bad request; a render keeps the page and the requested language; a redirect keeps the slug; for a per-language slug it renders exactly when the request's language loosely equals the slot's language, and otherwise redirects to that language |
| LegacyStaticPages.Scan | app/presenters/StaticPresenter.php:76-95 | a bad request exactly when no entry holds the slug; a render names an entry holding it with the requested language; a redirect keeps the slug |
| LegacyStaticPages.Match | app/presenters/StaticPresenter.php:61-96 | a bad request exactly when the slug is no alias, the request is not empty and no entry holds the slug; a render names an entry holding the slug with the requested language |
| LegacyStaticPages.GetAllLangsLinks | app/presenters/StaticPresenter.php:131-155 | links exist exactly for a page in the table; every link's slug belongs to that page, and the link at position k carries language k |
| LegacyStaticPages.ScanFinds | app/presenters/StaticPresenter.php:76-93 | the scan stops at the first entry holding the slug and decides there |
| LegacyStaticPages.ScanMisses | app/presenters/StaticPresenter.php:95 | a slug held by no entry ends in BadRequestException |
| LegacyStaticPages.AliasRedirects | app/presenters/StaticPresenter.php:63-65 | an alias slug redirects to its target before any other check |
| LegacyStaticPages.EmptyRequestRedirects | app/presenters/StaticPresenter.php:68-73 | an empty page with an empty lang (not an alias) redirects to `('', determineLang())` |
| LegacyStaticPages.GetHeader | app/presenters/StaticPresenter.php:122-124 | a header lookup answers the value stored under the lower-cased name, and the default when there is none |
| LegacyStaticPages.BrowserHeaderNeverRead | app/presenters/StaticPresenter.php:109-124 | asking for `HTTP_ACCEPT_LANGUAGE` never finds a header, so without a cookie the language is `en` whatever the browser sends |
| LegacyStaticPages.CzechBrowserGetsEnglish | app/presenters/StaticPresenter.php:109-124 | a browser sending `cs-CZ` with no cookie is answered in English |
| LegacyStaticPages.IntendedHeaderDecides | app/Presenters/StaticPresenter.php:182 | asking for `Accept-Language` finds the header; without a cookie its first two characters decide when they name a listed language, so `cs-CZ` gets Czech |
| LegacyStaticPages.DetermineLangChain | app/presenters/StaticPresenter.php:109-129 | the result is in `langs`; a cookie overrides the header; `cz` becomes `cs`; anything unsupported becomes `en`; without a cookie the first two characters of what the header lookup returns decide |
| LegacyStaticPages.PerLanguageSlugDecides | app/presenters/StaticPresenter.php:76-91 | a per-language slug at position k renders under `langs[k]` and redirects to `(slug, langs[k])` under any other lang |
| LegacyStaticPages.UniversalSlugDecides | app/presenters/StaticPresenter.php:80-91 | the universal slug keeps a supported lang, otherwise uses `determineLang()`, and redirects when that differs from the request |
| LegacyStaticPages.UnknownSlugIsBadRequest | app/presenters/StaticPresenter.php:76-95 | a non-alias, non-empty request whose slug no entry holds is a bad request |
| LegacyStaticPages.DecideTargetListed | app/presenters/StaticPresenter.php:86-90 | the language index the scan settles on (the slug's position, or the universal slug's lookup) is within `langs` |
| LegacyStaticPages.ScanRedirectResolves | app/presenters/StaticPresenter.php:76-93 | every redirect the scan produces resolves without a further redirect |
| LegacyStaticPages.AltLinkResolves | app/presenters/StaticPresenter.php:131-155 | the alternate link for language k of a page is listed and renders that page under that language |
| LegacyStaticPages.LookupFindsKey | app/presenters/StaticPresenter.php:132 | `$this->pageMap[$pageKey]` finds the entry stored under a page key |
| LegacyStaticPages.SiteWellFormed | app/presenters/StaticPresenter.php:14-23 | the legacy tables are usable: `en` is listed, languages are distinct and non-empty, no page has more slugs than languages, no slug names two pages or is an alias, and page keys are distinct |
| LegacyStaticPages.SiteSlugsDistinct | app/presenters/StaticPresenter.php:16-23 | no slug names two pages |
| LegacyStaticPages.SiteSlugsNotAliases | app/presenters/StaticPresenter.php:16-30 | no page slug is also an alias |
| LegacyStaticPages.SiteAliases | app/presenters/StaticPresenter.php:25-30 | `home`, `uvod`, `index` redirect to `('', en)`, `('', cs)`, `('', cs)` whatever the lang |
| LegacyStaticPages.SiteDetermineLang | app/presenters/StaticPresenter.php:109-120 | on the legacy tables the preferred language is `cs` or `en` |
| LegacyStaticPages.SiteRedirectResolves | app/presenters/StaticPresenter.php:61-96 | on the legacy tables every redirect of the scan renders on the next request |
| LegacyStaticPages.SiteHomeTarget | app/presenters/StaticPresenter.php:68-73 | an empty request goes to the homepage slug `''` in a listed language |
| LegacyStaticPages.SiteAltLinksResolve | app/presenters/StaticPresenter.php:131-155 | on the legacy tables every alternate-language link renders its page in its language |
| LegacyStaticPages.SiteSlugPairs | app/presenters/StaticPresenter.php:16-23 | each per-language page has exactly two slugs, and they differ |
| Posts.PreparePost | app/Model/Post.php:129-140 | the prepared post keeps the row and its `info.isPublished` holds exactly when the window is open at now; published excludes planned and expired |
| Posts.IsPlanned | app/Model/Post.php:157-163 | planned exactly when the start column holds a time after now; a null or missing start is never planned |
| Posts.IsExpired | app/Model/Post.php:166-172 | expired exactly when the end column holds a time before now; a null or missing end never expires |
| Posts.IsPublished | app/Model/Post.php:143-154 | published exactly when the start column holds a time no later than now and no end time lies before now |
| Posts.GetPosts | app/Model/Post.php:70-89 | every post returned is a kept row of the selection, filed under its own key column |
| Posts.GetPostByKey | app/Model/Post.php:49-67 | the post is returned exactly when the `(key, version)` row exists and, for published-only, is published; else code 404 for a missing row and 403 for an unpublished one |
| Posts.TryFindPostByKey | app/model/Post.php:35-42 | null exactly when `getPostByKey` would throw, otherwise the same post |
| Posts.GetPostsKeys | app/Model/Post.php:70-89 | a key is in the result exactly when some kept row of the selection carries it |
| Posts.GetPostsValue | app/Model/Post.php:70-89 | with distinct keys, every kept row is stored, prepared, under its own key |
| Posts.GetPostsAgrees | app/model/Post.php:66-82 | over a version's rows, `getPosts` holds key k exactly when the single lookup of k in that version succeeds, with the same post |
| Posts.Save | app/Model/Post.php:92-119 | no current row ends the save untouched; a `key` naming another post ends it after the update, with the table `Renamed` describes; a copy already versioned with the stamp ends it after the update of the current row, with every other row unchanged; otherwise (exactly when the row exists, the key is kept and the stamp is fresh) the current row gets the data under the forced columns and an identical row versioned by the stamp is inserted and returned, with nothing else changed |
| Posts.PlannedEarlier | app/Model/Post.php:157-163 | a post planned at some instant was planned at every earlier instant, and is unpublished at both |
| Posts.ExpiredLater | app/Model/Post.php:166-172 | a post expired at some instant stays expired at every later instant, and is unpublished at both |
| Posts.ConsistentWindowOneState | app/Model/Post.php:143-172 | with a start date and no end before it, exactly one of planned, published and expired holds at every instant: planned exactly before the start, expired exactly after the end |
| Posts.PublishedIff | app/Model/Post.php:143-154 | published exactly when a start date at or before now is set and no end date lies before now |
| Posts.NoStartNeverPublished | app/model/Post.php:130-147 | without a start date a post is neither published nor planned, whatever its end date |
| Posts.PublicationStates | app/Model/Post.php:143-172 | published excludes planned and expired; planned and expired hold together exactly when `to < now < from` |
| Posts.Renamed | app/Model/Post.php:92-103 | an update whose data names another key leaves the current row, with the data and forced columns over its old values, under the new key's current pair; the old pair is gone when the new key is a string, and every other row is unchanged |
| Posts.SavePreservesWellKeyed | app/Model/Post.php:92-119 | every save that writes (a new copy, an update before a duplicate version, a rename to a string key) keeps every row's `key` and `version` columns equal to the pair it is stored under |
| Posts.SaveThenGet | app/model/Post.php:85-112 | after a save, the current row and the returned copy are both found by key, and the copy differs from the current row only in `version` |
| Posts.SavedPublication | app/Model/Post.php:92-119 | the saved post's publication state follows from the saved dates alone |
| PostEditing.ReadDate | app/AdminModule/Presenters/PostPresenter.php:109-119 | an empty date input becomes null; any other is parsed, and an unreadable one fails |
| PostEditing.EditData | app/AdminModule/Presenters/PostPresenter.php:143-150 | the saved data is exactly the two dates and the two contents |
| PostEditing.Validate | app/AdminModule/Presenters/PostPresenter.php:121-137 | an unpublished post is not checked; a published post that passes starts at or before now and has not ended; a given start date is kept |
| PostEditing.PostEditFormSuccess | app/AdminModule/Presenters/PostPresenter.php:105-150 | the handler stops on an unreadable date exactly when one of the two inputs cannot be parsed; form errors only arise for a published post |
| PostEditing.RenderDetail | app/AdminModule/Presenters/PostPresenter.php:39-62 | a missing current post is a 404; otherwise the defaults carry the post's publication state and dates |
| PostEditing.ValidateCases | app/AdminModule/Presenters/PostPresenter.php:121-141 | unchecked: no checks; checked: a missing start becomes now, a future start is an error, a past end is an error |
| PostEditing.UnreadableDateSavesNothing | app/AdminModule/Presenters/PostPresenter.php:109-119 | an unreadable start date ends the request before validation and save |
| PostEditing.SaveCalledIffValid | app/AdminModule/Presenters/PostPresenter.php:120-150 | for readable dates, `save` is called exactly when the flag is clear or the window `[from, to]` contains now; the saved current row then holds the end date as given and the start date defaulted to now only for a published post without one, and gains no `published` column |
| PostEditing.UncheckedIsNotValidated | app/AdminModule/Presenters/PostPresenter.php:121-148 | without the published flag any readable pair of dates is saved as given |
| PostEditing.PublishNowIsPublished | app/AdminModule/Presenters/PostPresenter.php:121-137 | a successful save with published checked is published at the submission instant |
| PostEditing.UncheckedPastStartStaysPublished | app/AdminModule/Presenters/PostPresenter.php:121-150 | the flag is not stored: unchecked with a past start and no end still saves a published post |
| PostEditing.RenderDetailNotFound | app/AdminModule/presenters/PostPresenter.php:56-62 | the detail view fails exactly when the lookup fails, and then always with 404 |
| LegacyPostEditing.ValidateGenerationsAgree | app/AdminModule/presenters/PostPresenter.php:139-153 | the legacy checks give the same start date and errors as the current ones |
| LegacyPostEditing.LegacyValidate | app/AdminModule/presenters/PostPresenter.php:139-153 | an unpublished post is not checked; a published post that passes starts at or before now and has not ended; a given start date is kept |
| LegacyPostEditing.LegacyPostEditFormSuccess | app/AdminModule/presenters/PostPresenter.php:123-172 | the handler stops on an unreadable date exactly when one of the two inputs cannot be parsed; form errors only arise for a published post |
| LegacyPostEditing.EditGenerationsAgree | app/AdminModule/presenters/PostPresenter.php:123-166 | the legacy handler ends every submission as the current one does |
| LegacyPostEditing.LegacyErrorsSaveNothing | app/AdminModule/presenters/PostPresenter.php:155-157 | any legacy validation error returns before `save` |
| Users.GetUserByEmail | app/Model/UserManager.php:78-90 | not found exactly when no row has the address; otherwise that row |
| Users.Authenticate | app/Model/UserManager.php:43-72 | fails exactly for an unknown address (IDENTITY_NOT_FOUND) or a wrong password (INVALID_CREDENTIAL), leaving the users unchanged; on success the identity carries the row's id and role, and only a needed rehash changes the password |
| Users.StartReset | app/Model/UserManager.php:96-107 | fails exactly for an unknown address; stores the new reset hash on that row only and returns it |
| Users.StopReset | app/Model/UserManager.php:110-117 | fails exactly for an unknown address; clears that row's reset hash and nothing else |
| Users.SetPassword | app/Model/UserManager.php:120-127 | fails exactly for an unknown address; sets that row's password hash and clears its reset hash, nothing else |
| Users.AuthenticateOnlyRehashes | app/Model/UserManager.php:63-67 | a successful sign-in keeps the same users and changes at most the password column of the signed-in row |
| Users.IdentityOmitsPassword | app/model/UserManager.php:67-75 | the identity holds every column of the row except the password hash |
| Users.LatestResetWins | app/model/UserManager.php:104-115 | after two resets only the second hash is stored |
| Users.ResetHashCleared | app/model/UserManager.php:121-142 | stopping a reset or setting a password after a reset leaves no reset hash; stopping a started reset gives the same table as stopping without it |
| Users.ChangesPreserveWellKeyed | app/Model/UserManager.php:43-127 | every state change keeps each row filed under its own address |
| SignFlow.CheckToken | app/AdminModule/Presenters/SignPresenter.php:318-353 | an accepted token is a decrypted one whose account exists, and the account's row is returned |
| SignFlow.ResetFormSuccess | app/AdminModule/Presenters/SignPresenter.php:203-232 | an unknown address changes nothing, sends nothing and shows an upper-cased random key; a known one starts a reset and mails `{key, hash, email, now + 1 hour}` with the key the upper-cased first six characters of the hash |
| SignFlow.SetPasswordFormSuccess | app/AdminModule/Presenters/SignPresenter.php:268-283 | a refused token is a form error carrying the check's error; an accepted one sets the password of the token's address |
| SignFlow.RenderChangePassword | app/AdminModule/Presenters/SignPresenter.php:99-113 | the form is shown exactly for an accepted token; otherwise back to the dashboard with the error |
| SignFlow.SignInFormSuccess | app/AdminModule/Presenters/SignPresenter.php:158-172 | expiration is `14 days` when remembered, else `20 minutes`; the login fails exactly when authentication fails; a success keeps what authentication gives and goes to the stored request exactly when it is restorable, else to the dashboard |
| SignFlow.CheckTokenOrder | app/AdminModule/Presenters/SignPresenter.php:318-353 | the checks run decrypt, expiry, account, hash: each error holds exactly when the earlier checks pass and its own fails |
| SignFlow.ExpiryIsStrict | app/AdminModule/Presenters/SignPresenter.php:330-337 | a token is accepted at its exact expiry instant and refused one second later |
| SignFlow.IssuedTokenWorksForAnHour | app/AdminModule/Presenters/SignPresenter.php:209-217 | an issued token is accepted within the hour after issue and refused after it |
| SignFlow.OnlyLatestTokenWorks | app/Model/UserManager.php:96-107 | a second reset with another hash invalidates the first token and the second one works |
| SignFlow.TokenWorksOnce | app/Model/UserManager.php:120-127 | after a token has set a password, the same token is refused as invalidated |
| SignFlow.SetPasswordChangesOnlyOwner | app/AdminModule/Presenters/SignPresenter.php:268-283 | a password change touches only the token owner's row |
| SignFlow.UnknownEmailIsIndistinguishable | app/AdminModule/Presenters/SignPresenter.php:219-231 | an unknown address changes nothing and sends no mail; when the random key equals the hash's head, the shown key is the one a known address would get |
| SignFlow.ShownKeyShape | app/AdminModule/Presenters/SignPresenter.php:209-212 | for a hash of six or more characters the shown key has six characters, each the upper-cased character of the hash at that position |
| SignFlow.SignInExpiration | app/AdminModule/Presenters/SignPresenter.php:158-171 | the expiration is chosen before logging in; an unknown address fails with IDENTITY_NOT_FOUND |
| LegacySignFlow.LegacyCheckToken | app/AdminModule/presenters/SignPresenter.php:199-223 | only a damaged token is refused as corrupted; a valid result is the token account's row; the "user does not exist" error never appears |
| LegacySignFlow.LegacyResetFormSuccess | app/AdminModule/presenters/SignPresenter.php:115-140 | an unknown address crashes; otherwise the reset is started and a mail is sent exactly when the hash is truthy |
| LegacySignFlow.LegacySetPasswordFormSuccess | app/AdminModule/presenters/SignPresenter.php:163-178 | a refused token is a form error, a crashing check crashes, an accepted one sets the password of the token's account |
| LegacySignFlow.LegacySignInFormSuccess | app/AdminModule/presenters/SignPresenter.php:88-97 | `14 days` or `20 minutes` by the remember flag; fails exactly when authentication fails; a success goes to the dashboard |
| LegacySignFlow.LegacyCheckTokenOrder | app/AdminModule/presenters/SignPresenter.php:199-223 | decrypt, expiry, account, hash in that order; an undecryptable non-damaged token or a missing account crashes; expiry uses strict `<`; the hash test is PHP's loose `!=` |
| LegacySignFlow.LegacyCheckAgrees | app/AdminModule/presenters/SignPresenter.php:199-223 | where the legacy check does not crash and the hash is non-empty, it agrees with the current check |
| LegacySignFlow.LooseHashAcceptsEmpty | app/AdminModule/presenters/SignPresenter.php:218 | the loose comparison lets a token with an empty hash through for an account without a reset, which the current check refuses |
| LegacySignFlow.LegacyFakeKeyBranchDead | app/AdminModule/presenters/SignPresenter.php:117-134 | with the sixteen-character hash `startReset` returns, the legacy reset does what the current one does for a known address |
| LegacySignFlow.LegacyResetUnknownEmailCrashes | app/AdminModule/presenters/SignPresenter.php:117 | as written, a reset for an unknown address ends with an uncaught exception |
| LegacySignFlow.LegacyDeletedUserCrashes | app/AdminModule/presenters/SignPresenter.php:213-216 | as written, a valid unexpired token for a deleted account crashes instead of giving "user does not exist" |
| LegacySignFlow.LegacyTokenWorksOnce | app/AdminModule/presenters/SignPresenter.php:163-178 | in the legacy flow too, a token that has set a password is refused afterwards |
| PostRendering.ScanTemplateName | app/Components/Post/PostRenderer.php:71-73 | the scan accepts a name exactly when `/^[-.a-z0-9]+$/i` matches it |
| PostRendering.Render | app/Components/Post/PostRenderer.php:29-47 | a bad name fails before the file is looked for; a missing file fails; a render's `isEmpty` holds exactly when the published-only lookup finds nothing |
| PostRendering.AcceptedNames | app/Components/Post/PostRenderer.php:71-73 | accepted names are non-empty runs of `[-.a-zA-Z0-9]`, optionally followed by one final newline |
| PostRendering.AcceptedNameStaysInDirectory | app/Components/Post/PostRenderer.php:75 | an accepted name holds no `/`, so the file is `dir/<name>.latte` directly inside the directory |
| PostRendering.NameCheckedBeforeFile | app/Components/Post/PostRenderer.php:71-78 | a rejected name fails the same way whatever files exist |
| PostRendering.RenderedContent | app/Components/Post/PostRenderer.php:36-44 | an empty post shows `''`; otherwise the `content_<lang>` column, or `''` when it is missing or null |
| PostRendering.UnpublishedRendersEmpty | app/Components/Post/PostRenderer.php:50-63 | a planned or expired post renders as empty with no content |
| LegacyPostRendering.EmptyIsNull | app/components/Post/PostRenderer.php:26 | `empty($post)` holds of the lookup result exactly when it is null |
| LegacyPostRendering.LegacyRender | app/components/Post/PostRenderer.php:19-35 | the legacy render checks the name, then the file; `isEmpty` holds exactly when no published post is found |
| LegacyPostRendering.RenderGenerationsAgree | app/components/Post/PostRenderer.php:19-62 | both generations of the component render every request the same way |
| WebDir.GetPath | app/Model/WebDir.php:18-21 | an empty suffix gives the directory itself; a non-empty one gives directory, separator, suffix |
| WebDir.PathShape | app/Model/WebDir.php:20 | the path starts with the directory; with a suffix it ends with the suffix after exactly one separator, and its length is the sum |
| WebDir.PathSplits | app/Model/WebDir.php:18-20 | cutting the path after the separator gives the suffix back |
| Base64Strict.StrictDecode | libs/Crypto/Crypto.php:126-135 | strict decoding succeeds exactly on valid input |
| Base64Strict.DecodeStrict | libs/Crypto/Crypto.php:126-135 | the one-pass decoder loop computes the strict decoding |
| Base64Strict.FailingPrefix | libs/Crypto/Crypto.php:126-135 | a character outside the alphabet, or data after padding, makes the whole input invalid |
| Base64Strict.PackLength | libs/Crypto/Crypto.php:126-135 | four data characters give three bytes; a tail of two or three gives one or two |
| Base64Strict.SkippedIgnored | libs/Crypto/Crypto.php:126-135 | tabs, newlines, carriage returns and spaces may be inserted anywhere without changing the result |
| Base64Strict.PaddedData | libs/Crypto/Crypto.php:126-135 | data followed by p padding signs is valid exactly when the data length is not 1 mod 4 and, with padding, p ≤ 2 completes a group |
| Base64Strict.GroupRules | libs/Crypto/Crypto.php:126-135 | unpadded data is valid unless its length is 1 mod 4; one `=` needs 3 mod 4; two need 2 mod 4 |
| Jwt.NewJwt | app/Model/Jwt/Jwt.php:19-27 | construction fails exactly when the key is not strict Base64; otherwise the decoded key is kept |
| Jwt.Payload | app/Model/Jwt/Jwt.php:33-40 | the payload holds exactly `aud`, `iat`, `iss`, `exp`, `sub`, `val`, with issuer `ikofein.cz` and the given subject, value, audience and times |
| Jwt.Encode | app/Model/Jwt/Jwt.php:29-43 | an unreadable expiry fails first; otherwise encoding fails exactly when the codec cannot JSON-encode the payload, and succeeds with the codec's HS256 token for that payload |
| Jwt.Decode | app/Model/Jwt/Jwt.php:45-76 | a codec failure is `JWT Token invalid`; otherwise success exactly when the five mandatory claims are set, the issuer is `ikofein.cz` and `aud` (null when absent) equals the audience; the result is `{sub, val}` |
| Jwt.EncodeDecode | app/Model/Jwt/Jwt.php:29-76 | when the codec encodes the payload and round-trips it, a token `encode` makes decodes under the same audience to the original subject and value |
| Jwt.AudienceMustMatch | app/Model/Jwt/Jwt.php:65-70 | a token without an audience is refused where one is asked for; a token for one audience is refused for any other and where none is asked for |
| Jwt.OtherAudienceRefused | app/Model/Jwt/Jwt.php:65-70 | a token `encode` made for one audience is refused for another with the claims-mismatch error |
| Jwt.MissingClaimRefused | app/Model/Jwt/Jwt.php:54-62 | a missing or null mandatory claim is refused before issuer and audience are looked at |

## Left out

- I/O is not modelled: the mail a reset sends (`sendChangeNotification`), SES, flash messages, template rendering and `setView`. The model keeps only the mail's address, key and payload.
- `Content-Language` and the view names in `renderDefault` are left out: they are output formatting.
- The Nette cache is left out: the post component's 20-minute cache and `cache->remove` in `save`. Every lookup reads the table.
- Defuse encryption, JSON and `encryptArray` are opaque. Decryption is a `Decryption` value. The payload of a decryptable token is assumed to hold its four fields.
- `Passwords`, `Random::generate`, `DateTime` parsing and formatting, `Request::detectLanguage` and the Firebase codec are foreign routines. They are parameters. Time is whole seconds, so sub-second differences between `new DateTime()` calls are not modelled.
- The router is left out. Route parameters arrive as `Option<string>`. A redirect's target is read as the `page` and `lang` entries of the parameters handed to `redirect`; how the router moves other query keys into the next URL is not modelled.
- StaticPages.RedirectTargetResolves: the fixed point is promised only when the query holds neither `lang` nor `page`. `redirectTo` lets query keys win over the canonical pair, so with such a key the redirect can point at a non-canonical route; QueryLangRedirectsToSameRoute shows one.
- StaticPages.HomeRedirectResolves: promised only when the query holds neither `lang` nor `page`, for the same reason.
- StaticPages.MatchRedirectTargetResolves: promised only when the query holds neither `lang` nor `page`, for the same reason.
- Form construction (`createComponent*`), the legacy `PostPresenter::startup` sign-in guard, `actionOut`, `renderIn` and `renderReset` are UI and framework glue.
- The database is a map. Uniqueness of `(key, version)` and of e-mail addresses is a property of the map, not of a schema.
- `LegacySignFlow.LegacyCheckToken`: PHP 8's numeric-string rule for loose `!=` (two numeric strings compare as numbers) is not modelled. Only `null` reading as `''` is.
- `SignFlow.SignInFormSuccess`: how `restoreRequest` finds the stored request is a parameter (`restorable`).
- Posts.Save: a rename onto a key that already has a current row replaces that row in the map; the database would hold both rows or refuse the update under a unique index. A `key` value that is not a string is filed under `''`.
- Strings: outside `Jwt.Encode` a `string` stands for a PHP byte string with one byte per character. `Common.Prefix` models `substr`, and `Common.Upper` and `Common.Lower` model `strtoupper` and `strtolower`, which touch ASCII letters only, as PHP 8 does. Multi-byte characters are not modelled.
- Jwt.Encode: strings are sequences of characters, not PHP byte strings. Whether `json_encode` can encode a payload (invalid UTF-8 makes `FirebaseJWT::encode` throw) is the codec's answer; the model does not compute it.
- `Base64Strict.DecodeStrict`: the bytes decoded are stated through the reference definition `StrictDecode`. The bit packing is not checked against an encoder.

## Findings

| source | as written | input that shows it | evidently intended | confidence | as-written member | corrected member |
|---|---|---|---|---|---|---|
| app/Presenters/StaticPresenter.php:139-152 | `getLangKey` returns `(int) array_key_exists(...)`, so every supported language gets slug index 1 | `/en/lunch`, the English link `getAllLangsLinks` produces, redirects to `/en/poledne` | the language's position among the `LANGS` keys, so each alternate link renders its page | high (not executed) | StaticPages.EnglishAltLinkRedirects | StaticPages.IntendedAltLinksResolve |
| app/presenters/StaticPresenter.php:122-124 | `getBrowserLang` asks `getHeader` for `HTTP_ACCEPT_LANGUAGE`; Nette lower-cases the name, and its header names hold `-` where the server variable held `_` | a browser sending `Accept-Language: cs-CZ` with no `lang` cookie is answered in English | the `Accept-Language` header, as the current resolver asks for it (app/Presenters/StaticPresenter.php:182) | medium (not executed; rests on Nette's header naming, which is not part of this model) | LegacyStaticPages.BrowserHeaderNeverRead | LegacyStaticPages.IntendedHeaderDecides |
| app/AdminModule/presenters/SignPresenter.php:115-134 | `startReset` throws UserNotFoundException for an unknown address before `if($hash)` is reached | a reset request for an address not in the user table | the fake-key branch: no mail, a random key, the same message | high (not executed) | LegacySignFlow.LegacyResetUnknownEmailCrashes | SignFlow.UnknownEmailIsIndistinguishable |
| app/AdminModule/presenters/SignPresenter.php:213-216 | `getUserByEmail` throws for a missing account, so `if(!$user)` never runs | an unexpired token whose account was deleted | the "user does not exist or was deleted" form error | high (not executed) | LegacySignFlow.LegacyDeletedUserCrashes | SignFlow.CheckTokenOrder |
