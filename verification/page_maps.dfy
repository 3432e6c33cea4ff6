/**
 * The shape both generations of the static presenter give their page table
 * (`PAGE_MAP` / `$pageMap`): each page key owns either one universal slug
 * (stored under the array index -1) or one slug per language position
 * (indices 0, 1, ...). The reverse lookup and the alternate-language links
 * are computed from this table the same way in both generations.
 */
module PageMaps {
  import opened Common

  datatype Slugs =
    | Universal(slug: string)          // `[-1 => $slug]`
    | PerLanguage(slugs: seq<string>)  // `[$slug0, $slug1, ...]`

  datatype Page = Page(key: string, slugs: Slugs)

  /** A link to the same page in another language: the `lang`/`page` route parameters. */
  datatype Link = Link(lang: string, page: string)

  /** The slugs of one table entry, in array order. */
  function SlugList(s: Slugs): (r: seq<string>)
    ensures s.Universal? ==> r == [s.slug]
    ensures s.PerLanguage? ==> r == s.slugs
  {
    match s
    case Universal(u) => [u]
    case PerLanguage(ss) => ss
  }

  /** `isset($slugs[$id])` followed by the read: the slug stored under array index `id`. */
  function SlugAt(s: Slugs, id: Option<int>): (r: Option<string>)
    ensures r.Some? <==> (s.Universal? && id == Some(-1)) || (s.PerLanguage? && id.Some? && 0 <= id.value < |s.slugs|)
    ensures r.Some? && s.PerLanguage? ==> r.value == s.slugs[id.value]
    ensures r.Some? && s.Universal? ==> r.value == s.slug
  {
    match s
    case Universal(u) => if id == Some(-1) then Some(u) else None
    case PerLanguage(ss) => if id.Some? && 0 <= id.value < |ss| then Some(ss[id.value]) else None
  }

  /** `$pageMap[$key]`: the slugs stored under that page key. */
  function Lookup(pages: seq<Page>, key: string): (r: Option<Slugs>)
    ensures r.Some? <==> exists i :: 0 <= i < |pages| && pages[i].key == key
    ensures r.Some? ==> exists i :: 0 <= i < |pages| && pages[i].key == key && pages[i].slugs == r.value
  {
    if pages == [] then None
    else if pages[0].key == key then Some(pages[0].slugs)
    else
      var r := Lookup(pages[1..], key);
      assert forall i :: 0 < i < |pages| ==> pages[1..][i - 1] == pages[i];
      r
  }

  /** The url => page-key pairs contributed by one entry. */
  function EntryMap(p: Page): (r: map<string, string>)
    ensures r.Keys == set s | s in SlugList(p.slugs)
    ensures forall s :: s in r ==> r[s] == p.key
  {
    SlugsTo(SlugList(p.slugs), p.key)
  }

  function SlugsTo(slugs: seq<string>, key: string): (r: map<string, string>)
    ensures r.Keys == set s | s in slugs
    ensures forall s :: s in r ==> r[s] == key
  {
    if slugs == [] then map[] else SlugsTo(slugs[1..], key)[slugs[0] := key]
  }

  /**
   * `getReversedPageMap`: walk the table in order and record `slug => pageKey`;
   * a later entry overwrites an earlier one with the same slug.
   */
  function ReversedMap(pages: seq<Page>): (r: map<string, string>)
    ensures forall i, s :: 0 <= i < |pages| && s in SlugList(pages[i].slugs) ==> s in r
  {
    if pages == [] then map[]
    else EntryMap(pages[0]) + ReversedMap(pages[1..])
  }

  /** No slug appears under two different entries. */
  ghost predicate DistinctSlugs(pages: seq<Page>) {
    forall i, j, s :: 0 <= i < |pages| && 0 <= j < |pages| && s in SlugList(pages[i].slugs) && s in SlugList(pages[j].slugs) ==> i == j
  }

  /** Slugs are distinct across entries when some function names, for every slug, the one entry holding it. */
  lemma OwnedSlugsDistinct(pages: seq<Page>, owner: string -> int)
    requires forall i, s :: 0 <= i < |pages| && s in SlugList(pages[i].slugs) ==> owner(s) == i
    ensures DistinctSlugs(pages)
  {
    forall i, j, s | 0 <= i < |pages| && 0 <= j < |pages| && s in SlugList(pages[i].slugs) && s in SlugList(pages[j].slugs)
      ensures i == j
    {
      assert owner(s) == i && owner(s) == j;
    }
  }

  /**
   * The position of the page each of the site's slugs belongs to. Both
   * generations list homepage, lunch, dinner, beverages, gallery and contact
   * in this order, with the same slugs.
   */
  function SiteSlugOwner(s: string): int {
    if s == "" then 0
    else if s == "lunch" || s == "poledne" then 1
    else if s == "dinner" || s == "vecer" then 2
    else if s == "beverages" || s == "napoje" then 3
    else if s == "gallery" || s == "galerie" then 4
    else 5
  }

  /** Every key of the reversed map is a slug of some entry carrying that page key. */
  lemma {:induction false} ReversedMapSound(pages: seq<Page>, s: string)
    requires s in ReversedMap(pages)
    ensures exists i :: 0 <= i < |pages| && s in SlugList(pages[i].slugs) && pages[i].key == ReversedMap(pages)[s]
  {
    var rest := pages[1..];
    if s in ReversedMap(rest) {
      ReversedMapSound(rest, s);
      var i :| 0 <= i < |rest| && s in SlugList(rest[i].slugs) && rest[i].key == ReversedMap(rest)[s];
      assert pages[i + 1] == rest[i];
    } else {
      assert s in SlugList(pages[0].slugs);
    }
  }

  /**
   * With pairwise distinct slugs the reversed map sends every slug of the
   * table back to its own page key.
   */
  lemma {:induction false} ReversedMapInverts(pages: seq<Page>, i: int, s: string)
    requires DistinctSlugs(pages)
    requires 0 <= i < |pages| && s in SlugList(pages[i].slugs)
    ensures s in ReversedMap(pages) && ReversedMap(pages)[s] == pages[i].key
  {
    var rest := pages[1..];
    if i == 0 {
      assert s in EntryMap(pages[0]);
      if s in ReversedMap(rest) {
        ReversedMapSound(rest, s);
        assert false;
      }
    } else {
      assert DistinctSlugs(rest) by {
        forall a, b, t | 0 <= a < |rest| && 0 <= b < |rest| && t in SlugList(rest[a].slugs) && t in SlugList(rest[b].slugs)
          ensures a == b
        {
          assert rest[a] == pages[a + 1] && rest[b] == pages[b + 1];
        }
      }
      assert rest[i - 1] == pages[i];
      ReversedMapInverts(rest, i - 1, s);
    }
  }

  /**
   * `getAllLangsLinks`: for a universal entry, one link per language with the
   * universal slug; otherwise the slug at index i is linked under language i.
   * A slug index with no language reads the language as `null`, which PHP
   * turns into the empty key.
   */
  function AllLangsLinks(s: Slugs, codes: seq<string>): (r: seq<Link>)
    ensures s.Universal? ==> |r| == |codes| && forall i :: 0 <= i < |codes| ==> r[i] == Link(codes[i], s.slug)
    ensures s.PerLanguage? ==> |r| == |s.slugs|
    ensures s.PerLanguage? ==> forall i :: 0 <= i < |s.slugs| && i < |codes| ==> r[i] == Link(codes[i], s.slugs[i])
  {
    match s
    case Universal(u) => seq(|codes|, i requires 0 <= i < |codes| => Link(codes[i], u))
    case PerLanguage(ss) => seq(|ss|, i requires 0 <= i < |ss| => Link(if i < |codes| then codes[i] else "", ss[i]))
  }
}
