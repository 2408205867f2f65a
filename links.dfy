/**
 * The links table: URL normalization, slug allocation and the two operations on the table,
 * shortening a URL (the POST handler) and resolving a short code (the GET `/:urlCode` handler).
 * The functions here are the specifications the handler methods of `Server.Db` are proved against.
 */
module Links {
  import opened Wrappers
  import opened Tables

  /** The length nanoid is asked for when a slug is drawn. */
  const SLUG_LENGTH := 5

  /** A value drawn from nanoid(5). */
  type Slug = s: string | |s| == SLUG_LENGTH witness "aaaaa"

  const HTTP_PREFIX := "http://"
  const HTTPS_PREFIX := "https://"

  /** One entry of `links_table`; `None` stands for JSON `null` (or a missing field). */
  datatype LinkRecord = LinkRecord(
    id: string,
    original_url: string,
    short_slug: string,
    created_by: Option<string>,
    created_at: string,
    expires_at: Option<string>,
    click_count: Option<nat>,
    password_hash: Option<string>)

  /** The count `(click_count || 0)`: a missing count reads as 0. */
  function ClickCount(l: LinkRecord): nat {
    match l.click_count
    case Some(n) => n
    case None => 0
  }

  // ---------------------------------------------------------------- normalization

  /** The naive scheme test: the URL starts with one of the two literal prefixes. */
  predicate HasScheme(url: string) {
    HTTP_PREFIX <= url || HTTPS_PREFIX <= url
  }

  /** Prepends "http://" to a URL that starts with neither "http://" nor "https://". */
  function Normalize(url: string): (r: string)
    ensures HasScheme(r)
    ensures r == url <==> HasScheme(url)
    ensures !HasScheme(url) ==> r == HTTP_PREFIX + url
  {
    if !(HTTP_PREFIX <= url) && !(HTTPS_PREFIX <= url) then HTTP_PREFIX + url else url
  }

  lemma NormalizeIdempotent(url: string)
    ensures Normalize(Normalize(url)) == Normalize(url)
  {
  }

  // ---------------------------------------------------------------- lookups

  function Slugs(links: seq<LinkRecord>): seq<string> {
    seq(|links|, i requires 0 <= i < |links| => links[i].short_slug)
  }

  function Urls(links: seq<LinkRecord>): seq<string> {
    seq(|links|, i requires 0 <= i < |links| => links[i].original_url)
  }

  predicate HasSlug(links: seq<LinkRecord>, slug: string) {
    slug in Slugs(links)
  }

  /** The table invariant: no two records share a short_slug. */
  predicate SlugsUnique(links: seq<LinkRecord>) {
    Distinct(Slugs(links))
  }

  /** `links_table.find(l => l.short_slug === code)`, as the index of the record found. */
  function FindBySlug(links: seq<LinkRecord>, code: string): (r: Option<nat>)
    ensures r.Some? ==> r.value < |links| && links[r.value].short_slug == code &&
                        forall j | 0 <= j < r.value :: links[j].short_slug != code
    ensures r.None? <==> forall j | 0 <= j < |links| :: links[j].short_slug != code
  {
    var r := IndexOf(Slugs(links), code);
    assert r.Some? ==> forall j | 0 <= j < r.value :: Slugs(links)[..r.value][j] == links[j].short_slug;
    assert r.None? ==> forall j | 0 <= j < |links| :: Slugs(links)[j] == links[j].short_slug;
    r
  }

  /** `links_table.find(l => l.original_url === url)`, as the index of the record found. */
  function FindByUrl(links: seq<LinkRecord>, url: string): (r: Option<nat>)
    ensures r.Some? ==> r.value < |links| && links[r.value].original_url == url &&
                        forall j | 0 <= j < r.value :: links[j].original_url != url
    ensures r.None? <==> forall j | 0 <= j < |links| :: links[j].original_url != url
  {
    var r := IndexOf(Urls(links), url);
    assert r.Some? ==> forall j | 0 <= j < r.value :: Urls(links)[..r.value][j] == links[j].original_url;
    assert r.None? ==> forall j | 0 <= j < |links| :: Urls(links)[j] == links[j].original_url;
    r
  }

  // ---------------------------------------------------------------- slug allocation

  /**
   * `draws` are the values successive calls of nanoid(5) return during one request.
   * The retry loop ends once a draw is not in use, so some draw must be unused.
   */
  predicate SomeUnused(used: seq<string>, draws: seq<Slug>) {
    exists k | 0 <= k < |draws| :: draws[k] !in used
  }

  lemma SomeUnusedTail(used: seq<string>, draws: seq<Slug>)
    requires SomeUnused(used, draws) && draws[0] in used
    ensures SomeUnused(used, draws[1..])
  {
    var k :| 0 <= k < |draws| && draws[k] !in used;
    assert draws[1..][k - 1] == draws[k];
  }

  /** The position of the draw the retry loop stops at: the first one not in use. */
  function FirstUnusedIndex(used: seq<string>, draws: seq<Slug>): (k: nat)
    requires SomeUnused(used, draws)
    ensures k < |draws| && draws[k] !in used
    ensures forall j | 0 <= j < k :: draws[j] in used
  {
    if draws[0] !in used then 0
    else
      SomeUnusedTail(used, draws);
      1 + FirstUnusedIndex(used, draws[1..])
  }

  /** The do-while loop that draws nanoid(5) values until one is not a short_slug of the table. */
  method AllocateSlug(links: seq<LinkRecord>, draws: seq<Slug>) returns (text: Slug)
    requires SomeUnused(Slugs(links), draws)
    ensures text == draws[FirstUnusedIndex(Slugs(links), draws)]
    ensures FindBySlug(links, text).None?
  {
    ghost var stop := FirstUnusedIndex(Slugs(links), draws);
    var i := 0;
    text := draws[i];
    var taken := FindBySlug(links, text).Some?;
    i := i + 1;
    while taken
      invariant 1 <= i <= stop + 1
      invariant text == draws[i - 1]
      invariant taken == HasSlug(links, text)
      decreases stop + 1 - i
    {
      text := draws[i];
      taken := FindBySlug(links, text).Some?;
      i := i + 1;
    }
  }

  // ---------------------------------------------------------------- resolving a short code

  /** The outcome of a resolution: the URL redirected to (None: not found) and the new table. */
  datatype Resolution = Resolution(target: Option<string>, links: seq<LinkRecord>)

  /** `theLink.click_count = (theLink.click_count || 0) + 1` */
  function Clicked(l: LinkRecord): LinkRecord {
    l.(click_count := Some(ClickCount(l) + 1))
  }

  /**
   * GET `/:urlCode`: the first record whose short_slug is the code gets one more click
   * and its original_url is the redirect target; an unknown code changes nothing.
   */
  function ResolveTable(links: seq<LinkRecord>, code: string): (r: Resolution)
    ensures r.target.None? <==> !HasSlug(links, code)
    ensures |r.links| == |links|
    ensures Slugs(r.links) == Slugs(links) && Urls(r.links) == Urls(links)
    ensures match FindBySlug(links, code)
      case None => r.links == links
      case Some(i) =>
        && r.target == Some(links[i].original_url)
        && ClickCount(r.links[i]) == ClickCount(links[i]) + 1
        && r.links[i] == links[i].(click_count := r.links[i].click_count)
        && forall j | 0 <= j < |links| && j != i :: r.links[j] == links[j]
  {
    match FindBySlug(links, code)
    case None => Resolution(None, links)
    case Some(i) =>
      var updated := links[i := Clicked(links[i])];
      assert Slugs(updated) == Slugs(links);
      assert Urls(updated) == Urls(links);
      Resolution(Some(links[i].original_url), updated)
  }

  // ---------------------------------------------------------------- shortening a URL

  /** The outcome of a registration: the slug shown to the user and the new table. */
  datatype Shortening = Shortening(slug: string, links: seq<LinkRecord>)

  /** The record pushed for a new URL; `id` and `now` stand for nanoid() and the ISO timestamp. */
  function NewLink(id: string, url: string, slug: string, now: string): LinkRecord {
    LinkRecord(id, url, slug, None, now, None, Some(0), None)
  }

  /** What the handler needs to finish: a known URL, or a draw not in use for a new one. */
  predicate CanShorten(links: seq<LinkRecord>, url: string, draws: seq<Slug>) {
    FindByUrl(links, Normalize(url)).Some? || SomeUnused(Slugs(links), draws)
  }

  /**
   * POST `/dashboard` (and POST `/` of the second server): a URL already in the table gets the
   * slug of its first record back with the table unchanged; a new URL gets the first unused
   * draw as its slug and one fresh record appended.
   */
  function ShortenTable(links: seq<LinkRecord>, url: string, draws: seq<Slug>, id: string, now: string): (r: Shortening)
    requires CanShorten(links, url, draws)
    ensures match FindByUrl(links, Normalize(url))
      case Some(i) => r.slug == links[i].short_slug && r.links == links
      case None =>
        && |r.slug| == SLUG_LENGTH
        && r.slug in draws
        && !HasSlug(links, r.slug)
        && r.links == links + [NewLink(id, Normalize(url), r.slug, now)]
    ensures SlugsUnique(links) ==> SlugsUnique(r.links)
  {
    var u := Normalize(url);
    match FindByUrl(links, u)
    case Some(i) => Shortening(links[i].short_slug, links)
    case None =>
      var text := draws[FirstUnusedIndex(Slugs(links), draws)];
      var added := links + [NewLink(id, u, text, now)];
      assert Slugs(added) == Slugs(links) + [text];
      if SlugsUnique(links) then DistinctAppend(Slugs(links), text); Shortening(text, added)
      else Shortening(text, added)
  }

  /** Adding a record extends the slug and URL columns by its slug and URL. */
  lemma AppendColumns(links: seq<LinkRecord>, l: LinkRecord)
    ensures Slugs(links + [l]) == Slugs(links) + [l.short_slug]
    ensures Urls(links + [l]) == Urls(links) + [l.original_url]
  {
  }

  // ---------------------------------------------------------------- properties

  /** Registering the same URL again returns the same slug and leaves the table alone. */
  lemma ShortenIdempotent(links: seq<LinkRecord>, url: string, draws: seq<Slug>, id: string, now: string,
                          draws': seq<Slug>, id': string, now': string)
    requires CanShorten(links, url, draws)
    ensures var s := ShortenTable(links, url, draws, id, now);
      CanShorten(s.links, url, draws') && ShortenTable(s.links, url, draws', id', now') == s
  {
    var u := Normalize(url);
    if FindByUrl(links, u).None? {
      var s := ShortenTable(links, url, draws, id, now);
      AppendColumns(links, NewLink(id, u, s.slug, now));
      IndexOfAppend(Urls(links), u, u);
    }
  }

  /** In a table with unique slugs, the slug a registration returns resolves to the normalized URL. */
  lemma ShortenThenResolve(links: seq<LinkRecord>, url: string, draws: seq<Slug>, id: string, now: string)
    requires CanShorten(links, url, draws)
    requires SlugsUnique(links)
    ensures var s := ShortenTable(links, url, draws, id, now);
      ResolveTable(s.links, s.slug).target == Some(Normalize(url))
  {
    var u := Normalize(url);
    var s := ShortenTable(links, url, draws, id, now);
    match FindByUrl(links, u)
    case Some(i) =>
      DistinctIndexOf(Slugs(links), i);
    case None =>
      AppendColumns(links, NewLink(id, u, s.slug, now));
      IndexOfAppend(Slugs(links), s.slug, s.slug);
  }

  /** A registration of a new URL leaves a resolvable record whose clicks start at 0. */
  lemma ShortenNewStartsUnclicked(links: seq<LinkRecord>, url: string, draws: seq<Slug>, id: string, now: string)
    requires FindByUrl(links, Normalize(url)).None? && SomeUnused(Slugs(links), draws)
    ensures var s := ShortenTable(links, url, draws, id, now);
      FindBySlug(s.links, s.slug) == Some(|links|) && ClickCount(s.links[|links|]) == 0
  {
    var s := ShortenTable(links, url, draws, id, now);
    AppendColumns(links, NewLink(id, Normalize(url), s.slug, now));
    IndexOfAppend(Slugs(links), s.slug, s.slug);
  }

  /** Resolving a known code twice counts two clicks on the same record. */
  lemma ResolveTwice(links: seq<LinkRecord>, code: string)
    requires HasSlug(links, code)
    ensures var r1 := ResolveTable(links, code);
      var r2 := ResolveTable(r1.links, code);
      var i := FindBySlug(links, code).value;
      r2.target == r1.target && FindBySlug(r1.links, code) == Some(i) &&
      ClickCount(r2.links[i]) == ClickCount(links[i]) + 2
  {
  }
}
