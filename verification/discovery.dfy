/** The bounded walk over a site's product listing pages
    (`discover_product_ids`, the same in both crawler copies apart from the
    page cap). A fetched listing page is given as pre-extracted data: the
    `href` of every element the product link selector matches and the `href`
    of the first element the pagination selector matches. The site is a map
    from URL to page, and a URL missing from it is a fetch that failed. */
module Discovery {
  import opened Options
  import opened Text
  import opened Urls
  import opened ProductIds

  /** What the selectors found on one listing page; `""` stands for a link
      without an `href` (or a missing pagination element). */
  datatype ListingPage = ListingPage(hrefs: seq<string>, nextHref: string)

  /** The `discovery` entry of a site's configuration; `""` stands for a
      missing or empty key. */
  datatype DiscoveryConfig = DiscoveryConfig(url: string, productLinkSelector: string, paginationSelector: string)

  /** One entry of the site configuration; `None` for the discovery entry is
      a missing or empty `discovery` dictionary. */
  datatype SiteConfig = SiteConfig(
    name: string,
    baseUrl: string,
    productUrlTemplate: string,
    languages: seq<string>,
    discovery: Option<DiscoveryConfig>,
    selectors: map<string, string>)

  /** The fetched pages of a site, by URL. */
  type Site = map<string, ListingPage>

  /** The abstract `urljoin`. */
  type Joiner = (string, string) -> string

  predicate NoDuplicates<T(==)>(s: seq<T>) {
    forall i, j :: 0 <= i < j < |s| ==> s[i] != s[j]
  }

  /** Discovery starts only when the configuration names a start URL and a link selector. */
  predicate CanDiscover(website: SiteConfig) {
    website.discovery.Some? && website.discovery.value.url != "" && website.discovery.value.productLinkSelector != ""
  }

  /** Reads a product id from an absolute link. */
  type IdReader = string -> Option<string>

  /** The site's id reader: `extract_product_id_from_url` with the site's
      base URL and product URL template. */
  function SiteReader(website: SiteConfig, urljoin: Joiner): IdReader {
    href => ExtractProductId(href, website.baseUrl, website.productUrlTemplate, urljoin)
  }

  /** A link yields an id when it has an `href` and the id is read from the
      link made absolute. */
  predicate Yields(website: SiteConfig, urljoin: Joiner, readId: IdReader, href: string, id: string) {
    href != "" && readId(Absolutize(website.baseUrl, href, urljoin)) == Some(id)
  }

  /** The id one link contributes: nothing for a link without `href`, else the
      id read from the link made absolute, if any. */
  function LinkId(website: SiteConfig, urljoin: Joiner, readId: IdReader, href: string): (ids: set<string>)
    ensures forall id :: id in ids <==> Yields(website, urljoin, readId, href, id)
  {
    if href == "" then {}
    else
      match readId(Absolutize(website.baseUrl, href, urljoin))
      case None => {}
      case Some(id) => {id}
  }

  /** The ids the links of a page contribute. */
  function LinkIds(website: SiteConfig, urljoin: Joiner, readId: IdReader, hrefs: seq<string>): set<string>
    decreases |hrefs|
  {
    if hrefs == [] then {}
    else LinkIds(website, urljoin, readId, hrefs[..|hrefs| - 1]) + LinkId(website, urljoin, readId, hrefs[|hrefs| - 1])
  }

  /** An id is contributed by a page's links exactly when some link with an
      `href` on it yields that id. */
  lemma {:induction false} LinkIdsFrom(website: SiteConfig, urljoin: Joiner, readId: IdReader, hrefs: seq<string>, id: string)
    ensures id in LinkIds(website, urljoin, readId, hrefs) <==>
      exists j :: 0 <= j < |hrefs| && Yields(website, urljoin, readId, hrefs[j], id)
    decreases |hrefs|
  {
    if hrefs != [] {
      var init := hrefs[..|hrefs| - 1];
      LinkIdsFrom(website, urljoin, readId, init, id);
      if j :| 0 <= j < |hrefs| && Yields(website, urljoin, readId, hrefs[j], id) {
        if j < |init| {
          assert init[j] == hrefs[j];
        }
      }
    }
  }

  /** The URL of the next listing page: none (`""`) without a pagination
      selector or a next link with an `href`; a relative link is resolved
      against the base URL. */
  function NextUrl(website: SiteConfig, urljoin: Joiner, page: ListingPage): (next: string)
    requires website.discovery.Some?
    ensures website.discovery.value.paginationSelector == "" || page.nextHref == "" ==> next == ""
    ensures website.discovery.value.paginationSelector != "" && IsAbsolute(page.nextHref) ==> next == page.nextHref
  {
    if website.discovery.value.paginationSelector == "" || page.nextHref == "" then ""
    else Absolutize(website.baseUrl, page.nextHref, urljoin)
  }

  /** The listing pages fetched from `url` on, with `budget` pages left:
      the walk stops at an empty URL, at a page that cannot be fetched or
      when the budget is spent. */
  function Trail(website: SiteConfig, site: Site, urljoin: Joiner, url: string, budget: nat): (pages: seq<string>)
    requires website.discovery.Some?
    ensures |pages| <= budget
    ensures forall i :: 0 <= i < |pages| ==> pages[i] in site && pages[i] != ""
    decreases budget
  {
    if url == "" || budget == 0 || url !in site then []
    else [url] + Trail(website, site, urljoin, NextUrl(website, urljoin, site[url]), budget - 1)
  }

  /** The ids the links on the given fetched pages contribute. */
  function IdsOn(website: SiteConfig, site: Site, urljoin: Joiner, readId: IdReader, pages: seq<string>): set<string>
    requires forall i :: 0 <= i < |pages| ==> pages[i] in site
    decreases |pages|
  {
    if pages == [] then {}
    else IdsOn(website, site, urljoin, readId, pages[..|pages| - 1]) +
         LinkIds(website, urljoin, readId, site[pages[|pages| - 1]].hrefs)
  }

  /** The set of ids discovery collects: empty when discovery cannot start. */
  function DiscoveredIds(website: SiteConfig, site: Site, urljoin: Joiner, readId: IdReader, maxPages: nat): set<string> {
    if !CanDiscover(website) then {}
    else IdsOn(website, site, urljoin, readId, Trail(website, site, urljoin, website.discovery.value.url, maxPages))
  }

  /** `discover_product_ids` with a page cap of `maxPages`: the ids found on
      the walked pages, each once, in an unspecified order. Ids are read from
      links by `readId`, which the crawler sets to `SiteReader`. */
  method DiscoverProductIds(website: SiteConfig, site: Site, urljoin: Joiner, readId: IdReader, maxPages: nat)
    returns (ids: seq<string>)
    ensures !CanDiscover(website) ==> ids == []
    ensures NoDuplicates(ids)
    ensures forall id :: id in ids <==> id in DiscoveredIds(website, site, urljoin, readId, maxPages)
    ensures |ids| == |DiscoveredIds(website, site, urljoin, readId, maxPages)|
  {
    if !CanDiscover(website) {
      return [];
    }
    var discovery := website.discovery.value;
    var productIds: set<string> := {};
    var pagesCrawled := 0;
    var currentUrl := discovery.url;
    ghost var visited: seq<string> := [];
    while currentUrl != "" && pagesCrawled < maxPages
      invariant pagesCrawled <= maxPages
      invariant forall i :: 0 <= i < |visited| ==> visited[i] in site
      invariant visited + Trail(website, site, urljoin, currentUrl, maxPages - pagesCrawled)
                == Trail(website, site, urljoin, discovery.url, maxPages)
      invariant productIds == IdsOn(website, site, urljoin, readId, visited)
      decreases maxPages - pagesCrawled
    {
      if currentUrl !in site {
        break;
      }
      var page := site[currentUrl];
      productIds := AddLinkIds(website, urljoin, readId, page.hrefs, productIds);
      IdsOnSnoc(website, site, urljoin, readId, visited, currentUrl);
      ghost var budget := maxPages - pagesCrawled;
      ghost var fetched := currentUrl;
      visited := visited + [currentUrl];
      var nextPage := "";
      if discovery.paginationSelector != "" {
        if page.nextHref != "" {
          nextPage := page.nextHref;
          if !IsAbsolute(nextPage) {
            nextPage := urljoin(website.baseUrl, nextPage);
          }
        }
      }
      currentUrl := nextPage;
      pagesCrawled := pagesCrawled + 1;
      WalkStep(website, site, urljoin, visited[..|visited| - 1], fetched, currentUrl, budget,
               Trail(website, site, urljoin, discovery.url, maxPages));
      assert visited[..|visited| - 1] + [fetched] == visited;
    }
    assert Trail(website, site, urljoin, currentUrl, maxPages - pagesCrawled) == [];
    assert visited == Trail(website, site, urljoin, discovery.url, maxPages);
    ids := ToList(productIds);
  }

  /** One turn of the walk: the fetched page moves from the trail ahead to
      the pages visited. */
  lemma WalkStep(website: SiteConfig, site: Site, urljoin: Joiner, visited: seq<string>, url: string,
                 next: string, budget: nat, full: seq<string>)
    requires website.discovery.Some? && url != "" && budget > 0 && url in site
    requires next == NextUrl(website, urljoin, site[url])
    requires visited + Trail(website, site, urljoin, url, budget) == full
    ensures (visited + [url]) + Trail(website, site, urljoin, next, budget - 1) == full
  {
    TrailStep(website, site, urljoin, url, budget);
    var rest := Trail(website, site, urljoin, next, budget - 1);
    assert visited + ([url] + rest) == (visited + [url]) + rest;
  }

  lemma TrailStep(website: SiteConfig, site: Site, urljoin: Joiner, url: string, budget: nat)
    requires website.discovery.Some? && url != "" && budget > 0 && url in site
    ensures Trail(website, site, urljoin, url, budget)
            == [url] + Trail(website, site, urljoin, NextUrl(website, urljoin, site[url]), budget - 1)
  {
  }

  lemma IdsOnSnoc(website: SiteConfig, site: Site, urljoin: Joiner, readId: IdReader, pages: seq<string>, url: string)
    requires forall i :: 0 <= i < |pages| ==> pages[i] in site
    requires url in site
    ensures IdsOn(website, site, urljoin, readId, pages + [url])
            == IdsOn(website, site, urljoin, readId, pages) + LinkIds(website, urljoin, readId, site[url].hrefs)
  {
    assert (pages + [url])[..|pages|] == pages;
  }

  /** The loop over the links of one listing page: each link with an `href`
      is made absolute and its id, if any, added to the set. */
  method AddLinkIds(website: SiteConfig, urljoin: Joiner, readId: IdReader, hrefs: seq<string>, productIds: set<string>)
    returns (result: set<string>)
    ensures result == productIds + LinkIds(website, urljoin, readId, hrefs)
  {
    result := productIds;
    for i := 0 to |hrefs|
      invariant result == productIds + LinkIds(website, urljoin, readId, hrefs[..i])
    {
      var href := hrefs[i];
      assert hrefs[..i + 1][..i] == hrefs[..i];
      if href == "" {
        continue;
      }
      if !IsAbsolute(href) {
        href := urljoin(website.baseUrl, href);
      }
      var productId := readId(href);
      if productId.Some? {
        result := result + {productId.value};
      }
    }
    assert hrefs[..|hrefs|] == hrefs;
  }

  /** Python `list(s)`: the elements of a set, each once. */
  method ToList(s: set<string>) returns (xs: seq<string>)
    ensures NoDuplicates(xs)
    ensures forall x :: x in xs <==> x in s
    ensures |xs| == |s|
  {
    xs := [];
    var rest := s;
    while rest != {}
      invariant NoDuplicates(xs)
      invariant forall x :: x in xs <==> x in s && x !in rest
      invariant rest <= s
      invariant |xs| + |rest| == |s|
      decreases |rest|
    {
      var x :| x in rest;
      xs := xs + [x];
      rest := rest - {x};
    }
  }

  /** The walk never fetches more pages than the cap. */
  lemma TrailBound(website: SiteConfig, site: Site, urljoin: Joiner, maxPages: nat)
    requires CanDiscover(website)
    ensures |Trail(website, site, urljoin, website.discovery.value.url, maxPages)| <= maxPages
  {
  }

  /** Each page after the first is the next link of the page before it. */
  lemma {:induction false} TrailFollowsNext(website: SiteConfig, site: Site, urljoin: Joiner, url: string, budget: nat)
    requires website.discovery.Some?
    ensures var pages := Trail(website, site, urljoin, url, budget);
      (|pages| > 0 ==> pages[0] == url) &&
      forall i :: 0 <= i < |pages| - 1 ==> pages[i + 1] == NextUrl(website, urljoin, site[pages[i]])
    decreases budget
  {
    if url != "" && budget != 0 && url in site {
      TrailFollowsNext(website, site, urljoin, NextUrl(website, urljoin, site[url]), budget - 1);
    }
  }

  /** A walk that ends before the cap ends because the URL it would fetch
      next is empty or cannot be fetched. */
  lemma {:induction false} TrailStops(website: SiteConfig, site: Site, urljoin: Joiner, url: string, budget: nat)
    requires website.discovery.Some?
    ensures var pages := Trail(website, site, urljoin, url, budget);
      |pages| < budget ==>
        var last := if pages == [] then url else NextUrl(website, urljoin, site[pages[|pages| - 1]]);
        last == "" || last !in site
    decreases budget
  {
    var pages := Trail(website, site, urljoin, url, budget);
    if url != "" && budget != 0 && url in site {
      var next := NextUrl(website, urljoin, site[url]);
      var tail := Trail(website, site, urljoin, next, budget - 1);
      TrailStops(website, site, urljoin, next, budget - 1);
      assert pages == [url] + tail;
      if tail != [] {
        assert pages[|pages| - 1] == tail[|tail| - 1];
      }
    }
  }

  /** Every discovered id is the id of a link with an `href` on a walked
      page, and every such link's id is discovered. */
  lemma {:induction false} IdsOnFrom(website: SiteConfig, site: Site, urljoin: Joiner, readId: IdReader, pages: seq<string>, id: string)
    requires forall i :: 0 <= i < |pages| ==> pages[i] in site
    ensures id in IdsOn(website, site, urljoin, readId, pages) <==>
      exists i :: 0 <= i < |pages| && id in LinkIds(website, urljoin, readId, site[pages[i]].hrefs)
    decreases |pages|
  {
    if pages != [] {
      var init := pages[..|pages| - 1];
      IdsOnFrom(website, site, urljoin, readId, init, id);
      if i :| 0 <= i < |pages| && id in LinkIds(website, urljoin, readId, site[pages[i]].hrefs) {
        if i < |init| {
          assert init[i] == pages[i];
        }
      }
    }
  }

  /** With the site's reader, an id is discovered exactly when
      `extract_product_id_from_url` reads it from a link with an `href` on
      one of the walked pages, made absolute. */
  lemma DiscoveredFromLinks(website: SiteConfig, site: Site, urljoin: Joiner, maxPages: nat, id: string)
    requires CanDiscover(website)
    ensures var pages := Trail(website, site, urljoin, website.discovery.value.url, maxPages);
      id in DiscoveredIds(website, site, urljoin, SiteReader(website, urljoin), maxPages) <==>
      exists i, j :: 0 <= i < |pages| && 0 <= j < |site[pages[i]].hrefs| &&
        site[pages[i]].hrefs[j] != "" &&
        ExtractProductId(Absolutize(website.baseUrl, site[pages[i]].hrefs[j], urljoin), website.baseUrl,
                         website.productUrlTemplate, urljoin) == Some(id)
  {
    var pages := Trail(website, site, urljoin, website.discovery.value.url, maxPages);
    var readId := SiteReader(website, urljoin);
    IdsOnFrom(website, site, urljoin, readId, pages, id);
    forall i | 0 <= i < |pages| {
      LinkIdsFrom(website, urljoin, readId, site[pages[i]].hrefs, id);
    }
  }
}
