/** `crawl_website`: discovery, then one product page per discovered id and
    language, each parsed and stamped with where and when it was read. The
    two crawler copies run the same code with the settings of `CrawlerCopy`.
    Fetching a product page is a lookup in `Pages`; a URL missing there is a
    page whose fetch failed, which the crawler skips. */
module Crawl {
  import opened Options
  import opened Text
  import opened ProductIds
  import opened Discovery
  import opened ProductPages

  /** What distinguishes the two crawler copies: the discovery page cap, the
      cap on products crawled per site, and whether `original_images` is kept. */
  datatype CrawlerCopy = CrawlerCopy(maxPages: nat, maxProducts: Option<nat>, keepOriginalImages: bool)

  /** crawler/crawler.py: ten listing pages, every discovered product, `original_images` kept. */
  const Legacy: CrawlerCopy := CrawlerCopy(10, None, true)

  /** src/crawlers/crawler.py: five listing pages, at most ten products, no `original_images`. */
  const Actions: CrawlerCopy := CrawlerCopy(5, Some(10), false)

  /** The product pages that can be fetched, by URL. */
  type Pages = map<string, ProductDocument>

  /** The keys `crawl_website` adds to every record. */
  const StampKeys: set<string> := {"website", "product_id", "language", "url", "crawl_date"}

  /** The ids crawled: the first `maxProducts` of them when there is a cap. */
  function Limited(ids: seq<string>, maxProducts: Option<nat>): (kept: seq<string>)
    ensures |kept| <= |ids| && kept == ids[..|kept|]
    ensures maxProducts.Some? ==> |kept| <= maxProducts.value
    ensures maxProducts.Some? && |ids| > maxProducts.value ==> |kept| == maxProducts.value
    ensures maxProducts.None? || |ids| <= maxProducts.value ==> kept == ids
  {
    if maxProducts.Some? && |ids| > maxProducts.value then ids[..maxProducts.value] else ids
  }

  /** The URL of a product page in a language: the template filled with the
      id, with a `lang` query parameter for every language but the default. */
  function ProductUrl(template: string, productId: string, lang: string, defaultLang: string): (url: string)
    ensures var base := FormatTemplate(template, productId);
      && |base| <= |url| && url[..|base|] == base
      && (url == base <==> lang == defaultLang)
      && (lang != defaultLang ==>
            && '?' in url && |url| == |base| + 6 + |lang|
            && url[|base|] == (if '?' in base then '&' else '?')
            && url[|base| + 1..|base| + 6] == "lang=" && url[|base| + 6..] == lang)
  {
    var base := FormatTemplate(template, productId);
    if lang == defaultLang then base
    else
      var url := if '?' in base then base + "&lang=" + lang else base + "?lang=" + lang;
      assert '?' in url by {
        if '?' in base {
          var i :| 0 <= i < |base| && base[i] == '?';
          assert url[i] == '?';
        } else {
          assert url[|base|] == '?';
        }
      }
      url
  }

  /** The metadata `crawl_website` writes into a parsed record. */
  function Stamp(record: Record, website: string, productId: string, lang: string, url: string, crawlDate: string): Record {
    record["website" := Text(website)]["product_id" := Text(productId)]["language" := Text(lang)]
          ["url" := Text(url)]["crawl_date" := Text(crawlDate)]
  }

  /** The stamp holds the five metadata fields and leaves the parsed fields as they were. */
  lemma StampFields(record: Record, website: string, productId: string, lang: string, url: string, crawlDate: string)
    requires forall f :: f in record ==> f !in StampKeys
    ensures var r := Stamp(record, website, productId, lang, url, crawlDate);
      && r.Keys == record.Keys + StampKeys
      && r["website"] == Text(website) && r["product_id"] == Text(productId) && r["language"] == Text(lang)
      && r["url"] == Text(url) && r["crawl_date"] == Text(crawlDate)
      && r - StampKeys == record
  {
    var r := Stamp(record, website, productId, lang, url, crawlDate);
    assert (r - StampKeys).Keys == record.Keys;
  }

  /** Parsed records never use a metadata key. */
  lemma PageRecordUnstamped(doc: ProductDocument, selectors: map<string, string>, keep: bool)
    ensures forall f :: f in PageRecord(doc, selectors, keep) ==> f !in StampKeys
  {
    forall f | f in PageRecord(doc, selectors, keep) ensures f !in StampKeys {
      assert f in RecordKeys;
      KeysDisjoint(f);
    }
  }

  lemma KeysDisjoint(f: string)
    requires f in RecordKeys
    ensures f !in StampKeys
  {
  }

  /** The record (if any) for one product in one language. */
  function Visit(website: SiteConfig, pages: Pages, keep: bool, crawlDate: string, productId: string, lang: string): seq<Record>
    requires website.languages != []
  {
    var url := ProductUrl(website.productUrlTemplate, productId, lang, website.languages[0]);
    if url in pages then [Stamp(PageRecord(pages[url], website.selectors, keep), website.name, productId, lang, url, crawlDate)]
    else []
  }

  /** The records for one product over the languages `langs`, in order. */
  function LanguageRecords(website: SiteConfig, pages: Pages, keep: bool, crawlDate: string, productId: string,
                           langs: seq<string>): seq<Record>
    requires langs == [] || website.languages != []
    decreases |langs|
  {
    if langs == [] then []
    else
      LanguageRecords(website, pages, keep, crawlDate, productId, langs[..|langs| - 1]) +
      Visit(website, pages, keep, crawlDate, productId, langs[|langs| - 1])
  }

  /** The records for the products `ids`, product by product, each over the site's languages. */
  function CrawlRecords(website: SiteConfig, pages: Pages, keep: bool, crawlDate: string, ids: seq<string>): seq<Record>
    decreases |ids|
  {
    if ids == [] then []
    else
      CrawlRecords(website, pages, keep, crawlDate, ids[..|ids| - 1]) +
      LanguageRecords(website, pages, keep, crawlDate, ids[|ids| - 1], website.languages)
  }

  /** The ids of a discovery run: each discovered id once. */
  ghost predicate IsDiscovery(website: SiteConfig, site: Site, urljoin: Joiner, maxPages: nat, ids: seq<string>) {
    && NoDuplicates(ids)
    && (forall id :: id in ids <==> id in DiscoveredIds(website, site, urljoin, SiteReader(website, urljoin), maxPages))
  }

  /** A crawled record: the parsed page of one of `ids` in one of the site's
      languages, fetched at its product URL and stamped. */
  predicate CrawledRecord(website: SiteConfig, pages: Pages, keep: bool, crawlDate: string, ids: seq<string>, r: Record) {
    && "product_id" in r && r["product_id"].Text? && r["product_id"].text in ids
    && "language" in r && r["language"].Text? && r["language"].text in website.languages
    && var productId := r["product_id"].text;
       var lang := r["language"].text;
       var url := ProductUrl(website.productUrlTemplate, productId, lang, website.languages[0]);
       && url in pages
       && r == Stamp(PageRecord(pages[url], website.selectors, keep), website.name, productId, lang, url, crawlDate)
  }

  /** `crawl_website`: the ids of a discovery run with the copy's page cap,
      limited to the copy's product cap, crawled product by product and
      language by language. The order of the ids follows the unordered set
      discovery collects, so it is left open. */
  method CrawlWebsite(website: SiteConfig, site: Site, urljoin: Joiner, pages: Pages, copy: CrawlerCopy, crawlDate: string)
    returns (products: seq<Record>)
    ensures exists ids :: (IsDiscovery(website, site, urljoin, copy.maxPages, ids) &&
      products == CrawlRecords(website, pages, copy.keepOriginalImages, crawlDate, Limited(ids, copy.maxProducts)))
    ensures !CanDiscover(website) ==> products == []
    ensures |products| <= |DiscoveredIds(website, site, urljoin, SiteReader(website, urljoin), copy.maxPages)| * |website.languages|
    ensures copy.maxProducts.Some? ==> |products| <= copy.maxProducts.value * |website.languages|
  {
    var productIds := DiscoverProductIds(website, site, urljoin, SiteReader(website, urljoin), copy.maxPages);
    ghost var discovered := productIds;
    if |productIds| == 0 {
      CrawlWebsiteFacts(website, site, urljoin, pages, copy, crawlDate, discovered, []);
      return [];
    }
    if copy.maxProducts.Some? && |productIds| > copy.maxProducts.value {
      productIds := productIds[..copy.maxProducts.value];
    }
    assert productIds == Limited(discovered, copy.maxProducts);
    products := CrawlProducts(website, pages, copy.keepOriginalImages, crawlDate, productIds);
    CrawlWebsiteFacts(website, site, urljoin, pages, copy, crawlDate, discovered, products);
  }

  /** What a crawl of the ids of one discovery run promises. */
  lemma CrawlWebsiteFacts(website: SiteConfig, site: Site, urljoin: Joiner, pages: Pages, copy: CrawlerCopy, crawlDate: string,
                          discovered: seq<string>, products: seq<Record>)
    requires !CanDiscover(website) ==> discovered == []
    requires IsDiscovery(website, site, urljoin, copy.maxPages, discovered)
    requires |discovered| == |DiscoveredIds(website, site, urljoin, SiteReader(website, urljoin), copy.maxPages)|
    requires products == CrawlRecords(website, pages, copy.keepOriginalImages, crawlDate, Limited(discovered, copy.maxProducts))
    ensures exists ids :: (IsDiscovery(website, site, urljoin, copy.maxPages, ids) &&
      products == CrawlRecords(website, pages, copy.keepOriginalImages, crawlDate, Limited(ids, copy.maxProducts)))
    ensures !CanDiscover(website) ==> products == []
    ensures |products| <= |DiscoveredIds(website, site, urljoin, SiteReader(website, urljoin), copy.maxPages)| * |website.languages|
    ensures copy.maxProducts.Some? ==> |products| <= copy.maxProducts.value * |website.languages|
  {
    var kept := Limited(discovered, copy.maxProducts);
    CrawlBound(website, pages, copy.keepOriginalImages, crawlDate, kept);
    MulMono(|kept|, |discovered|, |website.languages|);
    if copy.maxProducts.Some? {
      MulMono(|kept|, copy.maxProducts.value, |website.languages|);
    }
  }

  /** The product loop of `crawl_website`. */
  method CrawlProducts(website: SiteConfig, pages: Pages, keep: bool, crawlDate: string, productIds: seq<string>)
    returns (products: seq<Record>)
    ensures products == CrawlRecords(website, pages, keep, crawlDate, productIds)
  {
    products := [];
    for i := 0 to |productIds|
      invariant products == CrawlRecords(website, pages, keep, crawlDate, productIds[..i])
    {
      var records := CrawlLanguages(website, pages, keep, crawlDate, productIds[i]);
      CrawlRecordsSnoc(website, pages, keep, crawlDate, productIds, i);
      products := products + records;
    }
    assert productIds[..|productIds|] == productIds;
  }

  lemma CrawlRecordsSnoc(website: SiteConfig, pages: Pages, keep: bool, crawlDate: string, ids: seq<string>, i: nat)
    requires i < |ids|
    ensures CrawlRecords(website, pages, keep, crawlDate, ids[..i + 1]) ==
      CrawlRecords(website, pages, keep, crawlDate, ids[..i]) + LanguageRecords(website, pages, keep, crawlDate, ids[i], website.languages)
  {
    assert ids[..i + 1][..i] == ids[..i];
  }

  /** The language loop of `crawl_website` for one product. */
  method CrawlLanguages(website: SiteConfig, pages: Pages, keep: bool, crawlDate: string, productId: string)
    returns (records: seq<Record>)
    ensures records == LanguageRecords(website, pages, keep, crawlDate, productId, website.languages)
  {
    records := [];
    for j := 0 to |website.languages|
      invariant records == LanguageRecords(website, pages, keep, crawlDate, productId, website.languages[..j])
    {
      var visit := CrawlPage(website, pages, keep, crawlDate, productId, website.languages[j]);
      LanguageRecordsSnoc(website, pages, keep, crawlDate, productId, j);
      records := records + visit;
    }
    assert website.languages[..|website.languages|] == website.languages;
  }

  lemma LanguageRecordsSnoc(website: SiteConfig, pages: Pages, keep: bool, crawlDate: string, productId: string, j: nat)
    requires j < |website.languages|
    ensures LanguageRecords(website, pages, keep, crawlDate, productId, website.languages[..j + 1]) ==
      LanguageRecords(website, pages, keep, crawlDate, productId, website.languages[..j]) +
      Visit(website, pages, keep, crawlDate, productId, website.languages[j])
  {
    assert website.languages[..j + 1][..j] == website.languages[..j];
  }

  /** One turn of the language loop: the product URL in that language, and
      the stamped record of its page when the fetch succeeds. */
  method CrawlPage(website: SiteConfig, pages: Pages, keep: bool, crawlDate: string, productId: string, lang: string)
    returns (visit: seq<Record>)
    requires website.languages != []
    ensures visit == Visit(website, pages, keep, crawlDate, productId, lang)
  {
    var productUrl := FormatTemplate(website.productUrlTemplate, productId);
    if lang != website.languages[0] {
      if '?' in productUrl {
        productUrl := productUrl + "&lang=" + lang;
      } else {
        productUrl := productUrl + "?lang=" + lang;
      }
    }
    visit := [];
    if productUrl in pages {
      var productData := ParseProductPage(pages[productUrl], website.selectors, keep);
      RecordOfEntries(productData, pages[productUrl], website.selectors, keep);
      productData := productData["website" := Text(website.name)];
      productData := productData["product_id" := Text(productId)];
      productData := productData["language" := Text(lang)];
      productData := productData["url" := Text(productUrl)];
      productData := productData["crawl_date" := Text(crawlDate)];
      visit := [productData];
    }
  }

  lemma MulMono(a: nat, b: nat, c: nat)
    requires a <= b
    ensures a * c <= b * c
  {
  }

  /** At most one record per language of each product. */
  lemma {:induction false} LanguageBound(website: SiteConfig, pages: Pages, keep: bool, crawlDate: string, productId: string,
                                         langs: seq<string>)
    requires langs == [] || website.languages != []
    ensures |LanguageRecords(website, pages, keep, crawlDate, productId, langs)| <= |langs|
    decreases |langs|
  {
    if langs != [] {
      LanguageBound(website, pages, keep, crawlDate, productId, langs[..|langs| - 1]);
    }
  }

  /** At most one record per product and language. */
  lemma {:induction false} CrawlBound(website: SiteConfig, pages: Pages, keep: bool, crawlDate: string, ids: seq<string>)
    ensures |CrawlRecords(website, pages, keep, crawlDate, ids)| <= |ids| * |website.languages|
    decreases |ids|
  {
    if ids != [] {
      CrawlBound(website, pages, keep, crawlDate, ids[..|ids| - 1]);
      LanguageBound(website, pages, keep, crawlDate, ids[|ids| - 1], website.languages);
      assert |ids| * |website.languages| == (|ids| - 1) * |website.languages| + |website.languages|;
    }
  }

  /** The languages a product is fetched in. */
  predicate AllFetched(website: SiteConfig, pages: Pages, productId: string, langs: seq<string>)
    requires langs == [] || website.languages != []
  {
    forall j :: 0 <= j < |langs| ==>
      ProductUrl(website.productUrlTemplate, productId, langs[j], website.languages[0]) in pages
  }

  /** When every page fetches, each product yields one record per language. */
  lemma {:induction false} LanguageComplete(website: SiteConfig, pages: Pages, keep: bool, crawlDate: string, productId: string,
                                            langs: seq<string>)
    requires langs == [] || website.languages != []
    requires AllFetched(website, pages, productId, langs)
    ensures |LanguageRecords(website, pages, keep, crawlDate, productId, langs)| == |langs|
    decreases |langs|
  {
    if langs != [] {
      var init := langs[..|langs| - 1];
      assert AllFetched(website, pages, productId, init) by {
        forall j | 0 <= j < |init| ensures
          ProductUrl(website.productUrlTemplate, productId, init[j], website.languages[0]) in pages {
          assert init[j] == langs[j];
        }
      }
      LanguageComplete(website, pages, keep, crawlDate, productId, init);
    }
  }

  /** When every page fetches, there is one record per product and language. */
  lemma {:induction false} CrawlComplete(website: SiteConfig, pages: Pages, keep: bool, crawlDate: string, ids: seq<string>)
    requires forall i :: 0 <= i < |ids| ==> AllFetched(website, pages, ids[i], website.languages)
    ensures |CrawlRecords(website, pages, keep, crawlDate, ids)| == |ids| * |website.languages|
    decreases |ids|
  {
    if ids != [] {
      CrawlComplete(website, pages, keep, crawlDate, ids[..|ids| - 1]);
      LanguageComplete(website, pages, keep, crawlDate, ids[|ids| - 1], website.languages);
      assert |ids| * |website.languages| == (|ids| - 1) * |website.languages| + |website.languages|;
    }
  }

  /** Every record of one product is that product's page in one of `langs`. */
  lemma {:induction false} LanguageRecordsShape(website: SiteConfig, pages: Pages, keep: bool, crawlDate: string,
                                                ids: seq<string>, productId: string, langs: seq<string>)
    requires langs == [] || website.languages != []
    requires productId in ids
    requires forall j :: 0 <= j < |langs| ==> langs[j] in website.languages
    ensures forall r :: r in LanguageRecords(website, pages, keep, crawlDate, productId, langs) ==>
      CrawledRecord(website, pages, keep, crawlDate, ids, r)
    decreases |langs|
  {
    if langs != [] {
      var init := langs[..|langs| - 1];
      var lang := langs[|langs| - 1];
      assert forall j :: 0 <= j < |init| ==> init[j] == langs[j];
      LanguageRecordsShape(website, pages, keep, crawlDate, ids, productId, init);
      var url := ProductUrl(website.productUrlTemplate, productId, lang, website.languages[0]);
      if url in pages {
        var page := PageRecord(pages[url], website.selectors, keep);
        PageRecordUnstamped(pages[url], website.selectors, keep);
        StampFields(page, website.name, productId, lang, url, crawlDate);
      }
    }
  }

  /** Every crawled record is the stamped page of a crawled id in a site language. */
  lemma {:induction false} CrawlRecordsShape(website: SiteConfig, pages: Pages, keep: bool, crawlDate: string, ids: seq<string>)
    ensures forall r :: r in CrawlRecords(website, pages, keep, crawlDate, ids) ==>
      CrawledRecord(website, pages, keep, crawlDate, ids, r)
    decreases |ids|
  {
    if ids != [] {
      var init := ids[..|ids| - 1];
      CrawlRecordsShape(website, pages, keep, crawlDate, init);
      forall r: Record | r in CrawlRecords(website, pages, keep, crawlDate, init)
        ensures CrawledRecord(website, pages, keep, crawlDate, ids, r)
      {
        assert r["product_id"].text in init;
      }
      assert forall j :: 0 <= j < |website.languages| ==> website.languages[j] in website.languages;
      LanguageRecordsShape(website, pages, keep, crawlDate, ids, ids[|ids| - 1], website.languages);
    }
  }

  /** A crawled record carries the metadata fields, with the site name and the
      crawl date, and the parsed fields of its page besides them. */
  lemma CrawledRecordFields(website: SiteConfig, pages: Pages, keep: bool, crawlDate: string, ids: seq<string>, r: Record)
    requires CrawledRecord(website, pages, keep, crawlDate, ids, r)
    ensures StampKeys <= r.Keys
    ensures r["website"] == Text(website.name) && r["crawl_date"] == Text(crawlDate)
    ensures r["url"] == Text(ProductUrl(website.productUrlTemplate, r["product_id"].text, r["language"].text, website.languages[0]))
    ensures !keep ==> "original_images" !in r
  {
    var productId := r["product_id"].text;
    var lang := r["language"].text;
    var url := ProductUrl(website.productUrlTemplate, productId, lang, website.languages[0]);
    var page := PageRecord(pages[url], website.selectors, keep);
    PageRecordUnstamped(pages[url], website.selectors, keep);
    StampFields(page, website.name, productId, lang, url, crawlDate);
    OriginalImagesMirror(pages[url], website.selectors, keep);
  }

  /** In the default language a product is fetched at the formatted template
      itself; in any other language the `lang` parameter is appended. */
  lemma DefaultLanguageUrl(template: string, productId: string, defaultLang: string)
    ensures ProductUrl(template, productId, defaultLang, defaultLang) == FormatTemplate(template, productId)
  {
  }

  /** The product id is read back from the URL of any language, for the
      `https://host/.../{product_id}` templates the sites use. */
  lemma ProductUrlRoundTrip(host: string, before: string, productId: string, lang: string, defaultLang: string,
                            urljoin: Joiner)
    requires ValidHost(host) && ValidBefore(before) && ValidId(productId)
    ensures var template := "https://" + host + before + Placeholder;
      ExtractProductId(ProductUrl(template, productId, lang, defaultLang), "https://" + host, template, urljoin)
        == Some(productId)
  {
    var template := "https://" + host + before + Placeholder;
    var base := FormatTemplate(template, productId);
    FormatOfHost(host, before, productId);
    assert base == "https://" + host + before + productId;
    assert '?' !in base by {
      forall i | 0 <= i < |base| ensures base[i] != '?' {
        if i < 8 + |host| {
          if i >= 8 { assert base[i] == host[i - 8]; }
        } else if i < 8 + |host| + |before| {
          assert base[i] == before[i - 8 - |host|];
        } else {
          assert base[i] == productId[i - 8 - |host| - |before|];
        }
      }
    }
    if lang == defaultLang {
      assert ProductUrl(template, productId, lang, defaultLang) == base + "";
      TemplateRoundTrip(host, before, productId, "", urljoin);
    } else {
      assert ProductUrl(template, productId, lang, defaultLang) == base + ("?lang=" + lang);
      TemplateRoundTrip(host, before, productId, "?lang=" + lang, urljoin);
    }
  }

  /** The copies' caps: crawler/crawler.py walks at most ten listing pages;
      src/crawlers/crawler.py walks at most five and crawls at most ten products. */
  lemma CopyCaps(website: SiteConfig, site: Site, urljoin: Joiner)
    requires CanDiscover(website)
    ensures |Trail(website, site, urljoin, website.discovery.value.url, Legacy.maxPages)| <= 10
    ensures |Trail(website, site, urljoin, website.discovery.value.url, Actions.maxPages)| <= 5
    ensures forall ids :: |Limited(ids, Actions.maxProducts)| <= 10
    ensures forall ids :: Limited(ids, Legacy.maxProducts) == ids
  {
    TrailBound(website, site, urljoin, Legacy.maxPages);
    TrailBound(website, site, urljoin, Actions.maxPages);
  }
}
