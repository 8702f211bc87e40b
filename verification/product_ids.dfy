/** Recovering a product id from a product URL by reversing the site's
    `product_url_template` (`extract_product_id_from_url`, identical in
    crawler/crawler.py and src/crawlers/crawler.py). Two rules are tried:
    the template's literal path prefix, then the marker segments. */
module ProductIds {
  import opened Options
  import opened Text
  import opened Urls

  /** The placeholder a product URL template carries. */
  const Placeholder: string := "{product_id}"

  /** The path segments after which the fallback rule looks for an id, in the order tried. */
  const Markers: seq<string> := ["products", "bikes", "p"]

  /** The template path's text before its first placeholder, if it has one. */
  function TemplatePrefix(templatePath: string): (r: Option<string>)
    ensures r.Some? ==> StartsWith(templatePath, r.value) && OccursAt(templatePath, Placeholder, |r.value|)
    ensures r.Some? ==> forall j :: 0 <= j < |r.value| ==> !OccursAt(templatePath, Placeholder, j)
    ensures r.None? ==> forall j :: 0 <= j <= |templatePath| ==> !OccursAt(templatePath, Placeholder, j)
  {
    match Find(templatePath, Placeholder)
    case None => None
    case Some(m) => Some(templatePath[..m])
  }

  /** The prefix rule: the text after the first occurrence of the template
      prefix in the path, trailing `/` removed, if that text is not empty. */
  function PrefixRule(path: string, templatePath: string): (r: Option<string>)
    ensures r.Some? ==> r.value != "" && r.value[|r.value| - 1] != '/'
    ensures r.Some? ==> TemplatePrefix(templatePath).Some? && Find(path, TemplatePrefix(templatePath).value).Some?
    ensures r.Some? ==>
      var before := TemplatePrefix(templatePath).value;
      var start := Find(path, before).value + |before|;
      start + |r.value| <= |path| && path[start..start + |r.value|] == r.value &&
      forall j :: start + |r.value| <= j < |path| ==> path[j] == '/'
    ensures r.None? && TemplatePrefix(templatePath).Some? && Find(path, TemplatePrefix(templatePath).value).Some? ==>
      var before := TemplatePrefix(templatePath).value;
      forall j :: Find(path, before).value + |before| <= j < |path| ==> path[j] == '/'
  {
    match TemplatePrefix(templatePath)
    case None => None
    case Some(before) =>
      match Find(path, before)
      case None => None
      case Some(i) =>
        var id := RStrip(path[i + |before|..], '/');
        if id == "" then None else Some(id)
  }

  /** Python `parts.index(x)` (None where `x in parts` is false): the first position of `x`. */
  function FirstIndex(parts: seq<string>, x: string): (r: Option<nat>)
    ensures r.Some? ==> r.value < |parts| && parts[r.value] == x && x !in parts[..r.value]
    ensures r.None? <==> x !in parts
    decreases |parts|
  {
    if parts == [] then None
    else if parts[0] == x then Some(0)
    else
      match FirstIndex(parts[1..], x)
      case None => None
      case Some(k) =>
        assert parts[..k + 1] == [parts[0]] + parts[1..][..k];
        Some(k + 1)
  }

  /** A marker qualifies when it occurs among the segments and its first
      occurrence is not the last segment. */
  predicate Qualifies(parts: seq<string>, marker: string) {
    FirstIndex(parts, marker).Some? && FirstIndex(parts, marker).value < |parts| - 1
  }

  /** No marker in `markers` qualifies. */
  predicate NoneQualifies(parts: seq<string>, markers: seq<string>) {
    forall m :: 0 <= m < |markers| ==> !Qualifies(parts, markers[m])
  }

  /** `id` is the segments after the first occurrence of the first
      qualifying marker, joined by `/`. */
  ghost predicate TailOfFirstQualifying(parts: seq<string>, markers: seq<string>, id: string) {
    exists m: nat :: FirstQualifying(parts, markers, m) &&
                     id == Join(parts[FirstIndex(parts, markers[m]).value + 1..], '/')
  }

  /** Splitting `id` on `/` gives the segments after the first occurrence of
      the first qualifying marker. */
  ghost predicate SplitsAfterFirstQualifying(parts: seq<string>, markers: seq<string>, id: string) {
    exists m: nat :: FirstQualifying(parts, markers, m) &&
                     Split(id, '/') == parts[FirstIndex(parts, markers[m]).value + 1..]
  }

  /** The fallback rule over the markers still to try: the segments after the
      first occurrence of the first qualifying marker, joined by `/`. */
  function MarkerRule(parts: seq<string>, markers: seq<string>): (r: Option<string>)
    ensures r.None? <==> NoneQualifies(parts, markers)
    ensures r.Some? ==> TailOfFirstQualifying(parts, markers, r.value)
    decreases |markers|
  {
    if markers == [] then None
    else if Qualifies(parts, markers[0]) then
      assert FirstQualifying(parts, markers, 0);
      Some(Join(parts[FirstIndex(parts, markers[0]).value + 1..], '/'))
    else
      var r := MarkerRule(parts, markers[1..]);
      MarkerRuleStep(parts, markers, r);
      r
  }

  /** When the first marker does not qualify, the rule's contract over the
      remaining markers carries over to all of them. */
  lemma MarkerRuleStep(parts: seq<string>, markers: seq<string>, r: Option<string>)
    requires |markers| >= 1 && !Qualifies(parts, markers[0])
    requires r.None? <==> NoneQualifies(parts, markers[1..])
    requires r.Some? ==> TailOfFirstQualifying(parts, markers[1..], r.value)
    ensures r.None? <==> NoneQualifies(parts, markers)
    ensures r.Some? ==> TailOfFirstQualifying(parts, markers, r.value)
  {
    assert forall m :: 1 <= m < |markers| ==> markers[m] == markers[1..][m - 1];
    if r.Some? {
      var m: nat :| FirstQualifying(parts, markers[1..], m) &&
               r.value == Join(parts[FirstIndex(parts, markers[1..][m]).value + 1..], '/');
      FirstQualifyingShift(parts, markers, m);
    }
  }

  /** A first qualifying marker among all but the first marker, which does
      not qualify, is the first qualifying marker of them all. */
  lemma FirstQualifyingShift(parts: seq<string>, markers: seq<string>, m: nat)
    requires |markers| >= 1 && !Qualifies(parts, markers[0])
    requires FirstQualifying(parts, markers[1..], m)
    ensures markers[m + 1] == markers[1..][m] && FirstQualifying(parts, markers, m + 1)
  {
    forall m' | 0 <= m' < m + 1 ensures !Qualifies(parts, markers[m']) {
      if m' > 0 {
        assert markers[m'] == markers[1..][m' - 1];
      }
    }
  }

  /** With both `products` and `bikes` among the segments, `products` is
      tried first, so `bikes` becomes part of the id. */
  lemma ProductsBeforeBikes(x: string)
    requires x != "products" && x != "bikes"
    ensures MarkerRule(["products", "bikes", x], Markers) == Some("bikes/" + x)
  {
    var parts := ["products", "bikes", x];
    assert FirstIndex(parts, "products") == Some(0);
    assert Join(parts[1..], '/') == "bikes/" + x by {
      assert parts[1..][1..] == [x];
    }
  }

  /** `markers[m]` is the first of the markers that qualifies. */
  predicate FirstQualifying(parts: seq<string>, markers: seq<string>, m: nat) {
    m < |markers| && Qualifies(parts, markers[m]) &&
    forall m' :: 0 <= m' < m ==> !Qualifies(parts, markers[m'])
  }

  /** The segments of a path: `path.strip('/').split('/')`. */
  function Segments(path: string): seq<string> {
    Split(Strip(path, '/'), '/')
  }

  /** The path the crawler matches against: the query string is cut off and
      trailing `/` stripped first; relative URLs are resolved against the base
      URL (itself stripped of trailing `/`). */
  function ProductPath(url: string, baseUrl: string, urljoin: (string, string) -> string): (path: string)
    ensures '?' !in path && '#' !in path
    ensures IsAbsolute(RStrip(Split(url, '?')[0], '/')) ==> path == UrlPath(RStrip(Split(url, '?')[0], '/'))
  {
    var u := RStrip(Split(url, '?')[0], '/');
    var base := RStrip(baseUrl, '/');
    if IsAbsolute(u) then UrlPath(u) else UrlPath(urljoin(base, u))
  }

  /** `extract_product_id_from_url`: the prefix rule, then the marker rule;
      every id it returns is non-empty and does not end in `/`. */
  function ExtractProductId(url: string, baseUrl: string, template: string,
                            urljoin: (string, string) -> string): (r: Option<string>)
    ensures r.Some? ==> r.value != "" && r.value[|r.value| - 1] != '/'
  {
    var path := ProductPath(url, baseUrl, urljoin);
    match PrefixRule(path, UrlPath(template))
    case Some(id) => Some(id)
    case None =>
      MarkerIdShape(path);
      MarkerRule(Segments(path), Markers)
  }

  /** An id found by the marker rule is a suffix of the stripped path that
      follows a `/`, so it is non-empty and cannot end in `/`. */
  lemma MarkerIdShape(path: string)
    ensures var r := MarkerRule(Segments(path), Markers);
      r.Some? ==> r.value != "" && r.value[|r.value| - 1] != '/'
  {
    RuleShape(Strip(path, '/'), Markers);
  }

  /** The same over any text that does not end in `/` and any markers. */
  lemma RuleShape(stripped: string, markers: seq<string>)
    requires stripped == [] || stripped[|stripped| - 1] != '/'
    ensures var r := MarkerRule(Split(stripped, '/'), markers);
      r.Some? ==> r.value != "" && r.value[|r.value| - 1] != '/'
  {
    var parts := Split(stripped, '/');
    if MarkerRule(parts, markers).Some? {
      var m := QualifyingMarker(parts, markers);
      TailShape(stripped, FirstIndex(parts, markers[m]).value);
    }
  }

  /** The segments after the `k`-th, joined again, are a non-empty suffix of
      a text that does not end in `/`. */
  lemma TailShape(stripped: string, k: nat)
    requires stripped == [] || stripped[|stripped| - 1] != '/'
    requires k < |Split(stripped, '/')| - 1
    ensures var tail := Join(Split(stripped, '/')[k + 1..], '/');
      tail != "" && tail[|tail| - 1] != '/'
  {
    var parts := Split(stripped, '/');
    var tail := Join(parts[k + 1..], '/');
    SplitTail(stripped, '/', k);
    var head := Join(parts[..k + 1], '/');
    assert stripped == head + ['/'] + tail;
    assert |stripped| == |head| + 1 + |tail| && stripped[|head|] == '/';
    assert tail[|tail| - 1] == stripped[|stripped| - 1];
  }

  /** When the prefix rule finds nothing, the id comes from the first
      qualifying marker, and splitting it on `/` gives back exactly the
      segments after that marker. */
  lemma {:induction false} FallbackSegments(url: string, baseUrl: string, template: string,
                                           urljoin: (string, string) -> string)
    requires PrefixRule(ProductPath(url, baseUrl, urljoin), UrlPath(template)).None?
    requires ExtractProductId(url, baseUrl, template, urljoin).Some?
    ensures SplitsAfterFirstQualifying(Segments(ProductPath(url, baseUrl, urljoin)), Markers,
                                       ExtractProductId(url, baseUrl, template, urljoin).value)
  {
    ExtractByMarker(url, baseUrl, template, urljoin);
    MarkerSegments(ProductPath(url, baseUrl, urljoin));
  }

  /** The marker rule's id splits back into the segments after the first
      occurrence of the first qualifying marker. */
  lemma MarkerSegments(path: string)
    requires MarkerRule(Segments(path), Markers).Some?
    ensures SplitsAfterFirstQualifying(Segments(path), Markers, MarkerRule(Segments(path), Markers).value)
  {
    RuleSegments(Strip(path, '/'), Markers);
  }

  /** The same over any text split on `/` and any list of markers. */
  lemma RuleSegments(stripped: string, markers: seq<string>)
    requires MarkerRule(Split(stripped, '/'), markers).Some?
    ensures SplitsAfterFirstQualifying(Split(stripped, '/'), markers, MarkerRule(Split(stripped, '/'), markers).value)
  {
    var parts := Split(stripped, '/');
    var m := QualifyingMarker(parts, markers);
    SegmentsAfter(stripped, FirstIndex(parts, markers[m]).value);
  }

  /** The marker the rule used, when it found an id. */
  lemma QualifyingMarker(parts: seq<string>, markers: seq<string>) returns (m: nat)
    requires MarkerRule(parts, markers).Some?
    ensures FirstQualifying(parts, markers, m)
    ensures MarkerRule(parts, markers).value == Join(parts[FirstIndex(parts, markers[m]).value + 1..], '/')
    decreases |markers|
  {
    if Qualifies(parts, markers[0]) {
      m := 0;
      assert FirstQualifying(parts, markers, 0);
    } else {
      assert MarkerRule(parts, markers) == MarkerRule(parts, markers[1..]);
      var m' := QualifyingMarker(parts, markers[1..]);
      FirstQualifyingShift(parts, markers, m');
      m := m' + 1;
    }
  }

  /** The segments of `stripped` after position `k`, joined and split again. */
  lemma SegmentsAfter(stripped: string, k: nat)
    requires k < |Split(stripped, '/')| - 1
    ensures var parts := Split(stripped, '/');
      Split(Join(parts[k + 1..], '/'), '/') == parts[k + 1..]
  {
    var parts := Split(stripped, '/');
    SplitPartsFree(stripped, '/');
    var tail := parts[k + 1..];
    forall i | 0 <= i < |tail| ensures '/' !in tail[i] {
      assert tail[i] == parts[k + 1 + i];
    }
    SplitJoin(tail, '/');
  }

  /** Where the prefix rule finds nothing, the marker rule decides. */
  lemma ExtractByMarker(url: string, baseUrl: string, template: string,
                        urljoin: (string, string) -> string)
    requires PrefixRule(ProductPath(url, baseUrl, urljoin), UrlPath(template)).None?
    ensures ExtractProductId(url, baseUrl, template, urljoin) ==
      MarkerRule(Segments(ProductPath(url, baseUrl, urljoin)), Markers)
  {
  }

  /** Neither rule applies: no id. */
  lemma NoRuleNoId(url: string, baseUrl: string, template: string, urljoin: (string, string) -> string)
    requires PrefixRule(ProductPath(url, baseUrl, urljoin), UrlPath(template)).None?
    requires forall m :: 0 <= m < |Markers| ==> !Qualifies(Segments(ProductPath(url, baseUrl, urljoin)), Markers[m])
    ensures ExtractProductId(url, baseUrl, template, urljoin).None?
  {
  }

  /** `product_url_template.format(product_id=...)`: the placeholder is
      replaced by the id. */
  function FormatTemplate(template: string, productId: string): (url: string)
    ensures Find(template, Placeholder).None? ==> url == template
  {
    assert Find(template, Placeholder).None? ==> ReplaceAll(template, Placeholder, productId) == template by {
      if Find(template, Placeholder).None? {
        ReplaceAllAbsent(template, Placeholder, productId);
      }
    }
    ReplaceAll(template, Placeholder, productId)
  }

  /** A template whose only `{` opens its closing placeholder formats to
      its text before the placeholder followed by the id. */
  lemma FormatTail(a: string, productId: string)
    requires '{' !in a
    ensures FormatTemplate(a + Placeholder, productId) == a + productId
  {
    forall j | 0 <= j < |a| ensures !OccursAt(a + Placeholder, Placeholder, j) {
      assert a[j] in a && (a + Placeholder)[j] == a[j];
    }
    ReplaceAllTail(a, Placeholder, productId);
  }

  /** The text before a closing placeholder is the template prefix, when it holds no `{`. */
  lemma PrefixOfTemplate(before: string)
    requires '{' !in before
    ensures TemplatePrefix(before + Placeholder) == Some(before)
  {
    var t := before + Placeholder;
    forall j | 0 <= j < |before| ensures !OccursAt(t, Placeholder, j) {
      assert before[j] in before && t[j] == before[j];
    }
    FindAt(t, Placeholder, |before|);
    assert t[..|before|] == before;
  }

  /** A host of a `https://host/...` template: no `/`, `?`, `#` or `{`. */
  predicate ValidHost(host: string) {
    forall j :: 0 <= j < |host| ==> host[j] !in {'/', '?', '#', '{'}
  }

  /** The template's path before the placeholder: starts with `/`, and has
      no `?`, `#` or `{`. */
  predicate ValidBefore(before: string) {
    |before| >= 1 && before[0] == '/' && '?' !in before && '#' !in before && '{' !in before
  }

  /** A product id the round trip can carry: non-empty, not ending in `/`,
      without `?` or `#`. */
  predicate ValidId(productId: string) {
    productId != "" && productId[|productId| - 1] != '/' && '?' !in productId && '#' !in productId
  }

  /** Formatting the template with an id and reading the id back from that
      URL (with or without a query string) gives the id again, for the
      `https://host/.../{product_id}` templates the sites use. */
  lemma TemplateRoundTrip(host: string, before: string, productId: string, query: string,
                          urljoin: (string, string) -> string)
    requires ValidHost(host) && ValidBefore(before) && ValidId(productId)
    requires query == "" || query[0] == '?'
    ensures var template := "https://" + host + before + Placeholder;
      ExtractProductId(FormatTemplate(template, productId) + query, "https://" + host, template, urljoin)
        == Some(productId)
  {
    var template := "https://" + host + before + Placeholder;
    FormattedPath(host, before, productId, query, urljoin);
    TemplatePathOf(host, before);
    PrefixRuleExact(before, productId);
    ExtractByPrefix(FormattedUrl(host, before, productId) + query, "https://" + host, template, urljoin,
      before + productId, productId);
  }

  /** The URL path of a `https://host/...{product_id}` template. */
  lemma TemplatePathOf(host: string, before: string)
    requires ValidHost(host) && ValidBefore(before)
    ensures UrlPath("https://" + host + before + Placeholder) == before + Placeholder
  {
    assert "https://" + host + before + Placeholder == "https" + "://" + host + (before + Placeholder) + "";
    UrlPathOfAbsolute("https", host, before + Placeholder, "");
  }

  /** Where the prefix rule finds an id, that is the id extracted. */
  lemma ExtractByPrefix(url: string, baseUrl: string, template: string,
                        urljoin: (string, string) -> string, path: string, productId: string)
    requires ProductPath(url, baseUrl, urljoin) == path
    requires PrefixRule(path, UrlPath(template)) == Some(productId)
    ensures ExtractProductId(url, baseUrl, template, urljoin) == Some(productId)
  {
  }

  /** The prefix rule applied to the template prefix followed by an id. */
  lemma PrefixRuleExact(before: string, productId: string)
    requires '{' !in before
    requires productId != "" && productId[|productId| - 1] != '/'
    ensures PrefixRule(before + productId, before + Placeholder) == Some(productId)
  {
    var path := before + productId;
    PrefixOfTemplate(before);
    FindAt(path, before, 0);
    assert path[|before|..] == productId;
  }

  /** The formatted URL of a `https://host/...{product_id}` template. */
  function FormattedUrl(host: string, before: string, productId: string): string {
    "https://" + host + before + productId
  }

  /** Formatting a `https://host/...{product_id}` template. */
  lemma FormatOfHost(host: string, before: string, productId: string)
    requires forall j :: 0 <= j < |host| ==> host[j] != '{'
    requires '{' !in before
    ensures FormatTemplate("https://" + host + before + Placeholder, productId) == FormattedUrl(host, before, productId)
  {
    var a := "https://" + host + before;
    forall j | 0 <= j < |a| ensures a[j] != '{' {
      if 8 <= j < 8 + |host| {
        assert a[j] == host[j - 8];
      } else if 8 + |host| <= j {
        assert a[j] == before[j - 8 - |host|] && before[j - 8 - |host|] in before;
      }
    }
    FormatTail(a, productId);
  }

  /** The path the crawler reads from a formatted product URL, query and all,
      is the template prefix followed by the id. */
  lemma FormattedPath(host: string, before: string, productId: string, query: string,
                      urljoin: (string, string) -> string)
    requires ValidHost(host) && ValidBefore(before) && ValidId(productId)
    requires query == "" || query[0] == '?'
    ensures FormatTemplate("https://" + host + before + Placeholder, productId) == FormattedUrl(host, before, productId)
    ensures ProductPath(FormattedUrl(host, before, productId) + query, "https://" + host, urljoin) == before + productId
  {
    FormatOfHost(host, before, productId);
    var u := FormattedUrl(host, before, productId);
    var path := before + productId;
    SchemeSplit(host, path, u);
    UrlPathOfAbsolute("https", host, path, "");
    QueryCut(u, query, host, path);
    AbsoluteProductPath(u, query, "https://" + host, path, urljoin);
  }

  lemma SchemeSplit(host: string, path: string, u: string)
    requires u == "https://" + host + path
    ensures u == "https" + "://" + host + path + ""
    ensures StartsWith(u, "https://")
  {
  }

  /** An absolute URL's product path is its URL path once the query and trailing `/` are cut. */
  lemma AbsoluteProductPath(u: string, query: string, baseUrl: string, path: string,
                            urljoin: (string, string) -> string)
    requires RStrip(Split(u + query, '?')[0], '/') == u
    requires StartsWith(u, "https://")
    requires UrlPath(u) == path
    ensures ProductPath(u + query, baseUrl, urljoin) == path
  {
  }

  /** Cutting the query and the trailing `/` off a formatted product URL leaves it whole. */
  lemma QueryCut(u: string, query: string, host: string, rest: string)
    requires forall j :: 0 <= j < |host| ==> host[j] != '?'
    requires u == "https://" + host + rest && '?' !in rest
    requires u[|u| - 1] != '/'
    requires query == "" || query[0] == '?'
    ensures RStrip(Split(u + query, '?')[0], '/') == u
  {
    assert '?' !in u by {
      assert forall j :: 0 <= j < |host| ==> host[j] != '?';
      assert forall j :: 8 <= j < 8 + |host| ==> u[j] == host[j - 8];
      assert forall j :: 8 + |host| <= j < |u| ==> u[j] == rest[j - 8 - |host|];
    }
    SplitPrefix(u, query, '?');
    assert Split(query, '?')[0] == "";
    assert u + "" == u;
  }
}
