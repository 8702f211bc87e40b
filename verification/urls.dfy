/** The small part of URL handling the crawler needs: telling absolute links
    from relative ones, resolving relative links (Python's `urljoin`, kept
    abstract as a function parameter) and the path component of `urlparse`. */
module Urls {
  import opened Text

  /** `url.startswith(('http://', 'https://'))`. */
  predicate IsAbsolute(url: string) {
    StartsWith(url, "http://") || StartsWith(url, "https://")
  }

  /** The crawler's link resolution: absolute links are kept, anything else is
      resolved against the site's base URL by `urljoin`. */
  function Absolutize(baseUrl: string, href: string, urljoin: (string, string) -> string): (r: string)
    ensures IsAbsolute(href) ==> r == href
  {
    if IsAbsolute(href) then href else urljoin(baseUrl, href)
  }

  /** The longest prefix of `s` holding none of `stops`. */
  function TakeUntil(s: string, stops: set<char>): (r: string)
    ensures |r| <= |s| && r == s[..|r|]
    ensures forall i :: 0 <= i < |r| ==> r[i] !in stops
    ensures |r| < |s| ==> s[|r|] in stops
    decreases |s|
  {
    if s == [] || s[0] in stops then "" else [s[0]] + TakeUntil(s[1..], stops)
  }

  /** The suffix of `s` that starts at its first character in `stops` (empty if none). */
  function DropUntil(s: string, stops: set<char>): (r: string)
    ensures |r| <= |s| && r == s[|s| - |r|..]
    ensures r == [] || r[0] in stops
    ensures forall i :: 0 <= i < |s| - |r| ==> s[i] !in stops
    decreases |s|
  {
    if s == [] || s[0] in stops then s else DropUntil(s[1..], stops)
  }

  /** `urlparse(url).path` for `http`/`https` URLs, protocol-relative URLs and
      bare paths: the scheme and the network location are removed, and the
      path ends at the query (`?`) or fragment (`#`). */
  function UrlPath(url: string): (path: string)
    ensures '?' !in path && '#' !in path
  {
    var rest := if StartsWith(url, "https:") then url[6..]
                else if StartsWith(url, "http:") then url[5..]
                else url;
    var hier := if StartsWith(rest, "//") then DropUntil(rest[2..], {'/', '?', '#'}) else rest;
    var path := TakeUntil(hier, {'?', '#'});
    assert forall i :: 0 <= i < |path| ==> path[i] != '?' && path[i] != '#';
    path
  }

  lemma DropUntilAt(s: string, stops: set<char>, i: nat)
    requires i < |s| && s[i] in stops
    requires forall j :: 0 <= j < i ==> s[j] !in stops
    ensures DropUntil(s, stops) == s[i..]
  {
  }

  lemma TakeUntilNone(s: string, stops: set<char>)
    requires forall j :: 0 <= j < |s| ==> s[j] !in stops
    ensures TakeUntil(s, stops) == s
  {
  }

  lemma TakeUntilAt(s: string, stops: set<char>, i: nat)
    requires i < |s| && s[i] in stops
    requires forall j :: 0 <= j < i ==> s[j] !in stops
    ensures TakeUntil(s, stops) == s[..i]
  {
  }

  /** The path runs up to the query or fragment. */
  lemma PathBeforeQuery(path: string, tail: string)
    requires '?' !in path && '#' !in path
    requires tail == [] || tail[0] == '?' || tail[0] == '#'
    ensures TakeUntil(path + tail, {'?', '#'}) == path
  {
    var pt := path + tail;
    if tail == [] {
      assert pt == path;
      TakeUntilNone(path, {'?', '#'});
    } else {
      assert pt[|path|] == tail[0];
      TakeUntilAt(pt, {'?', '#'}, |path|);
      assert pt[..|path|] == path;
    }
  }

  /** After the `//`, the network location runs up to the first `/`, `?` or
      `#`; the path then runs up to the query or fragment. */
  lemma NetlocPath(host: string, path: string, tail: string)
    requires forall j :: 0 <= j < |host| ==> host[j] !in {'/', '?', '#'}
    requires |path| >= 1 && path[0] == '/' && '?' !in path && '#' !in path
    requires tail == [] || tail[0] == '?' || tail[0] == '#'
    ensures TakeUntil(DropUntil(host + path + tail, {'/', '?', '#'}), {'?', '#'}) == path
  {
    var n := host + (path + tail);
    assert n == host + path + tail;
    assert n[|host|] == '/';
    DropUntilAt(n, {'/', '?', '#'}, |host|);
    assert n[|host|..] == path + tail;
    PathBeforeQuery(path, tail);
  }

  /** For `scheme://host/path?query#fragment` with scheme `http` or `https`,
      the path is exactly the text from the first `/` after the host up to
      the query or fragment. */
  lemma UrlPathOfAbsolute(scheme: string, host: string, path: string, tail: string)
    requires scheme == "https" || scheme == "http"
    requires forall j :: 0 <= j < |host| ==> host[j] !in {'/', '?', '#'}
    requires |path| >= 1 && path[0] == '/' && '?' !in path && '#' !in path
    requires tail == [] || tail[0] == '?' || tail[0] == '#'
    ensures UrlPath(scheme + "://" + host + path + tail) == path
  {
    var n := host + path + tail;
    assert scheme + "://" + host + path + tail == scheme + "://" + n;
    SchemeRest(scheme, n);
    PathOfHierarchy(scheme + "://" + n, n);
    NetlocPath(host, path, tail);
  }

  /** After an `http:` or `https:` scheme comes `//` and the rest. */
  lemma SchemeRest(scheme: string, n: string)
    requires scheme == "https" || scheme == "http"
    ensures var url := scheme + "://" + n;
      (StartsWith(url, "https:") && url[6..] == "//" + n) ||
      (!StartsWith(url, "https:") && StartsWith(url, "http:") && url[5..] == "//" + n)
  {
    var url := scheme + "://" + n;
    if scheme == "https" {
      assert url[..6] == "https:";
      assert url[6..] == "//" + n;
    } else {
      assert url[4] == ':' && url[..5] == "http:";
      assert url[5..] == "//" + n;
    }
  }

  /** The path of `scheme://n` is read from the network location on. */
  lemma PathOfHierarchy(url: string, n: string)
    requires (StartsWith(url, "https:") && url[6..] == "//" + n) ||
      (!StartsWith(url, "https:") && StartsWith(url, "http:") && url[5..] == "//" + n)
    ensures UrlPath(url) == TakeUntil(DropUntil(n, {'/', '?', '#'}), {'?', '#'})
  {
    assert ("//" + n)[2..] == n;
  }
}
