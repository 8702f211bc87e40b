# E-bike scraper and comparison site: a Dafny model

The repository crawls e-bike manufacturers' web shops and publishes what it
finds. It has two crawler copies. `crawler/crawler.py` is the scheduled
crawler. `src/crawlers/crawler.py` is the GitHub Actions copy, which is
capped at 5 listing pages and 10 products and does not keep
`original_images`. A crawl works in three steps:

- it walks each shop's listing pages and collects the product ids found in
  the product links;
- it visits every product page once per configured language;
- it turns each page into a flat record of text fields, a price and image
  URLs.

The records are written to CSV files. Three front ends read them back:

- the static listing page (`docs/js/main.js` with `docs/js/csv-parser.js`)
  filters, sorts and paginates the bikes;
- the comparison page (`src/web/js/compare.js`) lets a visitor pick up to
  four bikes;
- the Flask application (`webapp/app.py`) answers "all bikes" and "these
  bikes" queries over the latest CSV file of each shop.

The model has these modules:

- `Options`: an `Option` type.
- `Text`: the string library operations the sources rely on:
  - `split` / `join`;
  - `strip` / `rstrip`;
  - `index` and `lastIndexOf`;
  - JavaScript `trim` and `toLowerCase`;
  - `replace`;
  - decimal rendering.
- `Decimals`: price cleaning, plus Python `float`, JavaScript `parseFloat`
  and `Number` over digit-and-dot text, as exact reals.
- `Urls`: the path component of a URL, and making a link absolute.
- `ProductIds`: `extract_product_id_from_url` and the product URL template.
- `Discovery`: `discover_product_ids`, a method over a map from listing URL
  to listing page.
- `ProductPages`: `parse_product_page` and `get_image_filename`.
- `Crawl`: `crawl_website` for both crawler copies, which differ only in the
  `CrawlerCopy` constants.
- `Csv`: `CSVParser.parseCSV` and `parseCSVLine`.
- `Bikes`: the shared `processRawData` / `extractManufacturer` of both
  pages.
- `ListingPage`: the `EBikeApp` class.
- `ComparePage`: the `EBikeCompare` class.
- `Query`: `get_latest_data`, `get_all_bikes` and `get_bike_details`.

Some operations update state step by step in the sources. These are Dafny
methods with loops, each proved equal to a recursive specification
function:

- the discovery loop;
- the image, basic-field and spec-field collection;
- the product × language crawl loop;
- the CSV scanner and row builder;
- the `checkUrlParams` selection;
- the dictionary built by `get_latest_data`;
- the two query loops.

The two page controllers are classes whose methods update their fields.

Several quirks of the sources are modelled as written and exposed by lemmas:

- image de-duplication compares the raw `src` before the `//` prefix is
  rewritten, so protocol-relative URLs can repeat;
- `checkUrlParams` pushes the same bike twice when an id is repeated;
- `get_bike_details` splits ids on `_`, so a region-qualified website key
  such as `engwe_us` is split apart;
- the listing filter lets bikes without a price (or with price 0) through
  any price range.

## Model

| member | source | states |
|---|---|---|
| Text.SplitCount | crawler/crawler.py:151 | splitting on a separator yields one more part than the separator occurs |
| Text.SplitPartsFree | crawler/crawler.py:151 | no part produced by a split contains the separator |
| Text.JoinSplit | webapp/app.py:50-52 | joining the parts of a split with the same separator gives back the original text |
| Text.SplitJoin | webapp/app.py:123-129 | splitting a join of separator-free parts gives back exactly those parts |
| Text.RStrip | crawler/crawler.py:115-116 | `rstrip(c)` removes exactly the trailing run of `c`: the result is a prefix, does not end in `c`, and everything removed was `c` |
| Text.LStrip | crawler/crawler.py:151 | `lstrip(c)` removes exactly the leading run of `c` |
| Text.Strip | crawler/crawler.py:151 | `strip(c)` removes exactly the leading and the trailing runs of `c`: the result is a slice of the input with only `c` around it, and neither starts nor ends with `c` |
| Text.FindFrom | crawler/crawler.py:138-139 | a found position is an occurrence at or after the start with none earlier; no result means no occurrence at all |
| Text.Find | crawler/crawler.py:138-139 | `str.index` / `in`: the first occurrence of the pattern, or none anywhere |
| Text.FindAt | crawler/crawler.py:139 | an occurrence with no earlier one is what `Find` returns |
| Text.LastIndex | webapp/app.py:50-54 | the last position holding the character (none follow it), or none when it does not occur |
| Text.TrimEnd | docs/js/csv-parser.js:29 | removes exactly the trailing whitespace |
| Text.TrimStart | docs/js/csv-parser.js:29 | removes exactly the leading whitespace |
| Text.Trim | docs/js/csv-parser.js:29 | `trim()` removes exactly the surrounding white space: the result is a slice of the input with only white space around it, and neither starts nor ends with white space |
| Text.TrimBlank | docs/js/csv-parser.js:18 | `trim()` is empty exactly when the line is all whitespace, so the blank-line filter drops exactly those lines |
| Text.TrimInside | docs/js/csv-parser.js:29 | every character of the trimmed text comes from the input |
| Text.TrimKeeps | docs/js/csv-parser.js:29 | text that neither starts nor ends with whitespace is unchanged by `trim()` |
| Text.Lower | docs/js/main.js:225-232 | `toLowerCase` maps each character on its own and keeps the length |
| Text.ReplaceChar | crawler/crawler.py:285 | `replace('/', '-')` changes exactly the occurrences of the character and nothing else |
| Text.ReplaceAllAbsent | crawler/crawler.py:461 | formatting a template without the placeholder leaves it unchanged |
| Text.ReplaceAllTail | crawler/crawler.py:461 | a template whose only placeholder is at its end formats to the text before it followed by the value |
| Text.NatToString | docs/js/main.js:96 | the row index rendered in an id is a run of digits, without a leading zero, whose decimal value is the index |
| Decimals.KeepNumeric | crawler/crawler.py:393 | `re.sub(r'[^\d.,]', '', …)` keeps only digits, dots and commas, keeps each of them as often as the input holds it, and leaves text made only of those unchanged |
| Decimals.DropChar | crawler/crawler.py:395 | `replace(',', '')` removes every comma, keeps every other character as often as the input holds it, and leaves comma-free text unchanged |
| Decimals.CleanPrice | crawler/crawler.py:393-395 | the cleaned price holds only digits and dots, and every digit and dot of the input, as often as the input holds it |
| Decimals.KeepNumericAppend | crawler/crawler.py:393 | the regex filter works piece by piece, so the kept characters stay in input order |
| Decimals.DropCharAppend | crawler/crawler.py:395 | removing commas works piece by piece, so the other characters stay in input order |
| Decimals.CleanPriceSnoc | crawler/crawler.py:393-395 | cleaning is an in-order filter: one more character adds itself exactly when it is a digit or a dot |
| Decimals.CleanPriceKeepsPlain | crawler/crawler.py:393-395 | cleaning text that is already digits and dots does nothing |
| Decimals.ParseDecimal | crawler/crawler.py:395 | `float` reads digits as the whole number they spell, and digits, one dot and digits as that decimal fraction (integer part plus fraction digits over the matching power of ten); never negative |
| Decimals.ParseDecimalSucceeds | crawler/crawler.py:394-398 | `float` of digit-and-dot text succeeds exactly when it has a digit and at most one dot |
| Decimals.UpToSecondDot | docs/js/main.js:119 | the prefix `parseFloat` reads: the whole text when it has at most one dot, else the text before its second dot, which holds exactly one dot |
| Decimals.ParseFloat | docs/js/main.js:119-122 | `parseFloat` gives what `float` gives on text with at most one dot, and on text with more reads only the prefix before the second dot |
| Decimals.ParseFloatStops | docs/js/main.js:119 | `parseFloat` of `whole.frac.rest` is the value of `whole.frac`: everything from the second dot on is ignored |
| Decimals.ParseFloatAgrees | docs/js/main.js:118-121 | on text with at most one dot, JavaScript `parseFloat` and Python `float` give the same price |
| Decimals.JsNumber | docs/js/main.js:217 | `Number` of blank text is 0; otherwise it is a number exactly when the trimmed text is digits and dots with a digit and at most one dot, and then it is what `float` reads from the trimmed text |
| Decimals.DigitsDecimal | crawler/crawler.py:395 | a run of digits parses to its decimal value |
| Decimals.ParseWhole | crawler/crawler.py:395 | dot-free digit text parses to its integer value |
| Decimals.ParseDigits | docs/js/main.js:217 | on a run of digits, `float`, `parseFloat` and `Number` all give its decimal value |
| Decimals.DigitsTrimmed | docs/js/main.js:217 | a run of digits has no surrounding whitespace for `Number` to drop |
| Urls.Absolutize | crawler/crawler.py:232-234 | an `http://` / `https://` link is kept as it is; only other links go through `urljoin` |
| Urls.TakeUntil | crawler/crawler.py:119-120 | the longest prefix free of the stop characters |
| Urls.DropUntil | crawler/crawler.py:119-120 | the suffix starting at the first stop character |
| Urls.UrlPath | crawler/crawler.py:119-120 | the path of a URL never holds a query (`?`) or fragment (`#`) |
| Urls.UrlPathOfAbsolute | crawler/crawler.py:119-120 | the path of `scheme://host/path?query` is exactly `/path` |
| Urls.NetlocPath | crawler/crawler.py:119-120 | after the host, the path runs up to the query or fragment |
| Urls.PathBeforeQuery | crawler/crawler.py:115 | the path ends where the query or fragment starts |
| ProductIds.TemplatePrefix | crawler/crawler.py:129-135 | the text before the first `{product_id}` in the template path, or none when the template has no placeholder |
| ProductIds.PrefixRule | crawler/crawler.py:137-147 | a found id is non-empty, does not end in `/`, and is the rest of the path after the first occurrence of the template prefix, with only `/` after it; when the prefix occurs and no id is found, that rest is all `/` |
| ProductIds.FirstIndex | crawler/crawler.py:156-157 | `list.index`: the first position of the marker, none exactly when it is absent |
| ProductIds.MarkerRule | crawler/crawler.py:154-162 | no id exactly when no marker appears before the last segment; otherwise the id is the segments after the first occurrence of the first qualifying marker, in the order `products`, `bikes`, `p`, joined with `/` |
| ProductIds.QualifyingMarker | crawler/crawler.py:154-162 | when the marker rule finds an id, some marker is the first qualifying one in `products`, `bikes`, `p` order, and the id is the segments after its first occurrence, joined with `/` |
| ProductIds.ProductsBeforeBikes | crawler/crawler.py:154-162 | for the segments `products/bikes/x` the id is `bikes/x`: `products` is tried before `bikes` |
| ProductIds.ExtractProductId | crawler/crawler.py:102-165 | an extracted product id is never empty and never ends in `/` |
| ProductIds.MarkerIdShape | crawler/crawler.py:151-162 | the fallback rule also yields only non-empty ids that do not end in `/` |
| ProductIds.FallbackSegments | crawler/crawler.py:149-162 | when the template rule fails, the id splits into exactly the path segments after the first occurrence of the first qualifying marker |
| ProductIds.MarkerSegments | crawler/crawler.py:151-160 | the marker rule's id splits back into the segments after the first occurrence of the first qualifying marker |
| ProductIds.ExtractByMarker | crawler/crawler.py:149-165 | when the template rule fails, the marker rule alone decides the result |
| ProductIds.NoRuleNoId | crawler/crawler.py:164-165 | when neither rule applies, no id is extracted |
| ProductIds.ExtractByPrefix | crawler/crawler.py:138-147 | when the template rule finds an id, that id is the result |
| ProductIds.FormatTail | crawler/crawler.py:461 | `template.format(product_id=…)` of a template ending in the placeholder appends the id |
| ProductIds.FormatTemplate | crawler/crawler.py:461 | `template.format(product_id=…)` leaves a template without the placeholder unchanged |
| ProductIds.PrefixOfTemplate | crawler/crawler.py:129-135 | the template prefix of `before{product_id}` is `before` |
| ProductIds.PrefixRuleExact | crawler/crawler.py:138-147 | the template rule reads back any id that does not end in `/` from `before` + id |
| ProductIds.TemplatePathOf | crawler/crawler.py:129 | the path of `https://host/before{product_id}` is `/before{product_id}` |
| ProductIds.FormatOfHost | crawler/crawler.py:461 | formatting a template with a placeholder-free host and prefix fills in the id |
| ProductIds.FormattedPath | crawler/crawler.py:115-120 | the path read from a formatted product URL (with any query) is the template prefix followed by the id |
| ProductIds.AbsoluteProductPath | crawler/crawler.py:115-126 | for an absolute URL the relative-link branch is skipped and the path comes from the URL itself |
| ProductIds.ProductPath | crawler/crawler.py:115-126 | the path matched against holds no query or fragment, and for an absolute URL it is the path of the URL cut at `?` and stripped of trailing `/` |
| ProductIds.QueryCut | crawler/crawler.py:115 | cutting at `?` and stripping `/` recovers the product URL without its query |
| ProductIds.TemplateRoundTrip | crawler/crawler.py:102-147 | round trip: extracting the id from the URL the template formats for it (with any query) gives back that id |
| Discovery.LinkId | crawler/crawler.py:226-240 | a link contributes exactly the id extracted from its absolutised `href`, and nothing for an empty `href` or an unreadable URL |
| Discovery.LinkIdsFrom | crawler/crawler.py:226-242 | an id is collected from a page exactly when some link on it yields it |
| Discovery.NextUrl | crawler/crawler.py:244-254 | no next page without a pagination selector or `href`; an absolute `href` is followed as it is |
| Discovery.Trail | crawler/crawler.py:211-258 | the pages walked are at most the page budget, and each was fetched |
| Discovery.DiscoverProductIds | crawler/crawler.py:167-264 | no ids when discovery is not configured; otherwise a duplicate-free list of exactly the ids found on the pages walked |
| Discovery.AddLinkIds | crawler/crawler.py:226-242 | the per-page loop adds exactly the ids of that page's links to the set |
| Discovery.ToList | crawler/crawler.py:264 | `list(product_ids)` holds each id of the set exactly once |
| Discovery.TrailBound | crawler/crawler.py:202-211 | discovery reads at most `max_pages` listing pages |
| Discovery.TrailFollowsNext | crawler/crawler.py:244-258 | the walk starts at the discovery URL and each page is the previous page's next link |
| Discovery.TrailStops | crawler/crawler.py:211-218 | a walk that ends early ends at a missing next link or at a page that could not be fetched |
| Discovery.IdsOnFrom | crawler/crawler.py:211-242 | an id is discovered exactly when some walked page links to it |
| Discovery.DiscoveredFromLinks | crawler/crawler.py:226-240 | an id is discovered exactly when `extract_product_id_from_url` returns it for some non-empty link on a walked page |
| ProductPages.PriceParsesIff | crawler/crawler.py:391-398 | the cleaned price text parses exactly when it has a digit and at most one dot |
| ProductPages.Normalize | crawler/crawler.py:418-419 | a protocol-relative `//…` image URL gets `https:`; other URLs are kept, and none stays protocol-relative |
| ProductPages.AddImage | crawler/crawler.py:416-427 | an attribute value is appended, normalised, exactly when it is non-empty and not already listed; the list so far is kept |
| ProductPages.ParseProductPage | crawler/crawler.py:373-434 | the record holds exactly the fields whose extraction succeeds, each with its extracted value |
| ProductPages.StoreBasicFields | crawler/crawler.py:388-400 | the first loop stores exactly the selected `name`, `description` and parsable `price` |
| ProductPages.StoreSpecFields | crawler/crawler.py:403-407 | the second loop adds exactly the selected, non-empty specification fields |
| ProductPages.ImageList | crawler/crawler.py:410-427 | the image loop computes the list the image rule specifies |
| ProductPages.UnselectedAbsent | crawler/crawler.py:388-410 | a field without a selector is never stored |
| ProductPages.KnownKeys | crawler/crawler.py:385-432 | only the basic, specification and image fields can be stored |
| ProductPages.TextFieldsAlwaysStored | crawler/crawler.py:399-400 | `name` and `description` are stored exactly when selected, even when empty |
| ProductPages.PriceStoredIff | crawler/crawler.py:391-398 | `price` is stored exactly when selected and its cleaned text parses |
| ProductPages.SpecStoredIff | crawler/crawler.py:403-407 | a specification field is stored exactly when selected and its text is non-empty |
| ProductPages.OriginalImagesMirror | crawler/crawler.py:430-432 | the crawler that keeps originals stores `original_images` equal to `images`; the other never stores it |
| ProductPages.ImagesNotRelative | crawler/crawler.py:414-427 | every collected image URL is non-empty and not protocol-relative |
| ProductPages.ImagesNormalised | crawler/crawler.py:414-427 | every collected URL is the normalised `src` or `data-src` of some element |
| ProductPages.ImagesComplete | crawler/crawler.py:414-427 | every non-empty `src` and `data-src` ends up in the list (in normalised form) |
| ProductPages.AddImageKeeps | crawler/crawler.py:417-420 | adding an image never loses one, and adds the new one when the list holds no protocol-relative URL |
| ProductPages.NoDuplicatesWithoutRelative | crawler/crawler.py:417-427 | without protocol-relative URLs the image list has no duplicates |
| ProductPages.DuplicateProtocolRelative | crawler/crawler.py:417-420 | the check runs before `//` is rewritten, so the same protocol-relative `src` on two elements is listed twice |
| ProductPages.SrcBeforeDataSrc | crawler/crawler.py:414-427 | for one element, the `src` comes before a different `data-src` |
| ProductPages.Extension | crawler/crawler.py:280 | `splitext` gives the last segment's suffix from its last dot exactly when some other character comes before a dot in that segment, and empty otherwise |
| ProductPages.SegmentExtensionSpec | crawler/crawler.py:280 | for one path segment: the extension is non-empty exactly when a dot follows some non-dot character, and then it is the suffix starting at the segment's last dot, with no other dot in it |
| ProductPages.Take8 | crawler/crawler.py:288 | `[:8]` takes the first eight characters, or all when fewer |
| ProductPages.KeptExtension | crawler/crawler.py:281-282 | an allowed suffix is kept, and any other suffix, the empty one included, becomes `.jpg` |
| ProductPages.ImageExtension | crawler/crawler.py:278-282 | the extension is one of `.jpg .jpeg .png .webp`: the URL path's own lower-cased `splitext` suffix when it is one of those, and `.jpg` otherwise (no suffix included) |
| ProductPages.ImageFilenameShape | crawler/crawler.py:266-289 | the filename is the id with `/` turned into `-`, `_`, the first 8 hex digits of the hash and the URL's image extension, and holds no `/` |
| ProductPages.ImageFilename | crawler/crawler.py:266-289 | the filename is, position by position, the product id with `/` turned into `-`, then `_`, then the first eight characters of the URL's digest, then the URL's image extension, and nothing else |
| ProductPages.ImageFilenameDistinct | crawler/crawler.py:284-289 | two image URLs of one product whose digests differ in the first 8 characters get different file names |
| Crawl.Limited | src/crawlers/crawler.py:279-282 | the product list is cut to its first `max_products` ids when longer, and kept whole otherwise |
| Crawl.ProductUrl | crawler/crawler.py:461-468 | the default language gets the formatted URL; any other appends `&lang=` when the formatted URL already holds `?`, and `?lang=` otherwise, followed by the language |
| Crawl.DefaultLanguageUrl | crawler/crawler.py:464 | the default language's URL is exactly the formatted template |
| Crawl.ProductUrlRoundTrip | crawler/crawler.py:461-468 | the id extracted from a product URL, in any language, is the id it was built from |
| Crawl.StampFields | crawler/crawler.py:480-485 | the metadata adds exactly the five metadata keys with their values and changes no page field |
| Crawl.PageRecordUnstamped | crawler/crawler.py:385-434 | a parsed page never holds a metadata key, so stamping overwrites nothing |
| Crawl.CrawlWebsite | crawler/crawler.py:436-493 | the records are those of the discovered ids (cut to `max_products`) in every language; empty when discovery cannot start; at most ids × languages records, and at most `max_products` × languages |
| Crawl.CrawlWebsiteFacts | src/crawlers/crawler.py:273-282 | the bounds and the empty case of `crawl_website`, derived from the discovery result |
| Crawl.CrawlProducts | crawler/crawler.py:457-487 | the outer loop concatenates the language records of each id in order |
| Crawl.CrawlLanguages | crawler/crawler.py:458-487 | the inner loop yields the records of the id's languages in order |
| Crawl.CrawlPage | crawler/crawler.py:459-487 | one visit yields the stamped page record, or nothing when the page cannot be fetched |
| Crawl.LanguageBound | crawler/crawler.py:458-487 | one product yields at most one record per language |
| Crawl.CrawlBound | crawler/crawler.py:457-487 | a crawl yields at most ids × languages records |
| Crawl.LanguageComplete | crawler/crawler.py:472-487 | when every language's page is fetched, one product yields exactly one record per language |
| Crawl.CrawlComplete | crawler/crawler.py:457-487 | when every page is fetched, a crawl yields exactly ids × languages records |
| Crawl.LanguageRecordsShape | crawler/crawler.py:478-487 | every record of a product is a stamped page of that product in one of the site's languages |
| Crawl.CrawlRecordsShape | crawler/crawler.py:478-487 | every crawled record is a stamped page of a crawled id in a configured language |
| Crawl.CrawledRecordFields | crawler/crawler.py:480-485 | every record carries the site name, the crawl date and the URL built for its id and language, and lacks `original_images` in the copy that does not keep it |
| Crawl.CopyCaps | src/crawlers/crawler.py:165 | the scheduled crawler reads at most 10 listing pages and keeps every id; the Actions copy reads at most 5 and keeps at most 10 ids |
| Csv.ParseCsvLine | docs/js/csv-parser.js:43-71 | the scanner yields one field more than there are commas outside quotes, and a line without quotes is a plain split on commas |
| Csv.ScanCount | docs/js/csv-parser.js:49-69 | the field count is one more than the commas outside quotes |
| Csv.Scan | docs/js/csv-parser.js:49-69 | the tokenizer keeps the fields already finished and ends with at least one more |
| Csv.ParseLine | docs/js/csv-parser.js:43-71 | a line has one more field than commas outside quotes, and a line without quotes parses as its split on commas |
| Csv.ScanPlain | docs/js/csv-parser.js:60-65 | without quotes the scanner splits on every comma |
| Csv.PlainLine | docs/js/csv-parser.js:43-71 | a line without quotes parses as its split on commas |
| Csv.PlainRoundTrip | docs/js/csv-parser.js:43-71 | fields free of commas and quotes, joined with commas, parse back to themselves |
| Csv.ScanEscaped | docs/js/csv-parser.js:53-59 | inside quotes, a doubled quote reads as one quote, and the closing quote ends the quoted part |
| Csv.ScanQuoted | docs/js/csv-parser.js:49-69 | a comma-joined list of quoted fields scans to those fields |
| Csv.QuotedRoundTrip | docs/js/csv-parser.js:43-71 | any fields, quoted with inner quotes doubled and joined with commas, parse back to themselves |
| Csv.NonBlank | docs/js/csv-parser.js:18 | the kept lines are exactly the lines that are not blank |
| Csv.ParseCsv | docs/js/csv-parser.js:17-36 | fewer than two non-blank lines give no rows; otherwise there are fewer rows than non-blank lines, and they are, in file order, the rows of exactly the data lines with the header's field count |
| Csv.Table | docs/js/csv-parser.js:17-36 | fewer than two non-blank lines give no rows; otherwise there are fewer rows than non-blank lines, and they are, in file order, the rows of exactly the data lines with the header's field count |
| Csv.DataRows | docs/js/csv-parser.js:24-33 | the row loop builds a row from each data line with as many values as there are headers |
| Csv.BuildRow | docs/js/csv-parser.js:27-30 | the row loop builds the row map its specification describes |
| Csv.AlignedWidth | docs/js/csv-parser.js:26 | every kept line has as many values as there are headers |
| Csv.AlignedBound | docs/js/csv-parser.js:24-33 | there are never more rows than data lines |
| Csv.AlignedComplete | docs/js/csv-parser.js:24-33 | every data line becomes a row exactly when all of them have the header count |
| Csv.AlignedInOrder | docs/js/csv-parser.js:24-33 | the kept lines are, in file order, exactly the data lines with the header's field count: each comes from such a line, and every such line is kept |
| Csv.RowsOfAligned | docs/js/csv-parser.js:24-33 | the rows built from the kept lines are, in order, the rows of exactly the data lines with the header's field count |
| Csv.PairsContents | docs/js/csv-parser.js:28-30 | the keys of the map are the headers, and a key takes the value of its last occurrence |
| Csv.RowContents | docs/js/csv-parser.js:28-30 | the row's keys are the trimmed headers; a header that does not repeat later maps to its trimmed value |
| Bikes.Filter | docs/js/main.js:209 | `Array.filter` never lengthens the list |
| Bikes.FilterInOrder | docs/js/main.js:209-240 | the result is the subsequence of exactly the accepted bikes, in their original order |
| Bikes.FilterMembers | docs/js/main.js:209-240 | a bike is in the result exactly when it is in the input and accepted |
| Bikes.FilterAll | docs/js/main.js:209-240 | when every bike is accepted the list is unchanged |
| Bikes.ExtractManufacturer | docs/js/main.js:147-165 | `Unknown` for no website; the mapped brand for a known storefront; the website itself otherwise |
| Bikes.ManufacturerIdempotent | docs/js/main.js:150-164 | mapping a manufacturer name again changes nothing |
| Bikes.EngweStorefronts | docs/js/main.js:156-157 | both Engwe storefronts map to the same manufacturer |
| Bikes.TrimmedParts | docs/js/main.js:107 | trimming and dropping empty parts leaves only non-empty parts without surrounding whitespace |
| Bikes.TrimmedPartsKeep | docs/js/main.js:107 | parts that are already clean are kept as they are |
| Bikes.TrimmedPartsFree | docs/js/main.js:107 | cleaning a list never introduces a character |
| Bikes.SplitImagesShape | docs/js/main.js:107 | the comma-split image list holds only clean, comma-free URLs |
| Bikes.SplitImagesJoin | docs/js/main.js:107 | clean, comma-free URLs joined with commas split back into themselves |
| Bikes.ImagesOf | docs/js/main.js:99-113 | no images text gives no images; text opening with `[` gives the parsed array, or the whole text as one URL where parsing throws; other text gives its comma parts, trimmed, without empty ones, each clean and free of commas |
| Bikes.PriceOf | docs/js/main.js:116-123 | a missing, empty or `N/A` price gives none; otherwise it is what `parseFloat` reads from the cleaned text: digits as their whole number, digits-dot-digits as that fraction, and text with more dots up to its second dot; never negative |
| Bikes.PriceOfIff | docs/js/main.js:116-123 | a price exists exactly when the text is neither empty nor `N/A` and its cleaned `parseFloat` prefix has a digit |
| Bikes.PriceOfDigits | docs/js/main.js:116-123 | a price written as plain digits is read as its decimal value |
| Bikes.IdParts | docs/js/main.js:96 | the id is `website_productId_language` with the documented fallbacks, and splits back into them |
| Bikes.IndexIdFree | docs/js/main.js:96 | the index fallback contains no `_` |
| Bikes.NormalizeRow | docs/js/main.js:94-143 | name, website, language and manufacturer are never empty after normalisation |
| Bikes.NamedIff | docs/js/main.js:127-144 | a normalised row passes the name filter exactly when the row has a name other than `Unnamed Bike` |
| Bikes.ProcessRawDataRows | docs/js/main.js:93-145 | the bikes are, in order, the normalised rows whose name passes, never more than the rows |
| Bikes.ProcessRawDataNamed | docs/js/main.js:144 | no bike in the result is unnamed |
| Bikes.ProcessRawData | docs/js/main.js:93-145 | no more bikes than rows, and every bike kept has a real name |
| ComparePage.IndexOfId | src/web/js/compare.js:292 | `findIndex`: the first position with the id, or none when no bike has it |
| ComparePage.FindBike | src/web/js/compare.js:289 | `find`: a bike from the list with that id, or none when no bike has it |
| ComparePage.FindFirst | src/web/js/compare.js:289-292 | both searches return the first bike with the id |
| ComparePage.SelectionFilter | src/web/js/compare.js:194-214 | filtering never lengthens the list |
| ComparePage.SelectionFilterSpec | src/web/js/compare.js:190-214 | the filtered bikes are the matching ones in order, all of the chosen manufacturer; with no filters every bike stays |
| ComparePage.Grid | src/web/js/compare.js:236-237 | the grid shows a prefix of the filtered bikes, at most 20, and all of them when there are at most 20 |
| ComparePage.Toggled | src/web/js/compare.js:288-300 | toggling never takes the selection above four bikes |
| ComparePage.ToggleUnknown | src/web/js/compare.js:289-290 | an unknown id leaves the selection unchanged |
| ComparePage.ToggleRemoves | src/web/js/compare.js:292-296 | a selected id is removed at its first position, shortening the selection by one |
| ComparePage.ToggleAdds | src/web/js/compare.js:297-300 | an unselected known id is appended while fewer than four are selected, and ignored otherwise |
| ComparePage.ToggleTwice | src/web/js/compare.js:288-300 | toggling the same known, unselected bike twice restores the selection |
| ComparePage.Found | src/web/js/compare.js:423-429 | the bikes found for URL ids are bikes of the page, at most one per id |
| ComparePage.UrlSelectionSpec | src/web/js/compare.js:423-429 | the URL loop appends the found bikes to the selection and stops growing at four |
| ComparePage.UrlSelection | src/web/js/compare.js:423-429 | the URL loop keeps the existing selection as a prefix, adds only bikes of the page, and never grows a selection of at most four beyond four |
| ComparePage.UrlDuplicates | src/web/js/compare.js:423-429 | a repeated id in the URL selects the same bike twice |
| ComparePage.DuplicateStaysSelected | src/web/js/compare.js:292-296 | after that, one toggle removes only one copy, so the bike stays selected |
| ComparePage.EBikeCompare.constructor | src/web/js/compare.js:8-15 | starts with no bikes and no selection, as compare.js sets; the button starts disabled and the comparison hidden, as the page's markup provides |
| ComparePage.EBikeCompare.LoadBikeData | src/web/js/compare.js:44-48 | all bikes and the filtered bikes become the processed rows; the selection is untouched |
| ComparePage.EBikeCompare.ApplyFilters | src/web/js/compare.js:190-217 | the filtered bikes become the bikes matching the manufacturer and the lower-cased search |
| ComparePage.EBikeCompare.UpdateCompareButton | src/web/js/compare.js:332-338 | the button is disabled exactly while fewer than two bikes are selected |
| ComparePage.EBikeCompare.ToggleBike | src/web/js/compare.js:288-305 | the selection becomes the toggled selection, staying within four with the button state in step |
| ComparePage.EBikeCompare.ShowComparison | src/web/js/compare.js:340-353 | the comparison is shown only with at least two bikes selected |
| ComparePage.EBikeCompare.ResetComparison | src/web/js/compare.js:400-415 | clears the selection, hides the comparison and disables the button |
| ComparePage.EBikeCompare.CheckUrlParams | src/web/js/compare.js:417-437 | a non-empty `bikes` parameter appends the found bikes up to four and shows the comparison when two or more are selected; otherwise nothing changes |
| ListingPage.PriceRangeInclusive | docs/js/main.js:216-221 | a priced bike passes a `low-high` range exactly when `low ≤ price ≤ high` |
| ListingPage.PricePasses | docs/js/main.js:216-221 | with no price range, or for a bike without a (non-zero) price, the bike passes |
| ListingPage.ListingFilter | docs/js/main.js:208-240 | filtering never lengthens the list |
| ListingPage.ListingFilterSpec | docs/js/main.js:208-240 | the filtered bikes are the matching ones in order and of the chosen manufacturer; bikes without a price pass any price range; no filters keep every bike |
| ListingPage.PrecedesTotal | docs/js/main.js:249-262 | every sort order compares any two bikes |
| ListingPage.PrecedesTrans | docs/js/main.js:249-262 | every sort order is transitive |
| ListingPage.Insert | docs/js/main.js:249 | insertion adds exactly the one bike |
| ListingPage.SortBikes | docs/js/main.js:248-263 | sorting is a permutation of the bikes |
| ListingPage.SortBikesSorted | docs/js/main.js:248-263 | the sorted list is ordered by the chosen order and is a permutation of the input |
| ListingPage.UnsortedKeepsOrder | docs/js/main.js:259-260 | an unknown sort key (comparator 0) leaves the order unchanged |
| ListingPage.MissingPriceRanks | docs/js/main.js:253-256 | a bike without a price sorts last in both price orders (below 999999, above 0) |
| ListingPage.ResultsSummary | docs/js/main.js:357-365 | the result count is the number of filtered bikes |
| ListingPage.SourcesBound | docs/js/main.js:361-364 | there are never more distinct manufacturers than bikes, and at least one when any bike is shown |
| ListingPage.TotalPages | docs/js/main.js:288 | `Math.ceil(n / 12)`: enough pages for every bike, and no spare page |
| ListingPage.Window | docs/js/main.js:289-297 | a page shows at most 12 bikes |
| ListingPage.WindowHome | docs/js/main.js:287-297 | every bike appears on exactly the page its position gives, at the matching slot |
| ListingPage.WindowSizes | docs/js/main.js:287-297 | every page before the last is full, the last is non-empty, and pages past it are empty |
| ListingPage.PageLinks | docs/js/main.js:378-386 | the links are exactly the pages from `max(1, p-2)` to `min(total, p+2)`: a page is linked iff it exists and lies within two of the current one; at most five, consecutive, the current page among them when it is valid |
| ListingPage.EBikeApp.constructor | docs/js/main.js:9-22 | starts empty on page 1 with no filters and sorted by name |
| ListingPage.EBikeApp.LoadBikeData | docs/js/main.js:51-55 | all bikes and the filtered bikes become the processed rows |
| ListingPage.EBikeApp.SortFiltered | docs/js/main.js:248-263 | the filtered bikes are sorted by the current key |
| ListingPage.EBikeApp.ApplyFilters | docs/js/main.js:208-246 | the filtered bikes become the sorted matches and the page returns to 1 |
| ListingPage.EBikeApp.SetManufacturer | docs/js/main.js:169-172 | the manufacturer filter changes and the list is re-filtered from page 1 |
| ListingPage.EBikeApp.SetPriceRange | docs/js/main.js:174-177 | the price filter changes and the list is re-filtered from page 1 |
| ListingPage.EBikeApp.SetSearch | docs/js/main.js:185-188 | the search filter changes and the list is re-filtered from page 1 |
| ListingPage.EBikeApp.SetSortBy | docs/js/main.js:179-183 | the sort key changes and the filtered list is re-sorted without re-filtering or changing page |
| ListingPage.EBikeApp.ClearFilters | docs/js/main.js:409-421 | with the filters cleared, the filtered list is a sorted permutation of all bikes, from page 1 |
| ListingPage.EBikeApp.DisplayBikes | docs/js/main.js:265-308 | shows the current page's window of at most 12 bikes, nothing when no bike matches, and reports the page count |
| ListingPage.EBikeApp.UpdatePagination | docs/js/main.js:367-392 | the links are the window around the current page; previous is disabled on page 1, next on the last page |
| ListingPage.EBikeApp.ClickPage | docs/js/main.js:395-406 | a click on an enabled link to a page in range moves there; any other click changes nothing |
| Query.WebsiteKeyBeforeLast | webapp/app.py:48-54 | the website key is the file name up to its last `_`, or the whole name without one |
| Query.WebsiteKey | webapp/app.py:48-54 | the website key is a prefix of the file name, followed by `_` when shorter, and the whole name when it has no `_` |
| Query.KeyOfDatedName | webapp/app.py:47-54 | `key_DATE` files give back `key`, even when the key itself holds `_` |
| Query.Lookup | webapp/app.py:131-132 | a key has a table exactly when it is one of the dictionary's keys |
| Query.Put | webapp/app.py:60 | `data[key] = df` replaces the table of an existing key in place or appends a new key, and changes no other key |
| Query.LatestKeys | webapp/app.py:46-63 | the dictionary's keys are the files' website keys in first-seen order, without repeats |
| Query.LatestFrames | webapp/app.py:46-63 | each key holds the table of the last file with that key |
| Query.GetLatestData | webapp/app.py:33-63 | the file loop builds the dictionary the specification describes |
| Query.Summaries | webapp/app.py:76-88 | one summary per row |
| Query.CollectedSpec | webapp/app.py:75-105 | one summary per row of every table, each tagged with a key of the dictionary and carrying the id `key_productid_language` of its own fields |
| Query.AllBikes | webapp/app.py:65-107 | `KeyError` exactly when a non-empty table lacks a required column; otherwise one summary per row, each tagged with a key of the dictionary, with id `key_productid_language` |
| Query.CollectedAt | webapp/app.py:75-105 | row `j` of table `k` gives the summary after the rows of the earlier tables |
| Query.AllBikesRow | webapp/app.py:75-105 | without a `KeyError`, the list holds, table by table and row by row, each row's summary |
| Query.GetAllBikes | webapp/app.py:65-107 | the loops compute the summaries, or the `KeyError` a table without a required column raises |
| Query.FirstMatch | webapp/app.py:134-142 | the first row with the product id and language, or none when no row has both |
| Query.Fetch | webapp/app.py:131-146 | an unknown key is skipped; a table without `product_id` / `language` raises `KeyError`; otherwise a row is found exactly when some row matches, and it is the first matching row with the requested id and website key set |
| Query.DetailOf | webapp/app.py:123-146 | an id with fewer than three `_`-parts is skipped; a found row carries the requested id and the id's first part as website key |
| Query.DetailsInOrder | webapp/app.py:122-163 | the answered rows are at most one per id, in request order, each carrying its requested id |
| Query.GetBikeDetails | webapp/app.py:109-165 | the id loop computes the detail rows, or the `KeyError` a table without the filter columns raises |
| Query.BikeDetails | webapp/app.py:109-165 | `KeyError` exactly when some requested id reaches a table without the filter columns; otherwise at most one row per requested id, each carrying one of the requested ids |
| Query.IdSplits | webapp/app.py:123-129 | an id built from `_`-free parts splits back into those parts |
| Query.DetailsFindSummary | webapp/app.py:123-142 | for a site key without `_`, the id of any summary finds a row again |
| Query.RegionKeySplitsApart | webapp/app.py:123-131 | for a key such as `engwe_us` the id splits at the key's own `_`, so the lookup uses the first half and misses the row |

## Left out

- Network access is not modelled. This covers `get_soup`, `requests`, `time.sleep` and the image download and archive helpers. A listing site is a map from URL to its parsed links and next link, and product pages are a map from URL to their extracted texts and images. A missing key models a failed fetch.
- CSS selector matching (BeautifulSoup `select` / `select_one` / `get_text`) is not modelled: pages arrive as selector-to-result maps.
- `urljoin` and `hashlib.md5` are function parameters rather than implementations, and so is the JSON array reader used for `images` in the pages.
- `urlparse` is reduced to the path rule: after `http(s)://`, the text from the first `/` up to `?` or `#`. Other schemes and relative inputs take the text up to `?` or `#`. The `;params` part of a path is not split off, so for `…/a.png;v=1` the model sees the extension `.png;v=1` (and files the image as `.jpg`) where Python sees `.png`.
- Discovery: the id order of `list(product_ids)` is left open, since Python set order is not specified. `DiscoverProductIds` promises only the set of ids, each once.
- Crawl.CrawlWebsite: one `crawlDate` parameter stands for `datetime.now().isoformat()`, so all records of a crawl share one timestamp. In the source, each record reads the clock anew.
- Python `float` and JavaScript `parseFloat` / `Number` are modelled as exact decimals over text of digits and at most one dot. Floating-point rounding, exponents and signs are not modelled.
- ListingPage.SortBikes: `localeCompare` is replaced by ordinal (code point) order. `Array.prototype.sort` is modelled as a stable insertion sort, which any stable sort agrees with.
- `toLowerCase` and `trim` cover ASCII letters and ASCII whitespace only.
- pandas is not modelled. Tables are column sets and rows of text cells, and a missing cell reads as the empty string. This leaves out dtypes, NaN and its cleanup in the Flask routes, and `to_dict` typing. Summaries do not parse the `images` cell of `get_all_bikes` / `get_bike_details`.
- The file listing of `get_latest_data` is left out: the CSV file names and tables arrive as an ordered list.
- The page loaders are left out: `loadCSV` and its cache, `discoverCSVFiles`, `loadMultipleCSVs` and `loadExistingData`. `LoadBikeData` takes the already-parsed rows.
- DOM rendering is left out: `populateFilters`, `createBikeCard`, `displayBikeSelection` markup, `updateSelectedBikesDisplay`, `generateComparisonTable`, `showError` and scrolling. Only the state the controllers keep is modelled.
- ListingPage.EBikeApp.UpdatePagination: the source registers a new click listener each time it runs. The model handles one click at a time through `ClickPage` and does not model stacked listeners.
- ComparePage.EBikeCompare.constructor: the compare button's first state (disabled) and the hidden comparison come from the page's HTML, which is not part of this model; the constructor takes them as given, so that `Valid()` holds before `updateCompareButton` first runs.
- ComparePage.EBikeCompare.CheckUrlParams: `URLSearchParams` decoding is not modelled. The parameter arrives as decoded text.
- `save_to_csv`, `cleanup_unused_images`, `setup_directories`, `run_crawler`, the scheduler and the Flask routes are I/O around the modelled core and are left out.
- Decimals.JsNumber: signs, exponents, `0x`/`0b`/`0o` prefixes and `Infinity` give `None` (`NaN`) in the model, where JavaScript's `Number` reads them as numbers. Only digit-and-dot text, with at most one dot, is read.
- Decimals.KeepNumeric: Python's `\d` also keeps non-ASCII decimal digits, and `float` reads them; the model keeps ASCII digits only.
- ProductIds.FormatTemplate: only the `{product_id}` field is replaced. `str.format`'s `{{` / `}}` escapes, other fields and the `ValueError` of an unmatched brace are not modelled.
