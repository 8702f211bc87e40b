/** Reading one product page (`parse_product_page`, the same in both
    crawler copies except that the crawler/crawler.py copy also stores the
    image list under `original_images`) and naming a downloaded image
    (`get_image_filename`). A page is given as what its selectors find: the
    stripped text of the first element a selector matches and the
    `(src, data-src)` attributes of the elements an image selector matches. */
module ProductPages {
  import opened Options
  import opened Text
  import opened Decimals
  import opened Urls

  /** One matched image element; `""` stands for a missing attribute. */
  datatype ImageElement = ImageElement(src: string, dataSrc: string)

  /** A fetched product page: the text each selector finds first, and the image
      elements each selector finds. A selector missing from a map matches nothing. */
  datatype ProductDocument = ProductDocument(texts: map<string, string>, images: map<string, seq<ImageElement>>)

  /** A value of the product record: text, a parsed price or a list of URLs. */
  datatype FieldValue = Text(text: string) | Number(amount: real) | Urls(urls: seq<string>)

  /** The product dictionary, by key. */
  type Record = map<string, FieldValue>

  /** The fields read as text first, in order. */
  const BasicFields: seq<string> := ["name", "price", "description"]

  /** The specification fields, stored only when their text is not empty. */
  const SpecFields: seq<string> := ["battery", "motor_type", "max_speed", "range", "weight", "max_load"]

  /** `extract_text`: the text of the first match, or `""` when nothing matches. */
  function TextOf(doc: ProductDocument, selector: string): string {
    if selector in doc.texts then doc.texts[selector] else ""
  }

  /** `soup.select(selector)` for an image selector. */
  function ElementsOf(doc: ProductDocument, selector: string): seq<ImageElement> {
    if selector in doc.images then doc.images[selector] else []
  }

  /** The price read from a field's text: digits, dots and commas are kept,
      commas dropped, and the rest read by `float`; `None` where `float` raises. */
  function PriceValue(text: string): Option<real> {
    ParseDecimal(CleanPrice(text))
  }

  /** The price is read exactly when its cleaned text has a digit and at most one dot. */
  lemma PriceParsesIff(text: string)
    ensures AllPriceChars(CleanPrice(text))
    ensures PriceValue(text).Some? <==> HasDigit(CleanPrice(text)) && Count(CleanPrice(text), '.') <= 1
  {
    ParseDecimalSucceeds(CleanPrice(text));
  }

  /** A protocol-relative image URL gets the `https:` scheme. */
  function Normalize(raw: string): (url: string)
    ensures !StartsWith(url, "//")
    ensures raw != "" ==> url != ""
    ensures !StartsWith(raw, "//") ==> url == raw
  {
    if StartsWith(raw, "//") then
      assert ("https:" + raw)[..2] == "ht";
      "https:" + raw
    else raw
  }

  /** One attribute value offered to the image list: kept (normalised) when it
      is not empty and its RAW form is not yet listed. */
  function AddImage(images: seq<string>, raw: string): (r: seq<string>)
    ensures |images| <= |r| <= |images| + 1 && r[..|images|] == images
    ensures |r| == |images| + 1 <==> raw != "" && raw !in images
    ensures |r| == |images| + 1 ==> r[|images|] == Normalize(raw)
  {
    if raw != "" && raw !in images then images + [Normalize(raw)] else images
  }

  /** The image list of a page: for each element, its `src` and then its `data-src`. */
  function CollectImages(elements: seq<ImageElement>): seq<string>
    decreases |elements|
  {
    if elements == [] then []
    else
      var e := elements[|elements| - 1];
      AddImage(AddImage(CollectImages(elements[..|elements| - 1]), e.src), e.dataSrc)
  }

  /** What `parse_product_page` stores under `field`, if anything. */
  function Entry(doc: ProductDocument, selectors: map<string, string>, keepOriginalImages: bool, field: string): Option<FieldValue> {
    if field == "original_images" then
      if keepOriginalImages then Entry(doc, selectors, false, "images") else None
    else if field !in selectors then None
    else if field == "name" || field == "description" then Some(Text(TextOf(doc, selectors[field])))
    else if field == "price" then
      match PriceValue(TextOf(doc, selectors[field]))
      case None => None
      case Some(p) => Some(Number(p))
    else if field in SpecFields then
      if TextOf(doc, selectors[field]) == "" then None else Some(Text(TextOf(doc, selectors[field])))
    else if field == "images" then
      var images := CollectImages(ElementsOf(doc, selectors[field]));
      if images == [] then None else Some(Urls(images))
    else None
  }

  /** Every key `parse_product_page` can store. */
  const RecordKeys: set<string> :=
    {"name", "price", "description", "battery", "motor_type", "max_speed", "range", "weight", "max_load",
     "images", "original_images"}

  /** The record `parse_product_page` returns, as a value. */
  function PageRecord(doc: ProductDocument, selectors: map<string, string>, keepOriginalImages: bool): Record {
    map f | f in RecordKeys && Entry(doc, selectors, keepOriginalImages, f).Some? ::
      Entry(doc, selectors, keepOriginalImages, f).value
  }

  /** `parse_product_page`: the name, price and description fields, then the
      specification fields, then the images; the record holds exactly the
      entries `Entry` describes. `keepOriginalImages` is true for the
      crawler/crawler.py copy. */
  method ParseProductPage(doc: ProductDocument, selectors: map<string, string>, keepOriginalImages: bool)
    returns (record: Record)
    ensures forall f :: f in record <==> Entry(doc, selectors, keepOriginalImages, f).Some?
    ensures forall f :: f in record ==> record[f] == Entry(doc, selectors, keepOriginalImages, f).value
  {
    record := StoreBasicFields(doc, selectors, keepOriginalImages);
    record := StoreSpecFields(doc, selectors, keepOriginalImages, record);
    ImageEntries(doc, selectors, keepOriginalImages);
    if "images" in selectors {
      var images := ImageList(ElementsOf(doc, selectors["images"]));
      if images != [] {
        record := record["images" := Urls(images)];
        if keepOriginalImages {
          record := record["original_images" := Urls(images)];
        }
      }
    }
  }

  /** The two image entries: the collected list, when the selector is given
      and finds a URL, and the same list again under `original_images` when
      the originals are kept. */
  lemma ImageEntries(doc: ProductDocument, selectors: map<string, string>, keep: bool)
    ensures "images" !in BasicFields && "images" !in SpecFields
    ensures "original_images" !in BasicFields && "original_images" !in SpecFields
    ensures Entry(doc, selectors, keep, "images") ==
      if "images" !in selectors || CollectImages(ElementsOf(doc, selectors["images"])) == [] then None
      else Some(Urls(CollectImages(ElementsOf(doc, selectors["images"]))))
    ensures Entry(doc, selectors, keep, "original_images") ==
      if keep then Entry(doc, selectors, keep, "images") else None
  {
  }

  /** The loop over the name, price and description fields. */
  method StoreBasicFields(doc: ProductDocument, selectors: map<string, string>, keepOriginalImages: bool)
    returns (record: Record)
    ensures forall f :: f in record <==> f in BasicFields && Entry(doc, selectors, keepOriginalImages, f).Some?
    ensures forall f :: f in record ==> record[f] == Entry(doc, selectors, keepOriginalImages, f).value
  {
    record := map[];
    for i := 0 to |BasicFields|
      invariant forall f :: f in record <==> f in BasicFields[..i] && Entry(doc, selectors, keepOriginalImages, f).Some?
      invariant forall f :: f in record ==> record[f] == Entry(doc, selectors, keepOriginalImages, f).value
    {
      var field := BasicFields[i];
      assert BasicFields[..i + 1] == BasicFields[..i] + [field];
      BasicEntry(doc, selectors, keepOriginalImages, field);
      if field in selectors {
        var value := TextOf(doc, selectors[field]);
        if field == "price" {
          var price := ParseDecimal(CleanPrice(value));
          if price.Some? {
            record := record[field := Number(price.value)];
          }
        } else {
          record := record[field := Text(value)];
        }
      }
    }
    assert BasicFields[..|BasicFields|] == BasicFields;
  }

  /** The loop over the specification fields, after the basic ones. */
  method StoreSpecFields(doc: ProductDocument, selectors: map<string, string>, keepOriginalImages: bool, basic: Record)
    returns (record: Record)
    requires forall f :: f in basic <==> f in BasicFields && Entry(doc, selectors, keepOriginalImages, f).Some?
    requires forall f :: f in basic ==> basic[f] == Entry(doc, selectors, keepOriginalImages, f).value
    ensures forall f :: f in record <==>
      (f in BasicFields || f in SpecFields) && Entry(doc, selectors, keepOriginalImages, f).Some?
    ensures forall f :: f in record ==> record[f] == Entry(doc, selectors, keepOriginalImages, f).value
  {
    record := basic;
    for i := 0 to |SpecFields|
      invariant forall f :: f in record <==>
        (f in BasicFields || f in SpecFields[..i]) && Entry(doc, selectors, keepOriginalImages, f).Some?
      invariant forall f :: f in record ==> record[f] == Entry(doc, selectors, keepOriginalImages, f).value
    {
      var field := SpecFields[i];
      assert SpecFields[..i + 1] == SpecFields[..i] + [field];
      SpecEntry(doc, selectors, keepOriginalImages, field);
      if field in selectors {
        var value := TextOf(doc, selectors[field]);
        if value != "" {
          record := record[field := Text(value)];
        }
      }
    }
    assert SpecFields[..|SpecFields|] == SpecFields;
  }

  /** The entry of a basic field: the text of name and description, and the
      price when it parses. */
  lemma BasicEntry(doc: ProductDocument, selectors: map<string, string>, keep: bool, field: string)
    requires field in BasicFields
    ensures field != "price" ==>
      Entry(doc, selectors, keep, field) ==
        if field in selectors then Some(Text(TextOf(doc, selectors[field]))) else None
    ensures field == "price" ==>
      Entry(doc, selectors, keep, field) ==
        if field in selectors && PriceValue(TextOf(doc, selectors[field])).Some?
        then Some(Number(PriceValue(TextOf(doc, selectors[field])).value)) else None
  {
  }

  /** The entry of a specification field: its text, when there is one. */
  lemma SpecEntry(doc: ProductDocument, selectors: map<string, string>, keep: bool, field: string)
    requires field in SpecFields
    ensures field !in BasicFields
    ensures Entry(doc, selectors, keep, field) ==
      if field !in selectors || TextOf(doc, selectors[field]) == "" then None
      else Some(Text(TextOf(doc, selectors[field])))
  {
  }

  /** A record holding exactly the described entries is `PageRecord`. */
  lemma RecordOfEntries(record: Record, doc: ProductDocument, selectors: map<string, string>, keep: bool)
    requires forall f :: f in record <==> Entry(doc, selectors, keep, f).Some?
    requires forall f :: f in record ==> record[f] == Entry(doc, selectors, keep, f).value
    ensures record == PageRecord(doc, selectors, keep)
  {
    forall f | Entry(doc, selectors, keep, f).Some? ensures f in RecordKeys {
      KnownKeys(doc, selectors, keep, f);
    }
  }

  /** The image loop of `parse_product_page`. */
  method ImageList(elements: seq<ImageElement>) returns (images: seq<string>)
    ensures images == CollectImages(elements)
  {
    images := [];
    for i := 0 to |elements|
      invariant images == CollectImages(elements[..i])
    {
      var img := elements[i];
      assert elements[..i + 1][..i] == elements[..i];
      var src := img.src;
      if src != "" && src !in images {
        if StartsWith(src, "//") {
          src := "https:" + src;
        }
        images := images + [src];
      }
      var dataSrc := img.dataSrc;
      if dataSrc != "" && dataSrc !in images {
        if StartsWith(dataSrc, "//") {
          dataSrc := "https:" + dataSrc;
        }
        images := images + [dataSrc];
      }
    }
    assert elements[..|elements|] == elements;
  }

  /** Keys outside the selectors never appear, apart from `original_images`,
      which follows `images`. */
  lemma UnselectedAbsent(doc: ProductDocument, selectors: map<string, string>, keep: bool, field: string)
    requires field !in selectors && field != "original_images"
    ensures Entry(doc, selectors, keep, field).None?
  {
  }

  /** Only the known keys are ever stored. */
  lemma KnownKeys(doc: ProductDocument, selectors: map<string, string>, keep: bool, field: string)
    requires Entry(doc, selectors, keep, field).Some?
    ensures field in BasicFields || field in SpecFields || field == "images" || field == "original_images"
  {
  }

  /** The name and the description are stored whenever selected, even when empty. */
  lemma TextFieldsAlwaysStored(doc: ProductDocument, selectors: map<string, string>, keep: bool, field: string)
    requires field == "name" || field == "description"
    ensures Entry(doc, selectors, keep, field).Some? <==> field in selectors
    ensures field in selectors ==> Entry(doc, selectors, keep, field) == Some(Text(TextOf(doc, selectors[field])))
  {
  }

  /** The price is stored exactly when it is selected and its cleaned text
      has a digit and at most one dot. */
  lemma PriceStoredIff(doc: ProductDocument, selectors: map<string, string>, keep: bool)
    ensures Entry(doc, selectors, keep, "price").Some? <==>
      "price" in selectors &&
      HasDigit(CleanPrice(TextOf(doc, selectors["price"]))) && Count(CleanPrice(TextOf(doc, selectors["price"])), '.') <= 1
  {
    if "price" in selectors {
      PriceParsesIff(TextOf(doc, selectors["price"]));
    }
  }

  /** A specification field is stored exactly when it is selected and its text is not empty. */
  lemma SpecStoredIff(doc: ProductDocument, selectors: map<string, string>, keep: bool, field: string)
    requires field in SpecFields
    ensures Entry(doc, selectors, keep, field).Some? <==> field in selectors && TextOf(doc, selectors[field]) != ""
  {
  }

  /** `images` and `original_images` are both absent or equal in the copy that
      keeps both; the other copy never stores `original_images`. */
  lemma OriginalImagesMirror(doc: ProductDocument, selectors: map<string, string>, keep: bool)
    ensures keep ==> Entry(doc, selectors, keep, "original_images") == Entry(doc, selectors, keep, "images")
    ensures !keep ==> Entry(doc, selectors, keep, "original_images").None?
  {
  }

  /** Every stored image URL is non-empty and none is protocol-relative. */
  lemma {:induction false} ImagesNotRelative(elements: seq<ImageElement>)
    ensures forall k :: 0 <= k < |CollectImages(elements)| ==>
      CollectImages(elements)[k] != "" && !StartsWith(CollectImages(elements)[k], "//")
    decreases |elements|
  {
    if elements != [] {
      ImagesNotRelative(elements[..|elements| - 1]);
    }
  }

  /** Every stored image URL is the normalised form of some non-empty
      attribute value of the elements. */
  lemma {:induction false} ImagesNormalised(elements: seq<ImageElement>)
    ensures forall u :: u in CollectImages(elements) ==>
      exists i :: 0 <= i < |elements| &&
        ((elements[i].src != "" && u == Normalize(elements[i].src)) ||
         (elements[i].dataSrc != "" && u == Normalize(elements[i].dataSrc)))
    decreases |elements|
  {
    if elements != [] {
      var init := elements[..|elements| - 1];
      ImagesNormalised(init);
      forall u | u in CollectImages(elements)
        ensures exists i :: (0 <= i < |elements| &&
          ((elements[i].src != "" && u == Normalize(elements[i].src)) ||
           (elements[i].dataSrc != "" && u == Normalize(elements[i].dataSrc))))
      {
        if u in CollectImages(init) {
          var i :| 0 <= i < |init| &&
            ((init[i].src != "" && u == Normalize(init[i].src)) ||
             (init[i].dataSrc != "" && u == Normalize(init[i].dataSrc)));
          assert init[i] == elements[i];
        } else {
          assert elements[|elements| - 1] == elements[|elements| - 1];
        }
      }
    }
  }

  /** No stored URL starts with `//`, so a `//` value is never "already
      listed": every non-empty attribute value ends up in the list in its
      normalised form. */
  lemma {:induction false} ImagesComplete(elements: seq<ImageElement>)
    ensures forall i :: 0 <= i < |elements| && elements[i].src != "" ==>
      Normalize(elements[i].src) in CollectImages(elements)
    ensures forall i :: 0 <= i < |elements| && elements[i].dataSrc != "" ==>
      Normalize(elements[i].dataSrc) in CollectImages(elements)
    decreases |elements|
  {
    if elements != [] {
      var init := elements[..|elements| - 1];
      ImagesComplete(init);
      CollectStep(elements);
      forall i | 0 <= i < |init| ensures init[i] == elements[i] {
      }
    }
  }

  /** The last element keeps every URL listed before it and lists its own
      non-empty values. */
  lemma CollectStep(elements: seq<ImageElement>)
    requires elements != []
    ensures var e := elements[|elements| - 1];
      && (forall u :: u in CollectImages(elements[..|elements| - 1]) ==> u in CollectImages(elements))
      && (e.src != "" ==> Normalize(e.src) in CollectImages(elements))
      && (e.dataSrc != "" ==> Normalize(e.dataSrc) in CollectImages(elements))
  {
    var init := elements[..|elements| - 1];
    ImagesNotRelative(init);
    var e := elements[|elements| - 1];
    var a := AddImage(CollectImages(init), e.src);
    AddImageKeeps(CollectImages(init), e.src);
    AddImageNotRelative(CollectImages(init), e.src);
    AddImageKeeps(a, e.dataSrc);
    assert CollectImages(elements) == AddImage(a, e.dataSrc);
  }

  /** Offering a value to a list without `//` URLs keeps it without them. */
  lemma AddImageNotRelative(images: seq<string>, raw: string)
    requires forall k :: 0 <= k < |images| ==> !StartsWith(images[k], "//")
    ensures forall k :: 0 <= k < |AddImage(images, raw)| ==> !StartsWith(AddImage(images, raw)[k], "//")
  {
  }

  /** Offering a value never removes a listed URL, and a non-empty value's
      normalised form is listed afterwards, provided no listed URL starts with `//`. */
  lemma AddImageKeeps(images: seq<string>, raw: string)
    ensures forall u :: u in images ==> u in AddImage(images, raw)
    ensures raw != "" && (forall k :: 0 <= k < |images| ==> !StartsWith(images[k], "//")) ==>
      Normalize(raw) in AddImage(images, raw)
  {
  }

  /** Without protocol-relative values the list has no duplicates. */
  lemma {:induction false} NoDuplicatesWithoutRelative(elements: seq<ImageElement>)
    requires forall i :: 0 <= i < |elements| ==> !StartsWith(elements[i].src, "//") && !StartsWith(elements[i].dataSrc, "//")
    ensures forall j, k :: 0 <= j < k < |CollectImages(elements)| ==> CollectImages(elements)[j] != CollectImages(elements)[k]
    decreases |elements|
  {
    if elements != [] {
      var init := elements[..|elements| - 1];
      assert forall i :: 0 <= i < |init| ==> init[i] == elements[i];
      NoDuplicatesWithoutRelative(init);
    }
  }

  /** The duplicate check looks at the raw value, so the same protocol-relative
      URL offered twice is listed twice. */
  lemma DuplicateProtocolRelative()
    ensures CollectImages([ImageElement("//x", ""), ImageElement("//x", "")]) == ["https://x", "https://x"]
  {
    var es := [ImageElement("//x", ""), ImageElement("//x", "")];
    assert es[..1] == [ImageElement("//x", "")];
    assert [ImageElement("//x", "")][..0] == [];
    assert StartsWith("//x", "//");
    assert "https:" + "//x" == "https://x";
    assert "//x" !in ["https://x"];
  }

  /** Within one element, `src` is listed before `data-src`. */
  lemma SrcBeforeDataSrc(src: string, dataSrc: string)
    requires src != "" && dataSrc != "" && dataSrc != Normalize(src)
    ensures CollectImages([ImageElement(src, dataSrc)]) == [Normalize(src), Normalize(dataSrc)]
  {
    assert [ImageElement(src, dataSrc)][..0] == [];
  }

  /** The image file extensions kept; anything else becomes `.jpg`. */
  const AllowedExtensions: seq<string> := [".jpg", ".jpeg", ".png", ".webp"]

  /** Where the last path segment starts: after the last `/`, if any. */
  function SegmentStart(path: string): (start: nat)
    ensures start <= |path|
    ensures '/' !in path[start..]
  {
    match LastIndex(path, '/')
    case None => 0
    case Some(sep) => sep + 1
  }

  /** The last path segment: the text after the last `/`. */
  function LastSegment(path: string): (seg: string)
    ensures '/' !in seg && |seg| <= |path| && seg == path[|path| - |seg|..]
    ensures |seg| < |path| ==> path[|path| - |seg| - 1] == '/'
  {
    path[SegmentStart(path)..]
  }

  /** Some character other than `.` comes before a `.` in `seg`. */
  predicate DotAfterName(seg: string) {
    exists k, d :: 0 <= k < d < |seg| && seg[k] != '.' && seg[d] == '.'
  }

  /** Some character other than `.` comes before position `dot`. */
  predicate NameBefore(seg: string, dot: nat) {
    exists k :: 0 <= k < dot && k < |seg| && seg[k] != '.'
  }

  /** `seg[dot]` is the last dot of `seg`. */
  predicate LastDot(seg: string, dot: nat) {
    dot < |seg| && seg[dot] == '.' && '.' !in seg[dot + 1..]
  }

  /** The extension of one path segment: from its last `.`, provided some
      other character comes before that dot, else empty. */
  function SegmentExtension(seg: string): string {
    match LastIndex(seg, '.')
    case None => ""
    case Some(dot) => if NameBefore(seg, dot) then seg[dot..] else ""
  }

  /** `ext` is a suffix of `seg` that starts with its only `.`. */
  predicate DottedSuffix(seg: string, ext: string) {
    |ext| >= 1 && ext[0] == '.' && '.' !in ext[1..] &&
    |ext| <= |seg| && ext == seg[|seg| - |ext|..]
  }

  /** `os.path.splitext(path)[1]`: the last segment's suffix from its last
      `.`, provided some other character comes before that dot, else empty. */
  function Extension(path: string): (ext: string)
    ensures ext == "" <==> !DotAfterName(LastSegment(path))
    ensures ext != "" ==> DottedSuffix(LastSegment(path), ext)
  {
    var seg := LastSegment(path);
    SegmentExtensionSpec(seg);
    SegmentExtension(seg)
  }

  lemma SegmentExtensionSpec(seg: string)
    ensures SegmentExtension(seg) == "" <==> !DotAfterName(seg)
    ensures SegmentExtension(seg) != "" ==> DottedSuffix(seg, SegmentExtension(seg))
  {
    match LastIndex(seg, '.')
    case None =>
      NoDotNoName(seg);
    case Some(dot) =>
      assert LastDot(seg, dot);
      if NameBefore(seg, dot) {
        SuffixAtDot(seg, dot);
      } else {
        OnlyDotsBefore(seg, dot);
      }
  }

  lemma NoDotNoName(seg: string)
    requires '.' !in seg
    ensures !DotAfterName(seg)
  {
  }

  /** The suffix from the last dot, with a name before it, is the extension. */
  lemma SuffixAtDot(seg: string, dot: nat)
    requires LastDot(seg, dot) && NameBefore(seg, dot)
    ensures DotAfterName(seg)
    ensures var ext := seg[dot..];
      ext != "" && ext[0] == '.' && '.' !in ext[1..] && |ext| <= |seg| && ext == seg[|seg| - |ext|..]
  {
    var ext := seg[dot..];
    assert ext[1..] == seg[dot + 1..];
  }

  /** With only dots before the last dot, no name comes before any dot. */
  lemma OnlyDotsBefore(seg: string, dot: nat)
    requires LastDot(seg, dot) && !NameBefore(seg, dot)
    ensures !DotAfterName(seg)
  {
    forall j | dot < j < |seg| ensures seg[j] != '.' {
      assert seg[j] == seg[dot + 1..][j - dot - 1];
    }
  }

  /** The first eight characters of the hex digest (fewer if it is shorter). */
  function Take8(hex: string): (r: string)
    ensures |r| <= 8 && |r| <= |hex| && r == hex[..|r|]
    ensures |hex| >= 8 ==> |r| == 8
  {
    if |hex| <= 8 then hex else hex[..8]
  }

  /** The extension kept for a lower-cased `splitext` suffix: an allowed one
      stays, anything else (the empty suffix included) becomes `.jpg`. */
  function KeptExtension(e: string): (ext: string)
    ensures ext in AllowedExtensions
    ensures e in AllowedExtensions ==> ext == e
    ensures e !in AllowedExtensions ==> ext == ".jpg"
  {
    if e == "" || e !in AllowedExtensions then ".jpg" else e
  }

  /** The extension an image file gets: the lower-cased suffix of the URL's
      path when it is one of the allowed four, and `.jpg` otherwise. */
  function ImageExtension(url: string): (ext: string)
    ensures ext in AllowedExtensions
    ensures Lower(Extension(UrlPath(url))) in AllowedExtensions ==> ext == Lower(Extension(UrlPath(url)))
    ensures Lower(Extension(UrlPath(url))) !in AllowedExtensions ==> ext == ".jpg"
  {
    KeptExtension(Lower(Extension(UrlPath(url))))
  }

  /** `get_image_filename` (crawler/crawler.py only): the product id with `/`
      made `-`, `_`, eight hex characters of the URL's digest (`md5Hex` is
      the abstract `hashlib.md5(...).hexdigest()`), and the extension. */
  function ImageFilename(url: string, productId: string, md5Hex: string -> string): (name: string)
    ensures var h := Take8(md5Hex(url)); var e := ImageExtension(url);
      && |name| == |productId| + 1 + |h| + |e|
      && name[..|productId|] == ReplaceChar(productId, '/', '-') && name[|productId|] == '_'
      && name[|productId| + 1..|productId| + 1 + |h|] == h
      && name[|name| - |e|..] == e
  {
    var safe := ReplaceChar(productId, '/', '-');
    var h := Take8(md5Hex(url));
    var e := ImageExtension(url);
    NameParts(safe, h, e);
    safe + "_" + h + e
  }

  /** Where the parts of a file name sit in it. */
  lemma NameParts(safe: string, hash: string, e: string)
    ensures var name := safe + "_" + hash + e;
      && |name| == |safe| + 1 + |hash| + |e|
      && name[..|safe|] == safe && name[|safe|] == '_'
      && name[|safe| + 1..|safe| + 1 + |hash|] == hash
      && name[|name| - |e|..] == e
  {
  }

  /** Two image URLs of one product whose digests differ in their first
      eight characters get different file names. */
  lemma ImageFilenameDistinct(url1: string, url2: string, productId: string, md5Hex: string -> string)
    requires |md5Hex(url1)| >= 8 && |md5Hex(url2)| >= 8
    requires md5Hex(url1)[..8] != md5Hex(url2)[..8]
    ensures ImageFilename(url1, productId, md5Hex) != ImageFilename(url2, productId, md5Hex)
  {
    var head := ReplaceChar(productId, '/', '-') + "_";
    var n1 := ImageFilename(url1, productId, md5Hex);
    var n2 := ImageFilename(url2, productId, md5Hex);
    assert n1[|head|..|head| + 8] == md5Hex(url1)[..8];
    assert n2[|head|..|head| + 8] == md5Hex(url2)[..8];
  }

  /** A file name is flat (no `/`) when the digest has none, and it is the
      safe id, `_`, the digest prefix and the image extension of the URL. */
  lemma ImageFilenameShape(url: string, productId: string, md5Hex: string -> string)
    requires '/' !in md5Hex(url)
    ensures '/' !in ImageFilename(url, productId, md5Hex)
    ensures ImageFilename(url, productId, md5Hex) ==
      ReplaceChar(productId, '/', '-') + "_" + Take8(md5Hex(url)) + ImageExtension(url)
  {
    var safe := ReplaceChar(productId, '/', '-');
    var h := Take8(md5Hex(url));
    var e := ImageExtension(url);
    assert ImageFilename(url, productId, md5Hex) == safe + "_" + h + e;
    FlatName(productId, md5Hex(url), e);
  }

  /** The parts of a file name carry no `/` when the digest has none. */
  lemma FlatName(productId: string, hex: string, e: string)
    requires '/' !in hex && e in AllowedExtensions
    ensures '/' !in ReplaceChar(productId, '/', '-') + "_" + Take8(hex) + e
  {
    var safe := ReplaceChar(productId, '/', '-');
    var h := Take8(hex);
    assert '/' !in safe by {
      forall k | 0 <= k < |safe| ensures safe[k] != '/' {
      }
    }
    assert '/' !in h by {
      forall k | 0 <= k < |h| ensures h[k] != '/' {
        assert h[k] == hex[k];
      }
    }
    AllowedFlat(e);
  }

  lemma AllowedFlat(e: string)
    requires e in AllowedExtensions
    ensures '/' !in e
  {
  }
}
