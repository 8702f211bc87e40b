/** The bike records the two front-end pages build from CSV rows, and the
    order-preserving filter they both apply to them. The listing page
    (docs/js/main.js) and the comparison page (src/web/js/compare.js) share
    the row normalisation modelled here. */
module Bikes {
  import opened Options
  import opened Text
  import opened Decimals

  /** A row as the CSV parser returns it: header to text. A header the row
      lacks reads as `undefined`. */
  type RawRow = map<string, string>

  /** `JSON.parse` on an image list that starts with `[`: the strings of the
      array, or `None` where it throws. */
  type JsonReader = string -> Option<seq<string>>

  datatype Bike = Bike(
    id: string,
    name: string,
    price: Option<real>,
    description: string,
    website: string,
    manufacturer: string,
    productId: string,
    language: string,
    url: string,
    crawlDate: string,
    battery: string,
    motorType: string,
    maxSpeed: string,
    range: string,
    weight: string,
    maxLoad: string,
    images: seq<string>)

  const UnnamedBike := "Unnamed Bike"

  /** JavaScript `row[key] || fallback`: a missing or empty text is falsy. */
  function Field(row: RawRow, key: string, fallback: string): string {
    if key in row && row[key] != "" then row[key] else fallback
  }

  // ---------------------------------------------------------------- filtering

  /** `bikes.filter(keep)`: the records `keep` accepts, in their order. */
  function Filter(bikes: seq<Bike>, keep: Bike -> bool): (r: seq<Bike>)
    ensures |r| <= |bikes|
    decreases |bikes|
  {
    if bikes == [] then []
    else
      var last := bikes[|bikes| - 1];
      Filter(bikes[..|bikes| - 1], keep) + (if keep(last) then [last] else [])
  }

  /** `r` picks the records of `bikes` at the strictly increasing indices `idx`. */
  predicate PicksAt(r: seq<Bike>, bikes: seq<Bike>, idx: seq<nat>) {
    |idx| == |r| &&
    (forall k :: 0 <= k < |idx| ==> idx[k] < |bikes| && r[k] == bikes[idx[k]]) &&
    (forall k, l :: 0 <= k < l < |idx| ==> idx[k] < idx[l])
  }

  /** `idx` lists, in increasing order, exactly the positions of `bikes` that
      `keep` accepts, and the filtered list holds the records at those positions. */
  predicate FiltersAt(bikes: seq<Bike>, keep: Bike -> bool, idx: seq<nat>) {
    PicksAt(Filter(bikes, keep), bikes, idx) &&
    forall i :: 0 <= i < |bikes| ==> (keep(bikes[i]) <==> i in idx)
  }

  /** The filtered list is a subsequence of the input: its records keep their
      relative order, and exactly the accepted positions are picked. */
  lemma {:induction false} FilterInOrder(bikes: seq<Bike>, keep: Bike -> bool)
    ensures exists idx: seq<nat> :: FiltersAt(bikes, keep, idx)
    decreases |bikes|
  {
    if bikes == [] {
      assert FiltersAt(bikes, keep, []);
    } else {
      var n := |bikes| - 1;
      var init := bikes[..n];
      FilterInOrder(init, keep);
      var idx: seq<nat> :| FiltersAt(init, keep, idx);
      var idx' := if keep(bikes[n]) then idx + [n] else idx;
      PicksStep(Filter(init, keep), bikes, idx, keep);
      AcceptedStep(bikes, idx, keep);
      assert FiltersAt(bikes, keep, idx');
    }
  }

  lemma PicksStep(r: seq<Bike>, bikes: seq<Bike>, idx: seq<nat>, keep: Bike -> bool)
    requires bikes != []
    requires r == Filter(bikes[..|bikes| - 1], keep)
    requires PicksAt(r, bikes[..|bikes| - 1], idx)
    ensures PicksAt(Filter(bikes, keep), bikes, if keep(bikes[|bikes| - 1]) then idx + [|bikes| - 1] else idx)
  {
    if keep(bikes[|bikes| - 1]) {
      PicksSnoc(r, bikes, idx);
    } else {
      PicksWiden(r, bikes, idx);
    }
  }

  lemma AcceptedStep(bikes: seq<Bike>, idx: seq<nat>, keep: Bike -> bool)
    requires bikes != []
    requires forall k :: 0 <= k < |idx| ==> idx[k] < |bikes| - 1
    requires forall i :: 0 <= i < |bikes| - 1 ==> (keep(bikes[i]) <==> i in idx)
    ensures var idx' := if keep(bikes[|bikes| - 1]) then idx + [|bikes| - 1] else idx;
      forall i :: 0 <= i < |bikes| ==> (keep(bikes[i]) <==> i in idx')
  {
    assert |bikes| - 1 !in idx;
  }

  lemma PicksSnoc(r: seq<Bike>, bikes: seq<Bike>, idx: seq<nat>)
    requires bikes != [] && PicksAt(r, bikes[..|bikes| - 1], idx)
    ensures PicksAt(r + [bikes[|bikes| - 1]], bikes, idx + [|bikes| - 1])
  {
    var n := |bikes| - 1;
    assert forall k :: 0 <= k < |idx| ==> bikes[..n][idx[k]] == bikes[idx[k]];
  }

  lemma PicksWiden(r: seq<Bike>, bikes: seq<Bike>, idx: seq<nat>)
    requires bikes != [] && PicksAt(r, bikes[..|bikes| - 1], idx)
    ensures PicksAt(r, bikes, idx)
  {
    var n := |bikes| - 1;
    assert forall k :: 0 <= k < |idx| ==> bikes[..n][idx[k]] == bikes[idx[k]];
  }

  /** A record is in the filtered list exactly when it is in the input and accepted. */
  lemma {:induction false} FilterMembers(bikes: seq<Bike>, keep: Bike -> bool)
    ensures forall b :: b in Filter(bikes, keep) <==> b in bikes && keep(b)
    decreases |bikes|
  {
    if bikes != [] {
      var init := bikes[..|bikes| - 1];
      FilterMembers(init, keep);
      assert bikes == init + [bikes[|bikes| - 1]];
    }
  }

  /** A filter that accepts every record returns the list unchanged. */
  lemma {:induction false} FilterAll(bikes: seq<Bike>, keep: Bike -> bool)
    requires forall i :: 0 <= i < |bikes| ==> keep(bikes[i])
    ensures Filter(bikes, keep) == bikes
    decreases |bikes|
  {
    if bikes != [] {
      var init := bikes[..|bikes| - 1];
      FilterAll(init, keep);
      assert bikes == init + [bikes[|bikes| - 1]];
    }
  }

  // ------------------------------------------------------------- manufacturer

  /** The site names `extractManufacturer` renames, with their brand. */
  const ManufacturerNames: map<string, string> := map[
    "Trek International" := "Trek",
    "Specialized USA" := "Specialized",
    "Cube Bikes" := "Cube",
    "Riese & M\U{00FC}ller" := "Riese & M\U{00FC}ller",
    "Haibike" := "Haibike",
    "Engwe US" := "Engwe",
    "Engwe EU" := "Engwe",
    "Fiido" := "Fiido",
    "Rad Power Bikes (US)" := "Rad Power Bikes",
    "Aventon" := "Aventon",
    "Lectric eBikes" := "Lectric"]

  /** `extractManufacturer(website)`: `Unknown` for a falsy site, the brand of
      a listed site, and the site's own name otherwise. */
  function ExtractManufacturer(website: string): (r: string)
    ensures r != ""
    ensures website == "" ==> r == "Unknown"
    ensures website in ManufacturerNames ==> r == ManufacturerNames[website]
    ensures website != "" && website !in ManufacturerNames ==> r == website
  {
    if website == "" then "Unknown"
    else if website in ManufacturerNames && ManufacturerNames[website] != "" then ManufacturerNames[website]
    else website
  }

  /** Every brand is its own manufacturer: applying the renaming twice changes
      nothing, so the manufacturer filter's options are stable. */
  lemma ManufacturerIdempotent(website: string)
    ensures ExtractManufacturer(ExtractManufacturer(website)) == ExtractManufacturer(website)
  {
    var m := ExtractManufacturer(website);
    assert m in ManufacturerNames ==> ManufacturerNames[m] == m;
  }

  /** Both Engwe storefronts are reported under the single brand `Engwe`. */
  lemma EngweStorefronts()
    ensures ExtractManufacturer("Engwe US") == ExtractManufacturer("Engwe EU") == "Engwe"
  {
  }

  // ------------------------------------------------------------------- images

  /** A non-empty text with no white space at either end. */
  predicate Clean(u: string) {
    u != "" && !IsSpace(u[0]) && !IsSpace(u[|u| - 1])
  }

  /** The non-empty trimmed parts, in order. */
  function TrimmedParts(parts: seq<string>): (r: seq<string>)
    ensures |r| <= |parts|
    ensures forall k :: 0 <= k < |r| ==> Clean(r[k])
    decreases |parts|
  {
    if parts == [] then []
    else
      var t := Trim(parts[0]);
      var rest := TrimmedParts(parts[1..]);
      if t == "" then rest
      else
        CleanCons(t, rest);
        [t] + rest
  }

  lemma CleanCons(t: string, rest: seq<string>)
    requires t == [] || (!IsSpace(t[0]) && !IsSpace(t[|t| - 1]))
    requires t != "" && forall k :: 0 <= k < |rest| ==> Clean(rest[k])
    ensures forall k :: 0 <= k < |[t] + rest| ==> Clean(([t] + rest)[k])
  {
    forall k | 0 <= k < |[t] + rest| ensures Clean(([t] + rest)[k]) {
      if k > 0 {
        assert ([t] + rest)[k] == rest[k - 1];
      }
    }
  }

  /** Parts already trimmed and non-empty pass through unchanged. */
  lemma {:induction false} TrimmedPartsKeep(parts: seq<string>)
    requires forall k :: 0 <= k < |parts| ==> Clean(parts[k])
    ensures TrimmedParts(parts) == parts
    decreases |parts|
  {
    if parts != [] {
      assert Clean(parts[0]);
      TrimKeeps(parts[0]);
      TrimmedPartsKeep(parts[1..]);
      assert parts == [parts[0]] + parts[1..];
    }
  }

  /** No trimmed part holds a character absent from all the parts. */
  lemma {:induction false} TrimmedPartsFree(parts: seq<string>, c: char)
    requires forall k :: 0 <= k < |parts| ==> c !in parts[k]
    ensures forall k :: 0 <= k < |TrimmedParts(parts)| ==> c !in TrimmedParts(parts)[k]
    decreases |parts|
  {
    if parts != [] {
      TrimInside(parts[0]);
      TrimmedPartsFree(parts[1..], c);
    }
  }

  /** The comma branch: `text.split(',').map(trim).filter(img => img)`. */
  function SplitImages(text: string): (r: seq<string>)
  {
    TrimmedParts(Split(text, ','))
  }

  /** Every image URL from the comma branch is non-empty, trimmed and free of commas. */
  lemma SplitImagesShape(text: string)
    ensures forall k :: 0 <= k < |SplitImages(text)| ==>
      Clean(SplitImages(text)[k]) && ',' !in SplitImages(text)[k]
  {
    SplitPartsFree(text, ',');
    TrimmedPartsFree(Split(text, ','), ',');
  }

  /** Joining trimmed, non-empty, comma-free URLs with `,` reads back the same list. */
  lemma SplitImagesJoin(urls: seq<string>)
    requires forall k :: 0 <= k < |urls| ==> Clean(urls[k]) && ',' !in urls[k]
    ensures SplitImages(Join(urls, ',')) == urls
  {
    if urls == [] {
      assert Split("", ',') == [""];
    } else {
      SplitJoin(urls, ',');
      TrimmedPartsKeep(urls);
    }
  }

  /** The `images` field of a row: empty for a falsy text, `JSON.parse` for
      text opening with `[` (the whole text as one URL where it throws), and
      the comma branch otherwise. */
  function ImagesOf(row: RawRow, json: JsonReader): (r: seq<string>)
    ensures Field(row, "images", "") == "" ==> r == []
    ensures var text := Field(row, "images", "");
      text != "" && StartsWith(text, "[") ==>
        r == (if json(text).Some? then json(text).value else [text])
    ensures var text := Field(row, "images", "");
      text != "" && !StartsWith(text, "[") ==>
        r == TrimmedParts(Split(text, ',')) &&
        forall k :: 0 <= k < |r| ==> Clean(r[k]) && ',' !in r[k]
  {
    var text := Field(row, "images", "");
    SplitImagesShape(text);
    if text == "" then []
    else if StartsWith(text, "[") then
      match json(text)
      case Some(urls) => urls
      case None => [text]
    else SplitImages(text)
  }

  // -------------------------------------------------------------------- price

  /** The `price` field: `null` for a missing, empty or `N/A` text; otherwise
      the digits, dots and commas are kept, the commas dropped, and the rest
      read by `parseFloat` (`null` where that is `NaN`). */
  function PriceOf(row: RawRow): (r: Option<real>)
    ensures r.Some? ==> r.value >= 0.0
    ensures var text := Field(row, "price", "");
      text == "" || text == "N/A" ==> r.None?
    ensures var text := Field(row, "price", ""); var c := CleanPrice(text);
      text != "" && text != "N/A" ==>
        (AllDigits(c) && c != "" ==> r == Some(DigitsValue(c) as real)) &&
        (forall k :: DotAt(c, k) && |c| > 1 ==> r == Some(ValueAround(c, k)))
    ensures var text := Field(row, "price", "");
      text != "" && text != "N/A" ==> r == ParseFloat(CleanPrice(text))
  {
    var text := Field(row, "price", "");
    if text == "" || text == "N/A" then None
    else
      var c := CleanPrice(text);
      assert forall k: nat :: DotAt(c, k) ==> Count(c, '.') == 1 by {
        forall k: nat | DotAt(c, k) ensures Count(c, '.') == 1 {
          SplitAtDot(c, k);
          SplitCount(c, '.');
        }
      }
      assert AllDigits(c) ==> Count(c, '.') == 0 by {
        if AllDigits(c) {
          assert '.' !in c by {
            forall i | 0 <= i < |c| ensures c[i] != '.' {
              assert IsDigit(c[i]);
            }
          }
          CountZero(c, '.');
        }
      }
      ParseFloat(c)
  }

  /** A price is read exactly when the text is given, is not `N/A`, and its
      cleaned form holds a digit before any second dot. */
  lemma PriceOfIff(row: RawRow)
    ensures PriceOf(row).Some? <==>
      var text := Field(row, "price", "");
      text != "" && text != "N/A" && HasDigit(UpToSecondDot(CleanPrice(text)))
  {
    var text := Field(row, "price", "");
    if text != "" && text != "N/A" {
      var c := CleanPrice(text);
      var p := UpToSecondDot(c);
      assert AllPriceChars(p) by {
        assert forall i :: 0 <= i < |p| ==> p[i] == c[i];
      }
      ParseDecimalSucceeds(p);
    }
  }

  /** A price written in plain digits is read as that whole number. */
  lemma PriceOfDigits(row: RawRow)
    requires "price" in row && row["price"] != ""
    requires forall i :: 0 <= i < |row["price"]| ==> IsDigit(row["price"][i])
    ensures PriceOf(row) == Some(DigitsValue(row["price"]) as real)
  {
    var d := row["price"];
    assert d != "N/A" by {
      assert !IsDigit(d[0]) || d[0] != 'N';
    }
    ParseDigits(d);
    CleanPriceKeepsPlain(d);
  }

  // ------------------------------------------------------------------ records

  /** The synthetic id `website_productId_language`, with `unknown`, the row's
      position and `en` standing in for missing parts. */
  function IdOf(row: RawRow, index: nat): string {
    Field(row, "website", "unknown") + "_" + Field(row, "product_id", NatToString(index)) + "_" +
      Field(row, "language", "en")
  }

  /** When no part of the id holds `_`, splitting the id on `_` gives back the
      site, the product id (or the row's position) and the language. */
  lemma IdParts(row: RawRow, index: nat)
    requires '_' !in Field(row, "website", "unknown")
    requires '_' !in Field(row, "product_id", NatToString(index))
    requires '_' !in Field(row, "language", "en")
    ensures Split(IdOf(row, index), '_') ==
      [Field(row, "website", "unknown"), Field(row, "product_id", NatToString(index)), Field(row, "language", "en")]
  {
    var parts := [Field(row, "website", "unknown"), Field(row, "product_id", NatToString(index)),
      Field(row, "language", "en")];
    assert Join(parts, '_') == IdOf(row, index) by {
      assert Join(parts[2..], '_') == parts[2];
    }
    SplitJoin(parts, '_');
  }

  /** A row without a product id is identified by its position, which is
      digits only and so never holds `_`. */
  lemma IndexIdFree(index: nat)
    ensures '_' !in NatToString(index)
  {
    var s := NatToString(index);
    forall k | 0 <= k < |s| ensures s[k] != '_' {
      assert IsDigit(s[k]);
    }
  }

  /** One element of `rawData.map(...)`: the normalised record of the row at `index`. */
  function NormalizeRow(row: RawRow, index: nat, json: JsonReader): (b: Bike)
    ensures b.name != "" && b.website != "" && b.language != "" && b.manufacturer != ""
  {
    Bike(
      id := IdOf(row, index),
      name := Field(row, "name", UnnamedBike),
      price := PriceOf(row),
      description := Field(row, "description", ""),
      website := Field(row, "website", "Unknown"),
      manufacturer := ExtractManufacturer(Field(row, "website", "")),
      productId := Field(row, "product_id", ""),
      language := Field(row, "language", "en"),
      url := Field(row, "url", ""),
      crawlDate := Field(row, "crawl_date", ""),
      battery := Field(row, "battery", ""),
      motorType := Field(row, "motor_type", ""),
      maxSpeed := Field(row, "max_speed", ""),
      range := Field(row, "range", ""),
      weight := Field(row, "weight", ""),
      maxLoad := Field(row, "max_load", ""),
      images := ImagesOf(row, json))
  }

  /** The filter `bike.name && bike.name !== 'Unnamed Bike'`. */
  predicate Named(b: Bike) {
    b.name != "" && b.name != UnnamedBike
  }

  /** `rawData.map(normalise)`: one record per row, each knowing its position. */
  function Normalized(rows: seq<RawRow>, json: JsonReader): (all: seq<Bike>)
    ensures |all| == |rows|
    ensures forall i :: 0 <= i < |rows| ==> all[i] == NormalizeRow(rows[i], i, json)
  {
    seq(|rows|, i requires 0 <= i < |rows| => NormalizeRow(rows[i], i, json))
  }

  /** `rawData.map(normalise).filter(named)`. */
  function ProcessRawData(rows: seq<RawRow>, json: JsonReader): (bikes: seq<Bike>)
    ensures |bikes| <= |rows|
    ensures forall k :: 0 <= k < |bikes| ==> Named(bikes[k])
  {
    var bikes := Filter(Normalized(rows, json), Named);
    FilterMembers(Normalized(rows, json), Named);
    bikes
  }

  /** A row is kept exactly when it has a name other than `Unnamed Bike`. */
  predicate KeepsRow(row: RawRow) {
    "name" in row && row["name"] != "" && row["name"] != UnnamedBike
  }

  /** The normalised record passes the name filter exactly when its row is kept. */
  lemma NamedIff(row: RawRow, index: nat, json: JsonReader)
    ensures Named(NormalizeRow(row, index, json)) <==> KeepsRow(row)
  {
  }

  /** The processed list is the subsequence of the normalised rows at exactly
      the kept positions, in row order; so it is never longer than the input. */
  lemma ProcessRawDataRows(rows: seq<RawRow>, json: JsonReader)
    ensures |ProcessRawData(rows, json)| <= |rows|
    ensures exists idx: seq<nat> :: FiltersAt(Normalized(rows, json), Named, idx)
    ensures forall i :: 0 <= i < |rows| ==> (Named(Normalized(rows, json)[i]) <==> KeepsRow(rows[i]))
  {
    FilterInOrder(Normalized(rows, json), Named);
    forall i | 0 <= i < |rows| ensures Named(Normalized(rows, json)[i]) <==> KeepsRow(rows[i]) {
      NamedIff(rows[i], i, json);
    }
  }

  /** Every processed record carries a real name. */
  lemma ProcessRawDataNamed(rows: seq<RawRow>, json: JsonReader)
    ensures forall b :: b in ProcessRawData(rows, json) ==> b.name != "" && b.name != UnnamedBike
  {
    FilterMembers(Normalized(rows, json), Named);
  }
}
