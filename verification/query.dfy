/** The query layer of the Flask application (webapp/app.py): which table
    each website key maps to, the list of all bikes with their synthetic ids,
    and the lookup of bikes by those ids. Tables are given as values, so
    reading the files and the web routes stay outside the model. */
module Query {
  import opened Options
  import opened Text

  /** One table row: column name to cell text. */
  type Row = map<string, string>

  /** A table read from one CSV file: its columns and its rows. */
  datatype Frame = Frame(columns: set<string>, rows: seq<Row>)

  /** A cell of a row; a cell the row lacks reads as empty text. */
  function Cell(row: Row, column: string): string {
    if column in row then row[column] else ""
  }

  // ------------------------------------------------------------- website key

  /** The key of a data file `website_YYYYMMDD.csv` or
      `website_region_YYYYMMDD.csv`: with more than two `_`-parts every part
      but the last joined by `_`, otherwise the first part. */
  function WebsiteKey(filename: string): (key: string)
    ensures |key| <= |filename| && key == filename[..|key|]
    ensures '_' !in filename ==> key == filename
    ensures |key| < |filename| ==> filename[|key|] == '_'
  {
    var parts := Split(filename, '_');
    JoinSplit(filename, '_');
    CountZero(filename, '_');
    SplitCount(filename, '_');
    if |parts| == 1 then parts[0]
    else
      SplitTail(filename, '_', 0);
      SplitTail(filename, '_', |parts| - 2);
      assert Join(parts[..1], '_') == parts[0];
      if |parts| > 2 then Join(parts[..|parts| - 1], '_') else parts[0]
  }

  lemma {:induction false} JoinSnoc(parts: seq<string>, last: string, sep: char)
    requires |parts| >= 1
    ensures Join(parts + [last], sep) == Join(parts, sep) + [sep] + last
    decreases |parts|
  {
    if |parts| == 1 {
      assert (parts + [last])[1..] == [last];
    } else {
      assert (parts + [last])[1..] == parts[1..] + [last];
      JoinSnoc(parts[1..], last, sep);
    }
  }

  /** The index a `LastIndex` result names is the only one with `c` there
      and none after it. */
  lemma LastIndexAt(s: string, c: char, k: nat)
    requires k < |s| && s[k] == c && c !in s[k + 1..]
    ensures LastIndex(s, c) == Some(k)
  {
  }

  /** The key is the file name up to its last `_`, or the whole name when it
      has none. */
  lemma WebsiteKeyBeforeLast(filename: string)
    ensures LastIndex(filename, '_').None? ==> WebsiteKey(filename) == filename
    ensures LastIndex(filename, '_').Some? ==>
      WebsiteKey(filename) == filename[..LastIndex(filename, '_').value]
  {
    var parts := Split(filename, '_');
    if |parts| == 1 {
      JoinSplit(filename, '_');
      SplitPartsFree(filename, '_');
    } else {
      HeadBeforeLast(filename);
      if |parts| == 2 {
        assert parts[..1] == [parts[0]];
      }
    }
  }

  /** With at least one `_`, the parts before the last one, joined again,
      are the text up to its last `_`. */
  lemma HeadBeforeLast(filename: string)
    requires |Split(filename, '_')| > 1
    ensures var parts := Split(filename, '_');
      var head := Join(parts[..|parts| - 1], '_');
      LastIndex(filename, '_') == Some(|head|) && filename[..|head|] == head
  {
    var parts := Split(filename, '_');
    JoinSplit(filename, '_');
    SplitPartsFree(filename, '_');
    var init := parts[..|parts| - 1];
    var last := parts[|parts| - 1];
    assert parts == init + [last];
    JoinSnoc(init, last, '_');
    var head := Join(init, '_');
    assert filename == head + ['_'] + last;
    assert filename[|head| + 1..] == last;
    LastIndexAt(filename, '_', |head|);
    assert filename[..|head|] == head;
  }

  /** A file named by the convention `key_date` has key `key`, whatever `_`
      the key itself contains. */
  lemma KeyOfDatedName(key: string, date: string)
    requires '_' !in date
    ensures WebsiteKey(key + "_" + date) == key
  {
    var name := key + "_" + date;
    assert name[|key| + 1..] == date;
    LastIndexAt(name, '_', |key|);
    WebsiteKeyBeforeLast(name);
    assert name[..|key|] == key;
  }

  // ---------------------------------------------------------- get_latest_data

  /** One entry of the `data` dictionary. */
  datatype Entry = Entry(key: string, frame: Frame)

  /** The dictionary's keys, in insertion order. */
  function KeysOf(data: seq<Entry>): (keys: seq<string>)
    ensures |keys| == |data|
    decreases |data|
  {
    if data == [] then [] else [data[0].key] + KeysOf(data[1..])
  }

  /** `data.get(key)`. */
  function Lookup(data: seq<Entry>, key: string): (r: Option<Frame>)
    ensures r.Some? <==> key in KeysOf(data)
    decreases |data|
  {
    if data == [] then None
    else if data[0].key == key then Some(data[0].frame)
    else Lookup(data[1..], key)
  }

  /** `data[key] = frame`: an existing key keeps its place and gets the new
      table; a new key goes last. */
  function Put(data: seq<Entry>, key: string, frame: Frame): (r: seq<Entry>)
    ensures KeysOf(r) == if key in KeysOf(data) then KeysOf(data) else KeysOf(data) + [key]
    ensures Lookup(r, key) == Some(frame)
    ensures forall k :: k != key ==> Lookup(r, k) == Lookup(data, k)
    decreases |data|
  {
    if data == [] then [Entry(key, frame)]
    else if data[0].key == key then [Entry(key, frame)] + data[1..]
    else
      var r := [data[0]] + Put(data[1..], key, frame);
      assert r[1..] == Put(data[1..], key, frame);
      r
  }

  /** The key of every file, in the order the files are listed. */
  function FileKeys(files: seq<(string, Frame)>): (keys: seq<string>)
    ensures |keys| == |files|
  {
    seq(|files|, i requires 0 <= i < |files| => WebsiteKey(files[i].0))
  }

  /** The dictionary after the first `|files|` files. */
  function LatestData(files: seq<(string, Frame)>): seq<Entry>
    decreases |files|
  {
    if files == [] then []
    else
      var last := files[|files| - 1];
      Put(LatestData(files[..|files| - 1]), WebsiteKey(last.0), last.1)
  }

  /** Each key once, at its first occurrence. */
  function FirstOccurrences(keys: seq<string>): (r: seq<string>)
    ensures forall k :: k in r <==> k in keys
    decreases |keys|
  {
    if keys == [] then []
    else
      var prev := FirstOccurrences(keys[..|keys| - 1]);
      var k := keys[|keys| - 1];
      assert keys == keys[..|keys| - 1] + [k];
      if k in prev then prev else prev + [k]
  }

  /** The table of the last file whose key is `key`. */
  function LastFrame(files: seq<(string, Frame)>, key: string): Option<Frame>
    decreases |files|
  {
    if files == [] then None
    else if WebsiteKey(files[|files| - 1].0) == key then Some(files[|files| - 1].1)
    else LastFrame(files[..|files| - 1], key)
  }

  predicate Distinct(keys: seq<string>) {
    forall i, j :: 0 <= i < j < |keys| ==> keys[i] != keys[j]
  }

  lemma {:induction false} FirstOccurrencesDistinct(keys: seq<string>)
    ensures Distinct(FirstOccurrences(keys))
    decreases |keys|
  {
    if keys != [] {
      FirstOccurrencesDistinct(keys[..|keys| - 1]);
    }
  }

  /** `get_latest_data` keeps one entry per distinct key, in the order the
      keys first appear. */
  lemma {:induction false} LatestKeys(files: seq<(string, Frame)>)
    ensures KeysOf(LatestData(files)) == FirstOccurrences(FileKeys(files))
    ensures Distinct(KeysOf(LatestData(files)))
    decreases |files|
  {
    if files != [] {
      var init := files[..|files| - 1];
      LatestKeys(init);
      assert FileKeys(files)[..|files| - 1] == FileKeys(init);
    }
    FirstOccurrencesDistinct(FileKeys(files));
  }

  /** Each key holds the table of the LAST file with that key. */
  lemma {:induction false} LatestFrames(files: seq<(string, Frame)>)
    ensures forall k :: Lookup(LatestData(files), k) == LastFrame(files, k)
    decreases |files|
  {
    if files != [] {
      LatestFrames(files[..|files| - 1]);
    }
  }

  lemma LatestDataStep(files: seq<(string, Frame)>, i: nat)
    requires i < |files|
    ensures LatestData(files[..i + 1]) == Put(LatestData(files[..i]), WebsiteKey(files[i].0), files[i].1)
  {
    assert files[..i + 1][..i] == files[..i];
  }

  /** The loop of `get_latest_data` over the listed files, each given by its
      base name and the table read from it. */
  method GetLatestData(files: seq<(string, Frame)>) returns (data: seq<Entry>)
    ensures data == LatestData(files)
  {
    data := [];
    var i := 0;
    while i < |files|
      invariant 0 <= i <= |files|
      invariant data == LatestData(files[..i])
    {
      var websiteKey := WebsiteKey(files[i].0);
      LatestDataStep(files, i);
      data := Put(data, websiteKey, files[i].1);
      i := i + 1;
    }
    assert files[..i] == files;
  }

  // ------------------------------------------------------------ get_all_bikes

  /** The columns `get_all_bikes` reads with `row[...]`. */
  const Required: set<string> := {"product_id", "language", "name", "website"}

  /** One entry of the `get_all_bikes` list (the image list is not modelled). */
  datatype Summary = Summary(
    id: string, name: string, website: string, price: string,
    productId: string, language: string, websiteKey: string)

  /** The synthetic id `key_productid_language`. */
  function BikeId(key: string, productId: string, language: string): string {
    key + "_" + productId + "_" + language
  }

  function SummaryOf(key: string, columns: set<string>, row: Row): Summary {
    Summary(
      BikeId(key, Cell(row, "product_id"), Cell(row, "language")),
      Cell(row, "name"), Cell(row, "website"),
      if "price" in columns then Cell(row, "price") else "N/A",
      Cell(row, "product_id"), Cell(row, "language"), key)
  }

  function Summaries(key: string, columns: set<string>, rows: seq<Row>): (r: seq<Summary>)
    ensures |r| == |rows|
  {
    seq(|rows|, k requires 0 <= k < |rows| => SummaryOf(key, columns, rows[k]))
  }

  /** A non-empty table lacking a column the loop reads: the first row raises
      `KeyError`. */
  predicate MissingColumns(e: Entry) {
    e.frame.rows != [] && !(Required <= e.frame.columns)
  }

  function Collected(data: seq<Entry>): seq<Summary>
    decreases |data|
  {
    if data == [] then []
    else
      var e := data[|data| - 1];
      Collected(data[..|data| - 1]) + Summaries(e.key, e.frame.columns, e.frame.rows)
  }

  /** `get_all_bikes` over the dictionary: `None` stands for the `KeyError`. */
  function AllBikes(data: seq<Entry>): (r: Option<seq<Summary>>)
    ensures r.None? <==> exists k :: 0 <= k < |data| && MissingColumns(data[k])
    ensures r.Some? ==> |r.value| == TotalRows(data)
    ensures r.Some? ==> forall s :: s in r.value ==> s.websiteKey in KeysOf(data)
    ensures r.Some? ==> forall s :: s in r.value ==> s.id == BikeId(s.websiteKey, s.productId, s.language)
  {
    CollectedSpec(data);
    if exists k :: 0 <= k < |data| && MissingColumns(data[k]) then None
    else Some(Collected(data))
  }

  function TotalRows(data: seq<Entry>): nat
    decreases |data|
  {
    if data == [] then 0 else TotalRows(data[..|data| - 1]) + |data[|data| - 1].frame.rows|
  }

  /** One summary per row of every table, each carrying a key of the
      dictionary and the id `key_productid_language` of its own fields. */
  lemma {:induction false} CollectedSpec(data: seq<Entry>)
    ensures |Collected(data)| == TotalRows(data)
    ensures forall s :: s in Collected(data) ==> s.websiteKey in KeysOf(data)
    ensures forall s :: s in Collected(data) ==> s.id == BikeId(s.websiteKey, s.productId, s.language)
    decreases |data|
  {
    if data != [] {
      var init := data[..|data| - 1];
      var e := data[|data| - 1];
      CollectedSpec(init);
      KeysSnoc(init, e);
      SummariesIds(e.key, e.frame.columns, e.frame.rows);
      assert data == init + [e];
    }
  }

  /** One summary per row. */
  lemma {:induction false} CollectedLength(data: seq<Entry>)
    ensures |Collected(data)| == TotalRows(data)
    decreases |data|
  {
    if data != [] {
      CollectedLength(data[..|data| - 1]);
    }
  }

  /** Every summary of a table carries the table's key and its own id. */
  lemma SummariesIds(key: string, columns: set<string>, rows: seq<Row>)
    ensures forall s :: s in Summaries(key, columns, rows) ==>
      s.websiteKey == key && s.id == BikeId(s.websiteKey, s.productId, s.language)
  {
    forall s | s in Summaries(key, columns, rows)
      ensures s.websiteKey == key && s.id == BikeId(s.websiteKey, s.productId, s.language)
    {
      var k :| 0 <= k < |rows| && Summaries(key, columns, rows)[k] == s;
    }
  }

  /** Row `j` of table `k` gives the entry after the rows of the tables
      before it. */
  lemma {:induction false} CollectedAt(data: seq<Entry>, k: nat, j: nat)
    requires k < |data| && j < |data[k].frame.rows|
    ensures TotalRows(data[..k]) + j < TotalRows(data) == |Collected(data)|
    ensures Collected(data)[TotalRows(data[..k]) + j] ==
      SummaryOf(data[k].key, data[k].frame.columns, data[k].frame.rows[j])
    decreases |data|
  {
    var n := |data| - 1;
    var init := data[..n];
    var e := data[n];
    var tail := Summaries(e.key, e.frame.columns, e.frame.rows);
    assert Collected(data) == Collected(init) + tail;
    assert TotalRows(data) == TotalRows(init) + |e.frame.rows|;
    CollectedLength(init);
    if k == n {
      assert data[..k] == init;
      assert tail[j] == SummaryOf(data[k].key, data[k].frame.columns, data[k].frame.rows[j]);
    } else {
      CollectedAt(init, k, j);
      assert init[..k] == data[..k];
      assert init[k] == data[k];
    }
  }

  /** `get_all_bikes` lists, table by table and row by row, the summary of
      every row: row `j` of table `k` is the entry after the rows of the
      tables before it. */
  lemma AllBikesRow(data: seq<Entry>, k: nat, j: nat)
    requires AllBikes(data).Some?
    requires k < |data| && j < |data[k].frame.rows|
    ensures TotalRows(data[..k]) + j < |AllBikes(data).value|
    ensures AllBikes(data).value[TotalRows(data[..k]) + j] ==
      SummaryOf(data[k].key, data[k].frame.columns, data[k].frame.rows[j])
  {
    CollectedAt(data, k, j);
  }

  lemma {:induction false} KeysSnoc(data: seq<Entry>, e: Entry)
    ensures KeysOf(data + [e]) == KeysOf(data) + [e.key]
    decreases |data|
  {
    if data != [] {
      assert (data + [e])[1..] == data[1..] + [e];
      KeysSnoc(data[1..], e);
    }
  }

  /** The nested loop of `get_all_bikes`. */
  method GetAllBikes(data: seq<Entry>) returns (r: Option<seq<Summary>>)
    ensures r == AllBikes(data)
  {
    var bikes: seq<Summary> := [];
    var i := 0;
    while i < |data|
      invariant 0 <= i <= |data|
      invariant forall k :: 0 <= k < i ==> !MissingColumns(data[k])
      invariant bikes == Collected(data[..i])
    {
      var key := data[i].key;
      var frame := data[i].frame;
      var j := 0;
      while j < |frame.rows|
        invariant 0 <= j <= |frame.rows|
        invariant j > 0 ==> Required <= frame.columns
        invariant bikes == Collected(data[..i]) + Summaries(key, frame.columns, frame.rows[..j])
      {
        if !(Required <= frame.columns) {
          assert MissingColumns(data[i]);
          return None;
        }
        SummariesSnoc(key, frame.columns, frame.rows, j);
        bikes := bikes + [SummaryOf(key, frame.columns, frame.rows[j])];
        j := j + 1;
      }
      assert frame.rows[..j] == frame.rows;
      assert !MissingColumns(data[i]);
      CollectedSnoc(data, i);
      i := i + 1;
    }
    assert data[..i] == data;
    return Some(bikes);
  }

  /** One more row gives one more summary. */
  lemma SummariesSnoc(key: string, columns: set<string>, rows: seq<Row>, j: nat)
    requires j < |rows|
    ensures Summaries(key, columns, rows[..j + 1]) ==
      Summaries(key, columns, rows[..j]) + [SummaryOf(key, columns, rows[j])]
  {
  }

  /** One more entry adds the summaries of its table. */
  lemma CollectedSnoc(data: seq<Entry>, i: nat)
    requires i < |data|
    ensures Collected(data[..i + 1]) ==
      Collected(data[..i]) + Summaries(data[i].key, data[i].frame.columns, data[i].frame.rows)
  {
    assert data[..i + 1][..i] == data[..i];
  }

  // --------------------------------------------------------- get_bike_details

  /** What one requested id contributes: nothing, a row, or a `KeyError`. */
  datatype Outcome = Skip | Found(row: Row) | KeyError

  /** `df[df["product_id"] == productId][... ["language"] == language]` keeps the row. */
  predicate Matches(row: Row, productId: string, language: string) {
    Cell(row, "product_id") == productId && Cell(row, "language") == language
  }

  /** Row `j` matches and no earlier row does: `iloc[0]` of the filtered table. */
  predicate FirstMatchAt(rows: seq<Row>, productId: string, language: string, j: int) {
    0 <= j < |rows| && Matches(rows[j], productId, language) &&
    forall i :: 0 <= i < j ==> !Matches(rows[i], productId, language)
  }

  /** The index of the first row with the product id and the language. */
  function FirstMatch(rows: seq<Row>, productId: string, language: string): (r: Option<nat>)
    ensures r.Some? ==> (r.value < |rows| &&
      Cell(rows[r.value], "product_id") == productId && Cell(rows[r.value], "language") == language)
    ensures r.Some? ==> forall j :: 0 <= j < r.value ==>
      !(Cell(rows[j], "product_id") == productId && Cell(rows[j], "language") == language)
    ensures r.None? ==> forall j :: 0 <= j < |rows| ==>
      !(Cell(rows[j], "product_id") == productId && Cell(rows[j], "language") == language)
    decreases |rows|
  {
    if rows == [] then None
    else if Cell(rows[0], "product_id") == productId && Cell(rows[0], "language") == language then Some(0)
    else match FirstMatch(rows[1..], productId, language)
      case None => None
      case Some(j) => Some(j + 1)
  }

  /** The lookup for one id already split into key, product id and language:
      an unknown key gives nothing, a table without the two filter columns
      raises, otherwise the first matching row with `id` and `website_key`
      set. */
  function Fetch(id: string, key: string, productId: string, language: string, data: seq<Entry>): (o: Outcome)
    ensures o.Found? ==> "id" in o.row && o.row["id"] == id
    ensures o.Found? ==> "website_key" in o.row && o.row["website_key"] == key
    ensures o.KeyError? <==> (Lookup(data, key).Some? &&
      !("product_id" in Lookup(data, key).value.columns && "language" in Lookup(data, key).value.columns))
    ensures Lookup(data, key).None? ==> o == Skip
    ensures Lookup(data, key).Some? && !o.KeyError? ==>
      var rows := Lookup(data, key).value.rows;
      (o.Found? <==> exists j :: 0 <= j < |rows| && Matches(rows[j], productId, language)) &&
      (o.Found? ==> exists j :: FirstMatchAt(rows, productId, language, j) &&
                               o.row == rows[j]["id" := id]["website_key" := key])
  {
    match Lookup(data, key)
    case None => Skip
    case Some(f) =>
      if !("product_id" in f.columns && "language" in f.columns) then KeyError
      else match FirstMatch(f.rows, productId, language)
        case None => Skip
        case Some(j) => Found(f.rows[j]["id" := id]["website_key" := key])
  }

  /** One requested id: fewer than three `_`-parts are skipped; otherwise the
      first three parts are the key, the product id and the language. */
  function DetailOf(id: string, data: seq<Entry>): (o: Outcome)
    ensures |Split(id, '_')| < 3 ==> o == Skip
    ensures o.Found? ==> "id" in o.row && o.row["id"] == id
    ensures o.Found? ==> "website_key" in o.row && o.row["website_key"] == Split(id, '_')[0]
  {
    var parts := Split(id, '_');
    if |parts| < 3 then Skip else Fetch(id, parts[0], parts[1], parts[2], data)
  }

  function Details(ids: seq<string>, data: seq<Entry>): seq<Row>
    decreases |ids|
  {
    if ids == [] then []
    else
      var o := DetailOf(ids[|ids| - 1], data);
      Details(ids[..|ids| - 1], data) + (if o.Found? then [o.row] else [])
  }

  /** `get_bike_details`: `None` stands for the `KeyError`. */
  function BikeDetails(ids: seq<string>, data: seq<Entry>): (r: Option<seq<Row>>)
    ensures r.None? <==> exists k :: 0 <= k < |ids| && DetailOf(ids[k], data).KeyError?
    ensures r.Some? ==> |r.value| <= |ids|
    ensures r.Some? ==> forall k :: 0 <= k < |r.value| ==> "id" in r.value[k] && r.value[k]["id"] in ids
  {
    DetailsInOrder(ids, data);
    if exists k :: 0 <= k < |ids| && DetailOf(ids[k], data).KeyError? then None
    else Some(Details(ids, data))
  }

  /** The positions of the requests that produced a row. */
  function Answered(ids: seq<string>, data: seq<Entry>): seq<nat>
    decreases |ids|
  {
    if ids == [] then []
    else
      Answered(ids[..|ids| - 1], data) +
        (if DetailOf(ids[|ids| - 1], data).Found? then [|ids| - 1] else [])
  }

  /** The results follow the request order, at most one per requested id,
      each carrying the id it was requested by. */
  lemma {:induction false} DetailsInOrder(ids: seq<string>, data: seq<Entry>)
    ensures |Answered(ids, data)| == |Details(ids, data)| <= |ids|
    ensures forall k :: 0 <= k < |Answered(ids, data)| ==> Answered(ids, data)[k] < |ids|
    ensures forall k, l :: 0 <= k < l < |Answered(ids, data)| ==> Answered(ids, data)[k] < Answered(ids, data)[l]
    ensures forall k :: 0 <= k < |Details(ids, data)| ==>
      "id" in Details(ids, data)[k] && Details(ids, data)[k]["id"] == ids[Answered(ids, data)[k]]
    decreases |ids|
  {
    if ids != [] {
      var init := ids[..|ids| - 1];
      DetailsInOrder(init, data);
      forall k | 0 <= k < |Answered(init, data)|
        ensures ids[Answered(init, data)[k]] == init[Answered(init, data)[k]]
      {
      }
    }
  }

  /** The loop of `get_bike_details` over the requested ids. */
  method GetBikeDetails(ids: seq<string>, data: seq<Entry>) returns (r: Option<seq<Row>>)
    ensures r == BikeDetails(ids, data)
  {
    var bikes: seq<Row> := [];
    var i := 0;
    while i < |ids|
      invariant 0 <= i <= |ids|
      invariant forall k :: 0 <= k < i ==> !DetailOf(ids[k], data).KeyError?
      invariant bikes == Details(ids[..i], data)
    {
      var bikeId := ids[i];
      DetailsSnoc(ids, data, i);
      var parts := Split(bikeId, '_');
      if |parts| >= 3 {
        var websiteKey, productId, language := parts[0], parts[1], parts[2];
        var found := Lookup(data, websiteKey);
        if found.Some? {
          var df := found.value;
          if !("product_id" in df.columns && "language" in df.columns) {
            assert DetailOf(ids[i], data).KeyError?;
            return None;
          }
          var first := FirstMatch(df.rows, productId, language);
          if first.Some? {
            bikes := bikes + [df.rows[first.value]["id" := bikeId]["website_key" := websiteKey]];
          }
        }
      }
      i := i + 1;
    }
    assert ids[..i] == ids;
    return Some(bikes);
  }

  /** One more requested id adds its row, when it has one. */
  lemma DetailsSnoc(ids: seq<string>, data: seq<Entry>, i: nat)
    requires i < |ids|
    ensures Details(ids[..i + 1], data) ==
      Details(ids[..i], data) + (if DetailOf(ids[i], data).Found? then [DetailOf(ids[i], data).row] else [])
  {
    assert ids[..i + 1][..i] == ids[..i];
  }

  /** A summary's id splits back into the key, product id and language it
      was built from, provided none of the three contains `_`. */
  lemma IdSplits(key: string, productId: string, language: string)
    requires '_' !in key && '_' !in productId && '_' !in language
    ensures Split(BikeId(key, productId, language), '_') == [key, productId, language]
  {
    assert Join([key, productId, language], '_') == BikeId(key, productId, language) by {
      assert Join([key, productId, language][1..], '_') == productId + "_" + language by {
        assert Join([language], '_') == language;
      }
    }
    SplitJoin([key, productId, language], '_');
  }

  /** Round trip: an id `get_all_bikes` builds for row `j` of the table with
      key `data[k].key` finds that table's first row with the same product id
      and language, when the key is unique in the dictionary, none of the
      three parts contains `_`, and the table has the two filter columns. */
  lemma DetailsFindSummary(data: seq<Entry>, k: nat, j: nat)
    requires Distinct(KeysOf(data))
    requires k < |data| && j < |data[k].frame.rows|
    requires "product_id" in data[k].frame.columns && "language" in data[k].frame.columns
    requires '_' !in data[k].key
    requires '_' !in Cell(data[k].frame.rows[j], "product_id")
    requires '_' !in Cell(data[k].frame.rows[j], "language")
    ensures DetailOf(SummaryOf(data[k].key, data[k].frame.columns, data[k].frame.rows[j]).id, data).Found?
  {
    var e := data[k];
    var row := e.frame.rows[j];
    IdSplits(e.key, Cell(row, "product_id"), Cell(row, "language"));
    LookupAt(data, k);
    var m := FirstMatch(e.frame.rows, Cell(row, "product_id"), Cell(row, "language"));
    assert m.Some?;
  }

  lemma {:induction false} LookupAt(data: seq<Entry>, k: nat)
    requires Distinct(KeysOf(data)) && k < |data|
    ensures Lookup(data, data[k].key) == Some(data[k].frame)
    decreases |data|
  {
    if k > 0 {
      assert KeysOf(data)[0] == data[0].key;
      assert KeysOf(data)[k] == data[k].key by {
        KeysAt(data, k);
      }
      assert Distinct(KeysOf(data[1..])) by {
        forall a, b | 0 <= a < b < |KeysOf(data[1..])|
          ensures KeysOf(data[1..])[a] != KeysOf(data[1..])[b]
        {
          assert KeysOf(data[1..])[a] == KeysOf(data)[a + 1];
          assert KeysOf(data[1..])[b] == KeysOf(data)[b + 1];
        }
      }
      LookupAt(data[1..], k - 1);
    }
  }

  lemma {:induction false} KeysAt(data: seq<Entry>, k: nat)
    requires k < |data|
    ensures KeysOf(data)[k] == data[k].key
    decreases k
  {
    if k > 0 {
      KeysAt(data[1..], k - 1);
    }
  }

  /** A key that itself contains `_`, such as `engwe_us`, is split apart:
      the id built for it is looked up under the key's first part, with the
      key's second part taken as the product id and the product id as the
      language, so it is not found unless that first part is also a key. */
  lemma RegionKeySplitsApart(first: string, region: string, productId: string, language: string, data: seq<Entry>)
    requires '_' !in first && '_' !in region && '_' !in productId && '_' !in language
    ensures DetailOf(BikeId(first + "_" + region, productId, language), data) ==
      Fetch(BikeId(first + "_" + region, productId, language), first, region, productId, data)
    ensures Lookup(data, first).None? ==>
      DetailOf(BikeId(first + "_" + region, productId, language), data) == Skip
  {
    var id := BikeId(first + "_" + region, productId, language);
    var parts := [first, region, productId, language];
    assert Join(parts, '_') == id by {
      assert Join(parts[1..], '_') == region + "_" + productId + "_" + language by {
        assert Join(parts[2..], '_') == productId + "_" + language by {
          assert Join(parts[3..], '_') == language;
        }
      }
    }
    SplitJoin(parts, '_');
  }
}
