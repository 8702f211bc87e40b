/** The front end's CSV reader (`CSVParser` in docs/js/csv-parser.js): a
    character-by-character tokenizer for one line with a quoted/unquoted
    flag and `""` escapes, and the table reader that pairs each row with
    the header line. */
module Csv {
  import opened Text

  /** One table row: trimmed header to trimmed value. */
  type Row = map<string, string>

  /** The tokenizer on the rest of the line, in state `inQuotes`, with the
      field read so far and the fields finished so far. */
  function Scan(rest: string, inQuotes: bool, current: string, result: seq<string>): (fields: seq<string>)
    ensures |fields| > |result| && fields[..|result|] == result
    decreases |rest|
  {
    if rest == [] then result + [current]
    else if rest[0] == '"' then
      if inQuotes && |rest| > 1 && rest[1] == '"' then Scan(rest[2..], inQuotes, current + "\"", result)
      else Scan(rest[1..], !inQuotes, current, result)
    else if rest[0] == ',' && !inQuotes then Scan(rest[1..], inQuotes, "", result + [current])
    else Scan(rest[1..], inQuotes, current + [rest[0]], result)
  }

  /** The fields of a line. */
  function ParseLine(line: string): (fields: seq<string>)
    ensures |fields| == 1 + OutsideCommas(line, false)
    ensures '"' !in line ==> fields == Split(line, ',')
  {
    ScanCount(line, false, "", []);
    assert '"' !in line ==> Scan(line, false, "", []) == Split(line, ',') by {
      if '"' !in line {
        ScanPlain(line, "", []);
        PrependEmpty(Split(line, ','));
      }
    }
    Scan(line, false, "", [])
  }

  /** The commas of `s` outside quotes, counting every `"` as a toggle of the
      quoted state `inQuotes`. */
  function OutsideCommas(s: string, inQuotes: bool): nat
    decreases |s|
  {
    if s == [] then 0
    else (if s[0] == ',' && !inQuotes then 1 else 0) + OutsideCommas(s[1..], if s[0] == '"' then !inQuotes else inQuotes)
  }

  /** `parseCSVLine`. */
  method ParseCsvLine(line: string) returns (result: seq<string>)
    ensures result == ParseLine(line)
    ensures |result| == 1 + OutsideCommas(line, false)
    ensures '"' !in line ==> result == Split(line, ',')
  {
    result := [];
    var current := "";
    var inQuotes := false;
    var i := 0;
    while i < |line|
      invariant i <= |line|
      invariant Scan(line[i..], inQuotes, current, result) == ParseLine(line)
    {
      var c := line[i];
      if c == '"' {
        if inQuotes && i + 1 < |line| && line[i + 1] == '"' {
          current := current + "\"";
          assert line[i..][2..] == line[i + 2..];
          i := i + 2;
          continue;
        }
        inQuotes := !inQuotes;
      } else if c == ',' && !inQuotes {
        result := result + [current];
        current := "";
      } else {
        current := current + [c];
      }
      assert line[i..][1..] == line[i + 1..];
      i := i + 1;
    }
    result := result + [current];
    assert line[..] == line;
    ScanCount(line, false, "", []);
    if '"' !in line {
      ScanPlain(line, "", []);
      PrependEmpty(Split(line, ','));
    }
  }

  lemma PrependEmpty(parts: seq<string>)
    requires |parts| >= 1
    ensures Prepend("", parts) == parts
  {
    assert "" + parts[0] == parts[0];
  }

  lemma PrependTwice(a: string, b: string, parts: seq<string>)
    requires |parts| >= 1
    ensures Prepend(a, Prepend(b, parts)) == Prepend(a + b, parts)
  {
    assert a + (b + parts[0]) == a + b + parts[0];
  }

  /** The tokenizer yields one field more than there are commas outside quotes:
      an escaped `""` inside quotes leaves the quoted state as two toggles would. */
  lemma {:induction false} ScanCount(rest: string, inQuotes: bool, current: string, result: seq<string>)
    ensures |Scan(rest, inQuotes, current, result)| == |result| + 1 + OutsideCommas(rest, inQuotes)
    decreases |rest|
  {
    if rest != [] {
      if rest[0] == '"' {
        if inQuotes && |rest| > 1 && rest[1] == '"' {
          ScanCount(rest[2..], inQuotes, current + "\"", result);
          assert rest[1..][1..] == rest[2..];
        } else {
          ScanCount(rest[1..], !inQuotes, current, result);
        }
      } else if rest[0] == ',' && !inQuotes {
        ScanCount(rest[1..], inQuotes, "", result + [current]);
      } else {
        ScanCount(rest[1..], inQuotes, current + [rest[0]], result);
      }
    }
  }

  /** Without quotes the tokenizer splits at every comma. */
  lemma {:induction false} ScanPlain(rest: string, current: string, result: seq<string>)
    requires '"' !in rest
    ensures Scan(rest, false, current, result) == result + Prepend(current, Split(rest, ','))
    decreases |rest|
  {
    if rest == [] {
      assert current + "" == current;
      assert Prepend(current, Split(rest, ',')) == [current];
    } else {
      var tail := rest[1..];
      assert '"' !in tail by { assert forall j :: 0 <= j < |tail| ==> tail[j] == rest[j + 1]; }
      if rest[0] == ',' {
        ScanPlain(tail, "", result + [current]);
        PlainComma(rest, current, result);
      } else {
        ScanPlain(tail, current + [rest[0]], result);
        PlainChar(rest, current, result);
      }
    }
  }

  /** A comma outside quotes ends the current field. */
  lemma PlainComma(rest: string, current: string, result: seq<string>)
    requires rest != [] && rest[0] == ','
    requires Scan(rest[1..], false, "", result + [current]) == result + [current] + Prepend("", Split(rest[1..], ','))
    ensures Scan(rest, false, current, result) == result + Prepend(current, Split(rest, ','))
  {
    var parts := Split(rest[1..], ',');
    ScanComma(rest, current, result);
    SplitComma(rest);
    CommaStep(current, parts);
    Assoc(result, [current], Prepend("", parts));
  }

  lemma Assoc(a: seq<string>, b: seq<string>, c: seq<string>)
    ensures a + b + c == a + (b + c)
  {
  }

  lemma ScanComma(rest: string, current: string, result: seq<string>)
    requires rest != [] && rest[0] == ','
    ensures Scan(rest, false, current, result) == Scan(rest[1..], false, "", result + [current])
  {
  }

  lemma SplitComma(rest: string)
    requires rest != [] && rest[0] == ','
    ensures Split(rest, ',') == [""] + Split(rest[1..], ',')
  {
  }

  lemma CommaStep(current: string, parts: seq<string>)
    requires |parts| >= 1
    ensures [current] + Prepend("", parts) == Prepend(current, [""] + parts)
  {
    assert current + "" == current;
    assert "" + parts[0] == parts[0];
  }

  /** Any other character outside quotes extends the current field. */
  lemma PlainChar(rest: string, current: string, result: seq<string>)
    requires rest != [] && rest[0] != ',' && rest[0] != '"'
    requires Scan(rest[1..], false, current + [rest[0]], result) == result + Prepend(current + [rest[0]], Split(rest[1..], ','))
    ensures Scan(rest, false, current, result) == result + Prepend(current, Split(rest, ','))
  {
    var parts := Split(rest[1..], ',');
    assert Split(rest, ',') == Prepend([rest[0]], parts);
    PrependTwice(current, [rest[0]], parts);
  }

  /** A line without quotes reads as its comma-separated parts. */
  lemma PlainLine(line: string)
    requires '"' !in line
    ensures ParseLine(line) == Split(line, ',')
  {
    ScanPlain(line, "", []);
    PrependEmpty(Split(line, ','));
  }

  /** Fields free of commas and quotes, joined by commas, read back as themselves. */
  lemma PlainRoundTrip(fields: seq<string>)
    requires |fields| >= 1
    requires forall i :: 0 <= i < |fields| ==> ',' !in fields[i] && '"' !in fields[i]
    ensures ParseLine(Join(fields, ',')) == fields
  {
    JoinFree(fields, ',', '"');
    PlainLine(Join(fields, ','));
    SplitJoin(fields, ',');
  }

  /** Joining parts that avoid a character gives a string that avoids it, unless it is the separator. */
  lemma {:induction false} JoinFree(parts: seq<string>, sep: char, c: char)
    requires c != sep
    requires forall i :: 0 <= i < |parts| ==> c !in parts[i]
    ensures c !in Join(parts, sep)
    decreases |parts|
  {
    if |parts| > 1 {
      JoinFree(parts[1..], sep, c);
    }
  }

  /** A field written inside quotes: every `"` doubled. */
  function Escape(f: string): string
    decreases |f|
  {
    if f == [] then "" else (if f[0] == '"' then "\"\"" else [f[0]]) + Escape(f[1..])
  }

  /** A field written as a quoted CSV value. */
  function Quote(f: string): string {
    "\"" + Escape(f) + "\""
  }

  function QuoteAll(fields: seq<string>): (quoted: seq<string>)
    ensures |quoted| == |fields|
    ensures forall i :: 0 <= i < |fields| ==> quoted[i] == Quote(fields[i])
  {
    seq(|fields|, i requires 0 <= i < |fields| => Quote(fields[i]))
  }

  /** Inside quotes, an escaped field followed by the closing quote is read as the field. */
  lemma {:induction false} ScanEscaped(f: string, tail: string, current: string, result: seq<string>)
    requires tail == [] || tail[0] != '"'
    ensures Scan(Escape(f) + "\"" + tail, true, current, result) == Scan(tail, false, current + f, result)
    decreases |f|
  {
    var s := Escape(f) + "\"" + tail;
    if f == [] {
      assert s == "\"" + tail;
      assert s[1..] == tail;
      assert current + f == current;
    } else {
      ScanEscaped(f[1..], tail, current + (if f[0] == '"' then "\"" else [f[0]]), result);
      var s' := Escape(f[1..]) + "\"" + tail;
      assert current + (if f[0] == '"' then "\"" else [f[0]]) + f[1..] == current + f;
      if f[0] == '"' {
        assert s == "\"\"" + s';
        assert s[2..] == s';
      } else {
        assert s == [f[0]] + s';
        assert s[1..] == s';
      }
    }
  }

  /** Any fields, each written quoted and joined by commas, read back as themselves. */
  lemma {:induction false} QuotedRoundTrip(fields: seq<string>)
    requires |fields| >= 1
    ensures ParseLine(Join(QuoteAll(fields), ',')) == fields
  {
    ScanQuoted(fields, []);
  }

  lemma {:induction false} ScanQuoted(fields: seq<string>, result: seq<string>)
    requires |fields| >= 1
    ensures Scan(Join(QuoteAll(fields), ','), false, "", result) == result + fields
    decreases |fields|
  {
    if |fields| == 1 {
      ScanQuotedLast(fields[0], result);
      assert fields == [fields[0]];
    } else {
      JoinQuoted(fields);
      QuotedFieldStep(fields[0], Join(QuoteAll(fields[1..]), ','), result);
      ScanQuoted(fields[1..], result + [fields[0]]);
      assert result + [fields[0]] + fields[1..] == result + fields;
    }
  }

  /** A single quoted field is read as that field. */
  lemma ScanQuotedLast(f: string, result: seq<string>)
    ensures Scan(Join(QuoteAll([f]), ','), false, "", result) == result + [f]
  {
    var s := Join(QuoteAll([f]), ',');
    assert s == "\"" + (Escape(f) + "\"" + "");
    ScanEscaped(f, "", "", result);
    assert "" + f == f;
  }

  /** The quoted fields joined by commas: the first one, a comma, the rest. */
  lemma JoinQuoted(fields: seq<string>)
    requires |fields| >= 2
    ensures Join(QuoteAll(fields), ',') == "\"" + Escape(fields[0]) + "\"" + ([','] + Join(QuoteAll(fields[1..]), ','))
  {
    assert QuoteAll(fields)[1..] == QuoteAll(fields[1..]);
  }

  /** A quoted field followed by a comma is read as that field, and reading
      goes on after the comma with an empty current field. */
  lemma QuotedFieldStep(f: string, rest: string, result: seq<string>)
    ensures Scan("\"" + Escape(f) + "\"" + ([','] + rest), false, "", result) == Scan(rest, false, "", result + [f])
  {
    var tail := [','] + rest;
    var s := "\"" + Escape(f) + "\"" + tail;
    assert s[1..] == Escape(f) + "\"" + tail;
    ScanEscaped(f, tail, "", result);
    assert "" + f == f;
    assert tail[1..] == rest;
  }

  /** The lines `filter(line => line.trim())` keeps. */
  function NonBlank(lines: seq<string>): (kept: seq<string>)
    ensures |kept| <= |lines|
    ensures forall l :: l in kept <==> l in lines && Trim(l) != ""
    decreases |lines|
  {
    if lines == [] then []
    else
      var init := NonBlank(lines[..|lines| - 1]);
      var last := lines[|lines| - 1];
      assert forall l :: l in lines <==> l in lines[..|lines| - 1] || l == last;
      if Trim(last) != "" then init + [last] else init
  }

  /** The map built by setting `keys[i]` to `vals[i]` in index order. */
  function Pairs(keys: seq<string>, vals: seq<string>): map<string, string>
    requires |keys| == |vals|
    decreases |keys|
  {
    if keys == [] then map[]
    else Pairs(keys[..|keys| - 1], vals[..|vals| - 1])[keys[|keys| - 1] := vals[|vals| - 1]]
  }

  lemma PairsSnoc(keys: seq<string>, vals: seq<string>, n: nat)
    requires |keys| == |vals| && n < |keys|
    ensures Pairs(keys[..n + 1], vals[..n + 1]) == Pairs(keys[..n], vals[..n])[keys[n] := vals[n]]
  {
    assert keys[..n + 1][..n] == keys[..n];
    assert vals[..n + 1][..n] == vals[..n];
  }

  /** Each string trimmed. */
  function Trimmed(xs: seq<string>): (r: seq<string>)
    ensures |r| == |xs|
  {
    seq(|xs|, i requires 0 <= i < |xs| => Trim(xs[i]))
  }

  /** The row of a line: each trimmed header mapped to the trimmed value at
      its position; a repeated header keeps its last value. */
  function RowOf(headers: seq<string>, values: seq<string>): Row
    requires |headers| == |values|
  {
    Pairs(Trimmed(headers), Trimmed(values))
  }

  /** The tokenized lines. */
  function Tokenized(lines: seq<string>): (records: seq<seq<string>>)
    ensures |records| == |lines| && forall i :: 0 <= i < |lines| ==> records[i] == ParseLine(lines[i])
  {
    seq(|lines|, i requires 0 <= i < |lines| => ParseLine(lines[i]))
  }

  /** The tokenized data lines whose field count is the header's, in order. */
  function Aligned(width: nat, records: seq<seq<string>>): seq<seq<string>>
    decreases |records|
  {
    if records == [] then []
    else
      var values := records[|records| - 1];
      Aligned(width, records[..|records| - 1]) + (if |values| == width then [values] else [])
  }

  /** Every line has `width` fields. */
  predicate HasWidth(records: seq<seq<string>>, width: nat) {
    forall k :: 0 <= k < |records| ==> |records[k]| == width
  }

  /** One row per aligned line. */
  function Rows(headers: seq<string>, aligned: seq<seq<string>>): (rows: seq<Row>)
    requires HasWidth(aligned, |headers|)
    ensures |rows| == |aligned|
  {
    seq(|aligned|, k requires 0 <= k < |aligned| => RowOf(headers, aligned[k]))
  }

  /** `rows[k]` is the row of data line `idx[k]`; the positions increase and
      are exactly the data lines with the header's field count. */
  predicate RowsOfLines(rows: seq<Row>, headers: seq<string>, records: seq<seq<string>>, idx: seq<nat>) {
    && |idx| == |rows|
    && (forall k :: 0 <= k < |idx| ==>
          idx[k] < |records| && |records[idx[k]]| == |headers| && rows[k] == RowOf(headers, records[idx[k]]))
    && (forall k, l :: 0 <= k < l < |idx| ==> idx[k] < idx[l])
    && PicksAllOfWidth(records, |headers|, idx)
  }

  /** The table a CSV text holds: with a header and data lines, one row per
      data line of the header's field count, in file order. */
  function Table(csvText: string): (rows: seq<Row>)
    ensures |NonBlank(Split(csvText, '\n'))| < 2 ==> rows == []
    ensures |rows| < |NonBlank(Split(csvText, '\n'))| || rows == []
    ensures var lines := NonBlank(Split(csvText, '\n'));
      |lines| >= 2 ==> exists idx: seq<nat> :: RowsOfLines(rows, ParseLine(lines[0]), Tokenized(lines[1..]), idx)
  {
    var lines := NonBlank(Split(csvText, '\n'));
    if |lines| < 2 then []
    else
      var headers := ParseLine(lines[0]);
      var aligned := Aligned(|headers|, Tokenized(lines[1..]));
      AlignedWidth(|headers|, Tokenized(lines[1..]));
      AlignedBound(|headers|, Tokenized(lines[1..]));
      RowsOfAligned(headers, Tokenized(lines[1..]));
      Rows(headers, aligned)
  }

  /** The rows of the aligned lines are the rows of exactly the lines of the
      header's width, in order. */
  lemma RowsOfAligned(headers: seq<string>, records: seq<seq<string>>)
    ensures HasWidth(Aligned(|headers|, records), |headers|)
    ensures exists idx: seq<nat> :: RowsOfLines(Rows(headers, Aligned(|headers|, records)), headers, records, idx)
  {
    var aligned := Aligned(|headers|, records);
    AlignedWidth(|headers|, records);
    AlignedInOrder(|headers|, records);
    var idx: seq<nat> :| PickedAt(aligned, records, idx) && PicksAllOfWidth(records, |headers|, idx);
    RowsPicked(headers, aligned, records, idx);
  }

  /** Rows built from picked lines are the rows of those lines. */
  lemma RowsPicked(headers: seq<string>, aligned: seq<seq<string>>, records: seq<seq<string>>, idx: seq<nat>)
    requires HasWidth(aligned, |headers|)
    requires PickedAt(aligned, records, idx) && PicksAllOfWidth(records, |headers|, idx)
    ensures RowsOfLines(Rows(headers, aligned), headers, records, idx)
  {
    var rows := Rows(headers, aligned);
    forall k | 0 <= k < |idx|
      ensures idx[k] < |records| && |records[idx[k]]| == |headers| && rows[k] == RowOf(headers, records[idx[k]])
    {
      assert aligned[k] == records[idx[k]];
    }
  }

  /** `parseCSV`. */
  method ParseCsv(csvText: string) returns (data: seq<Row>)
    ensures data == Table(csvText)
    ensures |NonBlank(Split(csvText, '\n'))| < 2 ==> data == []
    ensures |data| < |NonBlank(Split(csvText, '\n'))| || data == []
    ensures var lines := NonBlank(Split(csvText, '\n'));
      |lines| >= 2 ==> exists idx: seq<nat> :: RowsOfLines(data, ParseLine(lines[0]), Tokenized(lines[1..]), idx)
  {
    var lines := NonBlank(Split(csvText, '\n'));
    if |lines| < 2 {
      return [];
    }
    var headers := ParseCsvLine(lines[0]);
    data := DataRows(headers, lines[1..]);
    AlignedBound(|headers|, Tokenized(lines[1..]));
  }

  /** The data-line loop of `parseCSV`. */
  method DataRows(headers: seq<string>, lines: seq<string>) returns (data: seq<Row>)
    ensures HasWidth(Aligned(|headers|, Tokenized(lines)), |headers|)
    ensures data == Rows(headers, Aligned(|headers|, Tokenized(lines)))
  {
    data := [];
    ghost var records := Tokenized(lines);
    for i := 0 to |lines|
      invariant HasWidth(Aligned(|headers|, records[..i]), |headers|)
      invariant data == Rows(headers, Aligned(|headers|, records[..i]))
    {
      var values := ParseCsvLine(lines[i]);
      AlignedSnoc(|headers|, records, i);
      AlignedWidth(|headers|, records[..i + 1]);
      if |values| == |headers| {
        var row := BuildRow(headers, values);
        RowsSnoc(headers, Aligned(|headers|, records[..i]), values);
        data := data + [row];
      }
    }
    assert records[..|lines|] == records;
  }

  /** The `headers.forEach` loop filling one row. */
  method BuildRow(headers: seq<string>, values: seq<string>) returns (row: Row)
    requires |headers| == |values|
    ensures row == RowOf(headers, values)
  {
    row := map[];
    var keys := Trimmed(headers);
    var vals := Trimmed(values);
    for index := 0 to |headers|
      invariant row == Pairs(keys[..index], vals[..index])
    {
      PairsSnoc(keys, vals, index);
      row := row[keys[index] := vals[index]];
    }
    assert keys[..|headers|] == keys;
    assert vals[..|values|] == vals;
  }

  lemma AlignedSnoc(width: nat, records: seq<seq<string>>, n: nat)
    requires n < |records|
    ensures Aligned(width, records[..n + 1]) ==
      Aligned(width, records[..n]) + (if |records[n]| == width then [records[n]] else [])
  {
    assert records[..n + 1][..n] == records[..n];
  }

  lemma RowsSnoc(headers: seq<string>, aligned: seq<seq<string>>, values: seq<string>)
    requires HasWidth(aligned, |headers|) && |values| == |headers|
    ensures HasWidth(aligned + [values], |headers|)
    ensures Rows(headers, aligned + [values]) == Rows(headers, aligned) + [RowOf(headers, values)]
  {
    var longer := aligned + [values];
    assert HasWidth(longer, |headers|);
    assert forall k :: 0 <= k < |aligned| ==> longer[k] == aligned[k];
  }

  /** Aligned lines have the header's field count. */
  lemma {:induction false} AlignedWidth(width: nat, records: seq<seq<string>>)
    ensures HasWidth(Aligned(width, records), width)
    decreases |records|
  {
    if records != [] {
      AlignedWidth(width, records[..|records| - 1]);
    }
  }

  /** At most one row per data line. */
  lemma {:induction false} AlignedBound(width: nat, records: seq<seq<string>>)
    ensures |Aligned(width, records)| <= |records|
    decreases |records|
  {
    if records != [] {
      AlignedBound(width, records[..|records| - 1]);
    }
  }

  /** Every data line gives a row exactly when every line has the header's field count. */
  lemma {:induction false} AlignedComplete(width: nat, records: seq<seq<string>>)
    ensures |Aligned(width, records)| == |records| <==> HasWidth(records, width)
    decreases |records|
  {
    if records != [] {
      var n := |records| - 1;
      var init := records[..n];
      AlignedComplete(width, init);
      AlignedBound(width, init);
      assert forall i :: 0 <= i < n ==> init[i] == records[i];
    }
  }

  /** `rows[k]` is `records[idx[k]]` for increasing positions `idx`. */
  predicate PickedAt(rows: seq<seq<string>>, records: seq<seq<string>>, idx: seq<nat>) {
    |idx| == |rows| &&
    (forall k :: 0 <= k < |idx| ==> idx[k] < |records| && rows[k] == records[idx[k]]) &&
    (forall k, l :: 0 <= k < l < |idx| ==> idx[k] < idx[l])
  }

  /** Every position whose line has `width` fields is among `idx`. */
  predicate PicksAllOfWidth(records: seq<seq<string>>, width: nat, idx: seq<nat>) {
    forall i :: 0 <= i < |records| && |records[i]| == width ==> i in idx
  }

  /** The aligned lines are, in order, exactly the data lines with the
      header's field count: each comes from such a line, and each such line
      is picked. */
  lemma {:induction false} AlignedInOrder(width: nat, records: seq<seq<string>>)
    ensures exists idx: seq<nat> ::
      PickedAt(Aligned(width, records), records, idx) && PicksAllOfWidth(records, width, idx)
    decreases |records|
  {
    if records == [] {
      assert Aligned(width, records) == [];
      assert PickedAt([], records, []) && PicksAllOfWidth(records, width, []);
    } else {
      var n := |records| - 1;
      var init := records[..n];
      AlignedInOrder(width, init);
      var idx: seq<nat> :| PickedAt(Aligned(width, init), init, idx) && PicksAllOfWidth(init, width, idx);
      if |records[n]| == width {
        PickedSnoc(Aligned(width, init), records, idx);
        AllOfWidthSnoc(records, width, idx);
        assert Aligned(width, records) == Aligned(width, init) + [records[n]];
      } else {
        PickedWiden(Aligned(width, init), records, idx);
        AllOfWidthWiden(records, width, idx);
        assert Aligned(width, records) == Aligned(width, init);
      }
    }
  }

  /** A last line of another width adds no position to pick. */
  lemma AllOfWidthWiden(records: seq<seq<string>>, width: nat, idx: seq<nat>)
    requires records != [] && |records[|records| - 1]| != width
    requires PicksAllOfWidth(records[..|records| - 1], width, idx)
    ensures PicksAllOfWidth(records, width, idx)
  {
    var init := records[..|records| - 1];
    forall i | 0 <= i < |records| && |records[i]| == width ensures i in idx {
      assert init[i] == records[i];
    }
  }

  /** A last line of the width is picked by its own position. */
  lemma AllOfWidthSnoc(records: seq<seq<string>>, width: nat, idx: seq<nat>)
    requires records != [] && PicksAllOfWidth(records[..|records| - 1], width, idx)
    ensures PicksAllOfWidth(records, width, idx + [|records| - 1])
  {
    var init := records[..|records| - 1];
    forall i | 0 <= i < |records| && |records[i]| == width ensures i in idx + [|records| - 1] {
      if i < |records| - 1 {
        assert init[i] == records[i];
        assert i in idx;
      }
    }
  }

  /** Positions into all but the last line are positions into all lines. */
  lemma PickedWiden(rows: seq<seq<string>>, records: seq<seq<string>>, idx: seq<nat>)
    requires records != [] && PickedAt(rows, records[..|records| - 1], idx)
    ensures PickedAt(rows, records, idx)
  {
    var init := records[..|records| - 1];
    assert forall k :: 0 <= k < |idx| ==> init[idx[k]] == records[idx[k]];
  }

  /** Taking the last line as one more row extends the positions by it. */
  lemma PickedSnoc(rows: seq<seq<string>>, records: seq<seq<string>>, idx: seq<nat>)
    requires records != [] && PickedAt(rows, records[..|records| - 1], idx)
    ensures PickedAt(rows + [records[|records| - 1]], records, idx + [|records| - 1])
  {
    PickedWiden(rows, records, idx);
  }

  /** The keys of `Pairs` are the given keys, and each value is the one given
      with the last occurrence of its key. */
  lemma {:induction false} PairsContents(keys: seq<string>, vals: seq<string>)
    requires |keys| == |vals|
    ensures forall k :: k in Pairs(keys, vals) <==> k in keys
    ensures forall i :: 0 <= i < |keys| && (forall j :: i < j < |keys| ==> keys[j] != keys[i]) ==>
      Pairs(keys, vals)[keys[i]] == vals[i]
    decreases |keys|
  {
    if keys != [] {
      var n := |keys| - 1;
      var ks := keys[..n];
      var vs := vals[..n];
      PairsContents(ks, vs);
      assert keys == ks + [keys[n]];
      forall i | 0 <= i < |keys| && (forall j :: i < j < |keys| ==> keys[j] != keys[i])
        ensures Pairs(keys, vals)[keys[i]] == vals[i]
      {
        if i < n {
          assert ks[i] == keys[i] && vs[i] == vals[i];
          assert forall j :: i < j < |ks| ==> ks[j] == keys[j];
        }
      }
    }
  }

  /** A row's keys are the trimmed headers, and the value under a trimmed
      header is the trimmed field at the last position holding that header. */
  lemma {:induction false} RowContents(headers: seq<string>, values: seq<string>)
    requires |headers| == |values|
    ensures var keys := Trimmed(headers);
      var row := RowOf(headers, values);
      && (forall k :: k in row <==> k in keys)
      && forall i :: 0 <= i < |keys| && (forall j :: i < j < |keys| ==> keys[j] != keys[i]) ==>
           keys[i] in row && row[keys[i]] == Trimmed(values)[i]
  {
    PairsContents(Trimmed(headers), Trimmed(values));
  }
}
