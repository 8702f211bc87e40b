/** String operations of Python's `str` and JavaScript's `String` that the
    crawler, the query layer and the front-end rely on, each stated by what it
    returns rather than how. Strings are sequences of characters; only ASCII
    case folding and ASCII white space are modelled. */
module Text {
  import opened Options

  /** `fs` with `p` put in front of its first element. */
  function Prepend(p: string, fs: seq<string>): (r: seq<string>)
    requires |fs| >= 1
    ensures |r| == |fs| && r[0] == p + fs[0] && r[1..] == fs[1..]
  {
    [p + fs[0]] + fs[1..]
  }

  /** Python `s.split(sep)` / JavaScript `s.split(sep)` for a one-character separator. */
  function Split(s: string, sep: char): (parts: seq<string>)
    ensures |parts| >= 1
    decreases |s|
  {
    if s == [] then [""]
    else if s[0] == sep then [""] + Split(s[1..], sep)
    else Prepend([s[0]], Split(s[1..], sep))
  }

  /** Python `sep.join(parts)` / JavaScript `parts.join(sep)`. */
  function Join(parts: seq<string>, sep: char): string
    decreases |parts|
  {
    if |parts| == 0 then ""
    else if |parts| == 1 then parts[0]
    else parts[0] + [sep] + Join(parts[1..], sep)
  }

  /** The number of occurrences of `c` in `s`. */
  function Count(s: string, c: char): nat
    decreases |s|
  {
    if s == [] then 0 else (if s[0] == c then 1 else 0) + Count(s[1..], c)
  }

  lemma {:induction false} CountZero(s: string, c: char)
    ensures Count(s, c) == 0 <==> c !in s
    decreases |s|
  {
    if s != [] {
      CountZero(s[1..], c);
      assert s == [s[0]] + s[1..];
    }
  }

  /** No part of a split contains the separator. */
  lemma {:induction false} SplitPartsFree(s: string, sep: char)
    ensures forall i :: 0 <= i < |Split(s, sep)| ==> sep !in Split(s, sep)[i]
    decreases |s|
  {
    if s != [] {
      SplitPartsFree(s[1..], sep);
    }
  }

  /** Splitting yields one more part than there are separators. */
  lemma {:induction false} SplitCount(s: string, sep: char)
    ensures |Split(s, sep)| == Count(s, sep) + 1
    decreases |s|
  {
    if s != [] {
      SplitCount(s[1..], sep);
    }
  }

  lemma {:induction false} JoinPrepend(c: char, fs: seq<string>, sep: char)
    requires |fs| >= 1
    ensures Join(Prepend([c], fs), sep) == [c] + Join(fs, sep)
  {
    var r := Prepend([c], fs);
    if |fs| > 1 {
      assert r[1..] == fs[1..];
    }
  }

  /** Joining the parts of a split with the same separator gives the string back. */
  lemma {:induction false} JoinSplit(s: string, sep: char)
    ensures Join(Split(s, sep), sep) == s
    decreases |s|
  {
    if s == [] {
    } else if s[0] == sep {
      JoinSplit(s[1..], sep);
      var rest := Split(s[1..], sep);
      assert ([""] + rest)[1..] == rest;
      assert s == [sep] + s[1..];
    } else {
      JoinSplit(s[1..], sep);
      JoinPrepend(s[0], Split(s[1..], sep), sep);
      assert s == [s[0]] + s[1..];
    }
  }

  /** A string without the separator splits into itself alone. */
  lemma SplitNone(s: string, sep: char)
    requires sep !in s
    ensures Split(s, sep) == [s]
  {
    CountZero(s, sep);
    SplitCount(s, sep);
    JoinSplit(s, sep);
  }

  /** A prefix free of the separator is glued onto the first part. */
  lemma {:induction false} SplitPrefix(p: string, rest: string, sep: char)
    requires sep !in p
    ensures Split(p + rest, sep) == Prepend(p, Split(rest, sep))
    decreases |p|
  {
    if p == [] {
      var fs := Split(rest, sep);
      assert p + rest == rest;
      assert "" + fs[0] == fs[0];
      assert [fs[0]] + fs[1..] == fs;
    } else {
      assert (p + rest)[0] == p[0];
      assert (p + rest)[1..] == p[1..] + rest;
      SplitPrefix(p[1..], rest, sep);
      var tail := Split(rest, sep);
      assert [p[0]] + (p[1..] + tail[0]) == p + tail[0];
      assert Split(p + rest, sep) == Prepend([p[0]], Prepend(p[1..], tail));
    }
  }

  /** A separator-free prefix followed by the separator is the first part. */
  lemma SplitFirst(p: string, rest: string, sep: char)
    requires sep !in p
    ensures Split(p + [sep] + rest, sep) == [p] + Split(rest, sep)
  {
    SplitPrefix(p, [sep] + rest, sep);
    assert ([sep] + rest)[1..] == rest;
    assert p + ([sep] + rest) == p + [sep] + rest;
    assert p + "" == p;
    assert ([""] + Split(rest, sep))[1..] == Split(rest, sep);
  }

  /** Splitting a join of separator-free parts gives the parts back. */
  lemma {:induction false} SplitJoin(parts: seq<string>, sep: char)
    requires |parts| >= 1
    requires forall i :: 0 <= i < |parts| ==> sep !in parts[i]
    ensures Split(Join(parts, sep), sep) == parts
    decreases |parts|
  {
    if |parts| == 1 {
      SplitPrefix(parts[0], "", sep);
      assert parts[0] + "" == parts[0];
    } else {
      var tail := Join(parts[1..], sep);
      SplitJoin(parts[1..], sep);
      SplitPrefix(parts[0], [sep] + tail, sep);
      assert parts[0] + [sep] + tail == parts[0] + ([sep] + tail);
      assert ([sep] + tail)[1..] == tail;
      assert Split([sep] + tail, sep) == [""] + Split(tail, sep);
      assert parts[0] + "" == parts[0];
      assert parts == [parts[0]] + parts[1..];
    }
  }

  /** Joining two non-empty lists of parts puts one separator between their joins. */
  lemma {:induction false} JoinConcat(a: seq<string>, b: seq<string>, sep: char)
    requires |a| >= 1 && |b| >= 1
    ensures Join(a + b, sep) == Join(a, sep) + [sep] + Join(b, sep)
    decreases |a|
  {
    if |a| == 1 {
      assert (a + b)[1..] == b;
    } else {
      JoinConcat(a[1..], b, sep);
      assert (a + b)[1..] == a[1..] + b;
    }
  }

  /** Splitting at a separator and rejoining the parts after the `k`-th one
      gives back the text after the `k+1`-th separator. */
  lemma SplitTail(s: string, sep: char, k: nat)
    requires k < |Split(s, sep)| - 1
    ensures var parts := Split(s, sep);
      s == Join(parts[..k + 1], sep) + [sep] + Join(parts[k + 1..], sep)
  {
    var parts := Split(s, sep);
    JoinSplit(s, sep);
    JoinConcat(parts[..k + 1], parts[k + 1..], sep);
    assert parts[..k + 1] + parts[k + 1..] == parts;
  }

  /** Python `s.rstrip(c)`: the longest prefix of `s` not ending in `c`. */
  function RStrip(s: string, c: char): (r: string)
    ensures |r| <= |s| && r == s[..|r|]
    ensures r == [] || r[|r| - 1] != c
    ensures forall i :: |r| <= i < |s| ==> s[i] == c
    decreases |s|
  {
    if s != [] && s[|s| - 1] == c then RStrip(s[..|s| - 1], c) else s
  }

  /** Python `s.lstrip(c)`: the longest suffix of `s` not starting with `c`. */
  function LStrip(s: string, c: char): (r: string)
    ensures |r| <= |s| && r == s[|s| - |r|..]
    ensures r == [] || r[0] != c
    ensures forall i :: 0 <= i < |s| - |r| ==> s[i] == c
    decreases |s|
  {
    if s != [] && s[0] == c then LStrip(s[1..], c) else s
  }

  /** `r` is the slice of `s` at `k` with only `c` around it. */
  predicate StrippedAt(s: string, c: char, r: string, k: nat) {
    k + |r| <= |s| && r == s[k..k + |r|] &&
    (forall i :: 0 <= i < k ==> s[i] == c) &&
    (forall i :: k + |r| <= i < |s| ==> s[i] == c)
  }

  /** Python `s.strip(c)`: exactly the leading and the trailing runs of `c`
      are removed. */
  function Strip(s: string, c: char): (r: string)
    ensures r == [] || (r[0] != c && r[|r| - 1] != c)
    ensures exists k :: StrippedAt(s, c, r, k)
  {
    var e := RStrip(s, c);
    var r := LStrip(e, c);
    StrippedSlice(s, c, e, r);
    r
  }

  /** Stripping the end and then the start leaves a slice with only `c`
      around it. */
  lemma StrippedSlice(s: string, c: char, e: string, r: string)
    requires |e| <= |s| && e == s[..|e|] && forall i :: |e| <= i < |s| ==> s[i] == c
    requires |r| <= |e| && r == e[|e| - |r|..] && forall i :: 0 <= i < |e| - |r| ==> e[i] == c
    ensures StrippedAt(s, c, r, |e| - |r|)
  {
    var k := |e| - |r|;
    assert s[k..k + |r|] == e[k..];
    forall i | 0 <= i < k ensures s[i] == c {
      assert s[i] == e[i];
    }
  }

  predicate StartsWith(s: string, prefix: string) {
    |prefix| <= |s| && s[..|prefix|] == prefix
  }

  /** `pat` occurs in `s` starting at index `i`. */
  predicate OccursAt(s: string, pat: string, i: nat) {
    i + |pat| <= |s| && s[i..i + |pat|] == pat
  }

  function FindFrom(s: string, pat: string, from: nat): (r: Option<nat>)
    requires from <= |s|
    ensures r.Some? ==> from <= r.value && OccursAt(s, pat, r.value)
    ensures r.Some? ==> forall j :: from <= j < r.value ==> !OccursAt(s, pat, j)
    ensures r.None? ==> forall j :: from <= j <= |s| ==> !OccursAt(s, pat, j)
    decreases |s| - from
  {
    if OccursAt(s, pat, from) then Some(from)
    else if from == |s| then None
    else FindFrom(s, pat, from + 1)
  }

  /** Python `s.index(pat)` (None where `pat in s` is false): the first occurrence. */
  function Find(s: string, pat: string): (r: Option<nat>)
    ensures r.Some? ==> OccursAt(s, pat, r.value)
    ensures r.Some? ==> forall j :: 0 <= j < r.value ==> !OccursAt(s, pat, j)
    ensures r.None? ==> forall j :: 0 <= j <= |s| ==> !OccursAt(s, pat, j)
  {
    FindFrom(s, pat, 0)
  }

  /** JavaScript `s.includes(pat)`. */
  predicate Includes(s: string, pat: string) {
    Find(s, pat).Some?
  }

  /** The last index of `c` in `s`, if any. */
  function LastIndex(s: string, c: char): (r: Option<nat>)
    ensures r.Some? ==> r.value < |s| && s[r.value] == c && c !in s[r.value + 1..]
    ensures r.None? ==> c !in s
    decreases |s|
  {
    if s == [] then None
    else if s[|s| - 1] == c then Some(|s| - 1)
    else
      var r := LastIndex(s[..|s| - 1], c);
      assert s == s[..|s| - 1] + [s[|s| - 1]];
      r
  }

  /** The white space JavaScript's `trim()` removes, restricted to ASCII. */
  const WhiteSpace: set<char> := {' ', '\t', '\n', '\r', '\U{000B}', '\U{000C}'}

  predicate IsSpace(c: char) {
    c in WhiteSpace
  }

  function TrimEnd(s: string): (r: string)
    ensures |r| <= |s| && r == s[..|r|]
    ensures r == [] || !IsSpace(r[|r| - 1])
    ensures forall i :: |r| <= i < |s| ==> IsSpace(s[i])
    decreases |s|
  {
    if s != [] && IsSpace(s[|s| - 1]) then TrimEnd(s[..|s| - 1]) else s
  }

  function TrimStart(s: string): (r: string)
    ensures |r| <= |s| && r == s[|s| - |r|..]
    ensures r == [] || !IsSpace(r[0])
    ensures forall i :: 0 <= i < |s| - |r| ==> IsSpace(s[i])
    decreases |s|
  {
    if s != [] && IsSpace(s[0]) then TrimStart(s[1..]) else s
  }

  /** `r` is the slice of `s` at `k` with only white space around it. */
  predicate TrimmedAt(s: string, r: string, k: nat) {
    k + |r| <= |s| && r == s[k..k + |r|] &&
    (forall i :: 0 <= i < k ==> IsSpace(s[i])) &&
    (forall i :: k + |r| <= i < |s| ==> IsSpace(s[i]))
  }

  /** JavaScript `s.trim()`: exactly the leading and the trailing white space
      are removed. */
  function Trim(s: string): (r: string)
    ensures r == [] || (!IsSpace(r[0]) && !IsSpace(r[|r| - 1]))
    ensures |r| <= |s|
    ensures exists k :: TrimmedAt(s, r, k)
  {
    var e := TrimEnd(s);
    var r := TrimStart(e);
    TrimmedSlice(s, e, r);
    r
  }

  /** Trimming the end and then the start leaves a slice with only white
      space around it. */
  lemma TrimmedSlice(s: string, e: string, r: string)
    requires |e| <= |s| && e == s[..|e|] && forall i :: |e| <= i < |s| ==> IsSpace(s[i])
    requires |r| <= |e| && r == e[|e| - |r|..] && forall i :: 0 <= i < |e| - |r| ==> IsSpace(e[i])
    ensures TrimmedAt(s, r, |e| - |r|)
  {
    var k := |e| - |r|;
    assert s[k..k + |r|] == e[k..];
    forall i | 0 <= i < k ensures IsSpace(s[i]) {
      assert s[i] == e[i];
    }
  }

  /** A string trims to nothing exactly when it is all white space. */
  lemma TrimBlank(s: string)
    ensures (forall i :: 0 <= i < |s| ==> IsSpace(s[i])) <==> Trim(s) == []
  {
    var e := TrimEnd(s);
    var r := TrimStart(e);
    if r == [] {
      forall i | 0 <= i < |s| ensures IsSpace(s[i]) {
        if i < |e| {
          assert s[i] == e[i];
        }
      }
    }
  }

  /** The characters of a trimmed string all come from the string. */
  lemma TrimInside(s: string)
    ensures forall k :: 0 <= k < |Trim(s)| ==> Trim(s)[k] in s
  {
    var e := TrimEnd(s);
    var r := TrimStart(e);
    forall k | 0 <= k < |r| ensures r[k] in s {
      assert r[k] == e[|e| - |r| + k] == s[|e| - |r| + k];
    }
  }

  /** Text with no white space at either end is its own trim. */
  lemma TrimKeeps(s: string)
    requires s != [] && !IsSpace(s[0]) && !IsSpace(s[|s| - 1])
    ensures Trim(s) == s
  {
  }

  function LowerChar(c: char): char {
    if 'A' <= c <= 'Z' then (c as int + 32) as char else c
  }

  /** `toLowerCase()` / `lower()` restricted to ASCII letters. */
  function Lower(s: string): (r: string)
    ensures |r| == |s| && forall i :: 0 <= i < |s| ==> r[i] == LowerChar(s[i])
  {
    seq(|s|, i requires 0 <= i < |s| => LowerChar(s[i]))
  }

  /** Python `s.replace(a, b)` for single characters. */
  function ReplaceChar(s: string, a: char, b: char): (r: string)
    ensures |r| == |s|
    ensures forall i :: 0 <= i < |s| ==> r[i] == (if s[i] == a then b else s[i])
  {
    seq(|s|, i requires 0 <= i < |s| => if s[i] == a then b else s[i])
  }

  /** `s` with every non-overlapping occurrence of `pat`, scanned from the left,
      replaced by `rep`. */
  function ReplaceAll(s: string, pat: string, rep: string): string
    requires |pat| > 0
    decreases |s|
  {
    if |s| < |pat| then s
    else if s[..|pat|] == pat then rep + ReplaceAll(s[|pat|..], pat, rep)
    else [s[0]] + ReplaceAll(s[1..], pat, rep)
  }

  /** A string in which `pat` does not occur is left as it is. */
  lemma {:induction false} ReplaceAllAbsent(s: string, pat: string, rep: string)
    requires |pat| > 0
    requires Find(s, pat).None?
    ensures ReplaceAll(s, pat, rep) == s
    decreases |s|
  {
    if |s| >= |pat| {
      assert !OccursAt(s, pat, 0);
      var t := s[1..];
      forall j | 0 <= j <= |t| ensures !OccursAt(t, pat, j) {
        assert !OccursAt(s, pat, j + 1);
        if j + |pat| <= |t| {
          assert t[j..j + |pat|] == s[j + 1..j + 1 + |pat|];
        }
      }
      ReplaceAllAbsent(t, pat, rep);
      assert s == [s[0]] + t;
    }
  }

  /** A string whose only occurrence of `pat` closes it: only that occurrence is replaced. */
  lemma {:induction false} ReplaceAllTail(a: string, pat: string, rep: string)
    requires |pat| > 0
    requires forall j :: 0 <= j < |a| ==> !OccursAt(a + pat, pat, j)
    ensures ReplaceAll(a + pat, pat, rep) == a + rep
    decreases |a|
  {
    if a == [] {
      assert (a + pat)[..|pat|] == pat;
      assert ReplaceAll(pat, pat, rep) == rep + ReplaceAll([], pat, rep);
    } else {
      NoOccurrenceShift(a, pat);
      ReplaceAllTail(a[1..], pat, rep);
      ReplaceAllSkip(a + pat, pat, rep);
      assert (a + pat)[1..] == a[1..] + pat;
      assert a == [a[0]] + a[1..];
    }
  }

  lemma NoOccurrenceShift(a: string, pat: string)
    requires a != []
    requires forall j :: 0 <= j < |a| ==> !OccursAt(a + pat, pat, j)
    ensures forall j :: 0 <= j < |a[1..]| ==> !OccursAt(a[1..] + pat, pat, j)
  {
    var s := a + pat;
    forall j | 0 <= j < |a[1..]| ensures !OccursAt(a[1..] + pat, pat, j) {
      assert !OccursAt(s, pat, j + 1);
      assert (a[1..] + pat)[j..j + |pat|] == s[j + 1..j + 1 + |pat|];
    }
  }

  /** Where `pat` does not start the string, its first character is kept. */
  lemma ReplaceAllSkip(s: string, pat: string, rep: string)
    requires |pat| > 0 && |s| >= |pat| && !OccursAt(s, pat, 0)
    ensures ReplaceAll(s, pat, rep) == [s[0]] + ReplaceAll(s[1..], pat, rep)
  {
  }

  /** The first occurrence, characterised: an occurrence with none before it is what `Find` returns. */
  lemma FindAt(s: string, pat: string, i: nat)
    requires OccursAt(s, pat, i)
    requires forall j :: 0 <= j < i ==> !OccursAt(s, pat, j)
    ensures Find(s, pat) == Some(i)
  {
  }

  predicate IsDigit(c: char) {
    '0' <= c <= '9'
  }

  predicate AllDigits(s: string) {
    forall i :: 0 <= i < |s| ==> IsDigit(s[i])
  }

  function DigitValue(c: char): nat
    requires IsDigit(c)
  {
    c as int - '0' as int
  }

  /** The number a string of decimal digits denotes (0 for the empty string). */
  function DigitsValue(ds: string): nat
    requires AllDigits(ds)
    decreases |ds|
  {
    if ds == [] then 0 else 10 * DigitsValue(ds[..|ds| - 1]) + DigitValue(ds[|ds| - 1])
  }

  function DigitChar(d: nat): (c: char)
    requires d < 10
    ensures IsDigit(c) && DigitValue(c) == d
  {
    ('0' as int + d) as char
  }

  /** The decimal rendering of `n`, as JavaScript's template strings print an
      index: digits that spell `n`, without leading zeros. */
  function NatToString(n: nat): (r: string)
    ensures |r| >= 1 && AllDigits(r)
    ensures DigitsValue(r) == n
    ensures |r| > 1 ==> r[0] != '0'
    decreases n
  {
    if n < 10 then [DigitChar(n)]
    else
      var front := NatToString(n / 10);
      var r := front + [DigitChar(n % 10)];
      assert r[..|r| - 1] == front;
      r
  }
}
