/** Decimal number text as the crawler and the front-end read it. Python's
    `float()` and JavaScript's `parseFloat`/`Number` are modelled on strings
    over the digits and `.` only, and their results as exact `real` values
    (the binary rounding of the original is not modelled). */
module Decimals {
  import opened Options
  import opened Text

  predicate IsPriceChar(c: char) {
    IsDigit(c) || c == '.'
  }

  predicate AllPriceChars(s: string) {
    forall i :: 0 <= i < |s| ==> IsPriceChar(s[i])
  }

  predicate HasDigit(s: string) {
    exists i :: 0 <= i < |s| && IsDigit(s[i])
  }

  /** What `re.sub(r'[^\d.,]', '', s)` (Python) and `s.replace(/[^\d.,]/g, '')`
      (JavaScript) keep: the digits, dots and commas of `s`, each as often as
      in `s`, and nothing else; KeepNumericAppend adds that they stay in order. */
  function KeepNumeric(s: string): (r: string)
    ensures forall i :: 0 <= i < |r| ==> IsPriceChar(r[i]) || r[i] == ','
    ensures forall x :: IsPriceChar(x) || x == ',' ==> multiset(r)[x] == multiset(s)[x]
    ensures (forall i :: 0 <= i < |s| ==> IsPriceChar(s[i]) || s[i] == ',') ==> r == s
    decreases |s|
  {
    if s == [] then ""
    else
      assert s == [s[0]] + s[1..];
      (if IsPriceChar(s[0]) || s[0] == ',' then [s[0]] else "") + KeepNumeric(s[1..])
  }

  /** The filter works piece by piece: the kept characters of `s + t` are
      those of `s` followed by those of `t`. */
  lemma {:induction false} KeepNumericAppend(s: string, t: string)
    ensures KeepNumeric(s + t) == KeepNumeric(s) + KeepNumeric(t)
    decreases |s|
  {
    if s == [] {
      assert s + t == t;
    } else {
      assert (s + t)[1..] == s[1..] + t;
      KeepNumericAppend(s[1..], t);
    }
  }

  /** `s` without any occurrence of `c` (`s.replace(',', '')`,
      `s.replace(/,/g, '')`): every other character stays, as often as in `s`;
      DropCharAppend adds that they stay in order. */
  function DropChar(s: string, c: char): (r: string)
    ensures c !in r
    ensures forall x :: x != c ==> multiset(r)[x] == multiset(s)[x]
    ensures forall x :: x in r ==> x in s
    ensures c !in s ==> r == s
    decreases |s|
  {
    if s == [] then ""
    else
      assert s == [s[0]] + s[1..];
      (if s[0] == c then "" else [s[0]]) + DropChar(s[1..], c)
  }

  /** Dropping works piece by piece. */
  lemma {:induction false} DropCharAppend(s: string, t: string, c: char)
    ensures DropChar(s + t, c) == DropChar(s, c) + DropChar(t, c)
    decreases |s|
  {
    if s == [] {
      assert s + t == t;
    } else {
      assert (s + t)[1..] == s[1..] + t;
      DropCharAppend(s[1..], t, c);
    }
  }

  /** The cleaned price text: only digits and dots remain, and every digit and
      dot of the input remains, as often as in the input; CleanPriceSnoc adds
      that they stay in order. */
  function CleanPrice(s: string): (r: string)
    ensures AllPriceChars(r)
    ensures forall x :: IsPriceChar(x) ==> multiset(r)[x] == multiset(s)[x]
  {
    var k := KeepNumeric(s);
    var r := DropChar(k, ',');
    forall i | 0 <= i < |r| ensures IsPriceChar(r[i]) {
      assert r[i] in k && r[i] != ',';
      var j :| 0 <= j < |k| && k[j] == r[i];
    }
    r
  }

  /** Cleaning is an in-order filter: one more character at the end adds
      itself exactly when it is a digit or a dot. */
  lemma CleanPriceSnoc(s: string, x: char)
    ensures CleanPrice(s + [x]) == CleanPrice(s) + (if IsPriceChar(x) then [x] else [])
  {
    KeepNumericAppend(s, [x]);
    var kx := KeepNumeric([x]);
    CleanChar(x);
    DropCharAppend(KeepNumeric(s), kx, ',');
  }

  /** One character on its own is kept exactly when it is a digit or a dot. */
  lemma CleanChar(x: char)
    ensures KeepNumeric([x]) == (if IsPriceChar(x) || x == ',' then [x] else [])
    ensures DropChar(KeepNumeric([x]), ',') == (if IsPriceChar(x) then [x] else [])
  {
    assert [x][1..] == [];
  }

  /** Cleaning keeps text that is already plain decimal text unchanged. */
  lemma CleanPriceKeepsPlain(s: string)
    requires AllPriceChars(s)
    ensures CleanPrice(s) == s
  {
    assert forall i :: 0 <= i < |s| ==> IsPriceChar(s[i]) || s[i] == ',';
  }

  function Pow10(n: nat): (r: nat)
    ensures r >= 1
  {
    if n == 0 then 1 else 10 * Pow10(n - 1)
  }

  /** The number with integer part `whole` and fractional digits worth
      `fraction / scale`. */
  function Compose(whole: nat, fraction: nat, scale: nat): (r: real)
    requires scale >= 1
    ensures r >= whole as real
  {
    whole as real + (fraction as real) / (scale as real)
  }

  lemma {:induction false} NoDotAllDigits(s: string)
    requires AllPriceChars(s) && '.' !in s
    ensures forall i :: 0 <= i < |s| ==> IsDigit(s[i])
  {
    forall i | 0 <= i < |s| ensures IsDigit(s[i]) {
      assert s[i] in s;
    }
  }

  /** `s` is digits, a dot at `k`, and digits. */
  predicate DotAt(s: string, k: nat) {
    k < |s| && s[k] == '.' && AllDigits(s[..k]) && AllDigits(s[k + 1..])
  }

  /** The value of decimal text with its dot at `k`: the digits before it are
      the integer part, those after it the fraction. */
  function ValueAround(s: string, k: nat): (v: real)
    requires DotAt(s, k)
  {
    Compose(DigitsValue(s[..k]), DigitsValue(s[k + 1..]), Pow10(|s| - k - 1))
  }

  /** A dot with only digits around it splits the text in two. */
  lemma SplitAtDot(s: string, k: nat)
    requires DotAt(s, k)
    ensures Split(s, '.') == [s[..k], s[k + 1..]]
  {
    var a, b := s[..k], s[k + 1..];
    assert '.' !in a by {
      forall i | 0 <= i < |a| ensures a[i] != '.' {
        assert IsDigit(a[i]);
      }
    }
    assert '.' !in b by {
      forall i | 0 <= i < |b| ensures b[i] != '.' {
        assert IsDigit(b[i]);
      }
    }
    assert Join([a, b], '.') == s by {
      assert Join([a, b][1..], '.') == b;
      assert s == a + ['.'] + b;
    }
    SplitJoin([a, b], '.');
  }

  /** Python `float(s)` on text made of digits and dots: `None` where Python
      raises `ValueError`. Digits alone read as the whole number they spell;
      digits, one dot and digits read as that decimal fraction. */
  function ParseDecimal(s: string): (r: Option<real>)
    requires AllPriceChars(s)
    ensures r.Some? ==> r.value >= 0.0
    ensures AllDigits(s) && s != "" ==> r == Some(DigitsValue(s) as real)
    ensures forall k :: DotAt(s, k) && |s| > 1 ==> r == Some(ValueAround(s, k))
  {
    forall k: nat | DotAt(s, k) ensures Split(s, '.') == [s[..k], s[k + 1..]] {
      SplitAtDot(s, k);
    }
    assert AllDigits(s) ==> Split(s, '.') == [s] by {
      if AllDigits(s) {
        assert '.' !in s by {
          forall i | 0 <= i < |s| ensures s[i] != '.' {
            assert IsDigit(s[i]);
          }
        }
        SplitNone(s, '.');
      }
    }
    var parts := Split(s, '.');
    SplitPartsFree(s, '.');
    JoinSplit(s, '.');
    if |parts| > 2 then None
    else
      var whole := parts[0];
      var frac := if |parts| == 2 then parts[1] else "";
      assert whole + frac == s || whole + "." + frac == s;
      AllPriceCharsParts(whole, frac, s);
      NoDotAllDigits(whole);
      NoDotAllDigits(frac);
      if whole == "" && frac == "" then None
      else Some(Compose(DigitsValue(whole), DigitsValue(frac), Pow10(|frac|)))
  }

  lemma AllPriceCharsParts(a: string, b: string, s: string)
    requires AllPriceChars(s)
    requires a + b == s || a + "." + b == s
    ensures AllPriceChars(a) && AllPriceChars(b)
  {
    assert forall i :: 0 <= i < |a| ==> a[i] == s[i];
    if a + b == s {
      assert forall i :: 0 <= i < |b| ==> b[i] == s[|a| + i];
    } else {
      assert forall i :: 0 <= i < |b| ==> b[i] == s[|a| + 1 + i];
    }
  }

  lemma {:induction false} HasDigitDigits(s: string)
    requires forall i :: 0 <= i < |s| ==> IsDigit(s[i])
    ensures HasDigit(s) <==> s != ""
  {
    if s != "" {
      assert IsDigit(s[0]);
    }
  }

  lemma {:induction false} HasDigitAround(a: string, b: string)
    ensures HasDigit(a + "." + b) <==> HasDigit(a) || HasDigit(b)
  {
    var s := a + "." + b;
    if HasDigit(s) {
      var i :| 0 <= i < |s| && IsDigit(s[i]);
      if i < |a| {
        assert IsDigit(a[i]);
      } else {
        assert i > |a|;
        assert IsDigit(b[i - |a| - 1]);
      }
    }
    if HasDigit(a) {
      var i :| 0 <= i < |a| && IsDigit(a[i]);
      assert s[i] == a[i];
    }
    if HasDigit(b) {
      var i :| 0 <= i < |b| && IsDigit(b[i]);
      assert s[|a| + 1 + i] == b[i];
    }
  }

  /** `float()` succeeds on digits-and-dots text exactly when it holds at
      least one digit and at most one dot. */
  lemma ParseDecimalSucceeds(s: string)
    requires AllPriceChars(s)
    ensures ParseDecimal(s).Some? <==> HasDigit(s) && Count(s, '.') <= 1
  {
    var parts := Split(s, '.');
    SplitCount(s, '.');
    SplitPartsFree(s, '.');
    JoinSplit(s, '.');
    if |parts| == 1 {
      assert parts[0] == s;
      NoDotAllDigits(s);
      HasDigitDigits(s);
    } else if |parts| == 2 {
      var whole, frac := parts[0], parts[1];
      assert Join(parts, '.') == whole + "." + frac;
      AllPriceCharsParts(whole, frac, s);
      NoDotAllDigits(whole);
      NoDotAllDigits(frac);
      HasDigitDigits(whole);
      HasDigitDigits(frac);
      HasDigitAround(whole, frac);
    }
  }

  /** The text up to (not including) its second dot: the longest prefix
      JavaScript's `parseFloat` can read from digits-and-dots text. */
  function UpToSecondDot(s: string): (r: string)
    ensures |r| <= |s| && r == s[..|r|]
    ensures Count(r, '.') <= 1
    ensures Count(s, '.') <= 1 ==> r == s
    ensures Count(s, '.') >= 2 ==> Count(r, '.') == 1 && |r| < |s| && s[|r|] == '.'
  {
    var parts := Split(s, '.');
    SplitCount(s, '.');
    if |parts| <= 2 then s
    else
      JoinSplit(s, '.');
      SplitPartsFree(s, '.');
      var r := parts[0] + "." + parts[1];
      assert Join(parts, '.') == r + ("." + Join(parts[2..], '.'));
      assert Split(r, '.') == [parts[0], parts[1]] by {
        SplitJoin([parts[0], parts[1]], '.');
        assert Join([parts[0], parts[1]], '.') == r;
      }
      SplitCount(r, '.');
      r
  }

  /** JavaScript `parseFloat(s)` on digits-and-dots text; `None` stands for
      `NaN`. Where `float` accepts the text both read the same value; past a
      second dot, `parseFloat` reads only the text before it. */
  function ParseFloat(s: string): (r: Option<real>)
    requires AllPriceChars(s)
    ensures r.Some? ==> r.value >= 0.0
    ensures Count(s, '.') <= 1 ==> r == ParseDecimal(s)
    ensures Count(s, '.') >= 2 ==>
      AllPriceChars(UpToSecondDot(s)) && r == ParseDecimal(UpToSecondDot(s))
  {
    var p := UpToSecondDot(s);
    assert AllPriceChars(p) by {
      assert forall i :: 0 <= i < |p| ==> p[i] == s[i];
    }
    ParseDecimal(p)
  }

  lemma DigitsNoDot(s: string)
    requires AllDigits(s)
    ensures '.' !in s
  {
    forall i | 0 <= i < |s| ensures s[i] != '.' {
      assert IsDigit(s[i]);
    }
  }

  /** The prefix `parseFloat` reads from `whole.frac.rest` is `whole.frac`. */
  lemma UpToSecondDotOf(whole: string, frac: string, rest: string)
    requires AllDigits(whole) && AllDigits(frac)
    ensures Count(whole + "." + frac + "." + rest, '.') >= 2
    ensures UpToSecondDot(whole + "." + frac + "." + rest) == whole + "." + frac
  {
    var s := whole + "." + frac + "." + rest;
    DigitsNoDot(whole);
    DigitsNoDot(frac);
    SplitFirst(frac, rest, '.');
    SplitFirst(whole, frac + "." + rest, '.');
    assert whole + "." + (frac + "." + rest) == s;
    assert Split(s, '.') == [whole, frac] + Split(rest, '.');
    SplitCount(s, '.');
  }

  /** `parseFloat` stops at the second dot: text after it is ignored. */
  lemma ParseFloatStops(whole: string, frac: string, rest: string)
    requires AllDigits(whole) && AllDigits(frac) && AllPriceChars(rest)
    ensures AllPriceChars(whole + "." + frac + "." + rest)
    ensures AllPriceChars(whole + "." + frac)
    ensures ParseFloat(whole + "." + frac + "." + rest) == ParseDecimal(whole + "." + frac)
  {
    UpToSecondDotOf(whole, frac, rest);
    var s := whole + "." + frac + "." + rest;
    assert AllPriceChars(s) by {
      forall i | 0 <= i < |s| ensures IsPriceChar(s[i]) {
        if i < |whole| {
          assert s[i] == whole[i];
        } else if |whole| < i < |whole| + 1 + |frac| {
          assert s[i] == frac[i - |whole| - 1];
        } else if i > |whole| + 1 + |frac| {
          assert s[i] == rest[i - |whole| - 2 - |frac|];
        }
      }
    }
  }

  /** Where Python's `float` accepts the text, `parseFloat` reads the same value. */
  lemma ParseFloatAgrees(s: string)
    requires AllPriceChars(s) && Count(s, '.') <= 1
    ensures ParseFloat(s) == ParseDecimal(s)
  {
  }

  /** JavaScript `Number(s)`: surrounding white space is ignored, the empty
      text is 0, and digits-and-dots text is read as by `float`; any other
      text is `NaN` (`None`). */
  function JsNumber(s: string): (r: Option<real>)
    ensures Trim(s) == "" ==> r == Some(0.0)
    ensures Trim(s) != "" ==>
      (r.Some? <==> AllPriceChars(Trim(s)) && HasDigit(Trim(s)) && Count(Trim(s), '.') <= 1)
    ensures Trim(s) != "" && r.Some? ==> AllPriceChars(Trim(s)) && r == ParseDecimal(Trim(s))
  {
    var t := Trim(s);
    assert AllPriceChars(t) ==> (ParseDecimal(t).Some? <==> HasDigit(t) && Count(t, '.') <= 1) by {
      if AllPriceChars(t) {
        ParseDecimalSucceeds(t);
      }
    }
    if t == "" then Some(0.0)
    else if AllPriceChars(t) then ParseDecimal(t)
    else None
  }

  /** Text made only of digits reads as the whole number it spells. */
  lemma DigitsDecimal(d: string)
    requires d != "" && forall i :: 0 <= i < |d| ==> IsDigit(d[i])
    ensures AllPriceChars(d) && Count(d, '.') == 0
    ensures ParseDecimal(d) == Some(DigitsValue(d) as real)
  {
    assert '.' !in d by {
      forall i | 0 <= i < |d| ensures d[i] != '.' {
        assert IsDigit(d[i]);
      }
    }
    CountZero(d, '.');
    ParseWhole(d);
  }

  /** Digits-and-dots text without a dot is read as a whole number. */
  lemma ParseWhole(d: string)
    requires AllPriceChars(d) && '.' !in d && d != ""
    ensures ParseDecimal(d) == Some(DigitsValue(d) as real)
  {
    SplitNone(d, '.');
    NoDotAllDigits(d);
    ParseSinglePart(d);
    ComposeWhole(DigitsValue(d), DigitsValue(""), Pow10(|""|));
  }

  /** `ParseDecimal` on a text without a dot, unfolded once. */
  lemma ParseSinglePart(d: string)
    requires AllPriceChars(d) && d != "" && Split(d, '.') == [d]
    requires forall i :: 0 <= i < |d| ==> IsDigit(d[i])
    ensures ParseDecimal(d) == Some(Compose(DigitsValue(d), DigitsValue(""), Pow10(|""|)))
  {
  }

  /** No fractional digits add nothing. */
  lemma ComposeWhole(whole: nat, fraction: nat, scale: nat)
    requires fraction == 0 && scale == 1
    ensures Compose(whole, fraction, scale) == whole as real
  {
  }

  /** `float`, `parseFloat` and `Number` agree on text made only of digits. */
  lemma ParseDigits(d: string)
    requires d != "" && forall i :: 0 <= i < |d| ==> IsDigit(d[i])
    ensures AllPriceChars(d)
    ensures ParseDecimal(d) == Some(DigitsValue(d) as real)
    ensures ParseFloat(d) == ParseDecimal(d)
    ensures JsNumber(d) == ParseDecimal(d)
  {
    DigitsTrimmed(d);
    DigitsDecimal(d);
  }

  lemma DigitsTrimmed(d: string)
    requires d != "" && forall i :: 0 <= i < |d| ==> IsDigit(d[i])
    ensures Trim(d) == d
  {
    assert IsDigit(d[0]) && IsDigit(d[|d| - 1]);
    TrimKeeps(d);
  }
}
