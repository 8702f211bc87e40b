/** The listing page (docs/js/main.js): the bikes, the filters the visitor
    sets, the sort order, and the twelve-per-page window onto the result. */
module ListingPage {
  import opened Options
  import opened Text
  import opened Decimals
  import opened Bikes

  /** `this.itemsPerPage`. */
  const ItemsPerPage := 12

  /** `this.filters`: the chosen manufacturer, the price range `min-max`, and
      the search text; the empty text means no filter. */
  datatype Filters = Filters(manufacturer: string, priceRange: string, search: string)

  const NoFilters := Filters("", "", "")

  // ------------------------------------------------------------------ filters

  /** JavaScript truthiness of a price: `null` and `0` are falsy. */
  predicate HasPrice(price: Option<real>) {
    price.Some? && price.value != 0.0
  }

  /** The price filter: a falsy price always passes; otherwise the range is
      split on `-`, both ends read with `Number`, and the bike is rejected when
      below the lower end or above the upper one. An end that is `NaN` or
      missing rejects nothing, since comparisons with it are false. */
  predicate PricePasses(priceRange: string, price: Option<real>)
    ensures priceRange == "" || !HasPrice(price) ==> PricePasses(priceRange, price)
  {
    if priceRange == "" || !HasPrice(price) then true
    else
      var parts := Split(priceRange, '-');
      var low := JsNumber(parts[0]);
      var high := if |parts| >= 2 then JsNumber(parts[1]) else None;
      !((low.Some? && price.value < low.value) || (high.Some? && price.value > high.value))
  }

  /** For a range written `low-high` in digits, a bike with a price passes
      exactly when the price lies between the two ends, both included. */
  lemma PriceRangeInclusive(low: string, high: string, price: real)
    requires low != "" && forall i :: 0 <= i < |low| ==> IsDigit(low[i])
    requires high != "" && forall i :: 0 <= i < |high| ==> IsDigit(high[i])
    requires price != 0.0
    ensures PricePasses(low + "-" + high, Some(price)) <==>
      DigitsValue(low) as real <= price <= DigitsValue(high) as real
  {
    RangeParts(low, high);
    PricePassesParts(low + "-" + high, price, low, high);
    ParseDigits(low);
    ParseDigits(high);
  }

  lemma PricePassesParts(priceRange: string, price: real, low: string, high: string)
    requires priceRange != "" && price != 0.0
    requires Split(priceRange, '-') == [low, high]
    ensures PricePasses(priceRange, Some(price)) <==>
      !((JsNumber(low).Some? && price < JsNumber(low).value) || (JsNumber(high).Some? && price > JsNumber(high).value))
  {
  }

  lemma RangeParts(low: string, high: string)
    requires forall i :: 0 <= i < |low| ==> IsDigit(low[i])
    requires forall i :: 0 <= i < |high| ==> IsDigit(high[i])
    ensures Split(low + "-" + high, '-') == [low, high]
  {
    assert '-' !in low by {
      forall i | 0 <= i < |low| ensures low[i] != '-' {
        assert IsDigit(low[i]);
      }
    }
    assert '-' !in high by {
      forall i | 0 <= i < |high| ensures high[i] != '-' {
        assert IsDigit(high[i]);
      }
    }
    assert Join([low, high], '-') == low + "-" + high by {
      assert Join([low, high][1..], '-') == high;
    }
    SplitJoin([low, high], '-');
  }

  /** The listing's filter: exact manufacturer, price range, and the
      lower-cased search text inside name, description, manufacturer, battery
      and motor joined by spaces. */
  predicate MatchesListing(b: Bike, filters: Filters) {
    (filters.manufacturer == "" || b.manufacturer == filters.manufacturer) &&
    PricePasses(filters.priceRange, b.price) &&
    (filters.search == "" ||
      Includes(Lower(Join([b.name, b.description, b.manufacturer, b.battery, b.motorType], ' ')),
        Lower(filters.search)))
  }

  function ListingMatcher(filters: Filters): Bike -> bool {
    b => MatchesListing(b, filters)
  }

  function ListingFilter(bikes: seq<Bike>, filters: Filters): (r: seq<Bike>)
    ensures |r| <= |bikes|
  {
    Filter(bikes, ListingMatcher(filters))
  }

  /** The filtered list is the subsequence of the bikes that match, in their
      order: each kept bike has the chosen manufacturer, and a bike without a
      price is never dropped for its price. With no filters every bike is kept. */
  lemma ListingFilterSpec(bikes: seq<Bike>, filters: Filters)
    ensures exists idx: seq<nat> :: FiltersAt(bikes, ListingMatcher(filters), idx)
    ensures forall b :: b in ListingFilter(bikes, filters) ==>
      b in bikes && (filters.manufacturer == "" || b.manufacturer == filters.manufacturer)
    ensures forall b :: b in bikes && !HasPrice(b.price) && filters.manufacturer == "" && filters.search == "" ==>
      b in ListingFilter(bikes, filters)
    ensures ListingFilter(bikes, NoFilters) == bikes
  {
    FilterInOrder(bikes, ListingMatcher(filters));
    FilterMembers(bikes, ListingMatcher(filters));
    FilterAll(bikes, ListingMatcher(NoFilters));
  }

  // ------------------------------------------------------------------ sorting

  /** The `sortBy` values the comparator knows; any other value compares
      every pair as equal. */
  datatype SortOrder = ByName | ByPriceLow | ByPriceHigh | ByManufacturer | Unsorted

  function SortOrderOf(sortBy: string): SortOrder {
    if sortBy == "name" then ByName
    else if sortBy == "price-low" then ByPriceLow
    else if sortBy == "price-high" then ByPriceHigh
    else if sortBy == "manufacturer" then ByManufacturer
    else Unsorted
  }

  /** Ordinal lexicographic order on text (standing in for `localeCompare`). */
  predicate LexLe(a: string, b: string)
    decreases |a|
  {
    a == [] || (b != [] && (a[0] < b[0] || (a[0] == b[0] && LexLe(a[1..], b[1..]))))
  }

  lemma {:induction false} LexTotal(a: string, b: string)
    ensures LexLe(a, b) || LexLe(b, a)
    decreases |a|
  {
    if a != [] && b != [] && a[0] == b[0] {
      LexTotal(a[1..], b[1..]);
    }
  }

  lemma {:induction false} LexTrans(a: string, b: string, c: string)
    requires LexLe(a, b) && LexLe(b, c)
    ensures LexLe(a, c)
    decreases |a|
  {
    if a != [] && b != [] && c != [] && a[0] == b[0] == c[0] {
      LexTrans(a[1..], b[1..], c[1..]);
    }
  }

  /** The rank `price-low` sorts by: a falsy price counts as 999999. */
  function LowRank(b: Bike): real {
    if HasPrice(b.price) then b.price.value else 999999.0
  }

  /** The rank `price-high` sorts by, descending: a falsy price counts as 0. */
  function HighRank(b: Bike): real {
    if HasPrice(b.price) then b.price.value else 0.0
  }

  /** The comparator returns a value `<= 0` for `a` against `b`. */
  predicate Precedes(order: SortOrder, a: Bike, b: Bike) {
    match order
    case ByName => LexLe(a.name, b.name)
    case ByPriceLow => LowRank(a) <= LowRank(b)
    case ByPriceHigh => HighRank(b) <= HighRank(a)
    case ByManufacturer => LexLe(a.manufacturer, b.manufacturer)
    case Unsorted => true
  }

  lemma PrecedesTotal(order: SortOrder, a: Bike, b: Bike)
    ensures Precedes(order, a, b) || Precedes(order, b, a)
  {
    match order
    case ByName => LexTotal(a.name, b.name);
    case ByManufacturer => LexTotal(a.manufacturer, b.manufacturer);
    case _ =>
  }

  lemma PrecedesTrans(order: SortOrder, a: Bike, b: Bike, c: Bike)
    requires Precedes(order, a, b) && Precedes(order, b, c)
    ensures Precedes(order, a, c)
  {
    match order
    case ByName => LexTrans(a.name, b.name, c.name);
    case ByManufacturer => LexTrans(a.manufacturer, b.manufacturer, c.manufacturer);
    case _ =>
  }

  predicate SortedBy(order: SortOrder, s: seq<Bike>) {
    forall i, j :: 0 <= i < j < |s| ==> Precedes(order, s[i], s[j])
  }

  /** `x` placed before the first element it precedes; ties keep `x` first,
      which is what makes the sort stable. */
  function Insert(order: SortOrder, x: Bike, s: seq<Bike>): (r: seq<Bike>)
    ensures multiset(r) == multiset(s) + multiset{x}
    decreases |s|
  {
    if s == [] then [x]
    else if Precedes(order, x, s[0]) then [x] + s
    else
      assert s == [s[0]] + s[1..];
      [s[0]] + Insert(order, x, s[1..])
  }

  /** `filteredBikes.sort(comparator)`: a stable sort under the comparator. */
  function SortBikes(bikes: seq<Bike>, order: SortOrder): (r: seq<Bike>)
    ensures multiset(r) == multiset(bikes)
    decreases |bikes|
  {
    if bikes == [] then []
    else
      assert bikes == [bikes[0]] + bikes[1..];
      Insert(order, bikes[0], SortBikes(bikes[1..], order))
  }

  lemma {:induction false} InsertSorted(order: SortOrder, x: Bike, s: seq<Bike>)
    requires SortedBy(order, s)
    ensures SortedBy(order, Insert(order, x, s))
    decreases |s|
  {
    if s != [] {
      if Precedes(order, x, s[0]) {
        forall j | 0 <= j < |s| ensures Precedes(order, x, s[j]) {
          if j > 0 {
            PrecedesTrans(order, x, s[0], s[j]);
          }
        }
      } else {
        PrecedesTotal(order, x, s[0]);
        InsertSorted(order, x, s[1..]);
        var t := Insert(order, x, s[1..]);
        forall j | 0 <= j < |t| ensures Precedes(order, s[0], t[j]) {
          assert t[j] in multiset(t);
          if t[j] != x {
            assert t[j] in multiset(s[1..]);
            var k :| 0 <= k < |s[1..]| && s[1..][k] == t[j];
            assert s[k + 1] == t[j];
          }
        }
      }
    }
  }

  /** The sorted list is a permutation of the input in comparator order. */
  lemma {:induction false} SortBikesSorted(bikes: seq<Bike>, order: SortOrder)
    ensures SortedBy(order, SortBikes(bikes, order))
    ensures multiset(SortBikes(bikes, order)) == multiset(bikes)
    decreases |bikes|
  {
    if bikes != [] {
      SortBikesSorted(bikes[1..], order);
      InsertSorted(order, bikes[0], SortBikes(bikes[1..], order));
    }
  }

  /** An unknown sort key leaves the order unchanged. */
  lemma {:induction false} UnsortedKeepsOrder(bikes: seq<Bike>)
    ensures SortBikes(bikes, Unsorted) == bikes
    decreases |bikes|
  {
    if bikes != [] {
      UnsortedKeepsOrder(bikes[1..]);
    }
  }

  /** Under `price-low` every bike with a price precedes every bike without one
      that costs less than 999999, and under `price-high` bikes without a price
      come after every bike with a positive price. */
  lemma MissingPriceRanks(a: Bike, b: Bike)
    requires HasPrice(a.price) && !HasPrice(b.price)
    ensures a.price.value < 999999.0 ==> Precedes(ByPriceLow, a, b) && !Precedes(ByPriceLow, b, a)
    ensures a.price.value > 0.0 ==> Precedes(ByPriceHigh, a, b) && !Precedes(ByPriceHigh, b, a)
  {
  }

  // ------------------------------------------------------------------ summary

  /** The manufacturers among the listed bikes. */
  function Sources(bikes: seq<Bike>): set<string> {
    set b | b in bikes :: b.manufacturer
  }

  /** `updateResultsSummary`: the number of bikes listed and the number of
      manufacturers among them. */
  function ResultsSummary(bikes: seq<Bike>): (r: (nat, nat))
    ensures r.0 == |bikes|
  {
    (|bikes|, |Sources(bikes)|)
  }

  /** There are never more sources than bikes, and at least one source when
      a bike is listed. */
  lemma {:induction false} SourcesBound(bikes: seq<Bike>)
    ensures ResultsSummary(bikes).1 <= ResultsSummary(bikes).0
    ensures bikes != [] ==> ResultsSummary(bikes).1 >= 1
    decreases |bikes|
  {
    if bikes != [] {
      var init := bikes[..|bikes| - 1];
      var last := bikes[|bikes| - 1];
      SourcesBound(init);
      assert bikes == init + [last];
      assert Sources(bikes) == Sources(init) + {last.manufacturer};
    }
  }

  // --------------------------------------------------------------- pagination

  /** `Math.ceil(n / itemsPerPage)`. */
  function TotalPages(n: nat): (t: nat)
    ensures t * ItemsPerPage >= n
    ensures t > 0 ==> (t - 1) * ItemsPerPage < n
  {
    (n + ItemsPerPage - 1) / ItemsPerPage
  }

  /** The bikes page `page` shows: indices `(page-1)*12` up to, not including,
      `min(page*12, n)`. */
  function Window(bikes: seq<Bike>, page: nat): (r: seq<Bike>)
    requires page >= 1
    ensures |r| <= ItemsPerPage
  {
    var start := (page - 1) * ItemsPerPage;
    var end := if start + ItemsPerPage <= |bikes| then start + ItemsPerPage else |bikes|;
    if start >= |bikes| then [] else bikes[start..end]
  }

  /** Every bike is on exactly one page: bike `i` is entry `i % 12` of page
      `i / 12 + 1`, which is one of the `TotalPages` pages; every page up to the
      last is non-empty and full but for the last, and pages past it are empty. */
  lemma WindowHome(bikes: seq<Bike>, i: nat)
    requires i < |bikes|
    ensures 1 <= i / ItemsPerPage + 1 <= TotalPages(|bikes|)
    ensures i % ItemsPerPage < |Window(bikes, i / ItemsPerPage + 1)|
    ensures Window(bikes, i / ItemsPerPage + 1)[i % ItemsPerPage] == bikes[i]
  {
    var p := i / ItemsPerPage + 1;
    assert (p - 1) * ItemsPerPage + i % ItemsPerPage == i;
  }

  lemma WindowSizes(bikes: seq<Bike>, page: nat)
    requires page >= 1
    ensures page < TotalPages(|bikes|) ==> |Window(bikes, page)| == ItemsPerPage
    ensures page == TotalPages(|bikes|) ==> 1 <= |Window(bikes, page)|
    ensures page > TotalPages(|bikes|) ==> Window(bikes, page) == []
  {
  }

  /** The page links `updatePagination` draws: from `max(1, p-2)` to
      `min(total, p+2)`. At most five links, all pages that exist and lie
      within two of the current page, in increasing order, and the current
      page among them whenever it exists. */
  function PageLinks(current: int, total: nat): (links: seq<int>)
    ensures |links| <= 5
    ensures forall k :: 0 <= k < |links| ==> 1 <= links[k] <= total && current - 2 <= links[k] <= current + 2
    ensures forall k :: 0 < k < |links| ==> links[k] == links[k - 1] + 1
    ensures 1 <= current <= total ==> current in links
    ensures forall q :: q in links <==> 1 <= q <= total && current - 2 <= q <= current + 2
  {
    var first := if current - 2 > 1 then current - 2 else 1;
    var last := if current + 2 < total then current + 2 else total;
    if first > last then []
    else
      var links := seq(last - first + 1, k => first + k);
      assert forall q :: first <= q <= last ==> q in links by {
        forall q | first <= q <= last ensures q in links {
          assert links[q - first] == q;
        }
      }
      links
  }

  // --------------------------------------------------------------------- page

  class EBikeApp {
    var allBikes: seq<Bike>
    var filteredBikes: seq<Bike>
    var currentPage: int
    var filters: Filters
    var sortBy: string

    ghost predicate Valid()
      reads this
    {
      currentPage >= 1
    }

    constructor()
      ensures Valid()
      ensures allBikes == [] && filteredBikes == [] && currentPage == 1
      ensures filters == NoFilters && sortBy == "name"
    {
      allBikes := [];
      filteredBikes := [];
      currentPage := 1;
      filters := NoFilters;
      sortBy := "name";
    }

    /** `loadBikeData` once the CSV rows have been fetched and parsed. */
    method LoadBikeData(rows: seq<RawRow>, json: JsonReader)
      modifies this
      ensures allBikes == ProcessRawData(rows, json) && filteredBikes == allBikes
      ensures currentPage == old(currentPage) && filters == old(filters) && sortBy == old(sortBy)
    {
      allBikes := ProcessRawData(rows, json);
      filteredBikes := allBikes;
    }

    /** `sortBikes`: sorts the filtered list in place. */
    method SortFiltered()
      modifies this
      ensures filteredBikes == SortBikes(old(filteredBikes), SortOrderOf(sortBy))
      ensures allBikes == old(allBikes) && currentPage == old(currentPage)
      ensures filters == old(filters) && sortBy == old(sortBy)
    {
      filteredBikes := SortBikes(filteredBikes, SortOrderOf(sortBy));
    }

    /** `applyFilters`: filter, re-sort, and go back to the first page. */
    method ApplyFilters()
      modifies this
      ensures Valid()
      ensures filteredBikes == SortBikes(ListingFilter(allBikes, filters), SortOrderOf(sortBy))
      ensures currentPage == 1
      ensures allBikes == old(allBikes) && filters == old(filters) && sortBy == old(sortBy)
    {
      filteredBikes := Filter(allBikes, ListingMatcher(filters));
      SortFiltered();
      currentPage := 1;
    }

    /** The manufacturer select's change handler. */
    method SetManufacturer(value: string)
      modifies this
      ensures Valid()
      ensures filters == old(filters).(manufacturer := value)
      ensures filteredBikes == SortBikes(ListingFilter(allBikes, filters), SortOrderOf(sortBy))
      ensures currentPage == 1 && allBikes == old(allBikes) && sortBy == old(sortBy)
    {
      filters := filters.(manufacturer := value);
      ApplyFilters();
    }

    /** The price select's change handler. */
    method SetPriceRange(value: string)
      modifies this
      ensures Valid()
      ensures filters == old(filters).(priceRange := value)
      ensures filteredBikes == SortBikes(ListingFilter(allBikes, filters), SortOrderOf(sortBy))
      ensures currentPage == 1 && allBikes == old(allBikes) && sortBy == old(sortBy)
    {
      filters := filters.(priceRange := value);
      ApplyFilters();
    }

    /** The search box's input handler. */
    method SetSearch(value: string)
      modifies this
      ensures Valid()
      ensures filters == old(filters).(search := value)
      ensures filteredBikes == SortBikes(ListingFilter(allBikes, filters), SortOrderOf(sortBy))
      ensures currentPage == 1 && allBikes == old(allBikes) && sortBy == old(sortBy)
    {
      filters := filters.(search := value);
      ApplyFilters();
    }

    /** The sort select's change handler: re-sorts without changing the page. */
    method SetSortBy(value: string)
      modifies this
      ensures sortBy == value
      ensures filteredBikes == SortBikes(old(filteredBikes), SortOrderOf(value))
      ensures allBikes == old(allBikes) && currentPage == old(currentPage) && filters == old(filters)
    {
      sortBy := value;
      SortFiltered();
    }

    /** `clearFilters`: every bike is listed again, in sort order, from page 1. */
    method ClearFilters()
      modifies this
      ensures Valid()
      ensures filters == NoFilters
      ensures filteredBikes == SortBikes(allBikes, SortOrderOf(sortBy))
      ensures SortedBy(SortOrderOf(sortBy), filteredBikes) && multiset(filteredBikes) == multiset(allBikes)
      ensures currentPage == 1 && allBikes == old(allBikes) && sortBy == old(sortBy)
    {
      filters := NoFilters;
      ApplyFilters();
      ListingFilterSpec(allBikes, NoFilters);
      SortBikesSorted(allBikes, SortOrderOf(sortBy));
    }

    /** `displayBikes`: the bikes of the current page and the page count;
        nothing is shown for an empty list. */
    method DisplayBikes() returns (shown: seq<Bike>, totalPages: nat)
      requires Valid()
      ensures totalPages == TotalPages(|filteredBikes|)
      ensures shown == Window(filteredBikes, currentPage)
      ensures filteredBikes == [] ==> shown == []
    {
      totalPages := 0;
      shown := [];
      if |filteredBikes| == 0 {
        return;
      }
      totalPages := (|filteredBikes| + ItemsPerPage - 1) / ItemsPerPage;
      var startIndex := (currentPage - 1) * ItemsPerPage;
      var endIndex := if startIndex + ItemsPerPage <= |filteredBikes| then startIndex + ItemsPerPage
        else |filteredBikes|;
      var i := startIndex;
      while i < endIndex
        invariant startIndex <= i <= endIndex || (endIndex < startIndex && i == startIndex)
        invariant i <= endIndex ==> shown == filteredBikes[startIndex..i]
        invariant endIndex < startIndex ==> shown == []
      {
        shown := shown + [filteredBikes[i]];
        i := i + 1;
      }
    }

    /** `updatePagination`: the page links, and whether Previous and Next
        are disabled. */
    method UpdatePagination(totalPages: nat) returns (links: seq<int>, prevDisabled: bool, nextDisabled: bool)
      ensures links == PageLinks(currentPage, totalPages)
      ensures prevDisabled == (currentPage == 1) && nextDisabled == (currentPage == totalPages)
    {
      prevDisabled := currentPage == 1;
      var startPage := if currentPage - 2 > 1 then currentPage - 2 else 1;
      var endPage := if currentPage + 2 < totalPages then currentPage + 2 else totalPages;
      links := [];
      var i := startPage;
      while i <= endPage
        invariant startPage <= i <= endPage + 1 || (endPage < startPage && i == startPage)
        invariant links == seq(i - startPage, k => startPage + k)
      {
        links := links + [i];
        i := i + 1;
      }
      nextDisabled := currentPage == totalPages;
    }

    /** The pagination click handler: a link that is not disabled moves to
        its page when that page exists. */
    method ClickPage(page: int, disabled: bool, totalPages: nat)
      requires Valid()
      modifies this
      ensures Valid()
      ensures currentPage == (if !disabled && 1 <= page <= totalPages then page else old(currentPage))
      ensures allBikes == old(allBikes) && filteredBikes == old(filteredBikes)
      ensures filters == old(filters) && sortBy == old(sortBy)
    {
      if !disabled && page >= 1 && page <= totalPages {
        currentPage := page;
      }
    }
  }
}
