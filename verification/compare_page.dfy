/** The comparison page (src/web/js/compare.js): the bikes on offer, the
    filtered selection grid, and the selection of at most four bikes whose
    specifications are compared side by side. */
module ComparePage {
  import opened Options
  import opened Text
  import opened Bikes

  /** `this.maxSelection`. */
  const MaxSelection := 4

  /** The selection grid shows at most this many bikes. */
  const GridLimit := 20

  /** `bikes.findIndex(b => b.id === id)`: the position of the first record
      with that id. */
  function IndexOfId(bikes: seq<Bike>, id: string): (r: Option<nat>)
    ensures r.Some? ==> r.value < |bikes| && bikes[r.value].id == id
    ensures r.Some? ==> forall j :: 0 <= j < r.value ==> bikes[j].id != id
    ensures r.None? ==> forall j :: 0 <= j < |bikes| ==> bikes[j].id != id
    decreases |bikes|
  {
    if bikes == [] then None
    else if bikes[0].id == id then Some(0)
    else match IndexOfId(bikes[1..], id)
      case None => None
      case Some(k) => Some(k + 1)
  }

  /** `bikes.find(b => b.id === id)`: the first record with that id. */
  function FindBike(bikes: seq<Bike>, id: string): (r: Option<Bike>)
    ensures r.Some? ==> r.value.id == id && r.value in bikes
    ensures r.None? ==> forall j :: 0 <= j < |bikes| ==> bikes[j].id != id
  {
    match IndexOfId(bikes, id)
    case None => None
    case Some(k) => Some(bikes[k])
  }

  /** The first record with `id` sits at position `k`. */
  predicate FirstWithId(bikes: seq<Bike>, id: string, k: nat) {
    k < |bikes| && bikes[k].id == id && forall j :: 0 <= j < k ==> bikes[j].id != id
  }

  lemma FindFirst(bikes: seq<Bike>, id: string, k: nat)
    requires FirstWithId(bikes, id, k)
    ensures IndexOfId(bikes, id) == Some(k) && FindBike(bikes, id) == Some(bikes[k])
  {
  }

  // ---------------------------------------------------------------- filtering

  /** The grid's filter: an exact manufacturer match when one is chosen, and
      the lower-cased search text inside name, description and manufacturer
      joined by spaces. */
  predicate MatchesSelection(b: Bike, manufacturer: string, search: string) {
    (manufacturer == "" || b.manufacturer == manufacturer) &&
    (search == "" || Includes(Lower(Join([b.name, b.description, b.manufacturer], ' ')), search))
  }

  /** The grid's filter as the callback `filter` receives. */
  function Matcher(manufacturer: string, search: string): Bike -> bool {
    b => MatchesSelection(b, manufacturer, search)
  }

  function SelectionFilter(bikes: seq<Bike>, manufacturer: string, search: string): (r: seq<Bike>)
    ensures |r| <= |bikes|
  {
    Filter(bikes, Matcher(manufacturer, search))
  }

  /** The filtered grid is the subsequence of the bikes that match, in their
      order; with neither a manufacturer nor a search text it is every bike. */
  lemma SelectionFilterSpec(bikes: seq<Bike>, manufacturer: string, search: string)
    ensures exists idx: seq<nat> :: FiltersAt(bikes, Matcher(manufacturer, search), idx)
    ensures forall b :: b in SelectionFilter(bikes, manufacturer, search) ==>
      b in bikes && (manufacturer == "" || b.manufacturer == manufacturer)
    ensures manufacturer == "" && search == "" ==> SelectionFilter(bikes, manufacturer, search) == bikes
  {
    FilterInOrder(bikes, Matcher(manufacturer, search));
    FilterMembers(bikes, Matcher(manufacturer, search));
    if manufacturer == "" && search == "" {
      FilterAll(bikes, Matcher(manufacturer, search));
    }
  }

  /** `filteredBikes.slice(0, 20)`: the bikes the grid shows. */
  function Grid(filtered: seq<Bike>): (r: seq<Bike>)
    ensures |r| <= GridLimit
    ensures r <= filtered
    ensures |filtered| <= GridLimit ==> r == filtered
  {
    if |filtered| <= GridLimit then filtered else filtered[..GridLimit]
  }

  // ---------------------------------------------------------------- selection

  /** The selection after `toggleBike(id)`. */
  function Toggled(all: seq<Bike>, selected: seq<Bike>, id: string): (r: seq<Bike>)
    ensures |selected| <= MaxSelection ==> |r| <= MaxSelection
  {
    match FindBike(all, id)
    case None => selected
    case Some(bike) =>
      match IndexOfId(selected, id)
      case Some(k) => selected[..k] + selected[k + 1..]
      case None => if |selected| < MaxSelection then selected + [bike] else selected
  }

  /** An id that no bike carries leaves the selection as it is. */
  lemma ToggleUnknown(all: seq<Bike>, selected: seq<Bike>, id: string)
    requires forall j :: 0 <= j < |all| ==> all[j].id != id
    ensures Toggled(all, selected, id) == selected
  {
  }

  /** Toggling a selected bike removes exactly its first entry and keeps the
      others in order. */
  lemma ToggleRemoves(all: seq<Bike>, selected: seq<Bike>, id: string, k: nat)
    requires exists j :: 0 <= j < |all| && all[j].id == id
    requires FirstWithId(selected, id, k)
    ensures Toggled(all, selected, id) == selected[..k] + selected[k + 1..]
    ensures |Toggled(all, selected, id)| == |selected| - 1
  {
    FindFirst(selected, id, k);
  }

  /** Toggling an unselected bike appends the first bike with that id while
      fewer than four are selected, and changes nothing once four are. */
  lemma ToggleAdds(all: seq<Bike>, selected: seq<Bike>, id: string, i: nat)
    requires FirstWithId(all, id, i)
    requires forall j :: 0 <= j < |selected| ==> selected[j].id != id
    ensures |selected| < MaxSelection ==> Toggled(all, selected, id) == selected + [all[i]]
    ensures |selected| >= MaxSelection ==> Toggled(all, selected, id) == selected
  {
    FindFirst(all, id, i);
  }

  /** Selecting a bike and toggling it again restores the selection. */
  lemma ToggleTwice(all: seq<Bike>, selected: seq<Bike>, id: string)
    requires exists j :: 0 <= j < |all| && all[j].id == id
    requires forall j :: 0 <= j < |selected| ==> selected[j].id != id
    requires |selected| < MaxSelection
    ensures Toggled(all, Toggled(all, selected, id), id) == selected
  {
    var bike := FindBike(all, id).value;
    var once := selected + [bike];
    assert Toggled(all, selected, id) == once;
    assert FirstWithId(once, id, |selected|);
    FindFirst(once, id, |selected|);
    assert once[..|selected|] + once[|selected| + 1..] == selected;
  }

  // ---------------------------------------------------------- URL parameters

  /** The bikes the URL's ids name, in URL order; unknown ids are skipped. */
  function Found(all: seq<Bike>, ids: seq<string>): (r: seq<Bike>)
    ensures |r| <= |ids|
    ensures forall b :: b in r ==> b in all
    decreases |ids|
  {
    if ids == [] then []
    else
      var init := Found(all, ids[..|ids| - 1]);
      match FindBike(all, ids[|ids| - 1])
      case None => init
      case Some(b) => init + [b]
  }

  /** The selection after `checkUrlParams` walks `ids`: each found bike is
      pushed while fewer than four are selected, with no duplicate check. */
  function UrlSelection(all: seq<Bike>, selected: seq<Bike>, ids: seq<string>): (r: seq<Bike>)
    ensures |selected| <= |r| && r[..|selected|] == selected
    ensures |selected| <= MaxSelection ==> |r| <= MaxSelection
    ensures forall k :: |selected| <= k < |r| ==> r[k] in all
    decreases |ids|
  {
    if ids == [] then selected
    else
      var init := UrlSelection(all, selected, ids[..|ids| - 1]);
      match FindBike(all, ids[|ids| - 1])
      case Some(b) => if |init| < MaxSelection then init + [b] else init
      case None => init
  }

  function Min(a: nat, b: nat): nat {
    if a <= b then a else b
  }

  /** Reading the URL appends the found bikes, in URL order, to the existing
      selection and stops at four. */
  lemma {:induction false} UrlSelectionSpec(all: seq<Bike>, selected: seq<Bike>, ids: seq<string>)
    requires |selected| <= MaxSelection
    ensures UrlSelection(all, selected, ids) ==
      (selected + Found(all, ids))[..Min(MaxSelection, |selected| + |Found(all, ids)|)]
    decreases |ids|
  {
    if ids != [] {
      var front := ids[..|ids| - 1];
      UrlSelectionSpec(all, selected, front);
      var f := Found(all, front);
      var m := Min(MaxSelection, |selected| + |f|);
      match FindBike(all, ids[|ids| - 1])
      case None =>
      case Some(b) =>
        assert Found(all, ids) == f + [b];
        if |selected| + |f| < MaxSelection {
          assert (selected + (f + [b]))[..m + 1] == (selected + f)[..m] + [b];
        } else {
          assert (selected + (f + [b]))[..MaxSelection] == (selected + f)[..MaxSelection];
        }
    }
  }

  /** The same id twice in the URL selects its bike twice. */
  lemma UrlDuplicates(all: seq<Bike>, id: string, i: nat)
    requires FirstWithId(all, id, i)
    ensures UrlSelection(all, [], [id, id]) == [all[i], all[i]]
  {
    FindFirst(all, id, i);
    assert [id][..0] == [];
    assert UrlSelection(all, [], [id]) == [all[i]];
    assert [id, id][..1] == [id];
  }

  /** Removing a bike selected twice takes away only one of its entries. */
  lemma DuplicateStaysSelected(all: seq<Bike>, id: string, i: nat)
    requires FirstWithId(all, id, i)
    ensures Toggled(all, [all[i], all[i]], id) == [all[i]]
  {
    FindFirst(all, id, i);
    FindFirst([all[i], all[i]], id, 0);
  }

  // --------------------------------------------------------------------- page

  class EBikeCompare {
    var allBikes: seq<Bike>
    var filteredBikes: seq<Bike>
    var selectedBikes: seq<Bike>
    /** Whether the compare button is disabled. */
    var compareDisabled: bool
    /** Whether the comparison table is shown in place of the selection. */
    var comparisonShown: bool

    /** At most four bikes are selected, and the compare button is disabled
        exactly while fewer than two are. */
    ghost predicate Valid()
      reads this
    {
      |selectedBikes| <= MaxSelection && compareDisabled == (|selectedBikes| < 2)
    }

    constructor()
      ensures Valid()
      ensures allBikes == [] && filteredBikes == [] && selectedBikes == []
      ensures !comparisonShown
    {
      allBikes := [];
      filteredBikes := [];
      selectedBikes := [];
      compareDisabled := true;
      comparisonShown := false;
    }

    /** `loadBikeData` once the CSV rows have been fetched and parsed. */
    method LoadBikeData(rows: seq<RawRow>, json: JsonReader)
      modifies this
      ensures allBikes == ProcessRawData(rows, json) && filteredBikes == allBikes
      ensures selectedBikes == old(selectedBikes) && compareDisabled == old(compareDisabled)
      ensures comparisonShown == old(comparisonShown)
    {
      allBikes := ProcessRawData(rows, json);
      filteredBikes := allBikes;
    }

    /** `applyFilters` with the manufacturer and search inputs' values. */
    method ApplyFilters(manufacturerInput: string, searchInput: string)
      modifies this
      ensures filteredBikes == SelectionFilter(allBikes, manufacturerInput, Lower(searchInput))
      ensures allBikes == old(allBikes) && selectedBikes == old(selectedBikes)
      ensures compareDisabled == old(compareDisabled) && comparisonShown == old(comparisonShown)
    {
      var search := Lower(searchInput);
      filteredBikes := Filter(allBikes, Matcher(manufacturerInput, search));
    }

    /** `updateCompareButton`. */
    method UpdateCompareButton()
      modifies this
      ensures compareDisabled == (|selectedBikes| < 2)
      ensures allBikes == old(allBikes) && filteredBikes == old(filteredBikes)
      ensures selectedBikes == old(selectedBikes) && comparisonShown == old(comparisonShown)
    {
      compareDisabled := |selectedBikes| < 2;
    }

    method ToggleBike(bikeId: string)
      requires Valid()
      modifies this
      ensures Valid()
      ensures selectedBikes == Toggled(old(allBikes), old(selectedBikes), bikeId)
      ensures allBikes == old(allBikes) && filteredBikes == old(filteredBikes)
      ensures comparisonShown == old(comparisonShown)
    {
      var bike := FindBike(allBikes, bikeId);
      if bike.None? {
        return;
      }
      var existing := IndexOfId(selectedBikes, bikeId);
      if existing.Some? {
        selectedBikes := selectedBikes[..existing.value] + selectedBikes[existing.value + 1..];
      } else if |selectedBikes| < MaxSelection {
        selectedBikes := selectedBikes + [bike.value];
      }
      UpdateCompareButton();
    }

    /** `showComparison`: only with at least two bikes selected. */
    method ShowComparison()
      modifies this
      ensures comparisonShown == (old(comparisonShown) || |selectedBikes| >= 2)
      ensures allBikes == old(allBikes) && filteredBikes == old(filteredBikes)
      ensures selectedBikes == old(selectedBikes) && compareDisabled == old(compareDisabled)
    {
      if |selectedBikes| < 2 {
        return;
      }
      comparisonShown := true;
    }

    method ResetComparison()
      modifies this
      ensures Valid()
      ensures selectedBikes == [] && !comparisonShown
      ensures allBikes == old(allBikes) && filteredBikes == old(filteredBikes)
    {
      comparisonShown := false;
      selectedBikes := [];
      UpdateCompareButton();
    }

    /** `checkUrlParams` with the `bikes` query parameter (`None` when absent). */
    method CheckUrlParams(bikesParam: Option<string>)
      requires Valid()
      modifies this
      ensures Valid()
      ensures allBikes == old(allBikes) && filteredBikes == old(filteredBikes)
      ensures bikesParam.None? || bikesParam.value == "" ==>
        selectedBikes == old(selectedBikes) && comparisonShown == old(comparisonShown)
      ensures bikesParam.Some? && bikesParam.value != "" ==>
        selectedBikes == UrlSelection(old(allBikes), old(selectedBikes), Split(bikesParam.value, ',')) &&
        comparisonShown == (old(comparisonShown) || |selectedBikes| >= 2)
    {
      if bikesParam.None? || bikesParam.value == "" {
        return;
      }
      var ids := Split(bikesParam.value, ',');
      ghost var start := selectedBikes;
      for i := 0 to |ids|
        invariant selectedBikes == UrlSelection(allBikes, start, ids[..i])
        invariant |start| <= |selectedBikes| <= MaxSelection
        invariant allBikes == old(allBikes) && filteredBikes == old(filteredBikes)
        invariant compareDisabled == old(compareDisabled) && comparisonShown == old(comparisonShown)
      {
        assert ids[..i + 1][..i] == ids[..i];
        var bike := FindBike(allBikes, ids[i]);
        if bike.Some? && |selectedBikes| < MaxSelection {
          selectedBikes := selectedBikes + [bike.value];
        }
      }
      assert ids[..|ids|] == ids;
      if |selectedBikes| >= 2 {
        UpdateCompareButton();
        ShowComparison();
      }
    }
  }
}
