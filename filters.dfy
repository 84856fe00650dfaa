/** The dashboard's filter state and what it derives: the stations offered for
    the selected hall and meal, the items shown, the station reset that runs
    when the selection changes, and the "active filters" flag.

    Every selection is a string, and `""` means "unselected". */
module Filters {
  import opened Catalog
  import opened Seqs
  import opened JsString
  import opened StringOrder

  // ---------------------------------------------------------------- matching one item

  /** `hall === "" || item.hall === hall` */
  predicate HallMatches(item: MenuItem, hall: string) {
    hall == "" || item.hall == Some(hall)
  }

  /** `meal === "" || item.meal === meal` */
  predicate MealMatches(item: MenuItem, meal: string) {
    meal == "" || item.meal == Some(meal)
  }

  /** `station === "" || item.station === station` */
  predicate StationMatches(item: MenuItem, station: string) {
    station == "" || item.station == Some(station)
  }

  /** `searchTerm === "" || item.name?.toLowerCase().includes(searchTerm.toLowerCase())`;
      an item without a name yields `undefined`, which is falsy. */
  predicate SearchMatches(item: MenuItem, term: string) {
    term == "" || (item.name.Some? && Includes(ToLowerCase(item.name.value), ToLowerCase(term)))
  }

  /** The predicate `filteredMenus` keeps an item by. */
  predicate Keep(item: MenuItem, hall: string, meal: string, station: string, term: string) {
    HallMatches(item, hall) && MealMatches(item, meal) && StationMatches(item, station) && SearchMatches(item, term)
  }

  /** `Keep` with its selections fixed, as the filter callback. */
  function KeepBy(hall: string, meal: string, station: string, term: string): MenuItem -> bool {
    item => Keep(item, hall, meal, station, term)
  }

  /** The search ignores letter case: a term and its lower-case form select the same items. */
  lemma SearchIgnoresCase(item: MenuItem, term: string)
    ensures SearchMatches(item, ToLowerCase(term)) == SearchMatches(item, term)
  {
    ToLowerCaseIdempotent(term);
    assert ToLowerCase(term) == "" <==> term == "" by {
      assert |ToLowerCase(term)| == |term|;
    }
  }

  /** A non-empty term matches exactly the named items whose lower-cased name
      contains the lower-cased term at some position. */
  lemma SearchMeaning(item: MenuItem, term: string)
    requires term != ""
    ensures SearchMatches(item, term) <==>
            item.name.Some? && exists k :: OccursAt(ToLowerCase(item.name.value), ToLowerCase(term), k)
  {
  }

  /** A non-empty term never matches an item without a name, nor one whose
      name is shorter than the term. */
  lemma SearchTooLong(item: MenuItem, term: string)
    ensures term != "" && (item.name.None? || |term| > |item.name.value|) ==> !SearchMatches(item, term)
  {
    if term != "" && item.name.Some? && |term| > |item.name.value| {
      assert |ToLowerCase(term)| > |ToLowerCase(item.name.value)|;
      assert forall k :: !OccursAt(ToLowerCase(item.name.value), ToLowerCase(term), k);
    }
  }

  /** Two terms equal up to ASCII letter case select the same items. */
  lemma SearchCaseInsensitive(item: MenuItem, a: string, b: string)
    requires EqualIgnoringCase(a, b)
    ensures SearchMatches(item, a) == SearchMatches(item, b)
  {
    EqualIgnoringCaseLower(a, b);
  }

  // ---------------------------------------------------------------- the hall and meal restriction

  /** The hall and meal restriction as the station list computes it: filter by
      hall when one is selected, then by meal when one is selected. */
  function RestrictHallMeal(menus: seq<MenuItem>, hall: string, meal: string): seq<MenuItem> {
    var byHall := if hall != "" then Filter(menus, AtHall(hall)) else menus;
    if meal != "" then Filter(byHall, AtMeal(meal)) else byHall
  }

  /** `item => item.hall === hall` */
  function AtHall(hall: string): MenuItem -> bool {
    (item: MenuItem) => item.hall == Some(hall)
  }

  /** `item => item.meal === meal` */
  function AtMeal(meal: string): MenuItem -> bool {
    (item: MenuItem) => item.meal == Some(meal)
  }

  /** The prototype's filter callback: hall and meal each match or are unselected. */
  function HallMealBy(hall: string, meal: string): MenuItem -> bool {
    item => HallMatches(item, hall) && MealMatches(item, meal)
  }

  /** One pass keeping the items whose hall and meal each match or are unselected;
      this is the prototype's `filteredMenus`. */
  function HallMealFilter(menus: seq<MenuItem>, hall: string, meal: string): seq<MenuItem> {
    Filter(menus, HallMealBy(hall, meal))
  }

  /** The two conditional filters do what the single combined filter does. */
  lemma RestrictHallMealIsFilter(menus: seq<MenuItem>, hall: string, meal: string)
    ensures RestrictHallMeal(menus, hall, meal) == HallMealFilter(menus, hall, meal)
  {
    var both, hp, mp := HallMealBy(hall, meal), AtHall(hall), AtMeal(meal);
    if hall == "" && meal == "" {
      FilterAll(menus, both);
    } else if hall == "" {
      FilterCongruent(menus, mp, both);
    } else if meal == "" {
      FilterCongruent(menus, hp, both);
    } else {
      FilterFilter(menus, hp, mp, both);
    }
  }

  /** The hall and meal restriction keeps, in order, exactly the items that match both selections. */
  lemma HallMealFilterSpec(menus: seq<MenuItem>, hall: string, meal: string)
    ensures IsSubsequence(HallMealFilter(menus, hall, meal), menus)
    ensures forall item :: item in HallMealFilter(menus, hall, meal) <==>
              item in menus && HallMatches(item, hall) && MealMatches(item, meal)
    ensures forall item :: multiset(HallMealFilter(menus, hall, meal))[item] ==
              if HallMatches(item, hall) && MealMatches(item, meal) then multiset(menus)[item] else 0
  {
    var both := HallMealBy(hall, meal);
    FilterIsSubsequence(menus, both);
    FilterMembership(menus, both);
    FilterMultiset(menus, both);
  }

  // ---------------------------------------------------------------- available stations

  /** `items.map(item => item.station).filter(Boolean)`: the non-empty stations, in order. */
  function StationNames(items: seq<MenuItem>): (r: seq<string>)
    ensures forall st :: st in r <==> st != "" && exists item :: item in items && item.station == Some(st)
    decreases |items|
  {
    if items == [] then []
    else
      var rest := StationNames(items[1..]);
      assert forall item :: item in items <==> item == items[0] || item in items[1..];
      if Truthy(items[0].station) then [items[0].station.value] + rest else rest
  }

  /** `st` is a station some catalog item of the selected hall and meal is served at. */
  ghost predicate IsAvailable(menus: seq<MenuItem>, hall: string, meal: string, st: string) {
    st != "" &&
    exists item :: item in menus && HallMatches(item, hall) && MealMatches(item, meal) && item.station == Some(st)
  }

  /** `getAvailableStations()`. */
  function AvailableStations(menus: seq<MenuItem>, hall: string, meal: string): seq<string> {
    Sort(Distinct(StationNames(RestrictHallMeal(menus, hall, meal))))
  }

  /** The station list before sorting, as the station reset builds it. */
  function StationSet(menus: seq<MenuItem>, hall: string, meal: string): seq<string> {
    Distinct(StationNames(RestrictHallMeal(menus, hall, meal)))
  }

  lemma StationSetMembership(menus: seq<MenuItem>, hall: string, meal: string)
    ensures NoDuplicates(StationSet(menus, hall, meal))
    ensures forall st :: st in StationSet(menus, hall, meal) <==> IsAvailable(menus, hall, meal, st)
  {
    RestrictHallMealIsFilter(menus, hall, meal);
    HallMealFilterSpec(menus, hall, meal);
  }

  /** The stations offered are strictly ascending, so without repeats, and they
      are exactly the available stations. */
  lemma AvailableStationsSpec(menus: seq<MenuItem>, hall: string, meal: string)
    ensures StrictlySorted(AvailableStations(menus, hall, meal))
    ensures NoDuplicates(AvailableStations(menus, hall, meal))
    ensures forall st :: st in AvailableStations(menus, hall, meal) <==> IsAvailable(menus, hall, meal, st)
  {
    var d := StationSet(menus, hall, meal);
    StationSetMembership(menus, hall, meal);
    SortSpec(d);
    StrictlySortedNoDuplicates(Sort(d));
    forall st
      ensures st in Sort(d) <==> st in d
    {
      assert st in Sort(d) <==> st in multiset(Sort(d));
    }
  }

  /** The station list is the only strictly ascending list of the available stations. */
  lemma AvailableStationsUnique(menus: seq<MenuItem>, hall: string, meal: string, s: seq<string>)
    requires StrictlySorted(s)
    requires forall st :: st in s <==> IsAvailable(menus, hall, meal, st)
    ensures s == AvailableStations(menus, hall, meal)
  {
    AvailableStationsSpec(menus, hall, meal);
    StrictlySortedUnique(s, AvailableStations(menus, hall, meal));
  }

  // ---------------------------------------------------------------- filtered menus

  /** `filteredMenus`. */
  function FilteredMenus(menus: seq<MenuItem>, hall: string, meal: string, station: string, term: string): seq<MenuItem> {
    Filter(menus, KeepBy(hall, meal, station, term))
  }

  /** The items shown are the catalog items that match every selection, each as
      often as in the catalog and in catalog order. */
  lemma FilteredMenusSpec(menus: seq<MenuItem>, hall: string, meal: string, station: string, term: string)
    ensures IsSubsequence(FilteredMenus(menus, hall, meal, station, term), menus)
    ensures forall item :: item in FilteredMenus(menus, hall, meal, station, term) <==>
              item in menus && Keep(item, hall, meal, station, term)
    ensures forall item :: multiset(FilteredMenus(menus, hall, meal, station, term))[item] ==
              if Keep(item, hall, meal, station, term) then multiset(menus)[item] else 0
  {
    var keep := KeepBy(hall, meal, station, term);
    FilterIsSubsequence(menus, keep);
    FilterMembership(menus, keep);
    FilterMultiset(menus, keep);
  }

  /** Filtering the shown items again with the same selections changes nothing. */
  lemma FilteredMenusIdempotent(menus: seq<MenuItem>, hall: string, meal: string, station: string, term: string)
    ensures FilteredMenus(FilteredMenus(menus, hall, meal, station, term), hall, meal, station, term)
         == FilteredMenus(menus, hall, meal, station, term)
  {
    FilterIdempotent(menus, KeepBy(hall, meal, station, term));
  }

  /** With nothing selected, every catalog item is shown. */
  lemma NoSelectionShowsAll(menus: seq<MenuItem>)
    ensures FilteredMenus(menus, "", "", "", "") == menus
  {
    FilterAll(menus, KeepBy("", "", "", ""));
  }

  /** Without a station or a search term, the dashboard shows what the prototype's hall and meal filter shows. */
  lemma FilteredMenusWithoutStationOrSearch(menus: seq<MenuItem>, hall: string, meal: string)
    ensures FilteredMenus(menus, hall, meal, "", "") == HallMealFilter(menus, hall, meal)
  {
    FilterCongruent(menus, KeepBy(hall, meal, "", ""), HallMealBy(hall, meal));
  }

  /** Narrowing by a search term never shows an item the empty search hides. */
  lemma SearchNarrows(menus: seq<MenuItem>, hall: string, meal: string, station: string, term: string)
    ensures IsSubsequence(FilteredMenus(menus, hall, meal, station, term), FilteredMenus(menus, hall, meal, station, ""))
  {
    var p := KeepBy(hall, meal, station, "");
    var q := (item: MenuItem) => SearchMatches(item, term);
    FilterFilter(menus, p, q, KeepBy(hall, meal, station, term));
    FilterIsSubsequence(Filter(menus, p), q);
  }

  /** Choosing any offered station shows at least one item. */
  lemma OfferedStationShowsItems(menus: seq<MenuItem>, hall: string, meal: string, station: string)
    requires station in AvailableStations(menus, hall, meal)
    ensures FilteredMenus(menus, hall, meal, station, "") != []
  {
    AvailableStationsSpec(menus, hall, meal);
    var item :| item in menus && HallMatches(item, hall) && MealMatches(item, meal) && item.station == Some(station);
    FilteredMenusSpec(menus, hall, meal, station, "");
    assert item in FilteredMenus(menus, hall, meal, station, "");
  }

  // ---------------------------------------------------------------- station reset

  /** The station after the reset effect: with a non-empty catalog, a selected
      station that is not among the current hall and meal's stations becomes `""`. */
  function ReconciledStation(menus: seq<MenuItem>, hall: string, meal: string, station: string): string {
    if |menus| > 0 && station != "" && station !in StationSet(menus, hall, meal) then "" else station
  }

  /** The reset clears exactly an unavailable station when the catalog is loaded,
      and otherwise leaves the station as it is. */
  lemma ReconciledStationSpec(menus: seq<MenuItem>, hall: string, meal: string, station: string)
    ensures var s := ReconciledStation(menus, hall, meal, station);
            && (|menus| > 0 && station != "" && !IsAvailable(menus, hall, meal, station) ==> s == "")
            && (IsAvailable(menus, hall, meal, station) ==> s == station)
            && (menus == [] ==> s == station)
            && (station == "" ==> s == "")
  {
    StationSetMembership(menus, hall, meal);
  }

  /** After the reset, the station is unselected or offered, or the catalog is still empty. */
  lemma ReconciledStationSettled(menus: seq<MenuItem>, hall: string, meal: string, station: string)
    ensures var s := ReconciledStation(menus, hall, meal, station);
            menus == [] || s == "" || s in AvailableStations(menus, hall, meal)
  {
    StationSetMembership(menus, hall, meal);
    AvailableStationsSpec(menus, hall, meal);
  }

  /** Running the reset a second time changes nothing. */
  lemma ReconciledStationIdempotent(menus: seq<MenuItem>, hall: string, meal: string, station: string)
    ensures var s := ReconciledStation(menus, hall, meal, station);
            ReconciledStation(menus, hall, meal, s) == s
  {
  }

  // ---------------------------------------------------------------- active filters

  /** `hall || meal || station || searchTerm`: the first non-empty selection, or the last one. */
  function ActiveFilters(hall: string, meal: string, station: string, term: string): (r: string)
    ensures r != "" <==> hall != "" || meal != "" || station != "" || term != ""
    ensures r == hall || r == meal || r == station || r == term
  {
    if hall != "" then hall
    else if meal != "" then meal
    else if station != "" then station
    else term
  }
}
