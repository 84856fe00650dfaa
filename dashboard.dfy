/** The dining dashboard component: its state and the operations that change it.

    The React state hooks become fields, each setter call becomes an
    assignment, and the effect that resets the station becomes `Reconcile`,
    run at the end of every operation that changes one of the effect's
    dependencies (the catalog, the hall, the meal or the station). */
module App {
  import opened Catalog
  import opened Filters
  import opened DailyLog

  class Dashboard {
    var menus: seq<MenuItem>
    var hall: string
    var meal: string
    var station: string
    var searchTerm: string
    var dailyLog: seq<MenuItem>

    /** The station reset has nothing left to do. */
    predicate Settled()
      reads this
    {
      ReconciledStation(menus, hall, meal, station) == station
    }

    /** The initial state: an empty catalog, nothing selected, an empty log. */
    constructor()
      ensures menus == [] && hall == "" && meal == "" && station == "" && searchTerm == "" && dailyLog == []
      ensures Settled()
    {
      menus := [];
      hall := "";
      meal := "";
      station := "";
      searchTerm := "";
      dailyLog := [];
    }

    /** The station-reset effect. */
    method Reconcile()
      modifies this
      ensures station == ReconciledStation(old(menus), old(hall), old(meal), old(station))
      ensures menus == old(menus) && hall == old(hall) && meal == old(meal)
      ensures searchTerm == old(searchTerm) && dailyLog == old(dailyLog)
      ensures Settled()
    {
      if |menus| > 0 {
        var availableStations := StationSet(menus, hall, meal);
        if station != "" && station !in availableStations {
          station := "";
        }
      }
      ReconciledStationIdempotent(menus, hall, meal, old(station));
    }

    /** `setMenus(data.menus || [])` once the catalog has arrived. */
    method LoadMenus(catalog: seq<MenuItem>)
      modifies this
      ensures menus == catalog
      ensures station == ReconciledStation(catalog, hall, meal, old(station))
      ensures hall == old(hall) && meal == old(meal) && searchTerm == old(searchTerm) && dailyLog == old(dailyLog)
      ensures Settled()
    {
      menus := catalog;
      Reconcile();
    }

    /** `setHall(value)` from the hall selector. */
    method SelectHall(value: string)
      modifies this
      ensures hall == value
      ensures station == ReconciledStation(menus, value, meal, old(station))
      ensures menus == old(menus) && meal == old(meal) && searchTerm == old(searchTerm) && dailyLog == old(dailyLog)
      ensures Settled()
    {
      hall := value;
      Reconcile();
    }

    /** `setMeal(value)` from the meal selector. */
    method SelectMeal(value: string)
      modifies this
      ensures meal == value
      ensures station == ReconciledStation(menus, hall, value, old(station))
      ensures menus == old(menus) && hall == old(hall) && searchTerm == old(searchTerm) && dailyLog == old(dailyLog)
      ensures Settled()
    {
      meal := value;
      Reconcile();
    }

    /** `setStation(value)` from the station selector. */
    method SelectStation(value: string)
      modifies this
      ensures station == ReconciledStation(menus, hall, meal, value)
      ensures menus == old(menus) && hall == old(hall) && meal == old(meal)
      ensures searchTerm == old(searchTerm) && dailyLog == old(dailyLog)
      ensures Settled()
    {
      station := value;
      Reconcile();
    }

    /** `setSearchTerm(value)` from the search box; the search term is not a
        dependency of the station reset. */
    method SetSearchTerm(value: string)
      modifies this
      ensures searchTerm == value
      ensures menus == old(menus) && hall == old(hall) && meal == old(meal) && station == old(station)
      ensures dailyLog == old(dailyLog)
      ensures old(Settled()) ==> Settled()
    {
      searchTerm := value;
    }

    /** `addToLog(food, quantity)`: the scaled entry goes at the end of the log. */
    method AddToLog(food: MenuItem, quantity: nat)
      modifies this
      ensures dailyLog == old(dailyLog) + [LogEntryFor(food, quantity)]
      ensures menus == old(menus) && hall == old(hall) && meal == old(meal) && station == old(station)
      ensures searchTerm == old(searchTerm)
      ensures Totals() == AddTotals(old(Totals()), Contribution(LogEntryFor(food, quantity)))
      ensures old(Settled()) ==> Settled()
    {
      dailyLog := dailyLog + [LogEntryFor(food, quantity)];
      TotalsAppend(old(dailyLog), LogEntryFor(food, quantity));
    }

    /** `removeFromLog(index)`: splice entry `index` out of a copy of the log. */
    method RemoveFromLog(index: nat)
      modifies this
      ensures dailyLog == RemoveAt(old(dailyLog), index)
      ensures menus == old(menus) && hall == old(hall) && meal == old(meal) && station == old(station)
      ensures searchTerm == old(searchTerm)
      ensures index < |old(dailyLog)| ==> old(Totals()) == AddTotals(Totals(), Contribution(old(dailyLog)[index]))
      ensures old(Settled()) ==> Settled()
    {
      var updatedLog := SpliceOut(dailyLog, index);
      dailyLog := updatedLog;
      if index < |old(dailyLog)| {
        TotalsAfterRemove(old(dailyLog), index);
      }
    }

    /** `clearAllFilters()`. */
    method ClearAllFilters()
      modifies this
      ensures hall == "" && meal == "" && station == "" && searchTerm == ""
      ensures menus == old(menus) && dailyLog == old(dailyLog)
      ensures !HasActiveFilters()
      ensures Settled()
    {
      hall := "";
      meal := "";
      station := "";
      searchTerm := "";
    }

    /** `stations`, the options of the station selector. */
    function Stations(): seq<string>
      reads this
    {
      AvailableStations(menus, hall, meal)
    }

    /** The `filteredMenus` shown as cards. */
    function Visible(): seq<MenuItem>
      reads this
    {
      FilteredMenus(menus, hall, meal, station, searchTerm)
    }

    /** `totals`. */
    function Totals(): DailyLog.Totals
      reads this
    {
      TotalsOf(dailyLog)
    }

    /** `hasActiveFilters`, read as a condition. */
    predicate HasActiveFilters()
      reads this
    {
      ActiveFilters(hall, meal, station, searchTerm) != ""
    }
  }
}
