/** The earlier prototype of the dashboard: a hall and meal filter, a log that
    stores foods as they are, and the same totals. */
module Prototype {
  import opened Catalog
  import opened Filters
  import opened DailyLog

  class Tracker {
    var menus: seq<MenuItem>
    var hall: string
    var meal: string
    var dailyLog: seq<MenuItem>

    /** The initial state: an empty catalog, nothing selected, an empty log. */
    constructor()
      ensures menus == [] && hall == "" && meal == "" && dailyLog == []
    {
      menus := [];
      hall := "";
      meal := "";
      dailyLog := [];
    }

    /** `setMenus(data.menus)` once the catalog has arrived. */
    method LoadMenus(catalog: seq<MenuItem>)
      modifies this
      ensures menus == catalog
      ensures hall == old(hall) && meal == old(meal) && dailyLog == old(dailyLog)
    {
      menus := catalog;
    }

    /** `setHall(value)` from the hall selector. */
    method SelectHall(value: string)
      modifies this
      ensures hall == value
      ensures menus == old(menus) && meal == old(meal) && dailyLog == old(dailyLog)
    {
      hall := value;
    }

    /** `setMeal(value)` from the meal selector. */
    method SelectMeal(value: string)
      modifies this
      ensures meal == value
      ensures menus == old(menus) && hall == old(hall) && dailyLog == old(dailyLog)
    {
      meal := value;
    }

    /** `addToLog(food)`: the food itself goes at the end of the log. */
    method AddToLog(food: MenuItem)
      modifies this
      ensures dailyLog == old(dailyLog) + [food]
      ensures menus == old(menus) && hall == old(hall) && meal == old(meal)
      ensures Totals() == AddTotals(old(Totals()), Contribution(food))
    {
      dailyLog := dailyLog + [food];
      TotalsAppend(old(dailyLog), food);
    }

    /** `removeFromLog(index)`: splice entry `index` out of a copy of the log. */
    method RemoveFromLog(index: nat)
      modifies this
      ensures dailyLog == RemoveAt(old(dailyLog), index)
      ensures menus == old(menus) && hall == old(hall) && meal == old(meal)
    {
      var updatedLog := SpliceOut(dailyLog, index);
      dailyLog := updatedLog;
    }

    /** The prototype's `filteredMenus`. */
    function FilteredMenus(): seq<MenuItem>
      reads this
    {
      HallMealFilter(menus, hall, meal)
    }

    /** `totals`. */
    function Totals(): DailyLog.Totals
      reads this
    {
      TotalsOf(dailyLog)
    }
  }
}
