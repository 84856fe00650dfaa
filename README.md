# Dining menu dashboard: the derived-state engine

This project models the state engine of the UMass dining menu dashboard, a
React single-page component, and of its earlier prototype. It then proves
what the dashboard derives from that state. The state is:

- the catalog of menu items;
- four selections (dining hall, meal, station and a search term), where `""`
  means "unselected";
- a daily log of eaten items.

The model covers these parts of the engine:

- **Stations offered.** The catalog is restricted to the selected hall and
  meal, and its distinct non-empty stations are listed in sorted order
  (`Filters.AvailableStations`).
- **Items shown.** Items are kept when they match all four selections. The
  search is a case-insensitive substring match on the item's name
  (`Filters.FilteredMenus`).
- **Station reset.** An effect clears the selected station once it is no
  longer offered for the current hall and meal (`Filters.ReconciledStation`,
  run by `App.Dashboard.Reconcile`).
- **Filter controls.** `clearAllFilters` and the `hasActiveFilters` flag.
- **Log entries.** `addToLog` builds an entry with the food's nutrition scaled
  by a quantity (`DailyLog.LogEntryFor`). `removeFromLog` takes an entry out by
  index with a copy-and-splice (`DailyLog.SpliceOut`).
- **Totals.** The nutrition totals reduce over the log (`DailyLog.TotalsOf`).

The component becomes a class whose fields are its `useState` variables
(`App.Dashboard`). The prototype becomes a second, smaller class
(`Prototype.Tracker`). Each setter call becomes a field assignment. The
station-reset `useEffect` becomes an explicit `Reconcile` step, run at the end
of every operation that changes one of its dependencies: the catalog, the hall,
the meal or the station.

JavaScript's values are modelled exactly, not with floating point:

- **Numbers.** A number is `NaN` or an exact decimal, `mantissa / 10^scale`
  (module `JsNumber`).
- **`parseFloat`.** It skips leading white space, takes the longest prefix that
  is a decimal literal (with an optional sign, point and exponent) and ignores
  the rest. When no digit is found the result is NaN.
- **`toString` and `toFixed(1)`.** `Number.prototype.toString` writes plain
  decimal notation. `toFixed(1)` rounds the magnitude to a tenth, with halves
  going up, and puts a sign in front of negative numbers, as the
  `Number.prototype.toFixed` algorithm of ECMA-262 does.
- **Round trips.** Both formatters read back: `parseFloat(x.toString())` is x,
  and `parseFloat(x.toFixed(1) + "g")` is x rounded to a tenth.
- **String methods.** `toLowerCase`, `includes`, `indexOf`, `replace` with a
  one-character pattern, and the default `sort` order live in `JsString` and
  `StringOrder`.

`Scenarios` evaluates the model on a catalog holding one bagel. It shows the
station list, the search results, the entry for three bagels and the totals
that entry produces.

Modules:

| file | module | contents |
|---|---|---|
| catalog.dfy | `Catalog` | menu records with optional fields and JavaScript truthiness |
| seqs.dfy | `Seqs` | `Array.prototype.filter` and subsequences |
| js_string.dfy | `JsString` | lower-casing, substring search, `indexOf`, `replace` of one character |
| string_order.dfy | `StringOrder` | the default sort order, insertion sort, distinct elements (`new Set`) |
| js_number.dfy | `JsNumber` | exact numbers, `parseFloat`, `toString`, `toFixed(1)`, their round trips |
| filters.dfy | `Filters` | matching, station list, shown items, station reset, active-filters flag |
| daily_log.dfy | `DailyLog` | log entries, totals, removal by index |
| dashboard.dfy | `App` | the dashboard component as a class |
| tracker.dfy | `Prototype` | the prototype component as a class |
| scenarios.dfy | `Scenarios` | the bagel example, evaluated |

## Model

| member | source | states |
|---|---|---|
| Seqs.Filter | frontend/src/App.js:88-95 | `filter` keeps only elements satisfying the predicate: every kept element was in the input and satisfies it, and the result is never longer |
| Seqs.FilterIsSubsequence | frontend/src/App.js:88-95 | `filter` keeps elements in their original order (an order-preserving subsequence) |
| Seqs.FilterMultiset | frontend/src/App.js:88-95 | `filter` keeps every satisfying element exactly as often as it occurs in the input and drops the rest |
| Seqs.FilterMembership | frontend/src/App.js:88-95 | an element is in the filtered list iff it is in the input and satisfies the predicate |
| Seqs.FilterFilter | frontend/src/App.js:18-33 | filtering by one predicate and then another is filtering once by their conjunction |
| Seqs.FilterIdempotent | frontend/src/App.js:88-95 | filtering a filtered list again by the same predicate changes nothing |
| JsString.ToLowerCase | frontend/src/App.js:93 | `toLowerCase` keeps the length, maps each upper-case ASCII letter to its lower-case letter and leaves every other character as it is |
| JsString.ToLowerCaseIdempotent | frontend/src/App.js:93 | lower-casing twice is lower-casing once |
| JsString.EqualIgnoringCaseLower | frontend/src/App.js:93 | two terms equal up to ASCII case have the same lower-case form |
| JsString.Includes | frontend/src/App.js:93 | `includes` is true iff the pattern occurs at some position |
| JsString.IndexOf | frontend/src/App.js:103-105 | `indexOf` gives the first position of the character, or -1 exactly when it is absent |
| JsString.RemoveFirst | frontend/src/App.js:103-105 | `replace('g', '')` leaves text without a `g` unchanged; otherwise it removes exactly the first `g` and keeps the text before and after it in order |
| StringOrder.Less | frontend/src/App.js:32 | the default `sort` comparison; specified by `StringOrder.LessTransitive`, `StringOrder.LessTotal` and `StringOrder.SortSpec` |
| StringOrder.Sort | frontend/src/App.js:32 | `sort` with the default comparison; specified by `StringOrder.SortSpec` |
| StringOrder.LessTransitive | frontend/src/App.js:32 | the default `sort` order is transitive |
| StringOrder.LessTotal | frontend/src/App.js:32 | of two distinct strings one sorts before the other |
| StringOrder.SortSpec | frontend/src/App.js:32 | `sort` of a duplicate-free list returns a strictly ascending permutation of it |
| StringOrder.StrictlySortedUnique | frontend/src/App.js:32 | two strictly ascending lists with the same elements are equal |
| StringOrder.Distinct | frontend/src/App.js:32 | `[...new Set(s)]` has no duplicates and exactly the elements of `s` |
| JsNumber.Times | frontend/src/App.js:102-105 | multiplying by the quantity multiplies the value; NaN stays NaN |
| JsNumber.Plus | frontend/src/App.js:118-121 | NaN absorbs, otherwise the sum is exact on the finer of the two scales |
| JsNumber.PlusValue | frontend/src/App.js:118-121 | the value of a sum is the sum of the values |
| JsNumber.PlusCommutative | frontend/src/App.js:116-125 | `+` of numbers is commutative |
| JsNumber.PlusAssociative | frontend/src/App.js:116-125 | `+` of exact numbers is associative |
| JsNumber.PlusZero | frontend/src/App.js:124 | zero adds nothing |
| JsNumber.Normalize | frontend/src/App.js:102 | dropping trailing fraction zeros keeps the value |
| JsNumber.NatToStringValue | frontend/src/App.js:102 | the digits written for a natural number denote it |
| JsNumber.ParseFloat | frontend/src/App.js:118-121 | `parseFloat`; specified by `JsNumber.ParseNumberToString`, `JsNumber.ParseToFixed1` and `JsNumber.ParseFloatZero` |
| JsNumber.NumberToString | frontend/src/App.js:102 | a number's `toString` (plain notation), never empty; specified by `JsNumber.NumberToStringShape` and `JsNumber.ParseNumberToString` |
| JsNumber.ToFixed1 | frontend/src/App.js:103-105 | `toFixed(1)`; specified by `JsNumber.ToFixed1Shape` and `JsNumber.ParseToFixed1` |
| JsNumber.RoundToTenth | frontend/src/App.js:103-105 | the value `toFixed(1)` writes; specified by `JsNumber.RoundToTenthNearest` |
| JsNumber.ParseNumberToString | frontend/src/App.js:102 | `parseFloat(x.toString() + unit)` is x, trailing zeros dropped, with the same value |
| JsNumber.ParseToFixed1 | frontend/src/App.js:103-105 | `parseFloat(x.toFixed(1) + unit)` is x rounded to a tenth |
| JsNumber.RoundToTenthNearest | frontend/src/App.js:103-105 | `toFixed(1)` rounds to the nearest tenth, within half a tenth, ties away from zero |
| JsNumber.NumberToStringShape | frontend/src/App.js:102 | `toString` writes `NaN` or an optional minus sign followed only by digits and points |
| JsNumber.ToFixed1Shape | frontend/src/App.js:103-105 | `toFixed(1)` writes `NaN` for NaN and otherwise an optional minus sign, at least one integer digit, a point and exactly one fraction digit |
| JsNumber.ParseFloatZero | frontend/src/App.js:118-121 | `parseFloat` of the text of 0 (the `\|\| 0` fallback), with or without a unit, is zero |
| DailyLog.TextOr0 | frontend/src/App.js:102 | `food.calories \|\| 0` as text; specified by `DailyLog.NumberOr0Falsy` |
| DailyLog.NumberOr0 | frontend/src/App.js:118-121 | `parseFloat(entry.calories \|\| 0)`; specified by `DailyLog.NumberOr0Falsy` and `DailyLog.TotalsNaN` |
| DailyLog.NumberOr0Falsy | frontend/src/App.js:102 | a missing or empty field is read as zero |
| DailyLog.ScaledMacroReadBack | frontend/src/App.js:103-105 | a scaled macro's text is never empty and reads back as the product rounded to a tenth, or 0 for `"0g"` |
| DailyLog.LogEntryFor | frontend/src/App.js:97-106 | the entry `addToLog` builds; specified by `DailyLog.LogEntryForSpec`, which gives both its texts and what they read back as |
| DailyLog.ScaledCalories | frontend/src/App.js:102 | the scaled calories text; specified by `DailyLog.ScaledCaloriesText`, `DailyLog.ScaledCaloriesValue` and `DailyLog.NumberTextReadBack` |
| DailyLog.ScaledMacro | frontend/src/App.js:103-105 | the scaled macro text; specified by `DailyLog.ScaledMacroText`, `DailyLog.ScaledMacroValue` and `DailyLog.ScaledMacroReadBack` |
| DailyLog.LogEntryForSpec | frontend/src/App.js:97-106 | the entry is the food with only quantity, calories and macros replaced; the quantity is recorded; the calories text is plain number text with no unit and reads back as the exact product; each macro text is `"0g"` when absent and otherwise one fraction digit then `g` (`"NaNg"` for an amount that does not parse), and reads back as the rounded product, or zero when absent |
| DailyLog.NumberTextReadBack | frontend/src/App.js:102 | the calories text of an entry reads back as the product it was written from |
| DailyLog.ScaledCaloriesValue | frontend/src/App.js:102 | the scaled calories' value is the field's value times the quantity, and NaN stays NaN |
| DailyLog.ScaledMacroValue | frontend/src/App.js:103-105 | an absent macro reads back as zero; a present one is NaN iff its amount is, and otherwise within 0.05 of amount × quantity |
| DailyLog.ScaledCaloriesText | frontend/src/App.js:102 | the calories text is `NaN` or an optional minus sign followed only by digits and points: it has no `g` and no other unit |
| DailyLog.ScaledMacroText | frontend/src/App.js:103-105 | an absent macro is written exactly `"0g"`; a present one ends in `g`, is `"NaNg"` when its amount does not parse, and otherwise is an optional minus sign, integer digits, a point and one fraction digit before the `g` |
| DailyLog.Contribution | frontend/src/App.js:118-121 | what one entry adds to each total; specified by `DailyLog.TotalsAppend` and `DailyLog.TotalsNaN` |
| DailyLog.AddTotals | frontend/src/App.js:118-121 | adding one entry's values to the accumulator; specified by `DailyLog.AddTotalsCommutative`, `DailyLog.AddTotalsAssociative` and `DailyLog.AddNoTotals` |
| DailyLog.SumOf | frontend/src/App.js:116-125 | the `reduce` over the log; specified by `DailyLog.SumConcat` and `DailyLog.SumPermutation` |
| DailyLog.TotalsOf | frontend/src/App.js:116-125 | `totals`; specified by `DailyLog.TotalsAppend`, `DailyLog.TotalsPermutation` and `DailyLog.TotalsAfterRemove` |
| DailyLog.AddTotalsCommutative | frontend/src/App.js:116-125 | adding two contributions is commutative |
| DailyLog.AddTotalsAssociative | frontend/src/App.js:116-125 | adding contributions is associative |
| DailyLog.AddNoTotals | frontend/src/App.js:124 | the initial all-zero accumulator adds nothing |
| DailyLog.SumConcat | frontend/src/App.js:116-125 | the fold over two concatenated logs is the sum of the two folds |
| DailyLog.SumPermutation | frontend/src/App.js:116-125 | the fold gives the same sums for any reordering of the entries |
| DailyLog.TotalsPermutation | frontend/src/App.js:116-125 | the totals do not depend on the order of the log |
| DailyLog.TotalsAppend | frontend/src/App.js:116-125 | the empty log totals zero; appending an entry adds exactly its parsed values to each total |
| DailyLog.TotalsNaN | frontend/src/App.js:116-125 | one entry whose field does not parse makes that total NaN |
| DailyLog.TotalsAfterAdd | frontend/src/App.js:97-125 | logging a food adds its calories times the quantity and its macros times the quantity rounded to a tenth |
| DailyLog.RemoveAt | frontend/src/App.js:110-114 | the log after `removeFromLog(index)`; specified by `DailyLog.RemoveAtSpec` |
| DailyLog.RemoveAtSpec | frontend/src/App.js:110-114 | in bounds, exactly entry `index` is dropped and the rest keep their order; past the end the log is unchanged |
| DailyLog.RemoveLastAdded | frontend/src/App.js:107-114 | removing the entry just added restores the log |
| DailyLog.TotalsAfterRemove | frontend/src/App.js:110-125 | removing an entry takes exactly its values off the totals |
| DailyLog.SpliceOut | frontend/src/App.js:110-113 | copying the log and splicing one entry out of the copy in place gives `RemoveAt` |
| Filters.SearchMatches | frontend/src/App.js:93 | the search test; specified by `Filters.SearchMeaning`, `Filters.SearchIgnoresCase` and `Filters.SearchTooLong` |
| Filters.Keep | frontend/src/App.js:89-94 | all four tests at once; specified by `Filters.FilteredMenusSpec` |
| Filters.SearchIgnoresCase | frontend/src/App.js:93 | a term and its lower-case form match the same items |
| Filters.SearchMeaning | frontend/src/App.js:93 | a non-empty term matches iff the item has a name whose lower-case form contains the lower-case term |
| Filters.SearchTooLong | frontend/src/App.js:93 | a non-empty term never matches an item with no name, nor one whose name is shorter than the term |
| Filters.SearchCaseInsensitive | frontend/src/App.js:93 | two terms equal up to ASCII case match exactly the same items |
| Filters.RestrictHallMeal | frontend/src/App.js:19-29 | the hall then meal restriction behind `stations`; specified by `Filters.RestrictHallMealIsFilter` |
| Filters.RestrictHallMealIsFilter | frontend/src/App.js:19-29 | the conditional hall filter then meal filter keep what one combined hall-and-meal filter keeps |
| Filters.HallMealFilterSpec | umass-food-tracker/src/App.js:19-24 | the hall and meal filter is an order-preserving subsequence keeping exactly the items whose hall and meal each match or are unselected |
| Filters.StationNames | frontend/src/App.js:32 | `map(item => item.station).filter(Boolean)` lists exactly the non-empty stations of the items |
| Filters.StationSet | frontend/src/App.js:66-80 | the station list the reset checks against; specified by `Filters.StationSetMembership` |
| Filters.StationSetMembership | frontend/src/App.js:66-80 | the reset's station list has no duplicates and holds exactly the available stations |
| Filters.AvailableStations | frontend/src/App.js:18-33 | `stations`; specified by `Filters.AvailableStationsSpec` and `Filters.AvailableStationsUnique` |
| Filters.AvailableStationsSpec | frontend/src/App.js:18-33 | the offered stations are strictly ascending, duplicate-free, and exactly the non-empty stations of items matching the selected hall and meal |
| Filters.AvailableStationsUnique | frontend/src/App.js:18-33 | the offered list is the only strictly ascending list of the available stations |
| Filters.FilteredMenus | frontend/src/App.js:88-95 | `filteredMenus`; specified by `Filters.FilteredMenusSpec` |
| Filters.FilteredMenusSpec | frontend/src/App.js:88-95 | the shown items are an order-preserving subsequence of the catalog; an item is shown iff all four selections match, as often as it is in the catalog |
| Filters.FilteredMenusIdempotent | frontend/src/App.js:88-95 | filtering the shown items again with the same selections changes nothing |
| Filters.NoSelectionShowsAll | frontend/src/App.js:88-95 | with nothing selected the whole catalog is shown |
| Filters.FilteredMenusWithoutStationOrSearch | umass-food-tracker/src/App.js:19-24 | with no station and no search, the dashboard shows what the prototype's filter shows |
| Filters.SearchNarrows | frontend/src/App.js:93 | a search term only ever hides items |
| Filters.OfferedStationShowsItems | frontend/src/App.js:32 | selecting any offered station leaves at least one item shown |
| Filters.ReconciledStation | frontend/src/App.js:65-86 | the station after the reset effect; specified by `Filters.ReconciledStationSpec` |
| Filters.ReconciledStationSpec | frontend/src/App.js:65-86 | with a catalog, a selected station not available is cleared; an available one is kept; with an empty catalog nothing changes |
| Filters.ReconciledStationSettled | frontend/src/App.js:65-86 | after the reset the station is unselected or offered, or the catalog is empty |
| Filters.ReconciledStationIdempotent | frontend/src/App.js:65-86 | running the reset twice is running it once |
| Filters.ActiveFilters | frontend/src/App.js:134 | `hall \|\| meal \|\| station \|\| searchTerm` is truthy iff some selection is non-empty, and it is one of the four |
| App.Dashboard.constructor | frontend/src/App.js:5-10 | the initial state: empty catalog, nothing selected, empty log, station settled |
| App.Dashboard.Reconcile | frontend/src/App.js:65-86 | the station becomes the reconciled station; nothing else changes; the station is then settled |
| App.Dashboard.LoadMenus | frontend/src/App.js:52 | the catalog is replaced, then the station is reconciled |
| App.Dashboard.SelectHall | frontend/src/App.js:6 | the hall is set, then the station is reconciled |
| App.Dashboard.SelectMeal | frontend/src/App.js:7 | the meal is set, then the station is reconciled |
| App.Dashboard.SelectStation | frontend/src/App.js:8 | the station is set and reconciled at once |
| App.Dashboard.SetSearchTerm | frontend/src/App.js:9 | only the search term changes; a settled station stays settled |
| App.Dashboard.AddToLog | frontend/src/App.js:97-108 | exactly the scaled entry is appended; the totals grow by its contribution; nothing else changes, so a settled station stays settled |
| App.Dashboard.RemoveFromLog | frontend/src/App.js:110-114 | the log becomes `RemoveAt(log, index)`; in bounds the totals shrink by exactly the removed entry's contribution; a settled station stays settled |
| App.Dashboard.ClearAllFilters | frontend/src/App.js:127-134 | all four selections become `""`, no filter is active, the log and catalog are untouched |
| App.Dashboard.Settled | frontend/src/App.js:65-86 | the reset effect has nothing left to do; the constructor, the four selection setters and `ClearAllFilters` establish it, and `SetSearchTerm`, `AddToLog` and `RemoveFromLog` keep it |
| App.Dashboard.Stations | frontend/src/App.js:35 | the station selector's options; specified by `Filters.AvailableStationsSpec` |
| App.Dashboard.Visible | frontend/src/App.js:88-95 | the shown cards; specified by `Filters.FilteredMenusSpec` |
| App.Dashboard.Totals | frontend/src/App.js:116-125 | the summary totals; specified by `DailyLog.TotalsAppend` and `DailyLog.TotalsAfterRemove`, as `AddToLog` and `RemoveFromLog` state |
| App.Dashboard.HasActiveFilters | frontend/src/App.js:134 | whether the clear button shows; specified by `Filters.ActiveFilters` |
| Prototype.Tracker.constructor | umass-food-tracker/src/App.js:5-8 | the initial state: empty catalog, nothing selected, empty log |
| Prototype.Tracker.LoadMenus | umass-food-tracker/src/App.js:16 | the catalog is replaced |
| Prototype.Tracker.SelectHall | umass-food-tracker/src/App.js:6 | only the hall changes |
| Prototype.Tracker.SelectMeal | umass-food-tracker/src/App.js:7 | only the meal changes |
| Prototype.Tracker.AddToLog | umass-food-tracker/src/App.js:26-28 | the food itself is appended unchanged; the totals grow by its contribution |
| Prototype.Tracker.RemoveFromLog | umass-food-tracker/src/App.js:30-34 | the log becomes `RemoveAt(log, index)` |
| Prototype.Tracker.FilteredMenus | umass-food-tracker/src/App.js:19-24 | the prototype's shown items; specified by `Filters.HallMealFilterSpec` |
| Prototype.Tracker.Totals | umass-food-tracker/src/App.js:36-45 | the prototype's totals; specified by `DailyLog.TotalsAppend`, as `AddToLog` states |
| Scenarios.BagelSelection | frontend/src/App.js:18-33 | with one bagel in the catalog, Worcester breakfast offers the stations `["Bakery"]` and shows the bagel |
| Scenarios.BagelSearch | frontend/src/App.js:93 | "bagel" and "BAGEL" find the bagel; "waffle" finds nothing |
| Scenarios.ThreeBagels | frontend/src/App.js:97-106 | three bagels log quantity 3, calories "750", protein "24.0g", carbs "120.0g", fat "9.0g" |
| Scenarios.ThreeBagelsTotals | frontend/src/App.js:116-125 | that log totals 750 calories, 24.0 g protein, 120.0 g carbs and 9.0 g fat |

## Left out

- The catalog fetch (`fetch`, `response.json()`, the loading and error states) is network I/O; the catalog is a parameter of `LoadMenus`.
- The rendering is left out: the JSX and the display formatting of the totals (`toFixed(0)` and `toFixed(1)` in the summary cards).
- The quantity selector is read from the DOM at click time; here the quantity is a parameter of `AddToLog`. The selector offers 1 to 10, but the model allows any natural number.
- `addToLog`'s default quantity of 1 is not a separate operation: call `AddToLog(food, 1)`.
- React's effect scheduling and batching are replaced by an explicit `Reconcile` at the end of each operation that changes a dependency of the effect.
- Negative `splice` indices are not modelled. The index comes from `map`'s position, so it is a natural number.
- Floating point is not modelled. Numbers are exact decimals, so the model has no rounding error, no overflow and no `Infinity`. `parseFloat("Infinity")` gives NaN here. `toString` never switches to exponent notation, which JavaScript does for magnitudes of 10^21 and above or below 10^-6. `toFixed` likewise never falls back to `ToString`, which JavaScript does for magnitudes of 10^21 and above, so that `toFixed(1)` then writes exponent notation too.
- `toLowerCase` lowers ASCII letters only.
- StringOrder.SortSpec: proved only for duplicate-free input. The dashboard only sorts the spread of a `Set`, so that is all it needs.
- `sort` compares characters as whole code points, not as UTF-16 code units. The two orders differ only for characters outside the Basic Multilingual Plane.
- The backend is not part of this model: the scrapers, the SQLite cache, the HTTP endpoints, the scheduler and the launcher.
- DailyLog.ScaledCaloriesValue: stated for the parsed number of the field rather than the field's text. It takes the calorie field through `NumberOr0` first, so that the lemma does not need to unfold `parseFloat`.
- A field that is present but does not parse is read by `parseFloat` as NaN, not as 0, and NaN then spreads through that total (`DailyLog.TotalsNaN`).
- An absent macro is written as `"0g"` (frontend/src/App.js:103-105).
- `MenuItem` has no `menu_date`, `sodium`, `ingredients` or `allergens` field, although the backend sends them. The spread in `addToLog` copies them into log entries, but nothing in the dashboard reads them.
