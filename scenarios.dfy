/** Three bagels at Worcester breakfast, evaluated through the model, one step per lemma. */
module Scenarios {
  import opened Catalog
  import opened JsNumber
  import opened JsString
  import opened Filters
  import opened DailyLog

  const Bagel := MenuItem(Some("Bagel"), Some("Worcester"), Some("Breakfast"), Some("Bakery"), None,
                          Some("250"), Some("8g"), Some("40g"), Some("3g"), None)

  /** Selecting the bagel's hall and meal offers its one station and shows it. */
  lemma BagelSelection()
    ensures AvailableStations([Bagel], "Worcester", "Breakfast") == ["Bakery"]
    ensures FilteredMenus([Bagel], "Worcester", "Breakfast", "", "") == [Bagel]
  {
    assert IsAvailable([Bagel], "Worcester", "Breakfast", "Bakery") by {
      assert Bagel in [Bagel];
    }
    AvailableStationsUnique([Bagel], "Worcester", "Breakfast", ["Bakery"]);
  }

  /** Searching matches the name in any case, and a term not in the name shows nothing. */
  lemma BagelSearch()
    ensures FilteredMenus([Bagel], "", "", "", "bagel") == [Bagel]
    ensures FilteredMenus([Bagel], "", "", "", "BAGEL") == [Bagel]
    ensures FilteredMenus([Bagel], "", "", "", "waffle") == []
  {
  }

  // ---------------------------------------------------------------- reading the bagel's fields

  /** `parseFloat` reads back the text of a whole number. */
  lemma ParseWhole(n: nat, text: string)
    requires NumberToString(Decimal(n, 0)) == text
    ensures ParseFloat(text) == Decimal(n, 0)
  {
    ParseNumberToString(Decimal(n, 0), "");
    assert text + "" == text;
  }

  lemma Read250() ensures ParseFloat("250") == Decimal(250, 0) { ParseWhole(250, "250"); }
  lemma Read8() ensures ParseFloat("8") == Decimal(8, 0) { ParseWhole(8, "8"); }
  lemma Read40() ensures ParseFloat("40") == Decimal(40, 0) { ParseWhole(40, "40"); }
  lemma Read3() ensures ParseFloat("3") == Decimal(3, 0) { ParseWhole(3, "3"); }

  lemma Unit8() ensures RemoveFirst("8g", 'g') == "8" { }
  lemma Unit40() ensures RemoveFirst("40g", 'g') == "40" { }
  lemma Unit3() ensures RemoveFirst("3g", 'g') == "3" { }

  // ---------------------------------------------------------------- writing the scaled fields

  lemma Write750() ensures NumberToString(Decimal(750, 0)) == "750" { }
  lemma Write24() ensures ToFixed1(Decimal(24, 0)) == "24.0" { assert NatToString(240) == "240"; }
  lemma Write120() ensures ToFixed1(Decimal(120, 0)) == "120.0" { assert NatToString(1200) == "1200"; }
  lemma Write9() ensures ToFixed1(Decimal(9, 0)) == "9.0" { assert NatToString(90) == "90"; }

  // ---------------------------------------------------------------- three bagels

  lemma ThreeBagelsCalories()
    ensures ScaledCalories(Some("250"), 3) == "750"
  {
    Read250();
    Write750();
  }

  lemma ThreeBagelsProtein()
    ensures ScaledMacro(Some("8g"), 3) == "24.0g"
  {
    Unit8();
    Read8();
    Write24();
  }

  lemma ThreeBagelsCarbs()
    ensures ScaledMacro(Some("40g"), 3) == "120.0g"
  {
    Unit40();
    Read40();
    Write120();
  }

  lemma ThreeBagelsFat()
    ensures ScaledMacro(Some("3g"), 3) == "9.0g"
  {
    Unit3();
    Read3();
    Write9();
  }

  /** Logging three bagels scales every nutrient of the entry. */
  lemma ThreeBagels()
    ensures LogEntryFor(Bagel, 3).quantity == Some(3)
    ensures LogEntryFor(Bagel, 3).calories == Some("750")
    ensures LogEntryFor(Bagel, 3).protein == Some("24.0g")
    ensures LogEntryFor(Bagel, 3).carbs == Some("120.0g")
    ensures LogEntryFor(Bagel, 3).totalFat == Some("9.0g")
  {
    ThreeBagelsCalories();
    ThreeBagelsProtein();
    ThreeBagelsCarbs();
    ThreeBagelsFat();
  }

  // ---------------------------------------------------------------- the totals

  lemma Read750() ensures ParseFloat("750") == Decimal(750, 0) { ParseWhole(750, "750"); }

  /** `parseFloat` reads back a macro written by `toFixed(1)` with its unit. */
  lemma ReadFixed(x: Number, text: string)
    requires ToFixed1(x) + "g" == text
    ensures ParseFloat(text) == RoundToTenth(x)
  {
    ParseToFixed1(x, "g");
  }

  lemma Read24g() ensures ParseFloat("24.0g") == Decimal(240, 1) { Write24(); ReadFixed(Decimal(24, 0), "24.0g"); }
  lemma Read120g() ensures ParseFloat("120.0g") == Decimal(1200, 1) { Write120(); ReadFixed(Decimal(120, 0), "120.0g"); }
  lemma Read9g() ensures ParseFloat("9.0g") == Decimal(90, 1) { Write9(); ReadFixed(Decimal(9, 0), "9.0g"); }

  /** What an entry holding the scaled texts adds to the totals. */
  lemma EntryContribution(entry: MenuItem)
    requires entry.calories == Some("750") && entry.protein == Some("24.0g")
    requires entry.carbs == Some("120.0g") && entry.totalFat == Some("9.0g")
    ensures Contribution(entry) == Totals(Decimal(750, 0), Decimal(240, 1), Decimal(1200, 1), Decimal(90, 1))
  {
    Read750();
    Read24g();
    Read120g();
    Read9g();
  }

  /** The totals of a log holding only the entry for three bagels. */
  lemma ThreeBagelsTotals()
    ensures TotalsOf([LogEntryFor(Bagel, 3)])
         == Totals(Decimal(750, 0), Decimal(240, 1), Decimal(1200, 1), Decimal(90, 1))
  {
    ThreeBagels();
    EntryContribution(LogEntryFor(Bagel, 3));
    SingleEntryTotals(LogEntryFor(Bagel, 3));
  }

  /** A log of one entry totals that entry's contribution. */
  lemma SingleEntryTotals(entry: MenuItem)
    ensures TotalsOf([entry]) == Contribution(entry)
  {
    TotalsAppend([], entry);
    assert [] + [entry] == [entry];
    AddNoTotals(Contribution(entry));
  }
}
