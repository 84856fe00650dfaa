/** The daily log: the entry `addToLog` builds for a food and a quantity, the
    removal of one entry by index, and the running nutrition totals. */
module DailyLog {
  import opened Catalog
  import opened JsNumber
  import opened JsString

  // ---------------------------------------------------------------- reading a field as a number

  /** The text `parseFloat(field || 0)` reads: a falsy field becomes the number 0, whose text is "0". */
  function TextOr0(field: Option<string>): string {
    if Truthy(field) then field.value else "0"
  }

  /** `parseFloat(field || 0)`. */
  function NumberOr0(field: Option<string>): Number {
    ParseFloat(TextOr0(field))
  }

  /** A missing or empty field counts as zero. */
  lemma NumberOr0Falsy(field: Option<string>)
    requires !Truthy(field)
    ensures NumberOr0(field) == Zero
  {
    ParseFloatZero("");
    assert "0" + "" == "0";
  }

  // ---------------------------------------------------------------- the entry addToLog builds

  /** `(parseFloat(food.calories || 0) * quantity).toString()` */
  function ScaledCalories(calories: Option<string>, quantity: nat): string {
    NumberToString(Times(NumberOr0(calories), quantity))
  }

  /** `field ? `${(parseFloat(field.replace('g', '')) * quantity).toFixed(1)}g` : '0g'` */
  function ScaledMacro(field: Option<string>, quantity: nat): string {
    if Truthy(field) then ToFixed1(Times(ParseFloat(RemoveFirst(field.value, 'g')), quantity)) + "g"
    else "0g"
  }

  /** `{...food, quantity, calories, protein, carbs, total_fat}`: the food with
      its quantity recorded and its nutrition scaled by it. */
  function LogEntryFor(food: MenuItem, quantity: nat): MenuItem {
    food.(quantity := Some(quantity),
          calories := Some(ScaledCalories(food.calories, quantity)),
          protein := Some(ScaledMacro(food.protein, quantity)),
          carbs := Some(ScaledMacro(food.carbs, quantity)),
          totalFat := Some(ScaledMacro(food.totalFat, quantity)))
  }

  /** The number a scaled macro field reads back as: the product rounded to a tenth, or zero. */
  function MacroReadBack(field: Option<string>, quantity: nat): Number {
    if Truthy(field) then RoundToTenth(Times(ParseFloat(RemoveFirst(field.value, 'g')), quantity)) else Zero
  }

  lemma ScaledMacroReadBack(field: Option<string>, quantity: nat)
    ensures Truthy(Some(ScaledMacro(field, quantity)))
    ensures ParseFloat(ScaledMacro(field, quantity)) == MacroReadBack(field, quantity)
  {
    if Truthy(field) {
      ParseToFixed1(Times(ParseFloat(RemoveFirst(field.value, 'g')), quantity), "g");
    } else {
      ParseFloatZero("g");
    }
  }

  /** The entry is the food with only its quantity and nutrition fields replaced;
      its calories read back as exactly the product, unnormalised digits aside,
      and each macro reads back as the product rounded to a tenth, or zero when absent.
      The calories text carries no unit; each macro text is written with the unit "g". */
  lemma LogEntryForSpec(food: MenuItem, quantity: nat)
    ensures var entry := LogEntryFor(food, quantity);
            && entry.(quantity := food.quantity, calories := food.calories, protein := food.protein,
                      carbs := food.carbs, totalFat := food.totalFat) == food
            && entry.quantity == Some(quantity)
            && NumberOr0(entry.calories) == Normalize(Times(NumberOr0(food.calories), quantity))
            && NumberOr0(entry.protein) == MacroReadBack(food.protein, quantity)
            && NumberOr0(entry.carbs) == MacroReadBack(food.carbs, quantity)
            && NumberOr0(entry.totalFat) == MacroReadBack(food.totalFat, quantity)
  ensures var entry := LogEntryFor(food, quantity);
            && entry.calories.Some? && IsPlainNumberText(entry.calories.value)
            && entry.protein.Some? && IsScaledMacroText(food.protein, entry.protein.value)
            && entry.carbs.Some? && IsScaledMacroText(food.carbs, entry.carbs.value)
            && entry.totalFat.Some? && IsScaledMacroText(food.totalFat, entry.totalFat.value)
  {
    var x := Times(NumberOr0(food.calories), quantity);
    ParseNumberToString(x, "");
    assert NumberToString(x) + "" == NumberToString(x);
    ScaledMacroReadBack(food.protein, quantity);
    ScaledMacroReadBack(food.carbs, quantity);
    ScaledMacroReadBack(food.totalFat, quantity);
    ScaledCaloriesText(food.calories, quantity);
    ScaledMacroText(food.protein, quantity);
    ScaledMacroText(food.carbs, quantity);
    ScaledMacroText(food.totalFat, quantity);
  }

  /** The text of a number reads back as that number, without trailing zeros. */
  lemma NumberTextReadBack(x: Number)
    ensures NumberOr0(Some(NumberToString(x))) == Normalize(x)
  {
    ParseNumberToString(x, "");
    assert NumberToString(x) + "" == NumberToString(x);
  }

  /** The scaled calories: the text of the product read back is the product,
      so its value is the field's value times the quantity, and NaN stays NaN. */
  lemma ScaledCaloriesValue(calories: Number, quantity: nat)
    ensures var after := NumberOr0(Some(NumberToString(Times(calories, quantity))));
            && (calories.Decimal? ==> after.Decimal? && Value(after) == Value(calories) * quantity as real)
            && (calories.NaN? ==> after.NaN?)
  {
    NumberTextReadBack(Times(calories, quantity));
  }

  /** A present macro reads back within half a tenth of its amount times the
      quantity; an absent one reads back as zero. */
  lemma ScaledMacroValue(field: Option<string>, quantity: nat)
    ensures var after := NumberOr0(Some(ScaledMacro(field, quantity)));
            && (!Truthy(field) ==> after == Zero)
            && (Truthy(field) ==>
                  var amount := ParseFloat(RemoveFirst(field.value, 'g'));
                  && (amount.NaN? <==> after.NaN?)
                  && (amount.Decimal? ==>
                        var exact := Value(amount) * quantity as real;
                        Value(after) - 0.05 <= exact <= Value(after) + 0.05))
  {
    ScaledMacroReadBack(field, quantity);
    if Truthy(field) {
      var amount := ParseFloat(RemoveFirst(field.value, 'g'));
      if amount.Decimal? {
        RoundToTenthNearest(Times(amount, quantity));
      }
    }
  }

  /** The text a macro field is written as: "0g" when the field is absent;
      otherwise one fraction digit followed by the unit "g", or "NaNg" when the
      amount does not parse. */
  predicate IsScaledMacroText(field: Option<string>, t: string) {
    if !Truthy(field) then t == "0g"
    else
      var amount := ParseFloat(RemoveFirst(field.value, 'g'));
      && |t| >= 1 && t[|t| - 1] == 'g'
      && (amount.NaN? ==> t == "NaNg")
      && (amount.Decimal? ==> IsFixed1Text(t[..|t| - 1]))
  }

  /** The scaled calories are plain number text with no unit. */
  lemma ScaledCaloriesText(calories: Option<string>, quantity: nat)
    ensures IsPlainNumberText(ScaledCalories(calories, quantity))
    ensures 'g' !in ScaledCalories(calories, quantity)
  {
    NumberToStringShape(Times(NumberOr0(calories), quantity));
  }

  /** A scaled macro is one fraction digit and "g", "NaNg", or "0g" when absent. */
  lemma ScaledMacroText(field: Option<string>, quantity: nat)
    ensures IsScaledMacroText(field, ScaledMacro(field, quantity))
  {
    if Truthy(field) {
      var x := Times(ParseFloat(RemoveFirst(field.value, 'g')), quantity);
      ToFixed1Shape(x);
      var t := ScaledMacro(field, quantity);
      assert t[..|t| - 1] == ToFixed1(x);
    }
  }

  // ---------------------------------------------------------------- totals

  /** The four running sums of `totals`. */
  datatype Totals = Totals(calories: Number, protein: Number, carbs: Number, fat: Number)

  /** `{ calories: 0, protein: 0, carbs: 0, fat: 0 }` */
  const NoTotals: Totals := Totals(Zero, Zero, Zero, Zero)

  /** What one entry adds to the sums: each field read with `parseFloat(field || 0)`. */
  function Contribution(food: MenuItem): Totals {
    Totals(NumberOr0(food.calories), NumberOr0(food.protein), NumberOr0(food.carbs), NumberOr0(food.totalFat))
  }

  /** The sums with another entry's values added, field by field. */
  function AddTotals(a: Totals, b: Totals): Totals {
    Totals(Plus(a.calories, b.calories), Plus(a.protein, b.protein), Plus(a.carbs, b.carbs), Plus(a.fat, b.fat))
  }

  /** The sums of `contribution` over the entries, added from the first entry to the last. */
  function SumOf<T>(log: seq<T>, contribution: T -> Totals): Totals
    decreases |log|
  {
    if log == [] then NoTotals
    else AddTotals(SumOf(log[..|log| - 1], contribution), contribution(log[|log| - 1]))
  }

  /** `dailyLog.reduce((acc, food) => { acc.calories += parseFloat(food.calories || 0); ... }, {...})` */
  function TotalsOf(log: seq<MenuItem>): Totals {
    SumOf(log, Contribution)
  }

  lemma AddTotalsCommutative(a: Totals, b: Totals)
    ensures AddTotals(a, b) == AddTotals(b, a)
  {
    PlusCommutative(a.calories, b.calories);
    PlusCommutative(a.protein, b.protein);
    PlusCommutative(a.carbs, b.carbs);
    PlusCommutative(a.fat, b.fat);
  }

  lemma AddTotalsAssociative(a: Totals, b: Totals, c: Totals)
    ensures AddTotals(AddTotals(a, b), c) == AddTotals(a, AddTotals(b, c))
  {
    PlusAssociative(a.calories, b.calories, c.calories);
    PlusAssociative(a.protein, b.protein, c.protein);
    PlusAssociative(a.carbs, b.carbs, c.carbs);
    PlusAssociative(a.fat, b.fat, c.fat);
  }

  lemma AddNoTotals(a: Totals)
    ensures AddTotals(NoTotals, a) == a && AddTotals(a, NoTotals) == a
  {
    PlusZero(a.calories);
    PlusZero(a.protein);
    PlusZero(a.carbs);
    PlusZero(a.fat);
  }

  /** Appending an entry adds exactly its values to each running sum. */
  lemma SumAppend<T>(log: seq<T>, entry: T, contribution: T -> Totals)
    ensures SumOf(log + [entry], contribution) == AddTotals(SumOf(log, contribution), contribution(entry))
  {
    assert (log + [entry])[..|log|] == log;
  }

  /** The sums over two logs one after the other are the sums of their sums. */
  lemma {:induction false} SumConcat<T>(a: seq<T>, b: seq<T>, contribution: T -> Totals)
    ensures SumOf(a + b, contribution) == AddTotals(SumOf(a, contribution), SumOf(b, contribution))
    decreases |b|
  {
    if b == [] {
      assert a + b == a;
      AddNoTotals(SumOf(a, contribution));
    } else {
      var b', last := b[..|b| - 1], b[|b| - 1];
      assert b == b' + [last];
      assert a + b == (a + b') + [last];
      SumAppend(a + b', last, contribution);
      SumConcat(a, b', contribution);
      SumAppend(b', last, contribution);
      AddTotalsAssociative(SumOf(a, contribution), SumOf(b', contribution), contribution(last));
    }
  }

  /** Moving one entry to the end leaves the sums as they were. */
  lemma SumMoveToEnd<T>(before: seq<T>, entry: T, after: seq<T>, contribution: T -> Totals)
    ensures SumOf(before + [entry] + after, contribution) == SumOf(before + after + [entry], contribution)
  {
    var c := contribution;
    SumConcat(before + [entry], after, c);
    SumAppend(before, entry, c);
    SumAppend(before + after, entry, c);
    SumConcat(before, after, c);
    AddTotalsAssociative(SumOf(before, c), c(entry), SumOf(after, c));
    AddTotalsCommutative(c(entry), SumOf(after, c));
    AddTotalsAssociative(SumOf(before, c), SumOf(after, c), c(entry));
  }

  /** Taking the same element out of two permutations of each other leaves permutations. */
  lemma PermutationWithout<T>(a: seq<T>, last: T, before: seq<T>, after: seq<T>)
    requires multiset(a + [last]) == multiset(before + [last] + after)
    ensures multiset(a) == multiset(before + after)
  {
    assert multiset(a + [last]) == multiset(a) + multiset{last};
    assert multiset(before + [last] + after) == multiset(before + after) + multiset{last} by {
      assert multiset(before + [last] + after) == multiset(before) + multiset{last} + multiset(after);
    }
    forall x
      ensures multiset(a)[x] == multiset(before + after)[x]
    {
      assert (multiset(a) + multiset{last})[x] == (multiset(before + after) + multiset{last})[x];
    }
  }

  /** The sums do not depend on the order of the entries. */
  lemma {:induction false} SumPermutation<T>(a: seq<T>, b: seq<T>, contribution: T -> Totals)
    requires multiset(a) == multiset(b)
    ensures SumOf(a, contribution) == SumOf(b, contribution)
    decreases |a|
  {
    if a != [] {
      var a', last := a[..|a| - 1], a[|a| - 1];
      assert a == a' + [last];
      assert last in multiset(b);
      var j :| 0 <= j < |b| && b[j] == last;
      var before, after := b[..j], b[j + 1..];
      assert b == before + [last] + after;
      PermutationWithout(a', last, before, after);
      SumPermutation(a', before + after, contribution);
      SumAppend(a', last, contribution);
      SumAppend(before + after, last, contribution);
      SumMoveToEnd(before, last, after, contribution);
    }
  }

  /** The daily totals do not depend on the order the entries were logged in. */
  lemma TotalsPermutation(a: seq<MenuItem>, b: seq<MenuItem>)
    requires multiset(a) == multiset(b)
    ensures TotalsOf(a) == TotalsOf(b)
  {
    SumPermutation(a, b, Contribution);
  }

  /** The empty log totals zero, and logging an entry adds exactly its values
      to each daily total. */
  lemma TotalsAppend(log: seq<MenuItem>, entry: MenuItem)
    ensures TotalsOf([]) == NoTotals
    ensures TotalsOf(log + [entry]) == AddTotals(TotalsOf(log), Contribution(entry))
  {
    SumAppend(log, entry, Contribution);
  }

  /** One entry whose calories do not parse makes the calorie total NaN, and
      likewise for each macro: nothing in the sums guards against bad text. */
  lemma TotalsNaN(log: seq<MenuItem>, i: nat)
    requires i < |log|
    ensures Contribution(log[i]).calories.NaN? ==> TotalsOf(log).calories.NaN?
    ensures Contribution(log[i]).protein.NaN? ==> TotalsOf(log).protein.NaN?
    ensures Contribution(log[i]).carbs.NaN? ==> TotalsOf(log).carbs.NaN?
    ensures Contribution(log[i]).fat.NaN? ==> TotalsOf(log).fat.NaN?
  {
    assert log == log[..i] + [log[i]] + log[i + 1..];
    SumConcat(log[..i] + [log[i]], log[i + 1..], Contribution);
    SumAppend(log[..i], log[i], Contribution);
  }

  /** Logging a food with a quantity adds its scaled calories exactly and its
      scaled macros rounded to a tenth. */
  lemma TotalsAfterAdd(log: seq<MenuItem>, food: MenuItem, quantity: nat)
    ensures TotalsOf(log + [LogEntryFor(food, quantity)]) ==
            AddTotals(TotalsOf(log),
                      Totals(Normalize(Times(NumberOr0(food.calories), quantity)),
                             MacroReadBack(food.protein, quantity),
                             MacroReadBack(food.carbs, quantity),
                             MacroReadBack(food.totalFat, quantity)))
  {
    TotalsAppend(log, LogEntryFor(food, quantity));
    LogEntryForSpec(food, quantity);
  }

  // ---------------------------------------------------------------- removing an entry

  /** `updatedLog.splice(index, 1)` on a copy: without entry `index`, or unchanged past the end. */
  function RemoveAt<T>(log: seq<T>, index: nat): seq<T> {
    if index < |log| then log[..index] + log[index + 1..] else log
  }

  /** Removing entry `index` shortens the log by one, shifts the later entries
      down by one, and keeps every other entry in its order. */
  lemma RemoveAtSpec<T>(log: seq<T>, index: nat)
    ensures index >= |log| ==> RemoveAt(log, index) == log
    ensures index < |log| ==> |RemoveAt(log, index)| == |log| - 1
    ensures index < |log| ==> forall k :: 0 <= k < index ==> RemoveAt(log, index)[k] == log[k]
    ensures index < |log| ==> forall k :: index <= k < |log| - 1 ==> RemoveAt(log, index)[k] == log[k + 1]
    ensures index < |log| ==> multiset(RemoveAt(log, index)) + multiset{log[index]} == multiset(log)
  {
    if index < |log| {
      assert log == log[..index] + [log[index]] + log[index + 1..];
    }
  }

  /** Removing the entry just added gives back the log as it was. */
  lemma RemoveLastAdded<T>(log: seq<T>, entry: T)
    ensures RemoveAt(log + [entry], |log|) == log
  {
    assert (log + [entry])[..|log|] == log;
  }

  /** Removing an entry takes exactly its values off the totals. */
  lemma TotalsAfterRemove(log: seq<MenuItem>, index: nat)
    requires index < |log|
    ensures TotalsOf(log) == AddTotals(TotalsOf(RemoveAt(log, index)), Contribution(log[index]))
  {
    RemoveAtSpec(log, index);
    var rest := RemoveAt(log, index);
    assert multiset(rest + [log[index]]) == multiset(log);
    SumPermutation(rest + [log[index]], log, Contribution);
    SumAppend(rest, log[index], Contribution);
  }

  /** The copy-and-splice of `removeFromLog`: the entries are copied into a
      fresh array, the ones after `index` are moved down by one place, and the
      last place is dropped. */
  method SpliceOut<T>(log: seq<T>, index: nat) returns (updated: seq<T>)
    ensures updated == RemoveAt(log, index)
  {
    var a := new T[|log|](i requires 0 <= i < |log| => log[i]);
    if index < a.Length {
      var k := index;
      while k + 1 < a.Length
        invariant index <= k < a.Length
        invariant forall j :: 0 <= j < index ==> a[j] == log[j]
        invariant forall j :: index <= j < k ==> a[j] == log[j + 1]
        invariant forall j :: k <= j < a.Length ==> a[j] == log[j]
        decreases a.Length - k
      {
        a[k] := a[k + 1];
        k := k + 1;
      }
      updated := a[..a.Length - 1];
      assert updated == log[..index] + log[index + 1..];
    } else {
      updated := a[..];
      assert updated == log;
    }
  }
}
