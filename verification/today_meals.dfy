/** The list updates of the Today screen (components/TodayMeals/TodayMeals.tsx).

    The screen keeps its meals in a React state list and changes it only through
    `setMeals` updaters. Each updater is a pure function on `seq<Meal>` here.
    The checkbox handler also calls the store: it is modelled as one step on
    the pair (list, database), with the optimistic flip, the store toggle, and
    the rollback when the toggle fails.
 */
module TodayMeals {
  import opened Results
  import opened MealTypes
  import Database
  import opened Seqs

  /** The text inputs `onChangeTextMeal` is wired to. */
  datatype Field = Name | Carbs | Protein | Fats

  function FieldOf(m: Meal, f: Field): string {
    match f
    case Name => m.name
    case Carbs => m.carbs
    case Protein => m.protein
    case Fats => m.fats
  }

  /** `{ ...meal, [inputName]: text }` */
  function WithField(m: Meal, f: Field, text: string): (r: Meal)
    ensures FieldOf(r, f) == text
    ensures forall g :: g != f ==> FieldOf(r, g) == FieldOf(m, g)
    ensures r.id == m.id && r.mealId == m.mealId && r.isChecked == m.isChecked
  {
    match f
    case Name => m.(name := text)
    case Carbs => m.(carbs := text)
    case Protein => m.(protein := text)
    case Fats => m.(fats := text)
  }

  // ---------------------------------------------------------------- checkbox

  /** `updatedMeals[index] = { ...updatedMeals[index], isChecked: checked }` */
  function WithChecked(items: seq<Meal>, index: nat, checked: bool): (r: seq<Meal>)
    requires index < |items|
    ensures |r| == |items|
    ensures r[index] == items[index].(isChecked := Some(checked))
    ensures forall k :: 0 <= k < |items| && k != index ==> r[k] == items[k]
  {
    items[index := items[index].(isChecked := Some(checked))]
  }

  /** The optimistic updater: `isChecked: !isChecked ? true : false`, where
      `isChecked` was read from the list before the tap. */
  function OptimisticFlip(items: seq<Meal>, index: nat, was: Option<bool>): (r: seq<Meal>)
    requires index < |items|
    ensures |r| == |items|
    ensures r[index].isChecked == Some(!Truthy(was))
    ensures r[index] == items[index].(isChecked := r[index].isChecked)
    ensures forall k :: 0 <= k < |items| && k != index ==> r[k] == items[k]
  {
    WithChecked(items, index, !Truthy(was))
  }

  /** The rollback updater: `isChecked: !isChecked ? false : true`, the same
      pre-tap value read back as a boolean. */
  function Rollback(items: seq<Meal>, index: nat, was: Option<bool>): (r: seq<Meal>)
    requires index < |items|
    ensures |r| == |items|
    ensures r[index].isChecked == Some(Truthy(was))
    ensures r[index] == items[index].(isChecked := r[index].isChecked)
    ensures forall k :: 0 <= k < |items| && k != index ==> r[k] == items[k]
  {
    WithChecked(items, index, Truthy(was))
  }

  /** Rollback undoes the flip. It restores the pre-tap value exactly when that
      value was a boolean. An `undefined` flag comes back as `false`, which is
      the same truthiness. */
  lemma FlipThenRollback(items: seq<Meal>, index: nat)
    requires index < |items|
    ensures var was := items[index].isChecked;
      Rollback(OptimisticFlip(items, index, was), index, was)
      == items[index := items[index].(isChecked := Some(Truthy(was)))]
    ensures items[index].isChecked.Some? ==>
      Rollback(OptimisticFlip(items, index, items[index].isChecked), index, items[index].isChecked) == items
  {
    var was := items[index].isChecked;
    if was.Some? {
      assert Some(Truthy(was)) == was by {
        if was.value { assert Truthy(was); } else { assert !Truthy(was); }
      }
      assert items[index].(isChecked := Some(Truthy(was))) == items[index];
      assert items[index := items[index]] == items;
    }
  }

  /** `handleMealToggleCheckbox(index, mealId)`. In edit mode it returns at once.
      Reading `meals[index]` past the end throws before anything happens.
      Otherwise the entry is flipped optimistically and the store is asked to
      toggle; if the store rejects, the entry is rolled back. */
  function HandleToggle(items: seq<Meal>, db: Database.Db, index: int, mealId: string, editable: bool, today: Day)
    : (r: (seq<Meal>, Database.Db))
    ensures editable || !(0 <= index < |items|) ==> r == (items, db)
    ensures !editable && 0 <= index < |items| ==>
      var was := items[index].isChecked;
      var toggled := Database.ToggleMealCheckedStatus(db, mealId, today);
      && |r.0| == |items|
      && (forall k :: 0 <= k < |items| && k != index ==> r.0[k] == items[k])
      && r.0[index] == items[index].(isChecked := r.0[index].isChecked)
      && r.0[index].isChecked.Some?
      && (toggled.Ok? ==> Truthy(r.0[index].isChecked) == !Truthy(was) && r.1 == toggled.value)
      && (toggled.Err? ==> Truthy(r.0[index].isChecked) == Truthy(was) && r.1 == db)
      && (toggled.Err? && was.Some? ==> r.0 == items)
  {
    if editable then (items, db)
    else if !(0 <= index < |items|) then (items, db)
    else
      var was := items[index].isChecked;
      var flipped := OptimisticFlip(items, index, was);
      match Database.ToggleMealCheckedStatus(db, mealId, today)
      case Ok(db') => (flipped, db')
      case Err(_) =>
        FlipThenRollback(items, index);
        (Rollback(flipped, index, was), db)
  }

  /** Two taps on the same entry that the store accepts leave the store as it was
      and the entry's check mark as it was (as a boolean). */
  lemma TwoAcceptedTapsRestore(items: seq<Meal>, db: Database.Db, index: nat, mealId: string, today: Day)
    requires index < |items|
    requires Database.ToggleMealCheckedStatus(db, mealId, today).Ok?
    ensures var once := HandleToggle(items, db, index, mealId, false, today);
      var twice := HandleToggle(once.0, once.1, index, mealId, false, today);
      && twice.1 == db
      && twice.0 == items[index := items[index].(isChecked := Some(Truthy(items[index].isChecked)))]
  {
    Database.ToggleInvolution(db, mealId, today);
    var once := HandleToggle(items, db, index, mealId, false, today);
    assert once.1 == Database.ToggleMealCheckedStatus(db, mealId, today).value;
    var twice := HandleToggle(once.0, once.1, index, mealId, false, today);
    assert |twice.0| == |items|;
  }

  // ---------------------------------------------------------------- add / remove

  /** The entry `onPressAddMeal` appends: empty texts, unchecked, no `meal_id`. */
  function NewMeal(id: string): Meal {
    Meal(id, None, "", "", "", "", Some(false))
  }

  /** `onPressAddMeal`'s updater: `[...prev, { id, name: '', ..., isChecked: false }]`. */
  function AddMeal(items: seq<Meal>, id: string): (r: seq<Meal>)
    ensures |r| == |items| + 1
    ensures r[..|items|] == items
    ensures var m := r[|items|];
      m.id == id && m.mealId == None && m.isChecked == Some(false)
      && forall f :: FieldOf(m, f) == ""
  {
    items + [NewMeal(id)]
  }

  /** `onPressRemoveLastMeal`'s updater: copy, `pop()`, return. Popping an empty
      list is a no-op. */
  function RemoveLast(items: seq<Meal>): (r: seq<Meal>)
    ensures items == [] ==> r == []
    ensures items != [] ==> |r| == |items| - 1 && r == items[..|items| - 1]
  {
    if items == [] then [] else items[..|items| - 1]
  }

  /** Removing right after adding gives the list back. */
  lemma RemoveLastUndoesAdd(items: seq<Meal>, id: string)
    ensures RemoveLast(AddMeal(items, id)) == items
  {
  }

  /** The screen pops its last entry while the store deletes the meal with the
      greatest id; with random ids the two can be different meals. Here the list
      shows "b" then "a" (so "a" was added last), the screen drops "a", and the
      store drops "b". */
  lemma LocalAndStoreRemovalMayDiffer()
    ensures var a, b := MealRow("a", "", "", "", ""), MealRow("b", "", "", "", "");
      var items := [NewMeal("b"), NewMeal("a")];
      var db := Database.Db(Database.Present([b, a]), Database.Present([]));
      && RemoveLast(items) == [NewMeal("b")]
      && Database.RemoveLastMeal(db) == Ok(Database.Db(Database.Present([a]), Database.Present([])))
  {
    var a, b := MealRow("a", "", "", "", ""), MealRow("b", "", "", "", "");
    var db := Database.Db(Database.Present([b, a]), Database.Present([]));
    assert Database.MealIds([b, a]) == ["b", "a"];
    assert MaxString(["b", "a"]) == "b";
    assert Database.DropId([b, a], "b") == [a];
  }

  // ---------------------------------------------------------------- text edits

  /** `onChangeTextMeal(text, inputName, id)`'s updater: rewrite one field of the
      entries with that id. */
  function ChangeText(items: seq<Meal>, text: string, field: Field, id: string): (r: seq<Meal>)
    ensures |r| == |items|
    ensures forall k :: 0 <= k < |items| && items[k].id != id ==> r[k] == items[k]
    ensures forall k :: 0 <= k < |items| && items[k].id == id ==>
      && FieldOf(r[k], field) == text
      && r[k].id == items[k].id && r[k].mealId == items[k].mealId && r[k].isChecked == items[k].isChecked
      && forall g :: g != field ==> FieldOf(r[k], g) == FieldOf(items[k], g)
  {
    seq(|items|, k requires 0 <= k < |items| =>
      if items[k].id != id then items[k] else WithField(items[k], field, text))
  }

  /** Typing into the same input twice keeps only the last text. */
  lemma ChangeTextLastWriteWins(items: seq<Meal>, t1: string, t2: string, field: Field, id: string)
    ensures ChangeText(ChangeText(items, t1, field, id), t2, field, id) == ChangeText(items, t2, field, id)
  {
    var once := ChangeText(items, t1, field, id);
    var lhs := ChangeText(once, t2, field, id);
    var rhs := ChangeText(items, t2, field, id);
    forall k | 0 <= k < |items| ensures lhs[k] == rhs[k] {
      if items[k].id == id {
        MealEqualByFields(lhs[k], rhs[k]);
      }
    }
  }

  /** Two entries that agree on id, `meal_id`, the check mark and every text field
      are the same entry. */
  lemma MealEqualByFields(m1: Meal, m2: Meal)
    requires m1.id == m2.id && m1.mealId == m2.mealId && m1.isChecked == m2.isChecked
    requires forall f :: FieldOf(m1, f) == FieldOf(m2, f)
    ensures m1 == m2
  {
    assert FieldOf(m1, Name) == FieldOf(m2, Name);
    assert FieldOf(m1, Carbs) == FieldOf(m2, Carbs);
    assert FieldOf(m1, Protein) == FieldOf(m2, Protein);
    assert FieldOf(m1, Fats) == FieldOf(m2, Fats);
  }
}
