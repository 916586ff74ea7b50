/** The SQLite store of utils/database.ts as values.

    The database is a pair of tables, `meals` and `meals_calendar`; either may
    be missing (before `init`, or after `deleteAllMeals` drops the calendar).
    Each exported function becomes a transition that returns `Ok(newState)` or
    `Err(error)`. On `Err` the state is unchanged: every error callback returns
    `true`, which rolls the transaction back. "Today" and the fresh UUIDs the
    code draws are parameters.
 */
module Database {
  import opened Results
  import opened Seqs
  import opened MealTypes

  datatype Table<T> = Missing | Present(rows: seq<T>)

  datatype Db = Db(meals: Table<MealRow>, calendar: Table<CalendarRow>)

  datatype DbError =
    | NoSuchTable(table: string)
    | UniqueConstraintFailed(table: string)
    | NoMealsToRemove
    | MealNotFound(mealId: string)
    | NoRowsUpdated(mealId: string, date: Day)

  const MealsTable := "meals"
  const CalendarTable := "meals_calendar"

  /** A database file nobody has initialised yet. */
  const Empty := Db(Missing, Missing)

  // ---------------------------------------------------------------- keys

  predicate HasMealId(rows: seq<MealRow>, id: string) {
    exists i :: 0 <= i < |rows| && rows[i].id == id
  }

  predicate HasEntryId(rows: seq<CalendarRow>, id: string) {
    exists i :: 0 <= i < |rows| && rows[i].id == id
  }

  predicate UniqueMealIds(rows: seq<MealRow>) {
    forall i, j :: 0 <= i < j < |rows| ==> rows[i].id != rows[j].id
  }

  predicate UniqueEntryIds(rows: seq<CalendarRow>) {
    forall i, j :: 0 <= i < j < |rows| ==> rows[i].id != rows[j].id
  }

  /** The PRIMARY KEY constraints of both tables. */
  predicate Valid(db: Db) {
    && (db.meals.Present? ==> UniqueMealIds(db.meals.rows))
    && (db.calendar.Present? ==> UniqueEntryIds(db.calendar.rows))
  }

  /** Ids that can be inserted into a calendar holding `rows` in one batch. */
  predicate FreshEntryIds(rows: seq<CalendarRow>, ids: seq<string>) {
    && Distinct(ids)
    && forall k :: 0 <= k < |ids| ==> !HasEntryId(rows, ids[k])
  }

  function MealIds(rows: seq<MealRow>): (ids: seq<string>)
    ensures |ids| == |rows|
    ensures forall i :: 0 <= i < |rows| ==> ids[i] == rows[i].id
  {
    seq(|rows|, i requires 0 <= i < |rows| => rows[i].id)
  }

  // ---------------------------------------------------------------- init

  /** `init`: `CREATE TABLE IF NOT EXISTS` for both tables. */
  function Init(db: Db): (r: Db)
    ensures r.meals.Present? && r.calendar.Present?
    ensures db.meals.Present? ==> r.meals == db.meals
    ensures db.calendar.Present? ==> r.calendar == db.calendar
    ensures db.meals.Missing? ==> r.meals.rows == []
    ensures db.calendar.Missing? ==> r.calendar.rows == []
    ensures Valid(db) ==> Valid(r)
  {
    Db(if db.meals.Missing? then Present([]) else db.meals,
       if db.calendar.Missing? then Present([]) else db.calendar)
  }

  /** On first launch `init` creates both tables, empty. */
  lemma FirstLaunchCreatesEmptyTables()
    ensures Init(Empty) == Db(Present([]), Present([]))
    ensures Valid(Init(Empty))
  {
  }

  /** Running `init` on every launch is harmless. */
  lemma InitIdempotent(db: Db)
    ensures Init(Init(db)) == Init(db)
  {
  }

  // ---------------------------------------------------------------- insertMeal

  /** `insertMeal`: one `meals` row, then one `meals_calendar` row for today with
      the default `isChecked = 0`. `entryId` is the UUID drawn for the calendar
      row. A failure of either statement rolls back both. */
  function InsertMeal(db: Db, meal: MealRow, entryId: string, today: Day): (r: Result<Db, DbError>)
    ensures r.Ok? <==>
      && db.meals.Present? && !HasMealId(db.meals.rows, meal.id)
      && db.calendar.Present? && !HasEntryId(db.calendar.rows, entryId)
    ensures r.Ok? ==> r.value.meals.Present? && r.value.calendar.Present?
    ensures r.Ok? ==>
      var meals, cal := r.value.meals.rows, r.value.calendar.rows;
      && |meals| == |db.meals.rows| + 1
      && meals[..|db.meals.rows|] == db.meals.rows
      && meals[|db.meals.rows|] == meal
      && |cal| == |db.calendar.rows| + 1
      && cal[..|db.calendar.rows|] == db.calendar.rows
      && cal[|db.calendar.rows|] == CalendarRow(entryId, meal.id, today, false)
    ensures r.Ok? && Valid(db) ==> Valid(r.value)
  {
    if db.meals.Missing? then Err(NoSuchTable(MealsTable))
    else if HasMealId(db.meals.rows, meal.id) then Err(UniqueConstraintFailed(MealsTable))
    else if db.calendar.Missing? then Err(NoSuchTable(CalendarTable))
    else if HasEntryId(db.calendar.rows, entryId) then Err(UniqueConstraintFailed(CalendarTable))
    else
      var meals := db.meals.rows + [meal];
      var cal := db.calendar.rows + [CalendarRow(entryId, meal.id, today, false)];
      assert Valid(db) ==> UniqueMealIds(meals) by {
        if Valid(db) {
          forall i, j | 0 <= i < j < |meals| ensures meals[i].id != meals[j].id {
            if j == |meals| - 1 {
              assert meals[i] == db.meals.rows[i];
            }
          }
        }
      }
      assert Valid(db) ==> UniqueEntryIds(cal) by {
        if Valid(db) {
          forall i, j | 0 <= i < j < |cal| ensures cal[i].id != cal[j].id {
            if j == |cal| - 1 {
              assert cal[i] == db.calendar.rows[i];
            }
          }
        }
      }
      Ok(Db(Present(meals), Present(cal)))
  }

  // ---------------------------------------------------------------- fetchMeals

  /** `fetchMeals`: `SELECT * FROM meals`. */
  function FetchMeals(db: Db): (r: Result<seq<MealRow>, DbError>)
    ensures r.Ok? <==> db.meals.Present?
    ensures r.Ok? ==> r.value == db.meals.rows
  {
    match db.meals
    case Missing => Err(NoSuchTable(MealsTable))
    case Present(rows) => Ok(rows)
  }

  // ---------------------------------------------------------------- deleteAllMeals

  /** `deleteAllMeals`: despite its name it only runs `DROP TABLE IF EXISTS
      meals_calendar`; the `meals` table is left as it is. */
  function DeleteAllMeals(db: Db): (r: Db)
    ensures r.calendar.Missing?
    ensures r.meals == db.meals
    ensures Valid(db) ==> Valid(r)
  {
    db.(calendar := Missing)
  }

  /** After `deleteAllMeals` every meal is still fetched, the calendar queries
      fail until `init` runs again, and `init` then brings back an empty
      calendar beside the untouched meals. */
  lemma DeleteAllMealsKeepsMeals(db: Db, date: Day)
    ensures FetchMeals(DeleteAllMeals(db)) == FetchMeals(db)
    ensures FetchCalendarByDate(DeleteAllMeals(db), date).Err?
    ensures GetCalendarDates(DeleteAllMeals(db)).Err?
    ensures Init(DeleteAllMeals(db)).meals == Init(db).meals
    ensures Init(DeleteAllMeals(db)).calendar == Present([])
  {
  }

  // ---------------------------------------------------------------- removeLastMeal

  /** The meal rows whose id differs from `id`, in order. */
  function DropId(rows: seq<MealRow>, id: string): (r: seq<MealRow>)
    ensures forall m :: m in r <==> m in rows && m.id != id
    ensures |r| <= |rows|
  {
    if rows == [] then []
    else
      assert rows == [rows[0]] + rows[1..];
      (if rows[0].id == id then [] else [rows[0]]) + DropId(rows[1..], id)
  }

  lemma UniqueMealIdsTail(rows: seq<MealRow>)
    requires rows != [] && UniqueMealIds(rows)
    ensures UniqueMealIds(rows[1..])
    ensures forall m :: m in rows[1..] ==> m.id != rows[0].id
  {
    forall i, j | 0 <= i < j < |rows[1..]| ensures rows[1..][i].id != rows[1..][j].id {
      assert rows[1..][i] == rows[i + 1] && rows[1..][j] == rows[j + 1];
    }
    forall m | m in rows[1..] ensures m.id != rows[0].id {
      var k :| 0 <= k < |rows[1..]| && rows[1..][k] == m;
      assert rows[k + 1] == m;
    }
  }

  lemma UniqueEntryIdsTail(rows: seq<CalendarRow>)
    requires rows != [] && UniqueEntryIds(rows)
    ensures UniqueEntryIds(rows[1..])
    ensures forall e :: e in rows[1..] ==> e.id != rows[0].id
  {
    forall i, j | 0 <= i < j < |rows[1..]| ensures rows[1..][i].id != rows[1..][j].id {
      assert rows[1..][i] == rows[i + 1] && rows[1..][j] == rows[j + 1];
    }
    forall e | e in rows[1..] ensures e.id != rows[0].id {
      var k :| 0 <= k < |rows[1..]| && rows[1..][k] == e;
      assert rows[k + 1] == e;
    }
  }

  /** Deleting rows keeps the remaining ids unique. */
  lemma {:induction false} DropIdKeepsUnique(rows: seq<MealRow>, id: string)
    requires UniqueMealIds(rows)
    ensures UniqueMealIds(DropId(rows, id))
  {
    if rows != [] {
      UniqueMealIdsTail(rows);
      DropIdKeepsUnique(rows[1..], id);
      var rest := DropId(rows[1..], id);
      if rows[0].id != id {
        var r := [rows[0]] + rest;
        forall i, j | 0 <= i < j < |r| ensures r[i].id != r[j].id {
          assert r[j] == rest[j - 1];
          if i > 0 {
            assert r[i] == rest[i - 1];
          } else {
            assert rest[j - 1] in rows[1..];
          }
        }
      }
    }
  }

  /** With no row of that id, nothing is deleted. */
  lemma {:induction false} DropIdAbsent(rows: seq<MealRow>, id: string)
    requires !HasMealId(rows, id)
    ensures DropId(rows, id) == rows
  {
    if rows != [] {
      assert !HasMealId(rows[1..], id) by {
        forall i | 0 <= i < |rows[1..]| ensures rows[1..][i].id != id {
          assert rows[1..][i] == rows[i + 1];
        }
      }
      DropIdAbsent(rows[1..], id);
      assert rows[0].id != id;
      assert rows == [rows[0]] + rows[1..];
    }
  }

  /** With unique ids, exactly one row is deleted when the id is present. */
  lemma {:induction false} DropIdRemovesOne(rows: seq<MealRow>, id: string)
    requires UniqueMealIds(rows) && HasMealId(rows, id)
    ensures |DropId(rows, id)| == |rows| - 1
  {
    UniqueMealIdsTail(rows);
    if rows[0].id == id {
      assert !HasMealId(rows[1..], id) by {
        forall i | 0 <= i < |rows[1..]| ensures rows[1..][i].id != id {
          assert rows[1..][i] in rows[1..];
        }
      }
      DropIdAbsent(rows[1..], id);
    } else {
      assert HasMealId(rows[1..], id) by {
        var i :| 0 <= i < |rows| && rows[i].id == id;
        assert rows[1..][i - 1] == rows[i];
      }
      DropIdRemovesOne(rows[1..], id);
    }
  }

  /** `removeLastMeal`: `DELETE FROM meals WHERE id = (SELECT MAX(id) FROM meals)`.
      The ids are random UUIDs, so the greatest id in string order need not be
      the most recently inserted meal. The calendar is left untouched, including
      rows that reference the deleted meal. */
  function RemoveLastMeal(db: Db): (r: Result<Db, DbError>)
    ensures r.Ok? <==> db.meals.Present? && |db.meals.rows| > 0
    ensures r.Ok? ==>
      var top := MaxString(MealIds(db.meals.rows));
      && r.value.calendar == db.calendar
      && r.value.meals.Present?
      && (forall m :: m in r.value.meals.rows <==> m in db.meals.rows && m.id != top)
      && (Valid(db) ==> |r.value.meals.rows| == |db.meals.rows| - 1)
    ensures r.Ok? && Valid(db) ==> Valid(r.value)
  {
    if db.meals.Missing? then Err(NoSuchTable(MealsTable))
    else if |db.meals.rows| == 0 then Err(NoMealsToRemove)
    else
      var top := MaxString(MealIds(db.meals.rows));
      assert HasMealId(db.meals.rows, top) by {
        var i :| 0 <= i < |db.meals.rows| && MealIds(db.meals.rows)[i] == top;
      }
      var kept := DropId(db.meals.rows, top);
      assert Valid(db) ==> UniqueMealIds(kept) && |kept| == |db.meals.rows| - 1 by {
        if Valid(db) {
          DropIdKeepsUnique(db.meals.rows, top);
          DropIdRemovesOne(db.meals.rows, top);
        }
      }
      Ok(db.(meals := Present(kept)))
  }

  /** The meal `removeLastMeal` deletes has an id no smaller, in string order,
      than any other meal's. */
  lemma RemoveLastMealRemovesGreatestId(db: Db, m: MealRow)
    requires RemoveLastMeal(db).Ok?
    requires m in db.meals.rows && m !in RemoveLastMeal(db).value.meals.rows
    ensures forall k :: 0 <= k < |db.meals.rows| ==> StrLeq(db.meals.rows[k].id, m.id)
  {
    var rows := db.meals.rows;
    var top := MaxString(MealIds(rows));
    assert m.id == top;
    forall k | 0 <= k < |rows| ensures StrLeq(rows[k].id, m.id) {
      assert MealIds(rows)[k] == rows[k].id;
    }
  }

  // ---------------------------------------------------------------- updateMealById

  /** The `meals` rows after `SET name, carbs, protein, fats ... WHERE id = mealId`. */
  function UpdateRows(rows: seq<MealRow>, mealId: string, updated: MealRow): (r: seq<MealRow>)
    ensures |r| == |rows|
    ensures forall i :: 0 <= i < |rows| ==>
      r[i] == if rows[i].id == mealId
              then MealRow(rows[i].id, updated.name, updated.carbs, updated.protein, updated.fats)
              else rows[i]
  {
    seq(|rows|, i requires 0 <= i < |rows| =>
      if rows[i].id == mealId
      then rows[i].(name := updated.name, carbs := updated.carbs, protein := updated.protein, fats := updated.fats)
      else rows[i])
  }

  /** `updateMealById`: overwrite the four text fields of the meal with that id;
      reject when no row was affected. The id itself is never rewritten, whatever
      `updated.id` says. */
  function UpdateMealById(db: Db, mealId: string, updated: MealRow): (r: Result<Db, DbError>)
    ensures r.Ok? <==> db.meals.Present? && HasMealId(db.meals.rows, mealId)
    ensures r.Ok? ==>
      && r.value.calendar == db.calendar
      && r.value.meals.Present?
      && MealIds(r.value.meals.rows) == MealIds(db.meals.rows)
      && (forall i :: 0 <= i < |db.meals.rows| && db.meals.rows[i].id != mealId ==>
            r.value.meals.rows[i] == db.meals.rows[i])
      && (forall i :: 0 <= i < |db.meals.rows| && db.meals.rows[i].id == mealId ==>
            var m := r.value.meals.rows[i];
            m.name == updated.name && m.carbs == updated.carbs
            && m.protein == updated.protein && m.fats == updated.fats)
    ensures r.Ok? && Valid(db) ==> Valid(r.value)
    ensures r.Err? && db.meals.Present? ==> r.error == MealNotFound(mealId)
  {
    if db.meals.Missing? then Err(NoSuchTable(MealsTable))
    else if !HasMealId(db.meals.rows, mealId) then Err(MealNotFound(mealId))
    else
      var rows' := UpdateRows(db.meals.rows, mealId, updated);
      assert MealIds(rows') == MealIds(db.meals.rows);
      Ok(db.(meals := Present(rows')))
  }

  /** Saving the same edit twice is the same as saving it once. */
  lemma UpdateMealByIdIdempotent(db: Db, mealId: string, updated: MealRow)
    requires UpdateMealById(db, mealId, updated).Ok?
    ensures UpdateMealById(UpdateMealById(db, mealId, updated).value, mealId, updated)
         == UpdateMealById(db, mealId, updated)
  {
    var once := UpdateMealById(db, mealId, updated).value;
    var i :| 0 <= i < |db.meals.rows| && db.meals.rows[i].id == mealId;
    assert once.meals.rows[i].id == mealId;
    assert UpdateRows(once.meals.rows, mealId, updated) == once.meals.rows;
  }

  // ---------------------------------------------------------------- date-scoped joins

  /** The calendar rows dated `date`, each paired with every meal whose id is the
      row's `meal_id`: the inner join `meals_calendar mc JOIN meals m ON
      mc.meal_id = m.id WHERE mc.date = date`. A row whose meal is gone joins
      with nothing. */
  function JoinOnDate(cal: seq<CalendarRow>, meals: seq<MealRow>, date: Day): (r: seq<(CalendarRow, MealRow)>)
    ensures forall p :: p in r <==> p.0 in cal && p.1 in meals && p.0.date == date && p.0.mealId == p.1.id
    decreases |cal|
  {
    if cal == [] then []
    else
      assert cal == [cal[0]] + cal[1..];
      (if cal[0].date == date then MealsOf(cal[0], meals) else []) + JoinOnDate(cal[1..], meals, date)
  }

  /** `entry` paired with each meal whose id is its `meal_id`. */
  function MealsOf(entry: CalendarRow, meals: seq<MealRow>): (r: seq<(CalendarRow, MealRow)>)
    ensures forall p :: p in r <==> p.0 == entry && p.1 in meals && p.1.id == entry.mealId
  {
    if meals == [] then []
    else
      assert meals == [meals[0]] + meals[1..];
      (if meals[0].id == entry.mealId then [(entry, meals[0])] else []) + MealsOf(entry, meals[1..])
  }

  /** With unique meal ids a calendar row joins with at most one meal, so its
      pairs are all different. */
  lemma {:induction false} MealsOfDistinct(entry: CalendarRow, meals: seq<MealRow>)
    requires UniqueMealIds(meals)
    ensures Distinct(MealsOf(entry, meals))
  {
    if meals != [] {
      UniqueMealIdsTail(meals);
      MealsOfDistinct(entry, meals[1..]);
      var head := if meals[0].id == entry.mealId then [(entry, meals[0])] else [];
      DistinctConcat(head, MealsOf(entry, meals[1..]));
    }
  }

  /** With both primary keys, the join on a date holds each (calendar row, meal)
      pair once. */
  lemma {:induction false} JoinOnDateDistinct(cal: seq<CalendarRow>, meals: seq<MealRow>, date: Day)
    requires UniqueEntryIds(cal) && UniqueMealIds(meals)
    ensures Distinct(JoinOnDate(cal, meals, date))
    decreases |cal|
  {
    if cal != [] {
      UniqueEntryIdsTail(cal);
      JoinOnDateDistinct(cal[1..], meals, date);
      MealsOfDistinct(cal[0], meals);
      var head := if cal[0].date == date then MealsOf(cal[0], meals) else [];
      DistinctConcat(head, JoinOnDate(cal[1..], meals, date));
    }
  }

  /** The selected columns of each joined pair, in join order. */
  function Views(pairs: seq<(CalendarRow, MealRow)>): (r: seq<CalendarMeal>)
    ensures |r| == |pairs|
    ensures forall k :: 0 <= k < |pairs| ==> r[k] == View(pairs[k].0, pairs[k].1)
  {
    seq(|pairs|, k requires 0 <= k < |pairs| => View(pairs[k].0, pairs[k].1))
  }

  /** The columns `fetchCalendarByDate` selects from one joined pair. */
  function View(entry: CalendarRow, meal: MealRow): CalendarMeal {
    CalendarMeal(entry.id, entry.mealId, entry.date, entry.isChecked,
                 meal.name, meal.carbs, meal.protein, meal.fats)
  }

  /** `fetchCalendarByDate`: the day's calendar rows with their meals' fields. */
  function FetchCalendarByDate(db: Db, date: Day): (r: Result<seq<CalendarMeal>, DbError>)
    ensures r.Ok? <==> db.meals.Present? && db.calendar.Present?
    ensures r.Ok? ==> forall k :: 0 <= k < |r.value| ==> r.value[k].date == date
    ensures r.Ok? ==> forall e, m ::
      e in db.calendar.rows && m in db.meals.rows && e.date == date && e.mealId == m.id
      ==> View(e, m) in r.value
    ensures r.Ok? && Valid(db) ==> Distinct(r.value)
    ensures r.Ok? ==> forall v :: v in r.value ==>
      exists e, m :: e in db.calendar.rows && m in db.meals.rows && e.date == date
                     && e.mealId == m.id && v == View(e, m)
  {
    if db.meals.Missing? then Err(NoSuchTable(MealsTable))
    else if db.calendar.Missing? then Err(NoSuchTable(CalendarTable))
    else
      var pairs := JoinOnDate(db.calendar.rows, db.meals.rows, date);
      var views := Views(pairs);
      assert forall e, m ::
        e in db.calendar.rows && m in db.meals.rows && e.date == date && e.mealId == m.id
        ==> View(e, m) in views by {
        forall e, m | e in db.calendar.rows && m in db.meals.rows && e.date == date && e.mealId == m.id
          ensures View(e, m) in views {
          assert (e, m) in pairs;
          var k :| 0 <= k < |pairs| && pairs[k] == (e, m);
          assert views[k] == View(e, m);
        }
      }
      assert forall v :: v in views ==>
        exists e, m :: e in db.calendar.rows && m in db.meals.rows && e.date == date
                       && e.mealId == m.id && v == View(e, m) by {
        forall v | v in views
          ensures exists e, m :: e in db.calendar.rows && m in db.meals.rows && e.date == date
                                 && e.mealId == m.id && v == View(e, m) {
          var k :| 0 <= k < |views| && views[k] == v;
          assert pairs[k] in pairs;
        }
      }
      assert forall k :: 0 <= k < |views| ==> views[k].date == date by {
        forall k | 0 <= k < |views| ensures views[k].date == date {
          assert pairs[k] in pairs;
        }
      }
      assert Valid(db) ==> Distinct(views) by {
        if Valid(db) {
          ViewsDistinct(db, date);
        }
      }
      Ok(views)
  }

  /** Two joined pairs with the same calendar row id are the same pair: the
      calendar key fixes the row, and the meal key fixes its meal. */
  lemma SameKeySameRow(db: Db, p: (CalendarRow, MealRow), q: (CalendarRow, MealRow))
    requires Valid(db) && db.meals.Present? && db.calendar.Present?
    requires p.0 in db.calendar.rows && q.0 in db.calendar.rows && p.1 in db.meals.rows && q.1 in db.meals.rows
    requires p.0.mealId == p.1.id && q.0.mealId == q.1.id
    ensures p.0.id == q.0.id ==> p == q
  {
    if p.0.id == q.0.id {
      var cal, meals := db.calendar.rows, db.meals.rows;
      var i :| 0 <= i < |cal| && cal[i] == p.0;
      var j :| 0 <= j < |cal| && cal[j] == q.0;
      assert i == j;
      var k :| 0 <= k < |meals| && meals[k] == p.1;
      var l :| 0 <= l < |meals| && meals[l] == q.1;
      assert k == l;
    }
  }

  /** With both primary keys the joined rows of one date are all different:
      each carries its calendar row's id, and that id fixes the pair. */
  lemma ViewsDistinct(db: Db, date: Day)
    requires Valid(db) && db.meals.Present? && db.calendar.Present?
    ensures Distinct(Views(JoinOnDate(db.calendar.rows, db.meals.rows, date)))
  {
    var pairs := JoinOnDate(db.calendar.rows, db.meals.rows, date);
    var views := Views(pairs);
    JoinOnDateDistinct(db.calendar.rows, db.meals.rows, date);
    forall i, j | 0 <= i < j < |views| ensures views[i] != views[j] {
      assert pairs[i] != pairs[j];
      assert pairs[i] in pairs && pairs[j] in pairs;
      SameKeySameRow(db, pairs[i], pairs[j]);
    }
  }

  /** `fetchMealsByDate`: the meal columns of the same inner join. */
  function FetchMealsByDate(db: Db, date: Day): (r: Result<seq<MealRow>, DbError>)
    ensures r.Ok? <==> db.meals.Present? && db.calendar.Present?
    ensures r.Ok? ==> forall m :: m in r.value <==>
      m in db.meals.rows && exists e :: e in db.calendar.rows && e.date == date && e.mealId == m.id
  {
    if db.meals.Missing? then Err(NoSuchTable(MealsTable))
    else if db.calendar.Missing? then Err(NoSuchTable(CalendarTable))
    else
      var pairs := JoinOnDate(db.calendar.rows, db.meals.rows, date);
      var meals := seq(|pairs|, k requires 0 <= k < |pairs| => pairs[k].1);
      assert forall m :: m in meals <==>
        m in db.meals.rows && exists e :: e in db.calendar.rows && e.date == date && e.mealId == m.id by {
        forall m ensures m in meals <==>
          m in db.meals.rows && exists e :: e in db.calendar.rows && e.date == date && e.mealId == m.id {
          if m in meals {
            var k :| 0 <= k < |meals| && meals[k] == m;
            assert pairs[k] in pairs;
          }
          if m in db.meals.rows && exists e :: e in db.calendar.rows && e.date == date && e.mealId == m.id {
            var e :| e in db.calendar.rows && e.date == date && e.mealId == m.id;
            assert (e, m) in pairs;
            var k :| 0 <= k < |pairs| && pairs[k] == (e, m);
            assert meals[k] == m;
          }
        }
      }
      Ok(meals)
  }

  // ---------------------------------------------------------------- insertMealsForToday

  /** Some calendar row is dated `date`: `SELECT COUNT(*) ... WHERE date = ?` > 0. */
  predicate HasDate(rows: seq<CalendarRow>, date: Day) {
    exists i :: 0 <= i < |rows| && rows[i].date == date
  }

  /** One unchecked row dated `today` per meal, with the drawn ids. */
  function TodayRows(meals: seq<MealRow>, ids: seq<string>, today: Day): (r: seq<CalendarRow>)
    requires |ids| == |meals|
    ensures |r| == |meals|
    ensures forall k :: 0 <= k < |r| ==> r[k] == CalendarRow(ids[k], meals[k].id, today, false)
  {
    seq(|meals|, k requires 0 <= k < |meals| => CalendarRow(ids[k], meals[k].id, today, false))
  }

  /** `insertMealsForToday`: when no calendar row is dated today, insert one per
      meal (with the UUID `ids[k]` for `meals[k]`); otherwise do nothing. The
      `meals` table is not consulted. */
  function InsertMealsForToday(db: Db, meals: seq<MealRow>, ids: seq<string>, today: Day): (r: Result<Db, DbError>)
    requires |ids| == |meals|
    ensures r.Ok? <==> db.calendar.Present? && (HasDate(db.calendar.rows, today) || FreshEntryIds(db.calendar.rows, ids))
    ensures r.Ok? && HasDate(db.calendar.rows, today) ==> r.value == db
    ensures r.Ok? ==> r.value.calendar.Present?
    ensures r.Ok? && !HasDate(db.calendar.rows, today) ==>
      var cal := r.value.calendar.rows;
      && r.value.meals == db.meals
      && |cal| == |db.calendar.rows| + |meals|
      && cal[..|db.calendar.rows|] == db.calendar.rows
      && forall k :: 0 <= k < |meals| ==>
           cal[|db.calendar.rows| + k] == CalendarRow(ids[k], meals[k].id, today, false)
    ensures r.Ok? && Valid(db) ==> Valid(r.value)
  {
    if db.calendar.Missing? then Err(NoSuchTable(CalendarTable))
    else if HasDate(db.calendar.rows, today) then Ok(db)
    else if !FreshEntryIds(db.calendar.rows, ids) then Err(UniqueConstraintFailed(CalendarTable))
    else
      var old_rows := db.calendar.rows;
      var added := TodayRows(meals, ids, today);
      var cal := old_rows + added;
      assert Valid(db) ==> UniqueEntryIds(cal) by {
        if Valid(db) {
          forall i, j | 0 <= i < j < |cal| ensures cal[i].id != cal[j].id {
            if j >= |old_rows| {
              assert cal[j].id == ids[j - |old_rows|];
              if i < |old_rows| {
                assert cal[i] == old_rows[i];
                assert !HasEntryId(old_rows, ids[j - |old_rows|]);
              } else {
                assert cal[i].id == ids[i - |old_rows|];
              }
            }
          }
        }
      }
      Ok(db.(calendar := Present(cal)))
  }

  /** Calling `insertMealsForToday` again on the same day changes nothing, so
      calling it twice is the same as calling it once. */
  lemma InsertMealsForTodayIdempotent(db: Db, meals: seq<MealRow>, ids1: seq<string>, ids2: seq<string>, today: Day)
    requires |ids1| == |meals| && |ids2| == |meals|
    requires InsertMealsForToday(db, meals, ids1, today).Ok?
    ensures InsertMealsForToday(InsertMealsForToday(db, meals, ids1, today).value, meals, ids2, today)
         == InsertMealsForToday(db, meals, ids1, today)
  {
    var once := InsertMealsForToday(db, meals, ids1, today).value;
    var rows := db.calendar.rows;
    if !HasDate(rows, today) {
      if |meals| == 0 {
        assert once.calendar.rows == rows;
        assert once == db;
      } else {
        assert once.calendar.rows[|rows|].date == today;
        assert HasDate(once.calendar.rows, today);
      }
    }
  }

  // ---------------------------------------------------------------- toggleMealCheckedStatus

  /** The row belongs to that meal on that day. */
  predicate IsEntryFor(row: CalendarRow, mealId: string, date: Day) {
    row.mealId == mealId && row.date == date
  }

  predicate HasEntryFor(rows: seq<CalendarRow>, mealId: string, date: Day) {
    exists i :: 0 <= i < |rows| && IsEntryFor(rows[i], mealId, date)
  }

  /** `SET isChecked = NOT isChecked WHERE meal_id = ? AND date = ?`. */
  function FlipRows(rows: seq<CalendarRow>, mealId: string, date: Day): (r: seq<CalendarRow>)
    ensures |r| == |rows|
    ensures forall i :: 0 <= i < |rows| ==>
      && r[i].id == rows[i].id && r[i].mealId == rows[i].mealId && r[i].date == rows[i].date
      && r[i].isChecked == (rows[i].isChecked != IsEntryFor(rows[i], mealId, date))
  {
    seq(|rows|, i requires 0 <= i < |rows| =>
      if IsEntryFor(rows[i], mealId, date) then rows[i].(isChecked := !rows[i].isChecked) else rows[i])
  }

  /** `toggleMealCheckedStatus`: flip `isChecked` on every calendar row of that
      meal dated today; reject when no row matched. */
  function ToggleMealCheckedStatus(db: Db, mealId: string, today: Day): (r: Result<Db, DbError>)
    ensures r.Ok? <==> db.calendar.Present? && HasEntryFor(db.calendar.rows, mealId, today)
    ensures r.Err? && db.calendar.Present? ==> r.error == NoRowsUpdated(mealId, today)
    ensures r.Ok? ==> r.value.calendar.Present?
    ensures r.Ok? ==>
      var cal := r.value.calendar.rows;
      && r.value.meals == db.meals
      && |cal| == |db.calendar.rows|
      && forall i :: 0 <= i < |cal| ==>
           if IsEntryFor(db.calendar.rows[i], mealId, today)
           then cal[i] == db.calendar.rows[i].(isChecked := !db.calendar.rows[i].isChecked)
           else cal[i] == db.calendar.rows[i]
    ensures r.Ok? && Valid(db) ==> Valid(r.value)
  {
    if db.calendar.Missing? then Err(NoSuchTable(CalendarTable))
    else if !HasEntryFor(db.calendar.rows, mealId, today) then Err(NoRowsUpdated(mealId, today))
    else Ok(db.(calendar := Present(FlipRows(db.calendar.rows, mealId, today))))
  }

  /** Toggling the same meal twice on the same day restores the database. */
  lemma ToggleInvolution(db: Db, mealId: string, today: Day)
    requires ToggleMealCheckedStatus(db, mealId, today).Ok?
    ensures ToggleMealCheckedStatus(ToggleMealCheckedStatus(db, mealId, today).value, mealId, today) == Ok(db)
  {
    var rows := db.calendar.rows;
    var once := FlipRows(rows, mealId, today);
    var i :| 0 <= i < |rows| && IsEntryFor(rows[i], mealId, today);
    assert IsEntryFor(once[i], mealId, today);
    assert FlipRows(once, mealId, today) == rows;
  }

  // ---------------------------------------------------------------- getCalendarDates

  function DatesOf(rows: seq<CalendarRow>): (dates: seq<Day>)
    ensures |dates| == |rows|
    ensures forall i :: 0 <= i < |rows| ==> dates[i] == rows[i].date
  {
    seq(|rows|, i requires 0 <= i < |rows| => rows[i].date)
  }

  /** `getCalendarDates`: `SELECT DISTINCT date FROM meals_calendar`. */
  function GetCalendarDates(db: Db): (r: Result<seq<Day>, DbError>)
    ensures r.Ok? <==> db.calendar.Present?
    ensures r.Ok? ==> Distinct(r.value)
    ensures r.Ok? ==> forall d :: d in r.value <==> HasDate(db.calendar.rows, d)
  {
    if db.calendar.Missing? then Err(NoSuchTable(CalendarTable))
    else
      var dates := DatesOf(db.calendar.rows);
      assert forall d :: d in dates <==> HasDate(db.calendar.rows, d) by {
        forall d ensures d in dates <==> HasDate(db.calendar.rows, d) {
          if d in dates {
            var i :| 0 <= i < |dates| && dates[i] == d;
          }
        }
      }
      Ok(Dedup(dates))
  }

  // ---------------------------------------------------------------- across operations

  /** A meal just inserted shows up, unchecked, in today's calendar and among all
      meals. */
  lemma InsertedMealIsListedToday(db: Db, meal: MealRow, entryId: string, today: Day)
    requires InsertMeal(db, meal, entryId, today).Ok?
    ensures meal in FetchMeals(InsertMeal(db, meal, entryId, today).value).value
    ensures View(CalendarRow(entryId, meal.id, today, false), meal)
            in FetchCalendarByDate(InsertMeal(db, meal, entryId, today).value, today).value
  {
    var after := InsertMeal(db, meal, entryId, today).value;
    assert after.meals.rows[|db.meals.rows|] == meal;
    assert after.calendar.rows[|db.calendar.rows|] == CalendarRow(entryId, meal.id, today, false);
  }

  /** After `removeLastMeal`, calendar rows of the deleted meal stay behind, and
      the inner join hides them: no day lists the deleted meal (given unique
      meal ids). */
  lemma RemovedMealLeavesNoViews(db: Db, date: Day)
    requires Valid(db)
    requires RemoveLastMeal(db).Ok? && db.calendar.Present?
    ensures RemoveLastMeal(db).value.calendar == db.calendar
    ensures var top := MaxString(MealIds(db.meals.rows));
      forall v :: v in FetchCalendarByDate(RemoveLastMeal(db).value, date).value ==> v.mealId != top
  {
    var after := RemoveLastMeal(db).value;
    var top := MaxString(MealIds(db.meals.rows));
    forall v | v in FetchCalendarByDate(after, date).value ensures v.mealId != top {
      var e, m :| e in after.calendar.rows && m in after.meals.rows && e.date == date
                  && e.mealId == m.id && v == View(e, m);
    }
  }
}
