# meals-tracker core, modelled in Dafny

The meals-tracker app lets a user keep a daily list of meals and tick each one
off. Past days can be browsed on a calendar, and a badge shows the current
"streak" of consecutive days. Three pieces of the app hold logic that can be
stated and proved, and this project models those three:

- **Streak counter** (`streak.dfy`, module `Streak`). This is `currentStreak`
  from `utils/streak-counter.ts`. It reads a list of dates, most recent first,
  and counts the current run of consecutive days. Dates are integer day
  numbers, so consecutive days differ by 1, and "today" is a parameter.
  `CurrentStreak` is the closed form. `CountStreak` follows the source
  statement by statement, and `undefined` becomes `None`. Its postcondition
  proves that the loop always returns and that it matches the closed form.
- **Meal/calendar store** (`database.dfy`, module `Database`). These are the
  SQLite tables `meals` and `meals_calendar` from `utils/database.ts`. A
  database is modelled as a value `Db` holding two tables. Either table may be
  `Missing`: both are missing before `init`, and `deleteAllMeals` drops the
  calendar. Each exported function is a transition that returns
  `Ok(newState)`, or `Err(error)` with the state unchanged. The state is
  unchanged on error because every error callback returns `true`, and that
  rolls the transaction back. "Today" and the UUIDs the code draws are
  parameters. `Valid` states the two PRIMARY KEY constraints. Every transition
  preserves it.
- **Today screen list updates** (`today_meals.dfy`, module `TodayMeals`).
  These are the `setMeals` updaters of `components/TodayMeals/TodayMeals.tsx`,
  written as pure functions on `seq<Meal>`. The checkbox handler is one step
  on the pair (list, database). It applies the optimistic flip, then the store
  toggle, then a rollback if the toggle fails.

The shared records are in `meal_types.dfy` (module `MealTypes`, from
`types/meal.ts`). Helpers are in `seqs.dfy` and `results.dfy`: `Option` and
`Result`, duplicate-freedom, `SELECT DISTINCT`, and SQLite's binary string
order with its `MAX`.

Modelling choices that follow the code:

- `currentStreak([yesterday])` is 0, not 1. When the list starts yesterday,
  the head gets no +1. Only the one-day steps after it are counted.
- `currentStreak([])` is 0. The missing first element is an invalid date, so
  the code takes the `return 0` branch. It never returns `undefined`.
- `insertMealsForToday` does not look at the `meals` table. It skips the
  insert when any calendar row is already dated today.
- `toggleMealCheckedStatus` flips every calendar row of the meal dated today.
  It rejects the call when no such row exists.
- `removeLastMeal` deletes the meal with the greatest id in string order.
  That need not be the meal added last. The Today screen pops its last list
  entry instead, and `TodayMeals.LocalAndStoreRemovalMayDiffer` shows that the
  two can be different meals.
- `deleteAllMeals` drops only `meals_calendar`. The `meals` table is kept.
- The `FOREIGN KEY` clause is not enforced, because SQLite leaves foreign keys
  off by default. Removing a meal therefore leaves its calendar rows behind.
  The inner joins of the date queries hide those rows.
- In the Today screen's list, `isChecked` is optional (`Option<bool>`). Only
  its truthiness counts. Entries loaded from the store hold SQLite's 0 or 1,
  and the model writes those as `false` and `true`. A rollback writes back the
  pre-tap value as a boolean. That equals the original exactly for a boolean
  flag; a 0 or 1 comes back as `false` or `true`, which is equal only up to
  truthiness.

## Model

| member | source | states |
|---|---|---|
| `Streak.LeadingSteps` | utils/streak-counter.ts:13-21 | The loop's count is exactly the number of leading adjacent pairs that are one day apart: every pair before it passes and the pair at it fails; it is 0 or stays inside the list |
| `Streak.LeadingStepsExact` | utils/streak-counter.ts:13-21 | Any k with "the first k pairs are one-day steps and pair k is not" is the loop's count, so the count is uniquely determined |
| `Streak.CurrentStreak` | utils/streak-counter.ts:4-22 | The streak is a natural number no larger than the list; it is 0 for the empty list; it is below the length when the head is not today; and it is 0 when the head is neither today nor yesterday |
| `Streak.CountStreak` | utils/streak-counter.ts:1-23 | Running the source's statements, including the head test and the loop, always returns a number (never `undefined`), and that number is the closed form |
| `Streak.BrokenStreakIsZero` | utils/streak-counter.ts:4-11 | A first date that is neither today nor yesterday (a broken streak, a future date, or no date at all) gives 0 |
| `Streak.StreakFromToday` | utils/streak-counter.ts:4-21 | A list starting today gives 1 plus the number of leading one-day steps |
| `Streak.StreakFromYesterday` | utils/streak-counter.ts:6-21 | A list starting yesterday gives only the number of leading one-day steps, with no +1 for the head |
| `Streak.ConsecutiveDaysCountAll` | utils/streak-counter.ts:4-21 | A list of consecutive days counting down from today gives its full length |
| `Streak.LeadingStepsIgnoreSuffix` | utils/streak-counter.ts:17-20 | Once a pair fails the one-day test inside the list, appending any dates does not change the loop's count |
| `Streak.StreakIgnoresDatesAfterBreak` | utils/streak-counter.ts:13-21 | The scan stops at the first pair that is not one day apart (gap, duplicate, ascending); no date after that point affects the streak |
| `Streak.StreakExamples` | utils/streak-counter.ts:1-23 | [today] gives 1; three consecutive days from today give 3; [today, two days ago] gives 1; [yesterday] gives 0; [yesterday, the day before] gives 1; three days ago gives 0; [] gives 0 |
| `Seqs.MaxString` | utils/database.ts:140 | `MAX(id)` over a non-empty column is one of the ids and no id is greater in SQLite's binary string order |
| `Seqs.StrLeqTotal` | utils/database.ts:140 | Any two ids are comparable in the binary string order, so `MAX(id)` is defined |
| `Seqs.StrLeqTransitive` | utils/database.ts:140 | The binary string order is transitive |
| `Seqs.StrLeqAntisymmetric` | utils/database.ts:140 | Two ids that are each at most the other are equal, so the greatest id is unique |
| `Seqs.Dedup` | utils/database.ts:323 | `SELECT DISTINCT` yields exactly the values of the column, each once |
| `Database.Init` | utils/database.ts:12-29 | `init` leaves both tables present and keeps every row of a table that already existed; a missing table comes back empty; the key constraints are kept |
| `Database.FirstLaunchCreatesEmptyTables` | utils/database.ts:8-35 | On a fresh database `init` creates both tables, empty, and the key constraints hold |
| `Database.InitIdempotent` | utils/database.ts:12-29 | Calling `init` again changes neither the schema nor any row |
| `Database.InsertMeal` | utils/database.ts:54-92 | Succeeds exactly when both tables exist and neither new id is taken; then it appends exactly one `meals` row and exactly one `meals_calendar` row (that meal, today, unchecked) and leaves every earlier row in place; keys stay unique |
| `Database.InsertedMealIsListedToday` | utils/database.ts:57-70 | After a successful `insertMeal`, the meal is among all meals and today's calendar lists it, unchecked |
| `Database.FetchMeals` | utils/database.ts:94-113 | Fails exactly when the `meals` table is missing; otherwise returns every meal row |
| `Database.DeleteAllMeals` | utils/database.ts:115-134 | Drops only `meals_calendar`; the `meals` table is unchanged |
| `Database.DeleteAllMealsKeepsMeals` | utils/database.ts:115-134 | After `deleteAllMeals` all meals are still fetched, the calendar queries fail, and `init` restores an empty calendar beside the unchanged meals |
| `Database.DropId` | utils/database.ts:140 | `DELETE FROM meals WHERE id = x` keeps exactly the rows whose id is not x, and never adds rows |
| `Database.DropIdKeepsUnique` | utils/database.ts:140 | Deleting the rows with one id keeps the remaining meal ids unique |
| `Database.DropIdRemovesOne` | utils/database.ts:140 | With unique ids, `DELETE ... WHERE id = x` for a present x removes exactly one row |
| `Database.RemoveLastMeal` | utils/database.ts:136-159 | Fails exactly on a missing or empty `meals` table; otherwise keeps exactly the meals whose id is not the greatest, removes one row when the ids are unique, and leaves `meals_calendar` untouched |
| `Database.RemoveLastMealRemovesGreatestId` | utils/database.ts:140 | The meal `removeLastMeal` deletes has an id no smaller than any other meal's id |
| `Database.RemovedMealLeavesNoViews` | utils/database.ts:140-147 | Calendar rows of the deleted meal stay in `meals_calendar`, but no day's joined listing shows the deleted meal |
| `Database.UpdateMealById` | utils/database.ts:161-188 | Succeeds exactly when a meal has that id (else `MealNotFound`); then it rewrites name, carbs, protein and fats of that meal only; no id changes, every other meal and the whole calendar are unchanged |
| `Database.UpdateMealByIdIdempotent` | utils/database.ts:165-168 | Saving the same edit twice is the same as saving it once |
| `Database.JoinOnDate` | utils/database.ts:194-197 | The inner join on a date holds exactly the pairs of a calendar row of that date and a meal whose id is the row's `meal_id` |
| `Database.MealsOfDistinct` | utils/database.ts:274 | With unique meal ids, the join of one calendar row with `meals` repeats no pair |
| `Database.JoinOnDateDistinct` | utils/database.ts:272-276 | With both primary keys, the inner join on a date holds each (calendar row, meal) pair once |
| `Database.SameKeySameRow` | utils/database.ts:12-29 | Under both primary keys, two joined pairs with the same calendar row id are the same pair |
| `Database.ViewsDistinct` | utils/database.ts:272-276 | With both primary keys, the selected columns of the joined rows of one date are all different, because each carries its calendar row's id |
| `Database.FetchCalendarByDate` | utils/database.ts:266-290 | Every returned row has the requested date; every calendar row of that date whose meal exists appears, joined with that meal's fields; nothing else appears (orphan rows are dropped); with both primary keys no row appears twice |
| `Database.FetchMealsByDate` | utils/database.ts:190-212 | A meal is returned exactly when it exists and some calendar row of the requested date references it |
| `Database.InsertMealsForToday` | utils/database.ts:214-264 | If some calendar row is dated today nothing changes; otherwise exactly one unchecked row dated today is appended per input meal, with the drawn ids, and every earlier row and the `meals` table are untouched; it fails only on a missing table or a taken id |
| `Database.InsertMealsForTodayIdempotent` | utils/database.ts:219-251 | Calling `insertMealsForToday` a second time on the same day, with any new ids, leaves the state of the first call unchanged |
| `Database.ToggleMealCheckedStatus` | utils/database.ts:292-317 | Succeeds exactly when a calendar row of that meal is dated today; then it flips `isChecked` on exactly those rows and leaves every other row, every other field and the `meals` table unchanged; on failure reports `NoRowsUpdated` |
| `Database.ToggleInvolution` | utils/database.ts:298 | Toggling the same meal twice on the same day restores the database exactly |
| `Database.GetCalendarDates` | utils/database.ts:319-341 | Returns every date that has at least one calendar row, each exactly once, and no other date |
| `TodayMeals.WithField` | components/TodayMeals/TodayMeals.tsx:91 | Spreading `[inputName]: text` sets the named field and leaves the other fields, the ids and the check mark as they were |
| `TodayMeals.OptimisticFlip` | components/TodayMeals/TodayMeals.tsx:41-45 | The tapped entry's flag becomes the boolean negation of its pre-tap truthiness; every other field of it and every other entry stay as they were, and the length is kept |
| `TodayMeals.Rollback` | components/TodayMeals/TodayMeals.tsx:51-55 | The tapped entry's flag becomes its pre-tap truthiness as a boolean; every other field of it and every other entry stay as they were, and the length is kept |
| `TodayMeals.FlipThenRollback` | components/TodayMeals/TodayMeals.tsx:38-55 | The rollback undoes the optimistic flip: the result is the original list, with the entry's flag only normalised to a boolean, and exactly the original list for a boolean flag (`undefined` comes back as `false`) |
| `TodayMeals.HandleToggle` | components/TodayMeals/TodayMeals.tsx:33-58 | In edit mode (or with no entry at the index) neither the list nor the store changes; otherwise only the tapped entry's check mark changes. It is inverted and the store toggled when the store accepts, and it keeps its old truthiness with the store unchanged when the store rejects |
| `TodayMeals.TwoAcceptedTapsRestore` | components/TodayMeals/TodayMeals.tsx:41-48 | Two accepted taps on the same entry restore the store exactly and the entry's check mark up to truthiness |
| `TodayMeals.AddMeal` | components/TodayMeals/TodayMeals.tsx:63-65 | Appends exactly one entry with the new id, empty texts, no `meal_id` and unchecked; earlier entries are kept in order |
| `TodayMeals.RemoveLast` | components/TodayMeals/TodayMeals.tsx:77-81 | Drops exactly the last entry; an empty list stays empty |
| `TodayMeals.RemoveLastUndoesAdd` | components/TodayMeals/TodayMeals.tsx:63-81 | Removing right after adding gives back the original list |
| `TodayMeals.LocalAndStoreRemovalMayDiffer` | components/TodayMeals/TodayMeals.tsx:76-83 | For a concrete list and store, the screen drops its last entry while the store deletes a different meal, the one with the greatest id |
| `TodayMeals.ChangeText` | components/TodayMeals/TodayMeals.tsx:85-94 | Length and order are kept; entries with another id are unchanged; entries with that id get the text in the named field and keep every other field, their ids and their check mark |
| `TodayMeals.ChangeTextLastWriteWins` | components/TodayMeals/TodayMeals.tsx:85-94 | Two edits of the same field of the same entry leave only the second text |

## Left out

- The SQLite plumbing is not modelled: opening the database, nested
  transaction callbacks, `console.log` and promise settlement. Each call is one
  atomic transition. Some error callbacks reject only when
  `typeof error === 'string'` and can leave the promise unsettled; the model
  treats every SQL error as a rejection.
- The date APIs are not modelled. This covers `toISOString` (UTC, used for
  stored dates), `toDateString` (local time, used in the streak head test) and
  millisecond arithmetic. The mismatch between them around midnight and
  daylight-saving changes is left out too. Every date is a day number, and
  `today` is passed in.
- `Streak.LeadingSteps`: the loop compares raw timestamps without normalising
  the time of day. The model's dates are whole days, so dates that carry a
  time of day are not covered.
- `Streak.CurrentStreak`: a date string that does not parse is not modelled.
  The only invalid date in the model is the missing element past the end of
  the list.
- `Crypto.randomUUID` is not modelled. The caller supplies the ids; freshness
  is not assumed, and a taken id is a constraint failure.
- `Database.InsertMealsForToday` takes one id per input meal as a parameter,
  because the source draws one UUID per meal.
- `Database.InsertMeal` does not return the `meal.id` that the promise
  resolves with. That value is only the input echoed back.
- `Database.FetchMealsByDate`: states which meals appear, not how often. SQL
  gives no row order, and a meal appears once per matching calendar row.
- `Database.FetchCalendarByDate`: states which rows appear, not their order,
  because SQL gives none.
- `Database.InsertMealsForToday`: the source resolves its promise
  (database.ts:252) before the queued `INSERT`s run. A failing `INSERT` rolls
  the transaction back after the caller has already been told it succeeded.
  The model returns the rolled-back outcome, `Err` with the state unchanged,
  and does not model the early resolution.
- `TodayMeals.FlipThenRollback`: the model writes SQLite's 0 and 1 as `false`
  and `true`. In the source, rolling back an entry loaded from the store puts
  a boolean where a number was, so the promise "exactly the original list"
  holds for boolean flags only, and for 0/1 only up to truthiness.
- `getAllStreakDates`, which feeds `currentStreak`, is not defined in
  utils/database.ts and is not part of this model. `currentStreak` takes its
  dates as input.
- `onPressSubmitEdit` and the startup load (`useEffect` in TodayMeals.tsx) are
  not modelled. They are compositions of store calls, not list updaters.
- The batch save in `Header` is not modelled. It fires async updates from
  `forEach` without awaiting them, so it is a concurrency question.
- Display logic is not modelled: StreakModal's `- 1` offset and digit
  animation, CalendarMeals' marked dates, MealsOfDate's floating-point
  progress percentage, haptics, `setIsEditable` and rendering.
