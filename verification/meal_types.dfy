/** The records the app passes around (types/meal.ts) and the rows of its two
    SQLite tables (utils/database.ts). */
module MealTypes {
  import opened Results

  /** A calendar day with the time of day normalised away, as a day number:
      consecutive days differ by exactly 1. */
  type Day = int

  /** A row of the `meals` table: a meal definition, independent of any day. */
  datatype MealRow = MealRow(id: string, name: string, carbs: string, protein: string, fats: string)

  /** A row of the `meals_calendar` table: one meal's occurrence on one day. */
  datatype CalendarRow = CalendarRow(id: string, mealId: string, date: Day, isChecked: bool)

  /** `MealsCalendarResponse`: a calendar row joined with its meal's fields.
      Its `id` is the calendar row's id, not the meal's. */
  datatype CalendarMeal = CalendarMeal(
    id: string, mealId: string, date: Day, isChecked: bool,
    name: string, carbs: string, protein: string, fats: string)

  /** The `Meal` type the Today screen keeps in its list. `meal_id` and
      `isChecked` are optional: a freshly added entry has no `meal_id`, and
      `isChecked` is kept only up to truthiness (SQLite hands back 0 or 1). */
  datatype Meal = Meal(
    id: string, mealId: Option<string>,
    name: string, carbs: string, protein: string, fats: string,
    isChecked: Option<bool>)

  /** JavaScript truthiness of an optional flag: `undefined` is falsy. */
  function Truthy(flag: Option<bool>): bool {
    flag == Some(true)
  }
}
