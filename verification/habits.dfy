/** The habit record the handlers and reports work on: a row of the
    `habits` table (data/db.py:40-48) after `_row_to_habit_dict` has decoded
    its schedule. */
module Habits {
  import opened Wrappers

  /** `frequency` is free text; the dialogs only ever store "daily" or
      "weekly". `schedule` is the decoded weekday list, `None` for SQL NULL.
      `createdAt` is the creation day as an ordinal, `None` when the
      `created_at` text is missing or does not parse as a date. */
  datatype Habit = Habit(
    id: int,
    userId: int,
    name: string,
    frequency: string,
    schedule: Option<seq<int>>,
    reminderTime: Option<string>,
    createdAt: Option<int>)
}
