# HabitTrackerBot core, modelled in Dafny

HabitTrackerBot is a Telegram bot that keeps a list of habits per user. Each
habit is daily or weekly, and a weekly habit may carry a schedule of
weekdays. The bot records the days a habit was done and reports progress
over a period. This project models the logic under the chat handlers, as
pure functions over immutable values:

- **Weekday parser** (`Weekdays`). `parse_weekdays` turns text such as
  "пн, ср, пт" or "0 2 4" into a sorted list of distinct weekdays
  (0 = Monday). The parser's own comment promises "1..7, 1 = Monday". The
  code checks 0..6 first, so only 7 is remapped (to Sunday) and "1" means
  Tuesday. The model follows the code (`NumberQuirk`).
- **Statistics** (`Calendar`, `Occurrences`, `Formatter`). `daterange`
  and `expected_occurrences` count how often a habit was due over an
  inclusive range of days. `pretty_percent` and `progress_bar` render
  done/expected. Days are ordinals, with `Weekday(d) = (d + 6) % 7` as for
  `date.weekday()`. Python's float `round` is modelled as exact
  round-half-to-even.
- **Schedule column** (`ScheduleCodec`). The schedule is written with
  `str(list)` by `add_habit` and with `json.dumps(list)` by `update_habit`.
  For integer lists both give the text "[0, 2, 4]". It is read back with
  `json.loads`, modelled for JSON arrays of integers (RFC 8259, sections 2,
  5 and 6). `Decode(Encode(xs)) == Success(xs)` holds for every list.
- **Store** (`Store`, `IsoDate`, `TextOrder`, `Seqs`).
  - The `habits` and `progress` tables are sequences of rows in insertion
    order. The store's invariant is the schema's constraints: unique ids,
    unique (habit_id, date), and the progress foreign key (every progress
    row names an existing habit). The `habits.user_id` key into `users` is
    not modelled.
  - Each database method is a function from the old contents to the new
    contents, or to the error SQLite raises.
  - Dates in `progress` are text, compared by SQLite's BINARY collation.
    For fixed-width ISO 8601 dates ("YYYY-MM-DD", ISO 8601:2004 section
    4.1.2.2) that order is calendar order (`IsoDate.IsoOrder`).
- **Consistency** (`Consistency`). `/today` lists habits with the filter of
  `get_today_habits`. The `/week` and `/month` reports (bot.py:461-493,
  495-527) divide done days by `expected_occurrences`.
  The two agree for daily habits and for weekly habits with a non-empty
  schedule. They disagree in three cases:
  - a weekly habit with no schedule is listed every day but counted only
    on its creation weekday;
  - a weekly habit whose schedule is `[]` is never listed but is counted
    (only a direct call of `update_habit` can store `[]`);
  - a frequency stored as "Weekly" is listed every day, but the report
    lowercases it and counts only the scheduled days.
    Both handlers lowercase the frequency before storing it (bot.py:172-177,
    628), so "Weekly" is stored only by calling `add_habit` or
    `update_habit` directly.

## Model

| member | source | states |
|---|---|---|
| `Weekdays.Strip` | bot.py:88 | The result is a slice `s[i..j]` of the input with only whitespace before `i` and from `j` on, and no whitespace at either end of the result. Its non-whitespace content equals the input's. Stripped text is left unchanged. |
| `Weekdays.Split` | bot.py:91 | Splitting on `[,\s;]+` gives at least one part. No part contains a separator, and only the first and last part can be empty. Interleaving the parts with non-empty separator runs rebuilds the text exactly; the parts concatenated are the text without its separators. |
| `Weekdays.ParseToken` | bot.py:96-110 | A digit token `n` gives `n` for 0..6 and 6 for 7, and fails with `NumberOutOfRange` iff `n` is above 7. Any other token succeeds iff it is in the vocabulary once trailing dots are removed, gives that entry's weekday, and otherwise fails with `UnknownDay`. |
| `Weekdays.CollectDays` | bot.py:92-110 | Succeeds iff every non-empty part is a good token, and then yields exactly their days. Otherwise it fails with the error of the first bad token, with no partial result. |
| `Weekdays.Ascending` | bot.py:113 | `sorted(set)`: strictly increasing, and holding exactly the set's members in 0..6. |
| `Weekdays.DaysOfParts` | bot.py:91-113 | Succeeds iff all parts are good and at least one day is named. The result is strictly increasing, within 0..6, and equal as a set to the days named. Otherwise the error is `NoDays` or the first bad token's error. |
| `Weekdays.ParseWeekdays` | bot.py:69-113 | `EmptyInput` iff the stripped text is empty. On success the list is non-empty, strictly increasing, within 0..6, and holds exactly the days the tokens name. Any other failure is `NoDays` or the first bad token's error. |
| `Weekdays.OnlySeparatorsRejected` | bot.py:88-112 | Input made only of commas, semicolons and whitespace is rejected, as empty or as naming no day. |
| `Weekdays.SingleToken` | bot.py:91-110 | A single token without separators parses exactly as that token alone. |
| `Weekdays.NumberQuirk` | bot.py:96-104 | A lone number 0..6 gives itself and 7 gives 6 (Sunday). Anything above 7 is rejected, so "1" is Tuesday. |
| `Calendar.Weekday` | bot.py:405 | Every day ordinal has a weekday in 0..6. |
| `Calendar.DateRange` | bot.py:372-375 | (end - start) + 1 days, the i-th being start + i. None when end < start. |
| `Calendar.CountOn` | bot.py:401-406 | The count of days on a listed weekday never exceeds the number of days. |
| `Calendar.CountOnIsCardinality` | bot.py:401-406 | The counting loop over `daterange` gives the size of the set of days in the range whose weekday is listed. |
| `Calendar.WeekWindow` | bot.py:399-407 | Over any 7 consecutive days, the count equals the number of listed weekdays in 0..6. |
| `Occurrences.FrequencyNames` | bot.py:393 | Lowercasing leaves "daily" and "weekly" as they are and turns "Weekly" into "weekly". |
| `Occurrences.ExpectedOccurrences` | bot.py:384-422 | For a non-reversed range the count lies between 0 and the number of days. A weekly habit is never counted negative. |
| `Occurrences.NotWeeklyCountsEveryDay` | bot.py:393-395 | Daily, empty and unknown frequencies count (end - start) + 1, the length of `daterange` for any range not reversed by more than one day. |
| `Occurrences.WeeklyScheduledCount` | bot.py:399-407 | Weekly with a non-empty schedule counts exactly the days of the range whose weekday is scheduled. |
| `Occurrences.WeeklyScheduledWeek` | bot.py:399-407 | Over any 7 consecutive days that count is the number of distinct scheduled values in 0..6. |
| `Occurrences.WeeklyCreationWeekdayCount` | bot.py:409-415 | Weekly without a schedule but with a creation day counts the days sharing the creation weekday, which is exactly 1 in any week. |
| `Occurrences.WeeklyFallbackCount` | bot.py:419-420 | Weekly without a schedule or creation day gives `max(1, days // 7)`: always at least 1, and 1 for fewer than 14 days. |
| `Formatter.RoundHalfEven` | bot.py:427 | The result is within half a unit of num/den, and even on an exact tie. |
| `Formatter.PercentValue` | bot.py:427 | The rounded percentage is within 0..100 when 0 <= done <= total. It is 100 when done == total and 0 when done == 0. |
| `Formatter.PrettyPercent` | bot.py:424-428 | "—" iff total <= 0. Otherwise the canonical decimal text of the rounded percentage (no leading zero, a '-' before a negative value) followed by '%', and "100%" when done == total. |
| `Formatter.FilledCells` | bot.py:433-434 | The filled count is clamped to [0, width], equals the rounded share when 0 <= done <= total, is width when done >= total, 0 when done <= 0, and width itself when width < 0. |
| `Formatter.ProgressBar` | bot.py:430-435 | Exactly `width` glyphs. All spaces when total <= 0. Otherwise full cells then empty cells, split at the filled count: all full when done >= total, all empty when done <= 0. |
| `Decimal.NatToDigits` | data/db.py:95 | `str(n)` is non-empty decimal digits denoting n, with no leading zero unless n is 0. |
| `ScheduleCodec.Encode` | data/db.py:95 | The stored text is bracketed: it starts with '[' and ends with ']'. |
| `ScheduleCodec.ParseIntOfString` | data/db.py:177 | The JSON reader reads an integer's own text back as that integer, stopping at the next non-digit. |
| `ScheduleCodec.Decode` | data/db.py:177 | Success requires the text, after leading whitespace, to open with '['. Blank text is rejected. |
| `ScheduleCodec.DecodeEncode` | data/db.py:123 | What `str(list)` / `json.dumps(list)` writes, `json.loads` reads back as the same list, for every list of integers, `[]` included. |
| `IsoDate.Iso` | bot.py:377-378 | `isoformat()` is 10 characters with '-' at positions 4 and 7. |
| `IsoDate.IsoFields` | bot.py:380-382 | Year, month and day are read back from their fixed positions (the `parse_date` direction). |
| `IsoDate.IsoInjective` | bot.py:377-378 | Two valid dates have the same ISO text iff they are the same date. |
| `IsoDate.IsoOrder` | data/db.py:155 | Comparing ISO texts character by character orders valid dates chronologically. |
| `Store.RowToHabit` | data/db.py:172-178 | NULL or empty schedule text reads as `None`, and other text through `json.loads`. It fails iff that text does not decode. All other fields are carried over. |
| `Store.RowsToHabits` | data/db.py:101-105 | Every row converted in order, or failure iff some row's schedule does not decode. |
| `Store.GetHabits` | data/db.py:99-103 | The call fails iff one of the user's rows has an undecodable schedule. Otherwise it returns one habit per row of the user, in table order, each the decoding of its row. |
| `Store.UserRows` | data/db.py:101 | `WHERE user_id = ?` selects exactly the user's rows, as a subsequence of the table. |
| `Store.GetHabitsReturnsEveryRow` | data/db.py:101-103 | Every row of the user decodes and its habit is in the result. |
| `Store.GetTodayHabits` | data/db.py:180-201 | A subsequence of the user's habits, in table order. It drops exactly the weekly habits whose schedule exists and lacks today's weekday. |
| `Store.TodayListsDueRows` | data/db.py:185-200 | A user's row is on the day's list iff its habit is due that weekday. Daily habits, weekly habits without a schedule and any other frequency are always listed. |
| `Store.StoredSchedule` | data/db.py:95 | `add_habit` stores text iff the schedule is a non-empty list, and that text decodes to the list. |
| `Store.AddHabit` | data/db.py:89-98 | The new row gets the next AUTOINCREMENT id, which is not yet in use. It is appended, and the store's constraints are kept. |
| `Store.AddHabitReadBack` | data/db.py:89-98 | The added row reads back as the habit given. A `[]` or absent schedule reads back as `None`. |
| `Store.UpdateHabit` | data/db.py:112-129 | Succeeds iff there are no fields, or some key is updatable, no list goes to a text column, and no NULL name/frequency goes to an existing row. A no-op without fields or for an unknown id. Only-unknown keys fail with a syntax error (empty SET). A list for a text column cannot be bound. NULL name/frequency violates NOT NULL. Otherwise only the row with that id changes, ids and owners stay, and the constraints are kept. In that row each named column holds the value bound for it (a schedule list as its JSON text, `None` as NULL) and every unnamed column, `created_at` included, keeps its value. |
| `Store.Patch` | data/db.py:118-127 | The SET clause writes each named column and leaves the unnamed ones, the id, the owner and `created_at` as they were. |
| `Store.UpdateHabitReadBack` | data/db.py:118-124 | Each written field reads back as given. A schedule list reads back as that list, `[]` as `[]` (not `None`). |
| `Store.UpdateHabitIgnoresOtherKeys` | data/db.py:116-120 | Keys outside {name, frequency, schedule, reminder_time} make no difference. |
| `Store.MarkDone` | data/db.py:138-149 | Fails iff the habit does not exist (foreign key). Otherwise (habit, date) has exactly one row, with status 1, every row for another key is kept, and the constraints hold. |
| `Store.MarkDoneIdempotent` | data/db.py:145-148 | Marking the same habit done on the same day twice leaves the store as the first call did. |
| `Store.InsertByDateSorted` | data/db.py:155 | Inserting into a date-sorted list keeps it sorted. |
| `Store.SortByDate` | data/db.py:155 | ORDER BY returns a permutation of its input. |
| `Store.GetProgressForHabit` | data/db.py:151-169 | The habit's rows satisfying the bounds and no others: BETWEEN with both, `>=` with start only, everything otherwise. The result is sorted by date. |
| `Store.EndAloneIgnored` | data/db.py:153-167 | An end date given without a start date does not narrow the result. |
| `Store.MarkDoneThenProgress` | data/db.py:145-156 | After `mark_done(h, d)`, the range [d, d] for h returns exactly the one row written. |
| `Store.RangeIsChronological` | data/db.py:155 | For ISO dates, BETWEEN on text selects exactly the calendar dates between the bounds. |
| `Store.SortedIsChronological` | data/db.py:155 | For ISO dates, the date-sorted result is in calendar order. |
| `Consistency.DailyAgrees` | data/db.py:188-189 | A daily habit is listed every day and counted once per day. |
| `Consistency.ScheduledAgrees` | data/db.py:193-196 | A weekly habit with a non-empty schedule is listed on a day iff it is counted for that day. |
| `Consistency.UnscheduledWeeklyDisagrees` | data/db.py:191-192 | A weekly habit without a schedule is listed on a day outside its creation weekday, yet counted 0 for it (bot.py:409-415). |
| `Consistency.EmptyScheduleDisagrees` | data/db.py:193-196 | A weekly habit with schedule `[]` is never listed, yet counted 1 on its creation day, or 1 per day-range without one. |
| `Consistency.CapitalisedWeeklyDisagrees` | data/db.py:186-200 | Frequency "Weekly" is listed on an unscheduled day, yet counted 0 for it (bot.py:393 lowercases). |
| `Consistency.EmptyScheduleIsReachable` | data/db.py:123 | `update_habit(schedule=[])` succeeds and leaves a habit that reads back with schedule `[]`. |

## Left out

- aiogram handlers, keyboards, message texts and the FSM dialogs (bot.py:116-370, 437-670). The reports there only combine the modelled functions with the store.
- The reminder path (`schedule_reminders`, `send_reminder`, APScheduler, `get_all_habits_with_reminders`). It is timer plumbing. It applies `eval` to an already decoded list, and it selects a `reminder_time` column that the schema of data/db.py:40-48 does not declare.
- The edit dialog's schedule step (bot.py:648) calls `json`, which bot.py does not import. Its broad `except` therefore always rejects the input. It is not modelled.
- `get_user_progress_summary`, `delete_habit`, `get_habit`, `add_user`, `get_user_by_chat`, connection handling and the SQL text. The users table is not modelled.
- data/utils.py (a random phrase) and config.py (environment lookup) hold no logic worth stating.
- Clocks: "today" (`date.today()`, `CURRENT_TIMESTAMP`) is a parameter of `MarkDone`, `AddHabit` and `GetTodayHabits`.
- Row ids of `progress` are not modelled, including the fresh id INSERT OR REPLACE assigns. The table is a sequence of (habit_id, date, status) rows rather than a map, so that insertion order and ORDER BY stay visible.
- Weekdays.ParseWeekdays: the text is taken as already lowercased, since Unicode `str.lower()` is not modelled. `isdigit()` and whitespace are the ASCII ones: Python's `str.strip()` and `\s` also treat \x1c-\x1f, \x85, \xa0 and the other Unicode spaces as whitespace, and `isdigit()` accepts non-ASCII digits; those inputs are not modelled.
- Formatter.RoundHalfEven: rounds the exact quotient half-to-even. Python rounds the float `done / total * 100`, which can differ near a tie. Only float-independent properties are claimed.
- Occurrences.ExpectedOccurrences: the frequency is lowercased over ASCII letters only, whereas bot.py:393 uses Unicode `str.lower()`, which maps for example "wee\u212Aly" (Kelvin sign) to "weekly"; such frequencies are not modelled.
- Occurrences.ExpectedOccurrences: the parsed `created_at` is an optional day ordinal. The text parsing of `created_at` and its failure (which falls through to the fallback) are represented by `None`. The mapping from ordinals to Gregorian dates is not modelled.
- Store.UpdateHabit: requires that a schedule is not passed as a string. `json.dumps` of a string stores a JSON string, which `get_today_habits` would iterate character by character. The only handler that passes a schedule (bot.py:646-649) hands on whatever `json.loads` returns, but bot.py never imports `json`, so that path always fails; a string schedule is reachable only by calling `update_habit` directly.
- Store.AddHabit: the foreign key to `users` is not checked.
- Store.UpdateHabit: like `Store.AddHabit`, it assumes that the `habits` table has a `reminder_time` column. The schema at data/db.py:40-48 does not declare one, so on that schema both `add_habit` and `update_habit(reminder_time=...)` (bot.py:667) fail with "no such column". The model writes the column instead.
- Store.GetHabits: `SELECT * FROM habits WHERE user_id = ?` has no ORDER BY. The model returns rows in table (rowid) order, which is what SQLite's scan yields but SQL does not guarantee. The same order carries over to `Store.GetTodayHabits`.
- Store.GetProgressForHabit: rows are returned without their `id` column. Among rows with equal dates (impossible under the UNIQUE constraint) the model keeps insertion order, whereas SQLite leaves that order unspecified.
- ScheduleCodec.Decode: only JSON arrays of integers are read. Any other JSON value is reported as an error, whereas `json.loads` would return it.
- Store.GetTodayHabits: the `try/except` around the schedule test (data/db.py:194-198) cannot fire for integer schedules and is not modelled.
