/** The SQLite store of data/db.py, modelled as values: the `habits` and
    `progress` tables as sequences of rows in insertion (rowid) order, and
    each database method as a function from the old contents to the new
    contents or to the error SQLite or the driver raises. */
module Store {
  import opened Wrappers
  import opened Seqs
  import opened TextOrder
  import opened ScheduleCodec
  import opened Habits
  import IsoDate

  /** A `habits` row as stored: the schedule is still text. `createdAt` is
      the day the `CURRENT_TIMESTAMP` default recorded, as an ordinal. */
  datatype HabitRow = HabitRow(
    id: int,
    userId: int,
    name: string,
    frequency: string,
    schedule: Option<string>,
    reminderTime: Option<string>,
    createdAt: Option<int>)

  /** A `progress` row; `status` is 1 for "done". */
  datatype ProgressRow = ProgressRow(habitId: int, date: string, status: int)

  /** `lastHabitId` is the AUTOINCREMENT counter of `habits`: every id ever
      handed out is at most this value. */
  datatype Db = Db(habits: seq<HabitRow>, progress: seq<ProgressRow>, lastHabitId: int)

  datatype DbError =
    | SyntaxError           // the statement text does not parse
    | UnsupportedParameter  // the driver cannot bind a Python list
    | NotNullViolated       // NULL written into a NOT NULL column
    | ForeignKeyViolated    // a progress row for a habit that does not exist
    | BadSchedule           // `json.loads` rejects the stored schedule

  function HabitIds(habits: seq<HabitRow>): set<int> {
    set h | h in habits :: h.id
  }

  /** The constraints the schema declares, plus the AUTOINCREMENT counter
      being ahead of every id: ids are unique, (habit_id, date) is unique in
      `progress`, and every progress row names an existing habit. */
  ghost predicate Valid(db: Db) {
    (forall i :: 0 <= i < |db.habits| ==> db.habits[i].id <= db.lastHabitId) &&
    (forall i, j :: 0 <= i < j < |db.habits| ==> db.habits[i].id != db.habits[j].id) &&
    KeysUnique(db.progress) &&
    (forall r :: r in db.progress ==> r.habitId in HabitIds(db.habits))
  }

  // ---------- Reading habits ----------

  /** `_row_to_habit_dict`: a NULL or empty schedule becomes `None`, any
      other text goes through `json.loads`. */
  function RowToHabit(row: HabitRow): (r: Result<Habit, DbError>)
    ensures r.Failure? <==>
      row.schedule.Some? && row.schedule.value != [] && Decode(row.schedule.value).Failure?
    ensures r.Success? ==>
      r.value.id == row.id && r.value.userId == row.userId && r.value.name == row.name &&
      r.value.frequency == row.frequency && r.value.reminderTime == row.reminderTime &&
      r.value.createdAt == row.createdAt
    ensures r.Success? ==>
      (r.value.schedule.None? <==> row.schedule.None? || row.schedule.value == [])
    ensures r.Success? && r.value.schedule.Some? ==> Decode(row.schedule.value) == Success(r.value.schedule.value)
  {
    var schedule :=
      if row.schedule.None? || row.schedule.value == [] then Success(None)
      else if Decode(row.schedule.value).Failure? then Failure(BadSchedule)
      else Success(Some(Decode(row.schedule.value).value));
    if schedule.Failure? then Failure(schedule.error)
    else Success(Habit(row.id, row.userId, row.name, row.frequency, schedule.value, row.reminderTime, row.createdAt))
  }

  /** Converting a list of rows stops at the first schedule that does not
      decode, as the list comprehension in `get_habits` does. */
  function RowsToHabits(rows: seq<HabitRow>): (r: Result<seq<Habit>, DbError>)
    ensures r.Failure? <==> exists i :: 0 <= i < |rows| && RowToHabit(rows[i]).Failure?
    ensures r.Success? ==> |r.value| == |rows|
    ensures r.Success? ==> forall i :: 0 <= i < |rows| ==> RowToHabit(rows[i]) == Success(r.value[i])
  {
    if rows == [] then Success([])
    else
      var first := RowToHabit(rows[0]);
      if first.Failure? then Failure(first.error)
      else
        var rest := RowsToHabits(rows[1..]);
        if rest.Failure? then
          assert exists i :: 0 <= i < |rows[1..]| && RowToHabit(rows[1..][i]).Failure?;
          Failure(rest.error)
        else
          var r := [first.value] + rest.value;
          assert forall i :: 1 <= i < |rows| ==> rows[i] == rows[1..][i - 1];
          Success(r)
  }

  function OwnedBy(userId: int): HabitRow -> bool {
    (row: HabitRow) => row.userId == userId
  }

  /** The rows `WHERE user_id = ?` selects: exactly the user's rows, in
      table order. */
  function UserRows(db: Db, userId: int): (rows: seq<HabitRow>)
    ensures forall row :: row in rows <==> row in db.habits && row.userId == userId
    ensures IsSubsequence(rows, db.habits)
  {
    FilterIsSubsequence(OwnedBy(userId), db.habits);
    Filter(OwnedBy(userId), db.habits)
  }

  /** `get_habits`: the user's habits in table order; one undecodable
      schedule among them makes the whole call fail. */
  function GetHabits(db: Db, userId: int): (r: Result<seq<Habit>, DbError>)
    ensures r.Failure? <==> exists row :: row in db.habits && row.userId == userId && RowToHabit(row).Failure?
    ensures r.Success? ==> forall i :: 0 <= i < |r.value| ==> r.value[i].userId == userId
    ensures r.Success? ==> |r.value| == |UserRows(db, userId)|
    ensures r.Success? ==> forall i :: 0 <= i < |r.value| ==> RowToHabit(UserRows(db, userId)[i]) == Success(r.value[i])
  {
    var rows := UserRows(db, userId);
    var r := RowsToHabits(rows);
    assert r.Success? ==> forall i :: 0 <= i < |r.value| ==> rows[i] in rows && r.value[i].userId == rows[i].userId;
    assert r.Failure? ==> exists i :: 0 <= i < |rows| && rows[i] in rows && RowToHabit(rows[i]).Failure?;
    r
  }

  /** Every row of the user comes back from `get_habits`, decoded. */
  lemma GetHabitsReturnsEveryRow(db: Db, userId: int, row: HabitRow)
    requires row in db.habits && row.userId == userId && GetHabits(db, userId).Success?
    ensures RowToHabit(row).Success? && RowToHabit(row).value in GetHabits(db, userId).value
  {
    var rows := UserRows(db, userId);
    var i :| 0 <= i < |rows| && rows[i] == row;
    assert GetHabits(db, userId).value[i] in GetHabits(db, userId).value;
  }

  // ---------- Habits due today ----------

  /** The test `get_today_habits` applies to one habit on weekday `wd`
      (0 = Monday). The frequency is compared as stored, case and all; a
      weekly habit without a schedule is due every day. */
  predicate DueToday(h: Habit, wd: int) {
    if h.frequency == "daily" then true
    else if h.frequency == "weekly" then h.schedule.None? || wd in h.schedule.value
    else true
  }

  /** `get_today_habits` for the user on weekday `wd`: the user's habits
      that are due, in table order. */
  function GetTodayHabits(db: Db, userId: int, wd: int): (r: Result<seq<Habit>, DbError>)
    ensures r.Failure? <==> exists row :: row in db.habits && row.userId == userId && RowToHabit(row).Failure?
    ensures r.Success? ==> forall h :: h in r.value <==>
      h in GetHabits(db, userId).value && !(h.frequency == "weekly" && h.schedule.Some? && wd !in h.schedule.value)
    ensures r.Success? ==> IsSubsequence(r.value, GetHabits(db, userId).value)
  {
    var all := GetHabits(db, userId);
    if all.Failure? then Failure(all.error)
    else
      var keep := (h: Habit) => DueToday(h, wd);
      FilterIsSubsequence(keep, all.value);
      Success(Filter(keep, all.value))
  }

  /** A row of the user is on the day's list exactly when its habit is due
      that weekday; daily habits, weekly habits without a schedule and
      habits of any other frequency are always on it. */
  lemma TodayListsDueRows(db: Db, userId: int, wd: int, row: HabitRow)
    requires row in db.habits && row.userId == userId && GetTodayHabits(db, userId, wd).Success?
    ensures RowToHabit(row).Success?
    ensures RowToHabit(row).value in GetTodayHabits(db, userId, wd).value <==> DueToday(RowToHabit(row).value, wd)
    ensures row.frequency != "weekly" || row.schedule.None? ==> RowToHabit(row).value in GetTodayHabits(db, userId, wd).value
  {
    GetHabitsReturnsEveryRow(db, userId, row);
  }

  // ---------- Adding and updating habits ----------

  /** The column value `add_habit` writes: `str(schedule)` when the list is
      non-empty, NULL for `None` and for the empty list alike. */
  function StoredSchedule(schedule: Option<seq<int>>): (t: Option<string>)
    ensures t.Some? <==> schedule.Some? && schedule.value != []
    ensures t.Some? ==> Decode(t.value) == Success(schedule.value)
  {
    if schedule.Some? && schedule.value != [] then
      DecodeEncode(schedule.value);
      Some(Encode(schedule.value))
    else None
  }

  /** `add_habit`: a new row with the next AUTOINCREMENT id; `today` is the
      day `CURRENT_TIMESTAMP` records. Returns the new contents and the
      id (`cursor.lastrowid`). */
  function AddHabit(db: Db, userId: int, name: string, frequency: string,
                    schedule: Option<seq<int>>, reminderTime: Option<string>, today: int): (r: (Db, int))
    ensures r.1 == db.lastHabitId + 1 && r.0.lastHabitId == r.1
    ensures r.0.progress == db.progress
    ensures |r.0.habits| == |db.habits| + 1 && r.0.habits[..|db.habits|] == db.habits
    ensures r.0.habits[|db.habits|].id == r.1 && r.0.habits[|db.habits|].userId == userId
    ensures db.lastHabitId + 1 !in HabitIds(db.habits) <== Valid(db)
    ensures Valid(db) ==> Valid(r.0)
  {
    var id := db.lastHabitId + 1;
    var row := HabitRow(id, userId, name, frequency, StoredSchedule(schedule), reminderTime, Some(today));
    var habits := db.habits + [row];
    assert habits[..|db.habits|] == db.habits;
    assert forall i :: 0 <= i < |db.habits| ==> habits[i] == db.habits[i];
    assert HabitIds(habits) == HabitIds(db.habits) + {id};
    (Db(habits, db.progress, id), id)
  }

  /** A value passed to `update_habit`: text, a Python list (a schedule),
      or `None`. */
  datatype FieldValue = Text(text: string) | Days(days: seq<int>) | Null

  /** The keys `update_habit` writes; any other key is skipped. */
  const Updatable: set<string> := {"name", "frequency", "schedule", "reminder_time"}

  /** A list bound to a text column: the driver refuses it. */
  predicate Unbindable(fields: map<string, FieldValue>) {
    ("name" in fields && fields["name"].Days?) ||
    ("frequency" in fields && fields["frequency"].Days?) ||
    ("reminder_time" in fields && fields["reminder_time"].Days?)
  }

  /** NULL written to a NOT NULL column. */
  predicate WritesNull(fields: map<string, FieldValue>) {
    ("name" in fields && fields["name"].Null?) ||
    ("frequency" in fields && fields["frequency"].Null?)
  }

  /** A column whose key is not among `fields` keeps its old value, and
      `id`, `user_id` and `created_at` are never written. */
  predicate KeepsUnnamed(before: HabitRow, after: HabitRow, fields: map<string, FieldValue>) {
    after.id == before.id && after.userId == before.userId && after.createdAt == before.createdAt &&
    ("name" !in fields ==> after.name == before.name) &&
    ("frequency" !in fields ==> after.frequency == before.frequency) &&
    ("schedule" !in fields ==> after.schedule == before.schedule) &&
    ("reminder_time" !in fields ==> after.reminderTime == before.reminderTime)
  }

  /** A column whose key is among `fields` holds the value bound for it: a
      schedule list as its `json.dumps` text, `None` as NULL. */
  predicate WritesNamed(after: HabitRow, fields: map<string, FieldValue>) {
    ("name" in fields && fields["name"].Text? ==> after.name == fields["name"].text) &&
    ("frequency" in fields && fields["frequency"].Text? ==> after.frequency == fields["frequency"].text) &&
    ("schedule" in fields && fields["schedule"].Days? ==> after.schedule == Some(Encode(fields["schedule"].days))) &&
    ("schedule" in fields && fields["schedule"].Null? ==> after.schedule.None?) &&
    ("reminder_time" in fields && fields["reminder_time"].Text? ==> after.reminderTime == Some(fields["reminder_time"].text)) &&
    ("reminder_time" in fields && fields["reminder_time"].Null? ==> after.reminderTime.None?)
  }

  /** The row after the SET clause: a schedule list is stored as
      `json.dumps(list)`, `None` as NULL. */
  function Patch(row: HabitRow, fields: map<string, FieldValue>): (r: HabitRow)
    ensures r.id == row.id && r.userId == row.userId && r.createdAt == row.createdAt
    ensures KeepsUnnamed(row, r, fields) && WritesNamed(r, fields)
  {
    row.(
      name := if "name" in fields && fields["name"].Text? then fields["name"].text else row.name,
      frequency := if "frequency" in fields && fields["frequency"].Text? then fields["frequency"].text else row.frequency,
      schedule :=
        if "schedule" !in fields then row.schedule
        else if fields["schedule"].Days? then Some(Encode(fields["schedule"].days))
        else None,
      reminderTime :=
        if "reminder_time" !in fields then row.reminderTime
        else if fields["reminder_time"].Text? then Some(fields["reminder_time"].text)
        else None)
  }

  function PatchRows(habits: seq<HabitRow>, habitId: int, fields: map<string, FieldValue>): (r: seq<HabitRow>)
    ensures |r| == |habits|
    ensures forall i :: 0 <= i < |habits| ==>
      r[i] == if habits[i].id == habitId then Patch(habits[i], fields) else habits[i]
  {
    if habits == [] then []
    else
      var head := if habits[0].id == habitId then Patch(habits[0], fields) else habits[0];
      [head] + PatchRows(habits[1..], habitId, fields)
  }

  /** `update_habit`. An empty call does nothing; a call whose keys are all
      outside `Updatable` builds `UPDATE habits SET  WHERE id = ?`, which
      does not parse; a list for a text column cannot be bound; an UPDATE
      matching no row changes nothing; NULL for `name` or `frequency`
      violates NOT NULL. A text schedule is not something the handlers
      pass, and is excluded. */
  function UpdateHabit(db: Db, habitId: int, fields: map<string, FieldValue>): (r: Result<Db, DbError>)
    requires "schedule" in fields ==> !fields["schedule"].Text?
    ensures fields == map[] ==> r == Success(db)
    ensures r.Success? && habitId !in HabitIds(db.habits) ==> r == Success(db)
    ensures r.Success? <==>
      (fields == map[] ||
       (fields.Keys * Updatable != {} && !Unbindable(fields) && !(habitId in HabitIds(db.habits) && WritesNull(fields))))
    ensures habitId !in HabitIds(db.habits) && fields.Keys * Updatable != {} && !Unbindable(fields) ==> r == Success(db)
    ensures r == Failure(SyntaxError) <==> fields != map[] && fields.Keys * Updatable == {}
    ensures r == Failure(UnsupportedParameter) <==> fields.Keys * Updatable != {} && Unbindable(fields)
    ensures r == Failure(NotNullViolated) <==>
      fields.Keys * Updatable != {} && !Unbindable(fields) && habitId in HabitIds(db.habits) && WritesNull(fields)
    ensures r.Success? ==>
      r.value.progress == db.progress && r.value.lastHabitId == db.lastHabitId && |r.value.habits| == |db.habits|
    ensures r.Success? ==> forall i :: 0 <= i < |db.habits| ==>
      r.value.habits[i].id == db.habits[i].id && r.value.habits[i].userId == db.habits[i].userId
    ensures r.Success? ==> forall i :: 0 <= i < |db.habits| && db.habits[i].id != habitId ==>
      r.value.habits[i] == db.habits[i]
    ensures r.Success? ==> forall i :: 0 <= i < |db.habits| && db.habits[i].id == habitId ==>
      KeepsUnnamed(db.habits[i], r.value.habits[i], fields) && WritesNamed(r.value.habits[i], fields)
    ensures r.Success? && Valid(db) ==> Valid(r.value)
  {
    if fields == map[] then Success(db)
    else if fields.Keys * Updatable == {} then Failure(SyntaxError)
    else if Unbindable(fields) then Failure(UnsupportedParameter)
    else if habitId !in HabitIds(db.habits) then Success(db)
    else if WritesNull(fields) then Failure(NotNullViolated)
    else
      var habits := PatchRows(db.habits, habitId, fields);
      SameIdsKeepValid(db, habits);
      Success(db.(habits := habits))
  }

  /** Rewriting rows without touching their ids keeps the id set, and with
      it every constraint of `Valid`. */
  lemma SameIdsKeepValid(db: Db, habits: seq<HabitRow>)
    requires |habits| == |db.habits|
    requires forall i :: 0 <= i < |habits| ==> habits[i].id == db.habits[i].id
    ensures HabitIds(habits) == HabitIds(db.habits)
    ensures Valid(db) ==> Valid(db.(habits := habits))
  {
    forall x | x in HabitIds(habits) ensures x in HabitIds(db.habits) {
      var i :| 0 <= i < |habits| && habits[i].id == x;
      assert db.habits[i] in db.habits;
    }
    forall x | x in HabitIds(db.habits) ensures x in HabitIds(habits) {
      var i :| 0 <= i < |db.habits| && db.habits[i].id == x;
      assert habits[i] in habits;
    }
  }

  /** What `add_habit` wrote reads back as the habit it was given, except
      that an empty schedule list comes back as `None`. */
  lemma AddHabitReadBack(db: Db, userId: int, name: string, frequency: string,
                         schedule: Option<seq<int>>, reminderTime: Option<string>, today: int)
    ensures var (db', id) := AddHabit(db, userId, name, frequency, schedule, reminderTime, today);
      RowToHabit(db'.habits[|db.habits|]) ==
        Success(Habit(id, userId, name, frequency,
                      if schedule.Some? && schedule.value != [] then schedule else None,
                      reminderTime, Some(today)))
  {
  }

  /** After a successful `update_habit` on an existing habit, each written
      field reads back as the value passed; a schedule list, the empty one
      included, reads back as that list. */
  lemma {:induction false} UpdateHabitReadBack(db: Db, habitId: int, fields: map<string, FieldValue>, i: int)
    requires "schedule" in fields ==> !fields["schedule"].Text?
    requires fields.Keys * Updatable != {} && UpdateHabit(db, habitId, fields).Success?
    requires 0 <= i < |db.habits| && db.habits[i].id == habitId
    ensures var h := RowToHabit(UpdateHabit(db, habitId, fields).value.habits[i]);
      ("schedule" in fields ==> h.Success?) &&
      (h.Success? ==>
        ("name" in fields ==> h.value.name == fields["name"].text) &&
        ("frequency" in fields ==> h.value.frequency == fields["frequency"].text) &&
        ("schedule" in fields && fields["schedule"].Days? ==> h.value.schedule == Some(fields["schedule"].days)) &&
        ("schedule" in fields && fields["schedule"].Null? ==> h.value.schedule.None?) &&
        ("reminder_time" in fields ==>
          h.value.reminderTime == (if fields["reminder_time"].Text? then Some(fields["reminder_time"].text) else None)))
  {
    var u := UpdateHabit(db, habitId, fields).value;
    assert db.habits[i] in db.habits;
    assert fields != map[] by {
      var k :| k in fields.Keys * Updatable;
    }
    assert u.habits[i] == Patch(db.habits[i], fields);
    if "schedule" in fields && fields["schedule"].Days? {
      DecodeEncode(fields["schedule"].days);
    }
  }

  /** Keys outside `Updatable` make no difference, as long as one
      updatable key is present. */
  lemma UpdateHabitIgnoresOtherKeys(db: Db, habitId: int, fields: map<string, FieldValue>)
    requires "schedule" in fields ==> !fields["schedule"].Text?
    requires fields.Keys * Updatable != {}
    ensures var kept := map k | k in fields && k in Updatable :: fields[k];
      UpdateHabit(db, habitId, fields) == UpdateHabit(db, habitId, kept)
  {
    var kept := map k | k in fields && k in Updatable :: fields[k];
    assert kept.Keys * Updatable == fields.Keys * Updatable;
    assert kept != map[] by {
      var k :| k in fields.Keys * Updatable;
      assert k in kept;
    }
    forall row: HabitRow ensures Patch(row, kept) == Patch(row, fields) {
    }
    PatchRowsAgree(db.habits, habitId, fields, kept);
  }

  lemma {:induction false} PatchRowsAgree(habits: seq<HabitRow>, habitId: int, f: map<string, FieldValue>, g: map<string, FieldValue>)
    requires forall row: HabitRow :: Patch(row, f) == Patch(row, g)
    ensures PatchRows(habits, habitId, f) == PatchRows(habits, habitId, g)
  {
    if habits != [] {
      PatchRowsAgree(habits[1..], habitId, f, g);
    }
  }

  // ---------- Progress ----------

  /** Whether a progress row is keyed by something other than
      (habitId, date). */
  predicate OtherKey(x: ProgressRow, habitId: int, date: string) {
    x.habitId != habitId || x.date != date
  }

  /** The rows INSERT OR REPLACE leaves in place. */
  function KeepOthers(habitId: int, date: string): ProgressRow -> bool {
    (x: ProgressRow) => OtherKey(x, habitId, date)
  }

  /** No two rows share (habit_id, date): the UNIQUE constraint. */
  predicate KeysUnique(p: seq<ProgressRow>) {
    forall i, j :: 0 <= i < j < |p| ==> p[i].habitId != p[j].habitId || p[i].date != p[j].date
  }

  /** The date `mark_done` records: the one given, or today's when the
      argument is `None`. An empty string is kept as it is. */
  function DoneDate(date: Option<string>, today: string): string {
    if date.None? then today else date.value
  }

  /** `mark_done`: INSERT OR REPLACE deletes the row with the same
      (habit_id, date) and appends a fresh one with status 1; with foreign
      keys on, a habit that does not exist is refused. */
  function MarkDone(db: Db, habitId: int, date: Option<string>, today: string): (r: Result<Db, DbError>)
    ensures r.Failure? <==> habitId !in HabitIds(db.habits)
    ensures r.Failure? ==> r.error == ForeignKeyViolated
    ensures r.Success? ==> r.value.habits == db.habits && r.value.lastHabitId == db.lastHabitId
    ensures r.Success? ==> ProgressRow(habitId, DoneDate(date, today), 1) in r.value.progress
    ensures r.Success? ==> forall x :: x in r.value.progress && !OtherKey(x, habitId, DoneDate(date, today)) ==>
      x == ProgressRow(habitId, DoneDate(date, today), 1)
    ensures r.Success? ==> forall x :: OtherKey(x, habitId, DoneDate(date, today)) ==>
      (x in r.value.progress <==> x in db.progress)
    ensures r.Success? && Valid(db) ==> Valid(r.value)
  {
    var d := DoneDate(date, today);
    if habitId !in HabitIds(db.habits) then Failure(ForeignKeyViolated)
    else
      var kept := Filter(KeepOthers(habitId, d), db.progress);
      KeysStayUnique(db.progress, habitId, d);
      Success(db.(progress := kept + [ProgressRow(habitId, d, 1)]))
  }

  lemma KeysStayUnique(p: seq<ProgressRow>, habitId: int, d: string)
    ensures KeysUnique(p) ==> KeysUnique(Filter(KeepOthers(habitId, d), p) + [ProgressRow(habitId, d, 1)])
  {
    if KeysUnique(p) {
      var kept := Filter(KeepOthers(habitId, d), p);
      FilterKeysUnique(p, habitId, d);
      var q := kept + [ProgressRow(habitId, d, 1)];
      forall i, j | 0 <= i < j < |q| ensures q[i].habitId != q[j].habitId || q[i].date != q[j].date {
        if j == |kept| {
          assert q[i] == kept[i] && kept[i] in kept;
        } else {
          assert q[i] == kept[i] && q[j] == kept[j];
        }
      }
    }
  }

  /** Selecting from a table whose keys are unique keeps them unique. */
  lemma {:induction false} FilterKeysUnique(p: seq<ProgressRow>, habitId: int, d: string)
    requires KeysUnique(p)
    ensures KeysUnique(Filter(KeepOthers(habitId, d), p))
  {
    if p != [] {
      var keep := KeepOthers(habitId, d);
      assert KeysUnique(p[1..]) by {
        forall i, j | 0 <= i < j < |p[1..]| ensures p[1..][i].habitId != p[1..][j].habitId || p[1..][i].date != p[1..][j].date {
          assert p[1..][i] == p[i + 1] && p[1..][j] == p[j + 1];
        }
      }
      FilterKeysUnique(p[1..], habitId, d);
      var rest := Filter(keep, p[1..]);
      var kept := Filter(keep, p);
      if keep(p[0]) {
        assert kept == [p[0]] + rest;
        forall i, j | 0 <= i < j < |kept| ensures kept[i].habitId != kept[j].habitId || kept[i].date != kept[j].date {
          if i == 0 {
            assert kept[j] in p[1..];
            var k :| 0 <= k < |p[1..]| && p[1..][k] == kept[j];
            assert p[k + 1] == kept[j];
          } else {
            assert kept[i] == rest[i - 1] && kept[j] == rest[j - 1];
          }
        }
      } else {
        assert kept == rest;
      }
    }
  }

  /** Marking the same habit done on the same day twice leaves the store
      as the first call left it. */
  lemma {:induction false} MarkDoneIdempotent(db: Db, habitId: int, date: Option<string>, today: string)
    requires MarkDone(db, habitId, date, today).Success?
    ensures MarkDone(MarkDone(db, habitId, date, today).value, habitId, date, today) == MarkDone(db, habitId, date, today)
  {
    var d := DoneDate(date, today);
    var keep := KeepOthers(habitId, d);
    var kept := Filter(keep, db.progress);
    var row := ProgressRow(habitId, d, 1);
    var first := MarkDone(db, habitId, date, today).value;
    assert first.progress == kept + [row];
    FilterAppend(keep, kept, [row]);
    FilterIdempotent(keep, db.progress);
    assert Filter(keep, [row]) == [] by {
      assert !keep(row);
      assert [row][1..] == [];
    }
    assert Filter(keep, first.progress) == kept;
    assert first.(progress := kept + [row]) == first;
  }

  /** Python truthiness of an optional date argument: absent and empty
      both count as not given. */
  predicate Given(bound: Option<string>) {
    bound.Some? && bound.value != []
  }

  /** The WHERE clause of `get_progress_for_habit` on one row. With both
      bounds it is `date BETWEEN start AND end`; with only a start it is
      `date >= start`; an end given without a start is ignored. */
  predicate Selected(x: ProgressRow, habitId: int, start: Option<string>, end: Option<string>) {
    x.habitId == habitId &&
    if Given(start) && Given(end) then LexLe(start.value, x.date) && LexLe(x.date, end.value)
    else if Given(start) then LexLe(start.value, x.date)
    else true
  }

  function Selects(habitId: int, start: Option<string>, end: Option<string>): ProgressRow -> bool {
    (x: ProgressRow) => Selected(x, habitId, start, end)
  }

  predicate SortedByDate(rows: seq<ProgressRow>) {
    forall i, j :: 0 <= i < j < |rows| ==> LexLe(rows[i].date, rows[j].date)
  }

  function InsertByDate(x: ProgressRow, rows: seq<ProgressRow>): (r: seq<ProgressRow>)
    ensures multiset(r) == multiset(rows) + multiset{x}
  {
    if rows == [] then [x]
    else if LexLe(x.date, rows[0].date) then [x] + rows
    else
      assert rows == [rows[0]] + rows[1..];
      [rows[0]] + InsertByDate(x, rows[1..])
  }

  /** ORDER BY date: a stable insertion sort under the BINARY collation. */
  function SortByDate(rows: seq<ProgressRow>): (r: seq<ProgressRow>)
    ensures multiset(r) == multiset(rows)
  {
    if rows == [] then []
    else
      assert rows == [rows[0]] + rows[1..];
      InsertByDate(rows[0], SortByDate(rows[1..]))
  }

  /** A row no later than every row of a sorted list can go in front. */
  lemma SortedPrepend(y: ProgressRow, rows: seq<ProgressRow>)
    requires SortedByDate(rows)
    requires forall k :: 0 <= k < |rows| ==> LexLe(y.date, rows[k].date)
    ensures SortedByDate([y] + rows)
  {
    var r := [y] + rows;
    forall i, j | 0 <= i < j < |r| ensures LexLe(r[i].date, r[j].date) {
      if i == 0 {
        assert r[j] == rows[j - 1];
      } else {
        assert r[i] == rows[i - 1] && r[j] == rows[j - 1];
      }
    }
  }

  lemma SortedTail(rows: seq<ProgressRow>)
    requires SortedByDate(rows) && rows != []
    ensures SortedByDate(rows[1..])
    ensures forall k :: 0 <= k < |rows| - 1 ==> LexLe(rows[0].date, rows[1..][k].date)
  {
    var tail := rows[1..];
    forall i, j | 0 <= i < j < |tail| ensures LexLe(tail[i].date, tail[j].date) {
      assert tail[i] == rows[i + 1] && tail[j] == rows[j + 1];
    }
    forall k | 0 <= k < |tail| ensures LexLe(rows[0].date, tail[k].date) {
      assert tail[k] == rows[k + 1];
    }
  }

  /** The head of a sorted list is no later than any of its rows. */
  lemma HeadFirst(x: ProgressRow, rows: seq<ProgressRow>)
    requires SortedByDate(rows) && rows != [] && LexLe(x.date, rows[0].date)
    ensures forall k :: 0 <= k < |rows| ==> LexLe(x.date, rows[k].date)
  {
    forall k | 0 <= k < |rows| ensures LexLe(x.date, rows[k].date) {
      if k > 0 {
        LexLeTransitive(x.date, rows[0].date, rows[k].date);
      }
    }
  }

  /** Every row of `rest` comes from `tail` or is `x`, so a bound on both
      bounds them all. */
  lemma BoundByMembers(y: ProgressRow, x: ProgressRow, tail: seq<ProgressRow>, rest: seq<ProgressRow>)
    requires multiset(rest) == multiset(tail) + multiset{x}
    requires LexLe(y.date, x.date)
    requires forall k :: 0 <= k < |tail| ==> LexLe(y.date, tail[k].date)
    ensures forall k :: 0 <= k < |rest| ==> LexLe(y.date, rest[k].date)
  {
    forall k | 0 <= k < |rest| ensures LexLe(y.date, rest[k].date) {
      assert rest[k] in multiset(rest);
      if rest[k] != x {
        assert rest[k] in multiset(tail);
        var m :| 0 <= m < |tail| && tail[m] == rest[k];
      }
    }
  }

  lemma {:induction false} InsertByDateSorted(x: ProgressRow, rows: seq<ProgressRow>)
    requires SortedByDate(rows)
    ensures SortedByDate(InsertByDate(x, rows))
  {
    if rows == [] {
    } else if LexLe(x.date, rows[0].date) {
      HeadFirst(x, rows);
      SortedPrepend(x, rows);
    } else {
      LexLeTotal(x.date, rows[0].date);
      SortedTail(rows);
      InsertByDateSorted(x, rows[1..]);
      BoundByMembers(rows[0], x, rows[1..], InsertByDate(x, rows[1..]));
      SortedPrepend(rows[0], InsertByDate(x, rows[1..]));
    }
  }

  lemma {:induction false} SortByDateSorted(rows: seq<ProgressRow>)
    ensures SortedByDate(SortByDate(rows))
  {
    if rows != [] {
      SortByDateSorted(rows[1..]);
      InsertByDateSorted(rows[0], SortByDate(rows[1..]));
    }
  }

  /** `get_progress_for_habit`: the habit's rows inside the bounds, ordered
      by date. */
  function GetProgressForHabit(db: Db, habitId: int, start: Option<string>, end: Option<string>): (r: seq<ProgressRow>)
    ensures forall x :: x in r <==> x in db.progress && Selected(x, habitId, start, end)
    ensures multiset(r) == multiset(Filter(Selects(habitId, start, end), db.progress))
    ensures SortedByDate(r)
  {
    var rows := Filter(Selects(habitId, start, end), db.progress);
    assert forall x :: Selects(habitId, start, end)(x) == Selected(x, habitId, start, end);
    SortByDateSorted(rows);
    var r := SortByDate(rows);
    assert forall x :: x in r <==> x in multiset(rows);
    r
  }

  /** An end date without a start date does not narrow the result. */
  lemma EndAloneIgnored(db: Db, habitId: int, start: Option<string>, end: Option<string>)
    requires !Given(start)
    ensures GetProgressForHabit(db, habitId, start, end) == GetProgressForHabit(db, habitId, None, None)
  {
    FilterSameTest(Selects(habitId, start, end), Selects(habitId, None, None), db.progress);
  }

  /** After marking a habit done on a day, asking for its progress on just
      that day gives exactly the row written. */
  lemma MarkDoneThenProgress(db: Db, habitId: int, day: string, today: string)
    requires Valid(db) && habitId in HabitIds(db.habits) && day != []
    ensures var after := MarkDone(db, habitId, Some(day), today).value;
      GetProgressForHabit(after, habitId, Some(day), Some(day)) == [ProgressRow(habitId, day, 1)]
  {
    var after := MarkDone(db, habitId, Some(day), today).value;
    var row := ProgressRow(habitId, day, 1);
    var r := GetProgressForHabit(after, habitId, Some(day), Some(day));
    forall x | x in r ensures x == row {
      SameDay(x.date, day);
    }
    LexLeReflexive(day);
    assert row in r;
    // the day's row occurs once, so the result holds one element
    var rows := Filter(Selects(habitId, Some(day), Some(day)), after.progress);
    assert KeysUnique(after.progress);
    OnlyOneRow(after.progress, rows, habitId, day);
    assert |r| == |rows| by {
      assert |multiset(r)| == |multiset(rows)|;
    }
    assert r == [row];
  }

  lemma SameDay(a: string, day: string)
    ensures LexLe(a, day) && LexLe(day, a) ==> a == day
  {
    if LexLe(a, day) && LexLe(day, a) {
      LexLeAntisymmetric(a, day);
    }
  }

  /** Under unique keys, selecting a habit's one day yields at most one row. */
  lemma {:induction false} OnlyOneRow(p: seq<ProgressRow>, rows: seq<ProgressRow>, habitId: int, day: string)
    requires day != []
    requires KeysUnique(p) && rows == Filter(Selects(habitId, Some(day), Some(day)), p)
    ensures |rows| <= 1
  {
    if p != [] {
      var tail := p[1..];
      assert KeysUnique(tail) by {
        forall i, j | 0 <= i < j < |tail| ensures tail[i].habitId != tail[j].habitId || tail[i].date != tail[j].date {
          assert tail[i] == p[i + 1] && tail[j] == p[j + 1];
        }
      }
      var rest := Filter(Selects(habitId, Some(day), Some(day)), tail);
      OnlyOneRow(tail, rest, habitId, day);
      if Selected(p[0], habitId, Some(day), Some(day)) {
        SameDay(p[0].date, day);
        forall y | y in tail ensures !Selected(y, habitId, Some(day), Some(day)) {
          var m :| 0 <= m < |tail| && tail[m] == y;
          assert p[m + 1] == y;
          SameDay(y.date, day);
        }
        assert rest == [] by {
          assert forall y :: y in rest ==> y in tail && Selects(habitId, Some(day), Some(day))(y);
          NothingIn(rest);
        }
      }
    }
  }

  /** For dates in ISO form the text bounds select by calendar date. */
  lemma RangeIsChronological(x: ProgressRow, habitId: int, start: IsoDate.Date, end: IsoDate.Date, day: IsoDate.Date)
    requires IsoDate.Valid(start) && IsoDate.Valid(end) && IsoDate.Valid(day)
    requires x.date == IsoDate.Iso(day)
    ensures Selected(x, habitId, Some(IsoDate.Iso(start)), Some(IsoDate.Iso(end))) <==>
      x.habitId == habitId && IsoDate.NotAfter(start, day) && IsoDate.NotAfter(day, end)
  {
    IsoDate.IsoOrder(start, day);
    IsoDate.IsoOrder(day, end);
  }

  /** For dates in ISO form the result of `get_progress_for_habit` is in
      calendar order. */
  lemma SortedIsChronological(rows: seq<ProgressRow>, days: seq<IsoDate.Date>)
    requires |rows| == |days| && SortedByDate(rows)
    requires forall i :: 0 <= i < |days| ==> IsoDate.Valid(days[i]) && rows[i].date == IsoDate.Iso(days[i])
    ensures forall i, j :: 0 <= i < j < |days| ==> IsoDate.NotAfter(days[i], days[j])
  {
    forall i, j | 0 <= i < j < |days| ensures IsoDate.NotAfter(days[i], days[j]) {
      IsoDate.IsoOrder(days[i], days[j]);
    }
  }
}
