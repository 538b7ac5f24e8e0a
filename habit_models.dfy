/** The habit tables (habits/models.py): habit rows with their soft-delete
    flag, completed-day rows, and the day grid a habit derives from them. */
module HabitModels {
  import opened Base

  /** A row of the habit table. `duration` is the column the habit migrations
      define (a choice among 7..365 days); the grid does not use it.
      `updatedAt` is filled in once, on creation (`auto_now_add`), so it is in
      effect the creation time. */
  datatype Habit = Habit(
    id: HabitId,
    owner: UserId,
    name: string,
    duration: int,
    complete: bool,
    createdAt: Instant,
    updatedAt: Instant,
    deleted: bool,
    deletedAt: Option<Instant>)

  /** A row of the completed-day table: the habit it marks and the day it marks. */
  datatype CompletedDay = CompletedDay(habit: HabitId, day: Day)

  /** No two habit rows share a primary key. */
  ghost predicate UniqueIds(habits: seq<Habit>)
  {
    forall i, j :: 0 <= i < j < |habits| ==> habits[i].id != habits[j].id
  }

  // ---------------------------------------------------------------------------
  // The day grid (`Habit.generate_grid`)
  // ---------------------------------------------------------------------------

  /** One entry of the grid. The source keys its dictionary by the date and
      also stores the date, formatted, inside the entry; here `date` plays both
      parts and the formatting is not modelled. */
  datatype Cell = Cell(date: Day, completed: bool, isPast: bool, isToday: bool)

  /** The number of entries `generate_grid` builds, whatever the habit's duration.
      The model test for the grid expects 7 entries for a 7-day habit; the code
      builds 366, and the model follows the code. */
  const GridLength: nat := 366

  /** The entry for `day`, seen on `today`, given the days marked completed. */
  function DayCell(day: Day, today: Day, done: set<Day>): Cell
  {
    Cell(day, day in done, day < today, day == today)
  }

  /** The entries for the `n` consecutive days from `start`: the entry at
      position `i` is for day `start + i`, so the days strictly increase. An
      entry is completed exactly when its day is marked, past exactly when
      it is before today and today exactly when it is today, so no entry is
      both past and today. */
  function Grid(start: Day, today: Day, done: set<Day>, n: nat): (g: seq<Cell>)
    ensures |g| == n
    ensures forall i :: 0 <= i < n ==>
      && g[i].date == start + i
      && (g[i].completed <==> g[i].date in done)
      && (g[i].isPast <==> g[i].date < today)
      && (g[i].isToday <==> g[i].date == today)
      && !(g[i].isPast && g[i].isToday)
    ensures forall i, j :: 0 <= i < j < n ==> g[i].date < g[j].date
  {
    var g := seq(n, i => DayCell(start + i, today, done));
    assert forall i :: 0 <= i < n ==> g[i] == DayCell(start + i, today, done);
    g
  }

  /** `generate_grid`: the grid from the creation day, whatever the habit's
      duration. It has 366 entries under 366 distinct keys, the first for the
      start day, and exactly one entry is today's when
      start <= today <= start + 365, none otherwise. */
  function GenerateGrid(start: Day, today: Day, done: set<Day>): (g: seq<Cell>)
    ensures |g| == GridLength && g[0].date == start
    ensures |Keys(g)| == GridLength
    ensures TodayCells(g) == if start <= today < start + GridLength then 1 else 0
  {
    GridKeyCount(start, today, done, GridLength);
    TodayCount(start, today, done, GridLength);
    Grid(start, today, done, GridLength)
  }

  /** The keys of the grid's dictionary. */
  function Keys(g: seq<Cell>): set<Day>
  {
    set i | 0 <= i < |g| :: g[i].date
  }

  /** Number of entries flagged as today. */
  function TodayCells(g: seq<Cell>): nat
  {
    if g == [] then 0
    else TodayCells(g[..|g| - 1]) + (if g[|g| - 1].isToday then 1 else 0)
  }

  /** The entry at position `i` is the one for day `start + i`. */
  lemma GridAt(start: Day, today: Day, done: set<Day>, n: nat, i: nat)
    requires i < n
    ensures Grid(start, today, done, n)[i] == DayCell(start + i, today, done)
  {
  }

  /** The days `start`, ..., `start + n - 1`. */
  function Window(start: Day, n: nat): set<Day>
  {
    if n == 0 then {} else Window(start, n - 1) + {start + n - 1}
  }

  lemma {:induction false} WindowFacts(start: Day, n: nat)
    ensures |Window(start, n)| == n
    ensures forall d :: d in Window(start, n) <==> start <= d < start + n
  {
    if n > 0 {
      WindowFacts(start, n - 1);
    }
  }

  /** The keys are exactly the `n` days of the window and pairwise different,
      so the dictionary holds all `n` entries. */
  lemma GridKeyCount(start: Day, today: Day, done: set<Day>, n: nat)
    ensures Keys(Grid(start, today, done, n)) == Window(start, n)
    ensures |Keys(Grid(start, today, done, n))| == n
  {
    var g := Grid(start, today, done, n);
    WindowFacts(start, n);
    forall d | d in Window(start, n) ensures d in Keys(g) {
      assert g[d - start].date == d;
    }
  }

  /** Exactly one entry is flagged as today when the window covers today, none
      otherwise. */
  lemma {:induction false} TodayCount(start: Day, today: Day, done: set<Day>, n: nat)
    ensures TodayCells(Grid(start, today, done, n)) == if start <= today < start + n then 1 else 0
  {
    if n > 0 {
      var g := Grid(start, today, done, n);
      assert g[..n - 1] == Grid(start, today, done, n - 1) by {
        forall i | 0 <= i < n - 1 ensures g[i] == Grid(start, today, done, n - 1)[i] {
          GridAt(start, today, done, n, i);
          GridAt(start, today, done, n - 1, i);
        }
      }
      GridAt(start, today, done, n, n - 1);
      TodayCount(start, today, done, n - 1);
    }
  }

  /** A habit created today and completed today: its first entry is today's,
      completed, today and not past. */
  lemma CreatedTodayFirstCell(today: Day, done: set<Day>)
    requires today in done
    ensures GenerateGrid(today, today, done)[0] == Cell(today, true, false, true)
  {
    GridAt(today, today, done, GridLength, 0);
  }

  // ---------------------------------------------------------------------------
  // Queries on the habit table
  // ---------------------------------------------------------------------------

  /** `Habit.objects.filter(owner=owner, deleted=False)`, in table order. */
  function ActiveOf(habits: seq<Habit>, owner: UserId): (r: seq<Habit>)
    ensures forall h :: h in r <==> h in habits && h.owner == owner && !h.deleted
    ensures |r| <= |habits|
  {
    if habits == [] then []
    else
      (if habits[0].owner == owner && !habits[0].deleted then [habits[0]] else [])
      + ActiveOf(habits[1..], owner)
  }

  /** Adding a row adds it to its owner's active habits when it is not deleted,
      and changes nothing else. */
  lemma {:induction false} ActiveOfAppend(habits: seq<Habit>, h: Habit, owner: UserId)
    ensures ActiveOf(habits + [h], owner)
         == ActiveOf(habits, owner) + (if h.owner == owner && !h.deleted then [h] else [])
  {
    if habits == [] {
      assert [h][1..] == [];
    } else {
      assert (habits + [h])[1..] == habits[1..] + [h];
      ActiveOfAppend(habits[1..], h, owner);
    }
  }

  /** `owner` holds an active habit whose key is `id`. */
  ghost predicate HoldsActive(habits: seq<Habit>, id: HabitId, owner: UserId)
  {
    exists i :: 0 <= i < |habits| && habits[i].id == id && habits[i].owner == owner && !habits[i].deleted
  }

  // ---------------------------------------------------------------------------
  // Soft delete (`Habit.soft_delete`)
  // ---------------------------------------------------------------------------

  /** The row after `soft_delete`: the flag and its timestamp set, all else kept. */
  function SoftDeleted(h: Habit, now: Instant): Habit
  {
    h.(deleted := true, deletedAt := Some(now))
  }

  /** The table after the row keyed `id` is soft-deleted and saved. Every row
      stays, in place; the row keyed `id` keeps all its fields but becomes
      deleted with `deletedAt` set to `now`, and every other row is unchanged. */
  function SoftDeleteIn(habits: seq<Habit>, id: HabitId, now: Instant): (r: seq<Habit>)
    ensures |r| == |habits|
    ensures forall i :: 0 <= i < |habits| ==>
      var h, h' := habits[i], r[i];
      && h'.id == h.id && h'.owner == h.owner && h'.name == h.name
      && h'.duration == h.duration && h'.complete == h.complete
      && h'.createdAt == h.createdAt && h'.updatedAt == h.updatedAt
      && (h.id == id ==> h'.deleted && h'.deletedAt == Some(now))
      && (h.id != id ==> h' == h)
  {
    seq(|habits|, i requires 0 <= i < |habits| =>
      if habits[i].id == id then SoftDeleted(habits[i], now) else habits[i])
  }

  /** Soft-deleting one of the owner's active habits takes exactly that one out
      of the owner's active habits; any other soft delete leaves them as they were. */
  lemma {:induction false} SoftDeleteCount(habits: seq<Habit>, id: HabitId, now: Instant, owner: UserId)
    requires UniqueIds(habits)
    ensures |ActiveOf(SoftDeleteIn(habits, id, now), owner)|
         == |ActiveOf(habits, owner)| - (if HoldsActive(habits, id, owner) then 1 else 0)
  {
    if habits != [] {
      var tail := habits[1..];
      var after := SoftDeleteIn(habits, id, now);
      assert after[1..] == SoftDeleteIn(tail, id, now);
      assert UniqueIds(tail) by {
        forall i, j | 0 <= i < j < |tail| ensures tail[i].id != tail[j].id {
          assert tail[i] == habits[i + 1] && tail[j] == habits[j + 1];
        }
      }
      SoftDeleteCount(tail, id, now, owner);
      assert HoldsActive(habits, id, owner) <==>
        (habits[0].id == id && habits[0].owner == owner && !habits[0].deleted)
        || HoldsActive(tail, id, owner)
      by {
        if HoldsActive(tail, id, owner) {
          var i :| 0 <= i < |tail| && tail[i].id == id && tail[i].owner == owner && !tail[i].deleted;
          assert habits[i + 1] == tail[i];
        }
        if HoldsActive(habits, id, owner) {
          var i :| 0 <= i < |habits| && habits[i].id == id && habits[i].owner == owner && !habits[i].deleted;
          if i > 0 { assert tail[i - 1] == habits[i]; }
        }
      }
      if habits[0].id == id {
        assert !HoldsActive(tail, id, owner) by {
          forall i | 0 <= i < |tail| ensures tail[i].id != id {
            assert tail[i] == habits[i + 1];
          }
        }
      }
    }
  }

  /** The habit table. The source's random UUID keys are handed out here by a
      counter, which keeps them unique in the same way. */
  class HabitStore {
    var habits: seq<Habit>
    var nextId: HabitId

    ghost predicate Valid()
      reads this
    {
      && UniqueIds(habits)
      && forall i :: 0 <= i < |habits| ==> habits[i].id < nextId
    }

    constructor ()
      ensures Valid() && habits == [] && nextId == 0
    {
      habits := [];
      nextId := 0;
    }

    /** `new_habit.save()` for a habit built from a valid form: a fresh key,
        the defaults of the model (not complete, not deleted), both timestamps
        set to `now`, appended to the table. */
    method Insert(owner: UserId, name: string, duration: int, now: Instant) returns (h: Habit)
      requires Valid()
      modifies this
      ensures Valid()
      ensures h == Habit(old(nextId), owner, name, duration, false, now, now, false, None)
      ensures habits == old(habits) + [h] && nextId == old(nextId) + 1
      ensures forall x :: x in old(habits) ==> x.id != h.id
    {
      h := Habit(nextId, owner, name, duration, false, now, now, false, None);
      habits := habits + [h];
      nextId := nextId + 1;
    }

    /** `soft_delete` on the stored habit keyed `id`: the row stays in the
        table, only its `deleted` flag and `deletedAt` stamp change. */
    method SoftDelete(id: HabitId, now: Instant)
      requires Valid()
      requires exists i :: 0 <= i < |habits| && habits[i].id == id
      modifies this
      ensures Valid() && nextId == old(nextId)
      ensures habits == SoftDeleteIn(old(habits), id, now)
    {
      habits := SoftDeleteIn(habits, id, now);
    }
  }

  // ---------------------------------------------------------------------------
  // Completed days
  // ---------------------------------------------------------------------------

  /** `habit.completed_days.values_list("day")`, as a set: a day is among the
      habit's completed days exactly when its (habit, day) row is present. */
  function DaysOf(records: seq<CompletedDay>, habit: HabitId): (days: set<Day>)
    ensures forall d :: d in days <==> CompletedDay(habit, d) in records
  {
    var days := set r | r in records && r.habit == habit :: r.day;
    assert forall d :: d in days ==> CompletedDay(habit, d) in records by {
      forall d | d in days ensures CompletedDay(habit, d) in records {
        var r :| r in records && r.habit == habit && r.day == d;
        assert r == CompletedDay(habit, d);
      }
    }
    days
  }

  /** The toggle on the table seen as a bag of rows: remove the row if it is
      there, add it otherwise. Only defined while the row is there at most once. */
  function Toggled(m: multiset<CompletedDay>, key: CompletedDay): multiset<CompletedDay>
    requires m[key] <= 1
  {
    if key in m then m - multiset{key} else m + multiset{key}
  }

  /** Toggling flips the presence of exactly one row, and toggling twice gives
      the table back. */
  lemma ToggledTwice(m: multiset<CompletedDay>, key: CompletedDay)
    requires m[key] <= 1
    ensures Toggled(m, key)[key] <= 1
    ensures (key in Toggled(m, key)) <==> key !in m
    ensures forall r :: r != key ==> Toggled(m, key)[r] == m[r]
    ensures Toggled(Toggled(m, key), key) == m
  {
  }

  /** After a toggle, the toggled habit has the toggled day added to or removed
      from its completed days, and every other habit's days are as before. */
  lemma ToggleFlipsDay(s: seq<CompletedDay>, s': seq<CompletedDay>, key: CompletedDay)
    requires multiset(s)[key] <= 1
    requires multiset(s') == Toggled(multiset(s), key)
    ensures DaysOf(s', key.habit)
         == if key.day in DaysOf(s, key.habit) then DaysOf(s, key.habit) - {key.day}
            else DaysOf(s, key.habit) + {key.day}
    ensures forall h :: h != key.habit ==> DaysOf(s', h) == DaysOf(s, h)
  {
    forall r ensures r in s' <==> (if r == key then key !in s else r in s) {
      assert r in s' <==> r in multiset(s');
      assert r in s <==> r in multiset(s);
    }
  }

  /** The completed-day table. Nothing in the storage keeps a (habit, day) pair
      from appearing twice; only the toggle's check before it inserts does. */
  class CompletionStore {
    var records: seq<CompletedDay>

    /** At most one row per (habit, day). */
    ghost predicate Unique()
      reads this
    {
      Distinct(records)
    }

    constructor ()
      ensures records == [] && Unique()
    {
      records := [];
    }

    /** `CompletedDay.objects.create(habit=habit)`: the day defaults to the day
        of creation, `today`. */
    method Create(habit: HabitId, today: Day)
      modifies this
      ensures records == old(records) + [CompletedDay(habit, today)]
    {
      records := records + [CompletedDay(habit, today)];
    }

    /** `delete()` on the row at position `k`. */
    method Delete(k: nat)
      requires k < |records|
      modifies this
      ensures records == RemoveAt(old(records), k)
    {
      records := RemoveAt(records, k);
    }
  }
}
