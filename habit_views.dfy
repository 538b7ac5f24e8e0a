/** The habit request handlers (habits/views.py). Each handler takes the
    signed-in user (`request.user`), the tables it works on, and the clock's
    reading where it needs one; it returns the page it renders or the redirect
    it answers with. */
module HabitViews {
  import opened Base
  import opened HabitModels
  import opened HabitForms
  import opened AccountModels

  /** The request to the create view: a GET, or a POST carrying the form data. */
  datatype Request = Get | Post(input: HabitInput)

  /** The form the create page shows: a fresh one (its duration preset to
      `InitialDuration`) or the submitted one with its errors. */
  datatype FormState = Unbound | Bound(input: HabitInput, errors: FormErrors)

  /** What a handler answers with. */
  datatype Response =
    | RenderHabit(habit: Habit, grid: seq<Cell>, userHabits: seq<Habit>)
    | RenderCreateHabit(form: FormState, userHabits: seq<Habit>)
    | RenderMaxHabitsCreated(userHabits: seq<Habit>)
    | RenderDay(cell: Cell)
    | RedirectCreateHabit
    | RedirectMaxHabitsCreated
    | RedirectHabit(id: HabitId)
    | NotFound
    | ServerError

  // ---------------------------------------------------------------------------
  // Queries
  // ---------------------------------------------------------------------------

  /** `.order_by('updated_at').first()`: a habit with the smallest `updatedAt`
      (the first such one in table order), or nothing for no habits. */
  function FirstByUpdatedAt(habits: seq<Habit>): (r: Option<Habit>)
    ensures r.None? <==> habits == []
    ensures r.Some? ==> r.value in habits && forall h :: h in habits ==> r.value.updatedAt <= h.updatedAt
  {
    if habits == [] then None
    else
      match FirstByUpdatedAt(habits[1..])
      case None => Some(habits[0])
      case Some(m) => if habits[0].updatedAt <= m.updatedAt then Some(habits[0]) else Some(m)
  }

  /** `get_object_or_404(Habit, id=pk, owner=owner)`, with `deleted=False` added
      when `activeOnly` holds: the matching row, or nothing (the 404). The key
      is the primary key, so at most one row can match. */
  function Lookup(habits: seq<Habit>, pk: HabitId, owner: UserId, activeOnly: bool): (r: Option<Habit>)
    requires UniqueIds(habits)
    ensures r.Some? ==>
      r.value in habits && r.value.id == pk && r.value.owner == owner && (activeOnly ==> !r.value.deleted)
    ensures r.Some? ==> forall h :: h in habits && h.id == pk ==> h == r.value
    ensures r.None? ==>
      forall h :: h in habits && h.id == pk && h.owner == owner ==> activeOnly && h.deleted
  {
    if habits == [] then None
    else if habits[0].id == pk && habits[0].owner == owner && (!activeOnly || !habits[0].deleted) then
      Some(habits[0])
    else
      Lookup(habits[1..], pk, owner, activeOnly)
  }

  /** The habit page: the habit, its grid as seen on `today`, and the user's
      active habits for the navigation. */
  function HabitPage(h: Habit, hs: HabitStore, cs: CompletionStore, user: User, today: Day): Response
    reads hs, cs
  {
    RenderHabit(h, GenerateGrid(DayOf(h.createdAt), today, DaysOf(cs.records, h.id)), ActiveOf(hs.habits, user.id))
  }

  // ---------------------------------------------------------------------------
  // Read-only handlers
  // ---------------------------------------------------------------------------

  /** `home_view`: redirect to the create page when the user has no active
      habit; otherwise the page of the active habit with the SMALLEST
      `updatedAt`. The handler's documentation promises the most recently
      updated one; the query sorts ascending, and the model follows the query. */
  function HomeView(hs: HabitStore, cs: CompletionStore, user: User, today: Day): (r: Response)
    reads hs, cs
    ensures r.RedirectCreateHabit? || r.RenderHabit?
    ensures r.RedirectCreateHabit? <==> ActiveOf(hs.habits, user.id) == []
    ensures r.RenderHabit? ==>
      && r.habit in hs.habits && r.habit.owner == user.id && !r.habit.deleted
      && (forall h :: h in hs.habits && h.owner == user.id && !h.deleted ==> r.habit.updatedAt <= h.updatedAt)
      && r.grid == GenerateGrid(DayOf(r.habit.createdAt), today, DaysOf(cs.records, r.habit.id))
      && (forall h :: h in r.userHabits <==> h in hs.habits && h.owner == user.id && !h.deleted)
  {
    match FirstByUpdatedAt(ActiveOf(hs.habits, user.id))
    case None => RedirectCreateHabit
    case Some(h) => HabitPage(h, hs, cs, user, today)
  }

  /** The home page never shows an active habit when another one of the user's
      active habits was updated earlier. */
  lemma HomeShowsLeastRecentlyUpdated(hs: HabitStore, cs: CompletionStore, user: User, today: Day, a: Habit, b: Habit)
    requires a in hs.habits && a.owner == user.id && !a.deleted
    requires b in hs.habits && b.owner == user.id && !b.deleted
    requires a.updatedAt < b.updatedAt
    ensures HomeView(hs, cs, user, today).RenderHabit?
    ensures HomeView(hs, cs, user, today).habit != b
  {
    assert a in ActiveOf(hs.habits, user.id);
  }

  /** `habit_view`: the habit's page when a row with that key belongs to the
      user and is not deleted, not found otherwise. */
  function HabitView(hs: HabitStore, cs: CompletionStore, user: User, pk: HabitId, today: Day): (r: Response)
    reads hs, cs
    requires hs.Valid()
    ensures r.RenderHabit? || r == NotFound
    ensures r.RenderHabit? <==> exists h :: h in hs.habits && h.id == pk && h.owner == user.id && !h.deleted
    ensures r.RenderHabit? ==>
      && r.habit in hs.habits && r.habit.id == pk && r.habit.owner == user.id && !r.habit.deleted
      && r.grid == GenerateGrid(DayOf(r.habit.createdAt), today, DaysOf(cs.records, pk))
      && (forall h :: h in r.userHabits <==> h in hs.habits && h.owner == user.id && !h.deleted)
  {
    match Lookup(hs.habits, pk, user.id, true)
    case None => NotFound
    case Some(h) => HabitPage(h, hs, cs, user, today)
  }

  /** `max_habits_created_view`: the notice page, listing the user's active habits. */
  function MaxHabitsCreatedView(hs: HabitStore, user: User): (r: Response)
    reads hs
    ensures r.RenderMaxHabitsCreated?
    ensures forall h :: h in r.userHabits <==> h in hs.habits && h.owner == user.id && !h.deleted
  {
    RenderMaxHabitsCreated(ActiveOf(hs.habits, user.id))
  }

  // ---------------------------------------------------------------------------
  // Creating a habit
  // ---------------------------------------------------------------------------

  /** `create_habit_view`. At or over the quota: redirect to the notice, table
      unchanged. Otherwise a GET or an invalid POST renders the form (fresh, or
      with its errors) and changes nothing; a valid POST appends exactly one
      habit, owned by the user, with the cleaned name and duration, and
      redirects to its page. */
  method CreateHabitView(hs: HabitStore, user: User, request: Request, now: Instant) returns (r: Response)
    requires hs.Valid()
    modifies hs
    ensures hs.Valid()
    ensures MaxHabitsCreated(user, old(hs.habits)) ==>
      r == RedirectMaxHabitsCreated && unchanged(hs)
    ensures !MaxHabitsCreated(user, old(hs.habits)) && request.Get? ==>
      r == RenderCreateHabit(Unbound, ActiveOf(hs.habits, user.id)) && unchanged(hs)
    ensures !MaxHabitsCreated(user, old(hs.habits)) && request.Post? && Validate(request.input).Failure? ==>
      && r == RenderCreateHabit(Bound(request.input, Validate(request.input).error), ActiveOf(hs.habits, user.id))
      && unchanged(hs)
    ensures !MaxHabitsCreated(user, old(hs.habits)) && request.Post? && Validate(request.input).Success? ==>
      var c := Validate(request.input).value;
      var h := Habit(old(hs.nextId), user.id, c.name, c.duration, false, now, now, false, None);
      && hs.habits == old(hs.habits) + [h] && hs.nextId == old(hs.nextId) + 1
      && r == RedirectHabit(h.id)
      && forall x :: x in old(hs.habits) ==> x.id != h.id
  {
    if !MaxHabitsCreated(user, hs.habits) {
      var form := Unbound;
      if request.Post? {
        match Validate(request.input)
        case Success(c) =>
          var h := hs.Insert(user.id, c.name, c.duration, now);
          return RedirectHabit(h.id);
        case Failure(errors) =>
          form := Bound(request.input, errors);
      }
      r := RenderCreateHabit(form, ActiveOf(hs.habits, user.id));
    } else {
      r := RedirectMaxHabitsCreated;
    }
  }

  /** The form posted with clean data `c`. */
  function CleanPost(c: CleanedHabit): Request
  {
    Post(HabitInput(c.name, Some(c.duration)))
  }

  /** One post of a valid form: below the quota the next key is taken and
      the new habit is one more active habit of the user's; at the quota the
      post is sent to the notice page and nothing changes. */
  method PostValidForm(hs: HabitStore, user: User, c: CleanedHabit, now: Instant) returns (r: Response)
    requires hs.Valid() && Clean(c)
    modifies hs
    ensures hs.Valid()
    ensures !MaxHabitsCreated(user, old(hs.habits)) ==>
      && hs.nextId == old(hs.nextId) + 1
      && r == RedirectHabit(old(hs.nextId))
      && |ActiveOf(hs.habits, user.id)| == |ActiveOf(old(hs.habits), user.id)| + 1
    ensures MaxHabitsCreated(user, old(hs.habits)) ==>
      r == RedirectMaxHabitsCreated && unchanged(hs)
  {
    ghost var before := hs.habits;
    ghost var h := Habit(hs.nextId, user.id, c.name, c.duration, false, now, now, false, None);
    CleanedRevalidates(c);
    r := CreateHabitView(hs, user, CleanPost(c), now);
    if !MaxHabitsCreated(user, before) {
      ActiveOfAppend(before, h, user.id);
    }
  }

  /** A new user (quota 5) posting the same valid form six times: the first
      five posts create habits 0..4, the sixth is sent to the notice page. */
  method QuotaExample(c: CleanedHabit, now: Instant) returns (created: seq<Response>, sixth: Response)
    requires Clean(c)
    ensures |created| == 5
    ensures forall k :: 0 <= k < 5 ==> created[k] == RedirectHabit(k)
    ensures sixth == RedirectMaxHabitsCreated
  {
    var hs := new HabitStore();
    var user := NewUser(0);
    created := [];
    while |created| < 5
      invariant hs.Valid()
      invariant |created| <= 5 && hs.nextId == |created|
      invariant |ActiveOf(hs.habits, user.id)| == |created|
      invariant forall k :: 0 <= k < |created| ==> created[k] == RedirectHabit(k)
    {
      var r := PostValidForm(hs, user, c, now);
      created := created + [r];
    }
    sixth := PostValidForm(hs, user, c, now);
  }

  // ---------------------------------------------------------------------------
  // Toggling today's completion
  // ---------------------------------------------------------------------------

  /** `toggle_completed_day_view`. The habit must belong to the user but may be
      soft-deleted: the lookup does not filter on the flag. If the (habit,
      today) row is there it is deleted and the day reported not completed;
      if it is not, it is created and the day reported completed. Two such
      rows make the lookup fail (the handler does not catch
      MultipleObjectsReturned). The reported cell is always today's, not past,
      and agrees with what the grid now shows for today. No check restricts
      the handler to POST requests. */
  method ToggleCompletedDayView(hs: HabitStore, cs: CompletionStore, user: User, pk: HabitId, today: Day)
    returns (r: Response)
    requires hs.Valid()
    modifies cs
    ensures Lookup(hs.habits, pk, user.id, false).None? ==>
      r == NotFound && cs.records == old(cs.records)
    ensures Lookup(hs.habits, pk, user.id, false).Some? ==>
      var key := CompletedDay(pk, today);
      var n := old(multiset(cs.records))[key];
      && (n == 0 ==> r == RenderDay(Cell(today, true, false, true)) && cs.records == old(cs.records) + [key])
      && (n == 1 ==>
            && r == RenderDay(Cell(today, false, false, true))
            && exists k :: 0 <= k < |old(cs.records)| && old(cs.records)[k] == key && cs.records == RemoveAt(old(cs.records), k))
      && (n <= 1 ==> multiset(cs.records) == Toggled(old(multiset(cs.records)), key))
      && (n >= 2 ==> r == ServerError && cs.records == old(cs.records))
    ensures r.RenderDay? ==> r.cell == DayCell(today, today, DaysOf(cs.records, pk))
    ensures old(cs.Unique()) ==> cs.Unique() && r != ServerError
  {
    var habit := Lookup(hs.habits, pk, user.id, false);
    if habit.None? {
      return NotFound;
    }
    var key := CompletedDay(habit.value.id, today);
    var n := multiset(cs.records)[key];
    assert cs.Unique() ==> n <= 1 by {
      if cs.Unique() { DistinctCount(cs.records, key); }
    }
    var completed;
    if n == 1 {
      var k :| 0 <= k < |cs.records| && cs.records[k] == key;
      RemoveAtContents(cs.records, k);
      if cs.Unique() { DistinctRemoveAt(cs.records, k); }
      cs.Delete(k);
      assert key !in multiset(cs.records);
      completed := false;
    } else if n == 0 {
      if cs.Unique() { DistinctAppend(cs.records, key); }
      cs.Create(habit.value.id, today);
      completed := true;
    } else {
      return ServerError;
    }
    r := RenderDay(Cell(today, completed, false, true));
  }

  /** Toggling twice on the same day gives the table back and reports the two
      opposite states, the first being the flip of the original one. */
  method ToggleTwice(hs: HabitStore, cs: CompletionStore, user: User, pk: HabitId, today: Day)
    returns (first: Response, second: Response)
    requires hs.Valid() && cs.Unique()
    modifies cs
    ensures cs.Unique()
    ensures multiset(cs.records) == old(multiset(cs.records))
    ensures Lookup(hs.habits, pk, user.id, false).Some? ==>
      && first.RenderDay? && second.RenderDay?
      && (first.cell.completed <==> CompletedDay(pk, today) !in old(cs.records))
      && second.cell.completed == !first.cell.completed
  {
    ghost var key := CompletedDay(pk, today);
    ghost var m := multiset(cs.records);
    DistinctCount(cs.records, key);
    first := ToggleCompletedDayView(hs, cs, user, pk, today);
    second := ToggleCompletedDayView(hs, cs, user, pk, today);
    if Lookup(hs.habits, pk, user.id, false).Some? {
      ToggledTwice(m, key);
    }
  }

  /** A soft-deleted habit of the user is out of reach of the habit page but
      still reached by the toggle. */
  lemma ToggleReachesDeletedHabit(habits: seq<Habit>, pk: HabitId, owner: UserId, h: Habit)
    requires UniqueIds(habits)
    requires h in habits && h.id == pk && h.owner == owner && h.deleted
    ensures Lookup(habits, pk, owner, true) == None
    ensures Lookup(habits, pk, owner, false) == Some(h)
  {
    forall x | x in habits && x.id == pk
      ensures x == h
    {
      var i :| 0 <= i < |habits| && habits[i] == x;
      var j :| 0 <= j < |habits| && habits[j] == h;
      assert i == j;
    }
  }
}
