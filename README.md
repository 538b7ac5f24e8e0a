# Habit tracker: a Dafny model of its habit and signup-code core

This project models the core of a Django habit-tracking application:

- **Habits.** Each user owns habit rows. A row has a name of at most 50
  characters, a duration chosen from 7, 14, 30, 60, 120 or 365 days, and a
  soft-delete flag with its timestamp.
- **The day grid.** `Habit.generate_grid` builds it: one entry per day for
  366 days from the habit's creation day. Each entry says whether that day was
  completed, whether it is past, and whether it is today.
- **Completed days.** Rows in the completed-day table mark days as done. The
  toggle handler creates today's row or deletes it.
- **The habit quota.** `CustomUser.max_habits_created` counts the user's
  non-deleted habits against `habit_limit` (default 5), and the create
  handler refuses to create a habit once the quota is reached.
- **Signup codes.** Each code is a 12-character string of ASCII letters and
  digits. `SignUpCode.save` generates a code that is not yet taken. The
  signup handler lets an account be created only when the submitted code
  exists, and deletes that code so it can be used only once.
- **The request handlers.** The model covers home, create, quota notice,
  habit page and toggle from `habits/views.py`, and the signup step from
  `accounts/views.py`. Each handler is a function or method. It takes the
  signed-in user, the tables it reads or writes, and the clock's reading, and
  it returns the page it renders or the redirect it sends.

Layout, one module per file:

| file | module | models |
|---|---|---|
| `base.dfy` | `Base` | options, results, keys, instants and days, deleting one row of a table |
| `habit_models.dfy` | `HabitModels` | `habits/models.py`: habit rows, the grid, soft delete, completed days, the habit and completed-day tables as classes |
| `habit_forms.dfy` | `HabitForms` | `habits/forms.py` and the duration column of the habit migrations |
| `account_models.dfy` | `AccountModels` | `accounts/models.py`: the quota and the signup-code table with its generator |
| `habit_views.dfy` | `HabitViews` | `habits/views.py` |
| `account_views.dfy` | `AccountViews` | `CustomSignupView.form_valid` in `accounts/views.py` |

Tables whose rows the source changes in place are classes. `HabitStore`,
`CompletionStore` and `CodeStore` each hold their rows as a `seq` field, and
their methods reassign it. The grid, the queries, form validation and the
read-only handlers are functions.

### Where the model follows the code over its documentation and tests

- `home_view` says it shows the most recently updated habit. Its query sorts
  by `updated_at` ascending and takes the first row, so it shows the *least*
  recently updated one. `updated_at` is `auto_now_add`, so it is the creation
  time. `HabitViews.HomeView` and `HabitViews.HomeShowsLeastRecentlyUpdated`
  follow the query.
- The grid test expects 7 entries for a 7-day habit. `generate_grid` ignores
  the duration and always builds 366 entries. The model builds 366.
- `toggle_completed_day_view` looks the habit up without the `deleted=False`
  filter, so a soft-deleted habit can still be toggled
  (`HabitViews.ToggleReachesDeletedHabit`). The handler has no POST-only check,
  even though a test expects a GET to be refused with 405.
- The account test for `max_habits_created` asserts the opposite of what the
  method computes for its data (`AccountModels.QuotaTestDisagrees`). It is
  never collected, because its name lacks the `test_` prefix.
- Tests exist for a habit-delete handler, but `habits/views.py` has none. The
  model has `HabitStore.SoftDelete` and no delete handler.
- Several names in the source do not resolve:
  - `habits/views.py` imports `CreateUpdateHabitForm`, but the form is called
    `CreateHabitForm`.
  - The form reads `Habit.DURATION_CHOICES`, which `habits/models.py` does not
    define.
  - `habits/urls.py` routes to `test_error_view`, which does not exist.

  The model takes the form as `CreateHabitForm` and the duration choices and
  bounds from the habit migration.

## Model

| member | source | states |
|---|---|---|
| HabitModels.Grid | habits/models.py:39-46 | the grid has one entry per day for the n days from the start day, the entry at position i for day start+i, in strictly increasing day order; an entry is completed iff its day is marked, past iff before today, today iff today, and never both past and today |
| HabitModels.GenerateGrid | habits/models.py:34-49 | generate_grid builds 366 entries under 366 distinct keys whatever the duration, the first for the creation day, and exactly one of them is today while today falls within those 366 days, none otherwise |
| HabitModels.GridKeyCount | habits/models.py:39-47 | the grid's keys are exactly the n consecutive days from the start day, so the dictionary has n distinct entries |
| HabitModels.TodayCount | habits/models.py:43-44 | exactly one entry is flagged as today when the window covers today, and none otherwise |
| HabitModels.CreatedTodayFirstCell | habits/tests/test_models.py:45-59 | for a habit created and completed today, the first entry is today's: completed, not past, today |
| HabitModels.ActiveOf | habits/views.py:28 | the user's non-deleted habits: a row is listed iff it is owned by the user and not deleted; never more rows than the table |
| HabitModels.ActiveOfAppend | accounts/models.py:46 | adding a row extends the owner's active habits by that row exactly when it is the owner's and not deleted |
| HabitModels.SoftDeleteIn | habits/models.py:52-55 | soft delete keeps every row in place and every field, except that the row with that key becomes deleted with deletedAt now; every other row is unchanged |
| HabitModels.SoftDeleteCount | habits/models.py:52-55 | soft-deleting reduces the owner's active-habit count by one exactly when the owner held an active habit with that key, and leaves it unchanged otherwise |
| HabitModels.HabitStore.Insert | habits/views.py:51-53 | saving a new habit appends one row with a fresh key, the owner, the cleaned name and duration, the model defaults and both stamps set to now |
| HabitModels.HabitStore.SoftDelete | habits/models.py:52-55 | the stored rows become the soft-deleted table of SoftDeleteIn (the row with that key deleted with deletedAt now, every other row unchanged); the key counter stays and the keys stay unique |
| HabitModels.DaysOf | habits/models.py:37 | a day is among the habit's completed days iff the (habit, day) row is in the table |
| HabitModels.ToggledTwice | habits/views.py:108-119 | a toggle flips the presence of the (habit, day) row and of no other row; two toggles give the table back |
| HabitModels.ToggleFlipsDay | habits/views.py:108-119 | after a toggle, the toggled day is added to or removed from that habit's completed days, and every other habit's days are unchanged |
| HabitModels.CompletionStore.Create | habits/models.py:70 | creating a completed day appends the (habit, today) row, its day filled in as today |
| HabitModels.CompletionStore.Delete | habits/views.py:113 | deleting a row removes exactly that row |
| HabitForms.Strip | habits/forms.py:10 | the name field's str.strip(): the result is a slice of the input with only whitespace removed on either side, and it neither starts nor ends with whitespace |
| HabitForms.StripBlank | habits/forms.py:10 | stripping leaves nothing exactly when the name is all whitespace |
| HabitForms.StripTrimmed | habits/forms.py:10 | a name without surrounding whitespace is kept as it is, so stripping twice is stripping once |
| HabitForms.Validate | habits/forms.py:6-30 | the form is valid iff the stripped name has 1 to 50 characters and no null character, and a duration is given and is one of the choices; when valid, the cleaned data is the stripped name and the duration, within 7..365; when invalid, the name has errors iff it is not accepted, with the missing-name error iff it is empty once stripped, the too-long error iff it exceeds 50 characters, and the null-character error iff it holds one, and the duration has an error iff it is missing or not a choice |
| HabitForms.BlankNameRequired | habits/forms.py:10 | a name of only whitespace is rejected as missing, and with no other name error |
| HabitForms.StripKeepsNonSpace | habits/forms.py:10 | stripping removes whitespace only: every other character of the name survives it |
| HabitForms.NullCharacterRejected | habits/forms.py:10 | a name with a null character anywhere, even among surrounding whitespace, is rejected with the null-character error |
| HabitForms.CleanedRevalidates | habits/forms.py:6-30 | clean data (trimmed, accepted name and a duration choice) posted again validates to exactly that data |
| HabitForms.CleaningIdempotent | habits/forms.py:6-30 | every valid form cleans to clean data, and validating the form rebuilt from it gives the same result |
| HabitForms.ChoicesWithinBounds | habits/migrations/0003_alter_habit_duration.py:17 | every duration choice lies within the column's minimum 7 and maximum 365 |
| HabitForms.BoundsNeverReported | habits/migrations/0003_alter_habit_duration.py:17 | the minimum and maximum validators never add an error to the form |
| HabitForms.InitialDurationIsAChoice | habits/forms.py:30 | the initial duration, 60, is one of the choices and within the bounds |
| HabitForms.TestHabitValidates | habits/tests/test_forms.py:10-19 | the form test's data validates, and its cleaned data is the name and duration 30 |
| AccountModels.NewUser | accounts/models.py:27 | a new user has the default quota of 5 and, with no habits, has not reached it |
| AccountModels.MaxHabitsCreated | accounts/models.py:45-46 | a quota of zero or less is always reached; a quota above the number of habit rows never is |
| AccountModels.SoftDeleteNeverBlocks | accounts/models.py:45-46 | soft-deleting never makes the quota reached; soft-deleting an active habit at exactly the quota frees a slot |
| AccountModels.InsertNeverUnblocks | accounts/models.py:45-46 | adding a row never makes the quota unreached; adding an active habit one below the quota makes it reached |
| AccountModels.QuotaTestDisagrees | accounts/tests/test_models.py:80-91 | with two active habits the quota check is false under the default limit of 5 and true under a limit of 2, the opposite of the test's assertions |
| AccountModels.AlphabetFacts | accounts/models.py:81 | the code alphabet has 62 characters, all ASCII letters or digits |
| AccountModels.Choices | accounts/models.py:81 | a drawn string has one character per draw, each an ASCII letter or digit |
| AccountModels.PersistedValid | accounts/models.py:53 | a write that breaks no unique constraint keeps the keys unique and the non-NULL codes unique |
| AccountModels.CodeStore.Taken | accounts/models.py:82 | filter(code=...).exists() holds iff get(code=...) finds a row; in a table that keeps its constraints it finds exactly one |
| AccountModels.GetByCode | accounts/views.py:58 | no row iff no row holds the code; one row is the only one holding it; several only when two rows hold it |
| AccountModels.ValidCodesFoundOnce | accounts/models.py:53 | in a table that keeps its constraints, a non-NULL code is never held by several rows |
| AccountModels.CodeStore.GenerateCode | accounts/models.py:74-83 | a returned code is 12 ASCII letters or digits, held by no row, and the first attempt that is free; no code only when every attempt is taken |
| AccountModels.CodeStore.Save | accounts/models.py:66-71 | adding a row with a blank code stores a fresh, untaken 12-character code; otherwise the row is written as given; a write that breaks a unique constraint fails and leaves the table unchanged; constraints are kept |
| AccountModels.CodeStore.Delete | accounts/views.py:59 | deleting a code row removes exactly that row and keeps the constraints |
| AccountModels.RemoveAtValid | accounts/views.py:59 | deleting any row keeps the keys and codes unique |
| HabitViews.FirstByUpdatedAt | habits/views.py:19-20 | nothing iff there are no habits; otherwise one of them with the smallest updatedAt |
| HabitViews.Lookup | habits/views.py:87 | on a table with unique keys: a found row has the key and the owner, is not deleted when the filter applies, and is the only row with that key; nothing found iff no such row exists |
| HabitViews.HomeView | habits/views.py:12-34 | redirect to create iff the user has no active habit; otherwise the page of an active habit of the user with the smallest updatedAt, its 366-day grid, and exactly the user's active habits |
| HabitViews.HomeShowsLeastRecentlyUpdated | habits/views.py:19-20 | when one active habit was updated before another, the home page never shows the later one |
| HabitViews.HabitView | habits/views.py:81-96 | the page renders iff the user owns a non-deleted habit with that key, showing that habit and its grid; otherwise not found |
| HabitViews.MaxHabitsCreatedView | habits/views.py:67-78 | the notice page lists exactly the user's active habits |
| HabitViews.CreateHabitView | habits/views.py:37-64 | at quota: redirect to the notice, nothing written; GET: blank form; invalid POST: form with its errors, nothing written; valid POST: exactly one new habit of the user with the cleaned data and a fresh key, then redirect to its page |
| HabitViews.PostValidForm | habits/views.py:44-64 | one post of a valid form: below the quota, the next key is taken, the user gains one active habit and the post redirects to it; at the quota, the redirect to the notice with nothing written |
| HabitViews.QuotaExample | habits/views.py:44-64 | a new user posting the same valid form six times gets habits 0..4 created by the first five posts, and the sixth is redirected to the quota notice |
| HabitViews.ToggleCompletedDayView | habits/views.py:99-130 | no owned habit with the key: not found, nothing written; no row for today: row created, day reported completed; one row: that row deleted, reported not completed; two rows: error, nothing written; the reported cell matches the grid's view of today; a duplicate-free table stays duplicate-free and never errors |
| HabitViews.ToggleTwice | habits/tests/test_views.py:207-240 | two toggles on the same day give the table back and report opposite states, the first the flip of the original |
| HabitViews.ToggleReachesDeletedHabit | habits/views.py:106 | a soft-deleted habit is not found by the habit page's lookup but is found by the toggle's |
| AccountViews.ConsumedCodeIsGone | accounts/views.py:57-59 | after the found row is deleted the code matches nothing, and every other row remains |
| AccountViews.FormValid | accounts/views.py:51-66 | a code held by one row: that row deleted, signup proceeds; no such row: table unchanged, error "This code is not valid." added on signup_code, which also drops the code from the cleaned data, form shown again; several rows: error escapes, nothing changes; a submitted (non-NULL) code never makes it escape; constraints are kept |
| AccountViews.SingleUseExample | accounts/views.py:51-66 | a generated code admits one signup and is rejected, with the field error, when it is submitted again |

## Left out

- The ORM, templates, HTMX partials, `login_required` and URL routing are not modelled. Each handler receives the signed-in user and the tables directly, and an anonymous user's redirect to login is not modelled.
- The clock is a parameter. `now` is an instant in seconds, and `today` is a day ordinal. The source reads the day from two clocks: `date.today()` (local time) in the grid and in the `auto_now_add` default of a completed day's date, and `timezone.now()` (UTC) in the toggle's lookup and its reported date. The model uses one `today` for all of them, so a day boundary between the two zones is not captured.
- HabitViews.ToggleCompletedDayView: because the model uses one `today`, its promise that a table without duplicates stays without them and never makes the toggle fail holds only when the local and UTC dates agree. When they differ, the source looks the row up under the UTC date but creates it under the local date. Each toggle then misses the row it just created, inserts another (habit, local day) row and reports the day completed again. Once the UTC date reaches that local day, `get` raises MultipleObjectsReturned.
- `strftime` date formatting is not modelled. A grid entry carries its day as an ordinal, and that ordinal is also the dictionary key.
- Keys are not random: habit keys come from a counter in `HabitStore`, which keeps them unique in the same way `uuid4` does. Code-row keys are given by the caller.
- AccountModels.CodeStore.GenerateCode: the source retries `random.choices` without bound. The model takes the random draws as a finite stream, 12 draws per attempt, and reports that no code was found when the stream runs out. `generate_code`'s `length` parameter is fixed at 12, the only value it is called with.
- Concurrent toggle requests are not modelled, so the race in which two requests both miss the row and both insert it is out of scope. The MultipleObjectsReturned error that duplicate rows cause later is modelled.
- Form input: the name arrives as typed and is stripped as Django's `CharField` does, with Python's whitespace set. Its validators are the column's 50-character limit and the null-character check that every `CharField` adds. The duration arrives already as an integer or absent; the coercion of the submitted text to an integer, and the error for non-numeric text, are not modelled.
- The allauth views that `accounts/views.py` only subclasses (login, logout, password and email flows) are not modelled, nor is the account creation itself after `form_valid` succeeds. `CustomSignupForm` is not part of this model; its cleaned `signup_code` is the form's field.
- `accounts/signals.py` is not modelled. It only deletes a user's allauth email addresses when the user is deleted, and the model has no email table. `accounts/managers.py` is not part of this model.
- The fields `complete`, `created`, the name strings' `__str__` methods, and the user's other columns are carried along or left out, since no core operation reads them.
