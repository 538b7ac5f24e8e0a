/** The account tables (accounts/models.py): the user's habit quota and the
    single-use signup codes with their generator. */
module AccountModels {
  import opened Base
  import opened HabitModels

  // ---------------------------------------------------------------------------
  // Users and the habit quota
  // ---------------------------------------------------------------------------

  /** The default of the `habit_limit` column. */
  const DefaultHabitLimit: int := 5

  /** The part of a user row the model needs: its key and its habit quota. */
  datatype User = User(id: UserId, habitLimit: int)

  /** A user row as created: the default quota of 5, so a new user with no
      habits has not reached it. */
  function NewUser(id: UserId): (u: User)
    ensures u.id == id && u.habitLimit == DefaultHabitLimit
    ensures !MaxHabitsCreated(u, [])
  {
    User(id, DefaultHabitLimit)
  }

  /** `max_habits_created`: the user's non-deleted habits have reached the
      quota. A quota of zero or less is always reached; a quota above the
      number of rows never is. */
  predicate MaxHabitsCreated(u: User, habits: seq<Habit>)
    ensures u.habitLimit <= 0 ==> MaxHabitsCreated(u, habits)
    ensures |habits| < u.habitLimit ==> !MaxHabitsCreated(u, habits)
  {
    |ActiveOf(habits, u.id)| >= u.habitLimit
  }

  /** Soft-deleted habits do not count: soft-deleting a habit never makes the
      quota reached, and soft-deleting one of the user's active habits when the
      user sits exactly at the quota frees a slot. */
  lemma SoftDeleteNeverBlocks(u: User, habits: seq<Habit>, id: HabitId, now: Instant)
    requires UniqueIds(habits)
    ensures MaxHabitsCreated(u, SoftDeleteIn(habits, id, now)) ==> MaxHabitsCreated(u, habits)
    ensures HoldsActive(habits, id, u.id) && |ActiveOf(habits, u.id)| == u.habitLimit ==>
      MaxHabitsCreated(u, habits) && !MaxHabitsCreated(u, SoftDeleteIn(habits, id, now))
  {
    SoftDeleteCount(habits, id, now, u.id);
  }

  /** Adding a habit row never makes the quota unreached, and adding an active
      habit of the user one below the quota makes it reached. */
  lemma InsertNeverUnblocks(u: User, habits: seq<Habit>, h: Habit)
    ensures MaxHabitsCreated(u, habits) ==> MaxHabitsCreated(u, habits + [h])
    ensures h.owner == u.id && !h.deleted && |ActiveOf(habits, u.id)| + 1 == u.habitLimit ==>
      !MaxHabitsCreated(u, habits) && MaxHabitsCreated(u, habits + [h])
  {
    ActiveOfAppend(habits, h, u.id);
  }

  /** With two active habits, the quota check is false under the default
      quota of 5 and true under a quota of 2: the opposite of both assertions
      in the account model test for `max_habits_created`, which never runs
      because its name lacks the `test_` prefix. */
  lemma QuotaTestDisagrees(id: UserId, habits: seq<Habit>)
    requires |ActiveOf(habits, id)| == 2
    ensures !MaxHabitsCreated(NewUser(id), habits)
    ensures MaxHabitsCreated(User(id, 2), habits)
  {
  }

  // ---------------------------------------------------------------------------
  // Signup codes
  // ---------------------------------------------------------------------------

  /** The length `generate_code` is called with. */
  const CodeLength: nat := 12

  /** The `n` consecutive characters from `first`. */
  function Span(first: char, n: nat): string
    requires first as int + n <= 128
  {
    seq(n, i requires 0 <= i < n => (first as int + i) as char)
  }

  /** `string.ascii_letters + string.digits`: a-z, A-Z, 0-9, in that order. */
  const CodeAlphabet: string := Span('a', 26) + Span('A', 26) + Span('0', 10)

  predicate IsAsciiAlnum(c: char)
  {
    'a' <= c <= 'z' || 'A' <= c <= 'Z' || '0' <= c <= '9'
  }

  /** One draw of `random.choices` over the alphabet: a position in it. */
  type Pick = p: nat | p < 62

  lemma AlphabetFacts()
    ensures |CodeAlphabet| == 62
    ensures forall i :: 0 <= i < |CodeAlphabet| ==> IsAsciiAlnum(CodeAlphabet[i])
  {
  }

  /** The string `random.choices` yields for the given draws. */
  function Choices(picks: seq<Pick>): (s: string)
    ensures |s| == |picks|
    ensures forall c :: c in s ==> IsAsciiAlnum(c)
  {
    AlphabetFacts();
    seq(|picks|, i requires 0 <= i < |picks| => CodeAlphabet[picks[i]])
  }

  /** The `i`-th attempt of `generate_code` when the random generator yields
      `stream`: each attempt takes the next 12 draws. */
  function Candidate(stream: seq<Pick>, i: nat): string
    requires (i + 1) * CodeLength <= |stream|
  {
    Choices(stream[i * CodeLength .. (i + 1) * CodeLength])
  }

  /** A row of the signup-code table. `code` is nullable; `None` is NULL. */
  datatype SignUpCode = SignUpCode(id: CodeId, code: Option<string>)

  /** Python's `not self.code`: NULL or the empty string. */
  predicate IsBlank(code: Option<string>)
  {
    code == None || code == Some("")
  }

  /** The table's constraints: unique keys, and unique codes among the non-NULL ones. */
  ghost predicate ValidCodes(records: seq<SignUpCode>)
  {
    forall i, j :: 0 <= i < j < |records| ==>
      records[i].id != records[j].id && (records[i].code.Some? ==> records[i].code != records[j].code)
  }

  predicate HasId(records: seq<SignUpCode>, id: CodeId)
  {
    exists i :: 0 <= i < |records| && records[i].id == id
  }

  /** Saving `rec` would break a unique constraint (the database's IntegrityError):
      an insert whose key is taken, or a non-NULL code held by another row. */
  predicate Violates(records: seq<SignUpCode>, rec: SignUpCode, adding: bool)
  {
    || (adding && HasId(records, rec.id))
    || (rec.code.Some? && exists i :: 0 <= i < |records| && records[i].id != rec.id && records[i].code == rec.code)
  }

  /** The write `Model.save` performs: an insert when adding; otherwise an
      update of the row with the same key, or an insert when there is none. */
  function Persisted(records: seq<SignUpCode>, rec: SignUpCode, adding: bool): seq<SignUpCode>
  {
    if !adding && HasId(records, rec.id) then
      seq(|records|, i requires 0 <= i < |records| => if records[i].id == rec.id then rec else records[i])
    else
      records + [rec]
  }

  /** A write that breaks no constraint keeps the table's constraints. */
  lemma PersistedValid(records: seq<SignUpCode>, rec: SignUpCode, adding: bool)
    requires ValidCodes(records) && !Violates(records, rec, adding)
    ensures ValidCodes(Persisted(records, rec, adding))
  {
    var r := Persisted(records, rec, adding);
    if !adding && HasId(records, rec.id) {
      forall i, j | 0 <= i < j < |r|
        ensures r[i].id != r[j].id && (r[i].code.Some? ==> r[i].code != r[j].code)
      {
        if records[i].id == rec.id {
          assert records[j].id != rec.id;
        } else if records[j].id == rec.id {
          assert records[i].id != rec.id;
        }
      }
    } else {
      forall i, j | 0 <= i < j < |r|
        ensures r[i].id != r[j].id && (r[i].code.Some? ==> r[i].code != r[j].code)
      {
        if j == |records| {
          assert r[i] == records[i] && r[j] == rec;
        }
      }
    }
  }

  datatype SaveError = NoFreshCode | IntegrityError

  /** What `SignUpCode.objects.get(code=code)` finds: no row (DoesNotExist),
      exactly one row, or several (MultipleObjectsReturned, possible only for
      the NULL code, which the unique constraint does not cover). */
  datatype CodeLookup = NoCode | OneCode(index: nat) | ManyCodes

  function GetByCode(records: seq<SignUpCode>, code: Option<string>): (r: CodeLookup)
    ensures r == NoCode <==> forall i :: 0 <= i < |records| ==> records[i].code != code
    ensures r.OneCode? ==>
      && r.index < |records| && records[r.index].code == code
      && forall i :: 0 <= i < |records| && i != r.index ==> records[i].code != code
    ensures r == ManyCodes ==>
      exists i, j :: 0 <= i < j < |records| && records[i].code == code && records[j].code == code
  {
    if records == [] then NoCode
    else
      match GetByCode(records[1..], code)
      case NoCode => if records[0].code == code then OneCode(0) else NoCode
      case OneCode(k) => if records[0].code == code then ManyCodes else OneCode(k + 1)
      case ManyCodes => ManyCodes
  }

  /** A non-NULL code in a table that keeps its constraints is never found twice. */
  lemma ValidCodesFoundOnce(records: seq<SignUpCode>, code: string)
    ensures ValidCodes(records) ==> GetByCode(records, Some(code)) != ManyCodes
  {
  }

  /** The signup-code table. */
  class CodeStore {
    var records: seq<SignUpCode>

    ghost predicate Valid()
      reads this
    {
      ValidCodes(records)
    }

    constructor ()
      ensures Valid() && records == []
    {
      records := [];
    }

    /** `SignUpCode.objects.filter(code=code).exists()`. It holds exactly when
        `get(code=code)` would find a row; in a table that keeps its
        constraints, exactly one. */
    predicate Taken(code: string)
      reads this
      ensures Taken(code) <==> GetByCode(records, Some(code)) != NoCode
      ensures Valid() && Taken(code) ==> GetByCode(records, Some(code)).OneCode?
    {
      ValidCodesFoundOnce(records, code);
      exists i :: 0 <= i < |records| && records[i].code == Some(code)
    }

    /** `generate_code`: draw 12 characters at a time until the code is held by
        no row. The result is the first attempt that is free, and it is 12 ASCII
        letters and digits. The source retries for ever; here the attempts end
        with the random stream, and `None` says that every attempt was taken. */
    method GenerateCode(stream: seq<Pick>) returns (r: Option<string>)
      ensures r.Some? ==>
        && |r.value| == CodeLength
        && (forall c :: c in r.value ==> IsAsciiAlnum(c))
        && !Taken(r.value)
        && exists i: nat :: (i + 1) * CodeLength <= |stream| && r.value == Candidate(stream, i)
             && forall j :: 0 <= j < i ==> Taken(Candidate(stream, j))
      ensures r.None? ==> forall i: nat :: (i + 1) * CodeLength <= |stream| ==> Taken(Candidate(stream, i))
    {
      var i := 0;
      while (i + 1) * CodeLength <= |stream|
        invariant i * CodeLength <= |stream|
        invariant forall j :: 0 <= j < i ==> Taken(Candidate(stream, j))
        decreases |stream| - i * CodeLength
      {
        var code := Candidate(stream, i);
        if !Taken(code) {
          return Some(code);
        }
        i := i + 1;
      }
      r := None;
    }

    /** `SignUpCode.save`: when adding a row whose code is blank, a fresh code
        is generated first; in every other case the code is written as given,
        never replaced. The write then fails if it breaks a unique constraint. */
    method Save(rec: SignUpCode, adding: bool, stream: seq<Pick>) returns (r: Result<SignUpCode, SaveError>)
      requires Valid()
      modifies this
      ensures Valid()
      ensures r.Success? ==> records == Persisted(old(records), r.value, adding)
      ensures r.Failure? ==> records == old(records)
      ensures !(adding && IsBlank(rec.code)) ==>
        r == if Violates(old(records), rec, adding) then Failure(IntegrityError) else Success(rec)
      ensures adding && IsBlank(rec.code) && r.Success? ==>
        && r.value.id == rec.id && r.value.code.Some?
        && |r.value.code.value| == CodeLength
        && (forall c :: c in r.value.code.value ==> IsAsciiAlnum(c))
        && !old(Taken(r.value.code.value))
      ensures adding && IsBlank(rec.code) ==>
        (r == Failure(NoFreshCode) <==> forall i: nat :: (i + 1) * CodeLength <= |stream| ==> old(Taken(Candidate(stream, i))))
    ensures adding && IsBlank(rec.code) && r != Failure(NoFreshCode) ==>
      (r.Success? <==> !HasId(old(records), rec.id))
    {
      var toSave := rec;
      if adding && IsBlank(rec.code) {
        var code := GenerateCode(stream);
        if code.None? {
          return Failure(NoFreshCode);
        }
        toSave := rec.(code := code);
      }
      if Violates(records, toSave, adding) {
        return Failure(IntegrityError);
      }
      PersistedValid(records, toSave, adding);
      records := Persisted(records, toSave, adding);
      r := Success(toSave);
    }

    /** `delete()` on the row at position `k`. */
    method Delete(k: nat)
      requires Valid() && k < |records|
      modifies this
      ensures Valid()
      ensures records == RemoveAt(old(records), k)
    {
      RemoveAtValid(records, k);
      records := RemoveAt(records, k);
    }
  }

  /** Deleting a row keeps the table's constraints. */
  lemma RemoveAtValid(records: seq<SignUpCode>, k: nat)
    requires ValidCodes(records) && k < |records|
    ensures ValidCodes(RemoveAt(records, k))
  {
    var r := RemoveAt(records, k);
    forall i, j | 0 <= i < j < |r|
      ensures r[i].id != r[j].id && (r[i].code.Some? ==> r[i].code != r[j].code)
    {
      var i' := if i < k then i else i + 1;
      var j' := if j < k then j else j + 1;
      assert r[i] == records[i'] && r[j] == records[j'];
    }
  }
}
