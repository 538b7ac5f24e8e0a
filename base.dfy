/** Vocabulary shared by the habit and account models: optional values,
    results, row identifiers, time, and two facts about sequences used as
    database tables. */
module Base {

  datatype Option<+T> = None | Some(value: T)

  datatype Result<+T, +E> = Success(value: T) | Failure(error: E)

  /** Primary keys. The application uses random UUIDs; the model only needs
      them to be comparable, so they are naturals. */
  type UserId = nat
  type HabitId = nat
  type CodeId = nat

  /** A point in time (a `DateTimeField` value), in seconds since the epoch, UTC. */
  type Instant = int

  /** A calendar day (a `DateField` value) as a day ordinal: the day after `d` is `d + 1`. */
  type Day = int

  const SecondsPerDay: nat := 86400

  /** The calendar day an instant falls on, as `datetime.date()` gives it. */
  function DayOf(t: Instant): Day
  {
    t / SecondsPerDay
  }

  /** `s` without its element at position `k`: what deleting one row does to a table. */
  function RemoveAt<T>(s: seq<T>, k: nat): seq<T>
    requires k < |s|
  {
    s[..k] + s[k + 1..]
  }

  /** Deleting one row removes exactly that row and keeps every other one. */
  lemma RemoveAtContents<T>(s: seq<T>, k: nat)
    requires k < |s|
    ensures |RemoveAt(s, k)| == |s| - 1
    ensures multiset(RemoveAt(s, k)) == multiset(s) - multiset{s[k]}
    ensures forall j :: 0 <= j < |s| && j != k ==> s[j] in RemoveAt(s, k)
  {
    assert s == s[..k] + [s[k]] + s[k + 1..];
    forall j | 0 <= j < |s| && j != k
      ensures s[j] in RemoveAt(s, k)
    {
      if j < k {
        assert RemoveAt(s, k)[j] == s[j];
      } else {
        assert RemoveAt(s, k)[j - 1] == s[j];
      }
    }
  }

  /** No two positions of `s` hold the same value. */
  ghost predicate Distinct<T>(s: seq<T>)
  {
    forall i, j :: 0 <= i < j < |s| ==> s[i] != s[j]
  }

  /** In a sequence without repetitions every value occurs at most once. */
  lemma {:induction false} DistinctCount<T>(s: seq<T>, x: T)
    requires Distinct(s)
    ensures multiset(s)[x] <= 1
  {
    if s != [] {
      assert s == [s[0]] + s[1..];
      assert Distinct(s[1..]) by {
        forall i, j | 0 <= i < j < |s[1..]|
          ensures s[1..][i] != s[1..][j]
        {
          assert s[1..][i] == s[i + 1] && s[1..][j] == s[j + 1];
        }
      }
      DistinctCount(s[1..], x);
      if s[0] == x {
        assert x !in s[1..] by {
          forall j | 0 <= j < |s[1..]|
            ensures s[1..][j] != x
          {
            assert s[1..][j] == s[j + 1];
          }
        }
      }
    }
  }

  /** Deleting a row keeps a table free of repetitions. */
  lemma DistinctRemoveAt<T>(s: seq<T>, k: nat)
    requires k < |s| && Distinct(s)
    ensures Distinct(RemoveAt(s, k))
  {
    var r := RemoveAt(s, k);
    forall i, j | 0 <= i < j < |r|
      ensures r[i] != r[j]
    {
      var i' := if i < k then i else i + 1;
      var j' := if j < k then j else j + 1;
      assert r[i] == s[i'] && r[j] == s[j'];
    }
  }

  /** Appending a value the table does not hold keeps it free of repetitions. */
  lemma DistinctAppend<T>(s: seq<T>, x: T)
    requires Distinct(s) && x !in s
    ensures Distinct(s + [x])
  {
    var r := s + [x];
    forall i, j | 0 <= i < j < |r|
      ensures r[i] != r[j]
    {
      if j < |s| {
        assert r[i] == s[i] && r[j] == s[j];
      } else {
        assert r[i] == s[i];
      }
    }
  }
}
