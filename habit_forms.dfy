/** The habit-creation form (habits/forms.py, `CreateHabitForm`) with the
    duration column's choices and bounds from the habit migrations. The form
    has exactly two fields, `name` and `duration`, which is all `HabitInput`
    carries. */
module HabitForms {
  import opened Base

  /** The allowed durations, in days, in the order the form lists them. */
  const DurationChoices: seq<int> := [7, 14, 30, 60, 120, 365]

  /** The bounds of the column's minimum and maximum validators. */
  const MinDuration: int := 7
  const MaxDuration: int := 365

  /** The duration an unbound form starts with. */
  const InitialDuration: int := 60

  /** The name column's `max_length`. */
  const NameMaxLength: nat := 50

  /** The submitted data: the name as typed (empty when missing) and the
      duration, absent when none was chosen. */
  datatype HabitInput = HabitInput(name: string, duration: Option<int>)

  /** `cleaned_data` of a valid form. */
  datatype CleanedHabit = CleanedHabit(name: string, duration: int)

  /** The null character, which every form `CharField` prohibits. */
  const NullChar: char := '\0'

  datatype NameError = NameRequired | NameTooLong | NullCharacter
  datatype DurationError = DurationRequired | InvalidChoice | BelowMinimum | AboveMaximum

  /** The form's errors. The name field's validators all run once the name is
      present, so it can collect several errors, in the validators' order; the
      duration field stops at its first error. */
  datatype FormErrors = FormErrors(name: seq<NameError>, duration: Option<DurationError>)

  // ---------------------------------------------------------------------------
  // Whitespace stripping (the `strip=True` default of a form `CharField`)
  // ---------------------------------------------------------------------------

  /** Python's `str.isspace` for one character: the ASCII controls 9..13 and
      28..31, the space, and the Unicode spaces and separators. */
  predicate IsWhitespace(c: char)
  {
    var n := c as int;
    || 9 <= n <= 13 || 28 <= n <= 32 || n == 0x85 || n == 0xA0 || n == 0x1680
    || 0x2000 <= n <= 0x200A || n == 0x2028 || n == 0x2029 || n == 0x202F
    || n == 0x205F || n == 0x3000
  }

  /** The length of the run of whitespace that starts `s`. */
  function LeadingSpace(s: string): (n: nat)
    ensures n <= |s|
    ensures forall k :: 0 <= k < n ==> IsWhitespace(s[k])
    ensures n < |s| ==> !IsWhitespace(s[n])
  {
    if s == [] || !IsWhitespace(s[0]) then 0 else 1 + LeadingSpace(s[1..])
  }

  /** The length of the run of whitespace that ends `s`. */
  function TrailingSpace(s: string): (n: nat)
    ensures n <= |s|
    ensures forall k :: |s| - n <= k < |s| ==> IsWhitespace(s[k])
    ensures n < |s| ==> !IsWhitespace(s[|s| - n - 1])
  {
    if s == [] || !IsWhitespace(s[|s| - 1]) then 0 else 1 + TrailingSpace(s[..|s| - 1])
  }

  /** `str.strip()`: the part of `s` left after removing only whitespace from
      both ends; it neither starts nor ends with whitespace. */
  function Strip(s: string): (r: string)
    ensures exists i, j ::
      && 0 <= i <= j <= |s| && r == s[i..j]
      && (forall k :: 0 <= k < i ==> IsWhitespace(s[k]))
      && (forall k :: j <= k < |s| ==> IsWhitespace(s[k]))
    ensures r != [] ==> !IsWhitespace(r[0]) && !IsWhitespace(r[|r| - 1])
  {
    var a := LeadingSpace(s);
    var t := s[a..];
    var b := TrailingSpace(t);
    assert s[a..a + (|t| - b)] == t[..|t| - b];
    t[..|t| - b]
  }

  /** Stripping leaves nothing exactly when the string is all whitespace. */
  lemma StripBlank(s: string)
    ensures Strip(s) == [] <==> forall k :: 0 <= k < |s| ==> IsWhitespace(s[k])
  {
    var r := Strip(s);
    var i, j :| 0 <= i <= j <= |s| && r == s[i..j]
      && (forall k :: 0 <= k < i ==> IsWhitespace(s[k]))
      && (forall k :: j <= k < |s| ==> IsWhitespace(s[k]));
    if r != [] {
      assert r[0] == s[i];
    }
  }

  /** Neither starts nor ends with whitespace. */
  predicate Trimmed(s: string)
  {
    s == [] || (!IsWhitespace(s[0]) && !IsWhitespace(s[|s| - 1]))
  }

  /** A string that neither starts nor ends with whitespace is its own strip,
      so stripping twice is stripping once. */
  lemma StripTrimmed(s: string)
    requires Trimmed(s)
    ensures Strip(s) == s
    ensures Strip(Strip(s)) == Strip(s)
  {
    var r := Strip(s);
    var i, j :| 0 <= i <= j <= |s| && r == s[i..j]
      && (forall k :: 0 <= k < i ==> IsWhitespace(s[k]))
      && (forall k :: j <= k < |s| ==> IsWhitespace(s[k]));
    if s != [] {
      assert i == 0;
      assert j == |s|;
    }
  }

  // ---------------------------------------------------------------------------
  // Validation
  // ---------------------------------------------------------------------------

  /** The name field, on the stripped name: required; then its validators,
      at most 50 characters and no null character, each adding its error. */
  function CheckName(name: string): seq<NameError>
  {
    if name == "" then [NameRequired]
    else
      (if |name| > NameMaxLength then [NameTooLong] else [])
      + (if NullChar in name then [NullCharacter] else [])
  }

  /** The name the form accepts, once stripped. */
  predicate NameAccepted(name: string)
  {
    0 < |name| <= NameMaxLength && NullChar !in name
  }

  /** The duration field: required, one of the choices, then the column's
      minimum and maximum validators. */
  function CheckDuration(duration: Option<int>): Option<DurationError>
  {
    match duration
    case None => Some(DurationRequired)
    case Some(d) =>
      if d !in DurationChoices then Some(InvalidChoice)
      else if d < MinDuration then Some(BelowMinimum)
      else if d > MaxDuration then Some(AboveMaximum)
      else None
  }

  /** `form.is_valid()` and `cleaned_data`. The name field first strips
      surrounding whitespace. The form is valid exactly when the stripped name
      is non-empty, at most 50 characters long and free of null characters,
      and the duration is present and one of the choices. The cleaned data is
      then the stripped name and the duration. An invalid form reports each
      reason its name fails, and an error on the duration exactly when the
      duration fails. */
  function Validate(input: HabitInput): (r: Result<CleanedHabit, FormErrors>)
    ensures r.Success? <==>
      && NameAccepted(Strip(input.name))
      && input.duration.Some? && input.duration.value in DurationChoices
    ensures r.Success? ==>
      r.value.name == Strip(input.name) && Some(r.value.duration) == input.duration
      && MinDuration <= r.value.duration <= MaxDuration
    ensures r.Failure? ==>
      && (r.error.name != [] <==> !NameAccepted(Strip(input.name)))
      && (NameRequired in r.error.name <==> Strip(input.name) == "")
      && (NameTooLong in r.error.name <==> |Strip(input.name)| > NameMaxLength)
      && (NullCharacter in r.error.name <==> NullChar in Strip(input.name))
      && (r.error.duration.Some? <==> !(input.duration.Some? && input.duration.value in DurationChoices))
  {
    ChoicesWithinBounds();
    var name := Strip(input.name);
    var nameErrors, durationError := CheckName(name), CheckDuration(input.duration);
    if nameErrors == [] && durationError == None then
      Success(CleanedHabit(name, input.duration.value))
    else
      Failure(FormErrors(nameErrors, durationError))
  }

  /** Every choice lies within the validators' bounds, so the bounds never
      reject a duration the choice check accepted. */
  lemma ChoicesWithinBounds()
    ensures forall d :: d in DurationChoices ==> MinDuration <= d <= MaxDuration
  {
  }

  /** The validators' bounds never show up among the form's errors. */
  lemma BoundsNeverReported(input: HabitInput)
    ensures Validate(input).Failure? ==>
      Validate(input).error.duration !in {Some(BelowMinimum), Some(AboveMaximum)}
  {
    ChoicesWithinBounds();
  }

  /** The initial duration is one of the choices. */
  lemma InitialDurationIsAChoice()
    ensures InitialDuration in DurationChoices
    ensures MinDuration <= InitialDuration <= MaxDuration
  {
  }

  /** A name of only whitespace is reported as missing, and only as missing,
      whatever the duration. */
  lemma BlankNameRequired(input: HabitInput)
    requires forall k :: 0 <= k < |input.name| ==> IsWhitespace(input.name[k])
    ensures Validate(input).Failure?
    ensures Validate(input).error.name == [NameRequired]
  {
    StripBlank(input.name);
  }

  /** Stripping removes whitespace only: every other character of the input
      is still in the stripped name. */
  lemma StripKeepsNonSpace(s: string, k: nat)
    requires k < |s| && !IsWhitespace(s[k])
    ensures s[k] in Strip(s)
  {
    var r := Strip(s);
    var i, j :| 0 <= i <= j <= |s| && r == s[i..j]
      && (forall k :: 0 <= k < i ==> IsWhitespace(s[k]))
      && (forall k :: j <= k < |s| ==> IsWhitespace(s[k]));
    assert r[k - i] == s[k];
  }

  /** A name holding a null character anywhere is rejected with the
      null-character error, whatever else it holds. */
  lemma NullCharacterRejected(input: HabitInput)
    requires NullChar in input.name
    ensures Validate(input).Failure?
    ensures NullCharacter in Validate(input).error.name
  {
    var k :| 0 <= k < |input.name| && input.name[k] == NullChar;
    StripKeepsNonSpace(input.name, k);
  }

  /** What a valid form can clean to: a trimmed, accepted name and one of
      the duration choices. */
  predicate Clean(c: CleanedHabit)
  {
    Trimmed(c.name) && NameAccepted(c.name) && c.duration in DurationChoices
  }


  /** Posting clean data again validates to the same data, so cleaning is
      idempotent: `Validate` of a form rebuilt from its own cleaned data
      gives that data back. */
  lemma CleanedRevalidates(c: CleanedHabit)
    requires Clean(c)
    ensures Validate(HabitInput(c.name, Some(c.duration))) == Success(c)
  {
    StripTrimmed(c.name);
  }

  /** Every valid form cleans to clean data, and re-posting that data gives
      the same result: cleaning twice is cleaning once. */
  lemma CleaningIdempotent(input: HabitInput)
    requires Validate(input).Success?
    ensures Clean(Validate(input).value)
    ensures var c := Validate(input).value; Validate(HabitInput(c.name, Some(c.duration))) == Validate(input)
  {
    CleanedRevalidates(Validate(input).value);
  }

  /** The form test's data validates and is cleaned unchanged. */
  lemma TestHabitValidates()
    ensures Validate(HabitInput("A Test Habit", Some(30))) == Success(CleanedHabit("A Test Habit", 30))
  {
    var c := CleanedHabit("A Test Habit", 30);
    assert forall k :: 0 <= k < |c.name| ==> c.name[k] != NullChar;
    CleanedRevalidates(c);
  }
}
