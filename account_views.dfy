/** The signup handler's own step (accounts/views.py, `CustomSignupView.form_valid`):
    before the account is created, the submitted signup code must match a row
    of the code table, and that row is deleted so that the code serves once. */
module AccountViews {
  import opened Base
  import opened AccountModels

  const SignupCodeField: string := "signup_code"
  const InvalidCodeMessage: string := "This code is not valid."

  /** One entry of a form's error list. */
  datatype FieldError = FieldError(field: string, message: string)

  /** The signup form as `form_valid` sees it: the cleaned code (absent when
      the cleaned data has none) and the form's error list. */
  class SignupForm {
    var signupCode: Option<string>
    var errors: seq<FieldError>

    constructor (code: Option<string>)
      ensures signupCode == code && errors == []
    {
      signupCode := code;
      errors := [];
    }
  }

  /** How `form_valid` ends: the account-creation step runs, the form is shown
      again with its errors, or an uncaught error escapes. */
  datatype SignupOutcome = ProceedWithSignup | FormInvalid | ServerError

  /** Once its row is deleted, a code finds nothing: the code serves once.
      Every other row is kept. */
  lemma {:induction false} ConsumedCodeIsGone(records: seq<SignUpCode>, code: Option<string>, k: nat)
    requires GetByCode(records, code) == OneCode(k)
    ensures GetByCode(RemoveAt(records, k), code) == NoCode
    ensures forall j :: 0 <= j < |records| && j != k ==> records[j] in RemoveAt(records, k)
  {
    RemoveAtContents(records, k);
    var rest := RemoveAt(records, k);
    forall i | 0 <= i < |rest| ensures rest[i].code != code {
      if i < k {
        assert rest[i] == records[i];
      } else {
        assert rest[i] == records[i + 1];
      }
    }
  }

  /** `form_valid`. A code held by exactly one row: that row, and only it, is
      deleted, and only then does the account-creation step run. No such row:
      the table is untouched, the form gets a `signup_code` error (which also
      drops the field from the cleaned data), and the form is shown again.
      Several rows, possible only when no code was submitted: the lookup's
      error escapes and nothing changes. */
  method FormValid(codes: CodeStore, form: SignupForm) returns (r: SignupOutcome)
    requires codes.Valid()
    modifies codes, form
    ensures codes.Valid()
    ensures GetByCode(old(codes.records), old(form.signupCode)).OneCode? ==>
      && r == ProceedWithSignup
      && codes.records == RemoveAt(old(codes.records), GetByCode(old(codes.records), old(form.signupCode)).index)
      && form.signupCode == old(form.signupCode)
      && form.errors == old(form.errors)
    ensures GetByCode(old(codes.records), old(form.signupCode)) == NoCode ==>
      && r == FormInvalid
      && codes.records == old(codes.records)
      && form.signupCode == None
      && form.errors == old(form.errors) + [FieldError(SignupCodeField, InvalidCodeMessage)]
    ensures GetByCode(old(codes.records), old(form.signupCode)) == ManyCodes ==>
      && r == ServerError && codes.records == old(codes.records)
      && form.signupCode == old(form.signupCode) && form.errors == old(form.errors)
    ensures old(form.signupCode).Some? ==> r != ServerError
    ensures r == ProceedWithSignup ==> GetByCode(codes.records, form.signupCode) == NoCode
  {
    var code := form.signupCode;
    if code.Some? {
      ValidCodesFoundOnce(codes.records, code.value);
    }
    match GetByCode(codes.records, code)
    case OneCode(k) =>
      ConsumedCodeIsGone(codes.records, code, k);
      codes.Delete(k);
      r := ProceedWithSignup;
    case NoCode =>
      form.errors := form.errors + [FieldError(SignupCodeField, InvalidCodeMessage)];
      form.signupCode := None;
      r := FormInvalid;
    case ManyCodes =>
      r := ServerError;
  }

  /** A code made by the generator for a new row admits one signup; the same
      code submitted again is rejected with the field error. */
  method SingleUseExample() returns (first: SignupOutcome, second: SignupOutcome, errors: seq<FieldError>)
    ensures first == ProceedWithSignup
    ensures second == FormInvalid
    ensures errors == [FieldError(SignupCodeField, InvalidCodeMessage)]
  {
    var codes := new CodeStore();
    var stream: seq<Pick> := seq(CodeLength, _ => 0);
    assert !codes.Taken(Candidate(stream, 0));
    var saved := codes.Save(SignUpCode(0, None), true, stream);
    var form := new SignupForm(saved.value.code);
    first := FormValid(codes, form);
    var again := new SignupForm(saved.value.code);
    second := FormValid(codes, again);
    errors := again.errors;
  }
}
