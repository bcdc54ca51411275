/** The submit handler's trim-then-check sequence: five checks in a fixed order,
    the first one that fails decides the error, and only a form that passes all
    five yields a student record. */
module Validation {
  import opened Results
  import opened Text
  import opened Patterns

  /** One stored record; the object literal `{ name, id, email, contact }`. */
  datatype Student = Student(name: string, id: string, email: string, contact: string)

  /** The raw values of the four form inputs. */
  datatype Form = Form(name: string, id: string, email: string, contact: string)

  /** The five alerts of the submit handler, in the order their checks run. */
  datatype ValidationError = MissingField | InvalidName | InvalidId | InvalidContact | InvalidEmail

  /** Every input with its surrounding whitespace removed. */
  function TrimForm(f: Form): (t: Form)
    ensures IsTrimmed(t.name) && IsTrimmed(t.id) && IsTrimmed(t.email) && IsTrimmed(t.contact)
  {
    Form(Trim(f.name), Trim(f.id), Trim(f.email), Trim(f.contact))
  }

  /** The inputs a stored record puts back into the form when it is edited. */
  function FormOf(s: Student): Form {
    Form(s.name, s.id, s.email, s.contact)
  }

  /** The submit handler's checks, run on the raw form. */
  function Validate(f: Form): (r: Result<Student, ValidationError>)
    ensures r.Ok? ==> r.value == Student(Trim(f.name), Trim(f.id), Trim(f.email), Trim(f.contact))
    ensures r.Ok? ==> ValidRecord(r.value)
  {
    var t := TrimForm(f);
    if t.name == [] || t.id == [] || t.email == [] || t.contact == [] then
      Err(MissingField)
    else if !MatchesName(t.name) then
      Err(InvalidName)
    else if !MatchesDigits(t.id) then
      Err(InvalidId)
    else if !MatchesDigits(t.contact) then
      Err(InvalidContact)
    else if !MatchesEmail(t.email) then
      Err(InvalidEmail)
    else
      EmailPatternIsShape(t.email);
      Ok(Student(t.name, t.id, t.email, t.contact))
  }

  /** The records a successful submit can produce: every field trimmed and of
      the required form, with the email described by its shape. */
  predicate ValidRecord(s: Student) {
    && IsTrimmed(s.name) && MatchesName(s.name)
    && MatchesDigits(s.id)
    && MatchesDigits(s.contact)
    && EmailShape(s.email)
  }

  /** Position of each check in the handler's sequence. */
  function Rank(e: ValidationError): nat {
    match e
    case MissingField => 0
    case InvalidName => 1
    case InvalidId => 2
    case InvalidContact => 3
    case InvalidEmail => 4
  }

  /** Whether the trimmed inputs `t` pass the check whose failure reports `e`,
      each check read on its own. */
  predicate Passes(t: Form, e: ValidationError) {
    match e
    case MissingField => t.name != [] && t.id != [] && t.email != [] && t.contact != []
    case InvalidName => forall k :: 0 <= k < |t.name| ==> IsAsciiLetter(t.name[k]) || t.name[k] == ' '
    case InvalidId => forall k :: 0 <= k < |t.id| ==> IsDigit(t.id[k])
    case InvalidContact => forall k :: 0 <= k < |t.contact| ==> IsDigit(t.contact[k])
    case InvalidEmail => EmailShape(t.email)
  }

  /** `e` is the first check, in handler order, that `t` fails. */
  predicate FirstFailure(t: Form, e: ValidationError) {
    !Passes(t, e) && forall e' :: Rank(e') < Rank(e) ==> Passes(t, e')
  }

  /** Validation reports the first failing check and succeeds exactly when no
      check fails: the ordering of the handler, independent of how each check
      is written. */
  lemma ValidateReportsFirstFailure(f: Form)
    ensures Validate(f).Err? ==> FirstFailure(TrimForm(f), Validate(f).error)
    ensures Validate(f).Ok? <==> forall e :: Passes(TrimForm(f), e)
  {
    var t := TrimForm(f);
    EmailPatternIsShape(t.email);
    forall e' ensures Passes(t, e') <==> PassesCheck(t, e') {
      PassesAgrees(t, e');
    }
  }

  /** The handler's own test for each check, given that the empty-field check
      has already run. */
  predicate PassesCheck(t: Form, e: ValidationError) {
    match e
    case MissingField => t.name != [] && t.id != [] && t.email != [] && t.contact != []
    case InvalidName => t.name == [] || MatchesName(t.name)
    case InvalidId => t.id == [] || MatchesDigits(t.id)
    case InvalidContact => t.contact == [] || MatchesDigits(t.contact)
    case InvalidEmail => MatchesEmail(t.email)
  }

  lemma PassesAgrees(t: Form, e: ValidationError)
    ensures Passes(t, e) <==> PassesCheck(t, e)
  {
    EmailPatternIsShape(t.email);
  }

  /** A field that is empty after trimming is reported as missing whatever
      the other fields hold. */
  lemma EmptyFieldIsMissing(f: Form)
    requires AllWhitespace(f.name) || AllWhitespace(f.id) || AllWhitespace(f.email) || AllWhitespace(f.contact)
    ensures Validate(f) == Err(MissingField)
  {
  }

  /** The contact number is checked before the email, so a form whose fields
      are all filled in and whose name and id pass is rejected for a bad
      contact number whatever its email holds. */
  lemma ContactCheckedBeforeEmail(f: Form)
    requires MatchesName(Trim(f.name)) && MatchesDigits(Trim(f.id)) && Trim(f.email) != []
    requires Trim(f.contact) != [] && !MatchesDigits(Trim(f.contact))
    ensures Validate(f) == Err(InvalidContact)
  {
  }

  /** Putting a stored record back into the form and submitting it unchanged
      reproduces the record: the records a submit can produce are exactly the
      valid ones. */
  lemma ResubmitValid(s: Student)
    requires ValidRecord(s)
    ensures Validate(FormOf(s)) == Ok(s)
  {
    TrimOfTrimmed(s.name);
    DigitsAreTrimmed(s.id);
    DigitsAreTrimmed(s.contact);
    ShapeIsTrimmed(s.email);
    EmailPatternIsShape(s.email);
  }

  lemma DigitsAreTrimmed(s: string)
    requires MatchesDigits(s)
    ensures Trim(s) == s
  {
    assert !IsWhitespace(s[0]) && !IsWhitespace(s[|s| - 1]);
    TrimOfTrimmed(s);
  }

  lemma ShapeIsTrimmed(s: string)
    requires EmailShape(s)
    ensures Trim(s) == s
  {
    assert !IsWhitespace(s[0]) && !IsWhitespace(s[|s| - 1]);
    TrimOfTrimmed(s);
  }
}
