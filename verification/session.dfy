/** A browsing session as a sequence of user events. The page only offers Edit
    and Delete buttons on rendered rows, so every index a handler receives
    comes from the current table. */
module Session {
  import opened Results
  import opened Validation
  import opened Register
  import Text
  import Patterns

  /** What the user can do: type into the form, press submit, or click a
      row's Edit or Delete button (with the answer given to the prompt). */
  datatype Event =
    | TypeInto(form: Form)
    | SubmitForm
    | ClickEdit(row: int)
    | ClickDelete(row: int, confirmed: bool)

  /** The state every reachable page is in: the table shows the list, and the
      storage key, once written, holds the list; before that the list is empty. */
  predicate Coherent(p: Page) {
    && p.table == Render(p.students)
    && match p.snapshot
       case None => p.students == []
       case Some(saved) => saved == p.students
  }

  /** Every row of a coherent page hands its buttons an index inside the list. */
  lemma RenderedIndicesInRange(p: Page, k: int)
    requires Coherent(p) && 0 <= k < |p.table|
    ensures 0 <= p.table[k].onEdit < |p.students| && 0 <= p.table[k].onDelete < |p.students|
    ensures p.students[p.table[k].onEdit] == Shown(p.table[k])
    ensures p.students[p.table[k].onDelete] == Shown(p.table[k])
  {
  }

  /** One event. A click on a row that is not displayed does nothing. */
  function Step(p: Page, e: Event): (p': Page)
    requires Coherent(p)
    ensures Coherent(p')
  {
    match e
    case TypeInto(f) => p.(form := f)
    case SubmitForm => Submit(p)
    case ClickEdit(k) =>
      if 0 <= k < |p.table| then Edit(p, p.table[k].onEdit) else p
    case ClickDelete(k, c) =>
      if 0 <= k < |p.table| then Delete(p, p.table[k].onDelete, c) else p
  }

  /** A whole session of events from a coherent page. */
  function Run(p: Page, events: seq<Event>): (p': Page)
    requires Coherent(p)
    ensures Coherent(p')
    decreases |events|
  {
    if events == [] then p else Run(Step(p, events[0]), events[1..])
  }

  /** Reloading the page at any point of a session brings back the same list
      and the same table. */
  lemma ReloadRestores(saved: Option<seq<Student>>, initial: Form, events: seq<Event>, reloaded: Form)
    ensures var p := Run(Load(saved, initial), events);
            Load(p.snapshot, reloaded).students == p.students && Load(p.snapshot, reloaded).table == p.table
  {
  }

  /** Each event keeps every record valid when every record already was. */
  lemma {:induction false} RunKeepsRecordsValid(p: Page, events: seq<Event>)
    requires Coherent(p) && AllValid(p.students)
    ensures AllValid(Run(p, events).students)
    decreases |events|
  {
    if events != [] {
      var q := Step(p, events[0]);
      match events[0] {
        case TypeInto(_) =>
        case SubmitForm => HandlersKeepRecordsValid(p, 0, false);
        case ClickEdit(k) =>
          if 0 <= k < |p.table| { HandlersKeepRecordsValid(p, p.table[k].onEdit, false); }
        case ClickDelete(k, c) =>
          if 0 <= k < |p.table| { HandlersKeepRecordsValid(p, p.table[k].onDelete, c); }
      }
      RunKeepsRecordsValid(q, events[1..]);
    }
  }

  /** A session that starts from an empty storage key only ever holds records
      that passed validation. */
  lemma FreshSessionRecordsValid(initial: Form, events: seq<Event>)
    ensures AllValid(Run(Load(None, initial), events).students)
  {
    RunKeepsRecordsValid(Load(None, initial), events);
  }

  const Ann := Form("Ann Lee", "101", "a@b.com", "5551234")
  const AnnRecord := Student("Ann Lee", "101", "a@b.com", "5551234")

  /** The sample form is valid and yields its own values as the record. */
  lemma AnnIsValid()
    ensures Validate(Ann) == Ok(AnnRecord)
  {
    assert Patterns.Splits(AnnRecord.email, 1, 3);
    Patterns.EmailPatternIsShape(AnnRecord.email);
    assert Text.IsTrimmed(AnnRecord.name);
    ResubmitValid(AnnRecord);
  }

  /** A digit in the name is rejected as an invalid name. */
  lemma DigitInNameRejected()
    ensures Validate(Ann.(name := "A1")) == Err(InvalidName)
  {
    Text.TrimOfTrimmed("A1");
    assert !Text.IsAsciiLetter('1');
    assert !Patterns.MatchesName("A1");
  }

  /** A run is its first step followed by the rest. */
  lemma RunFirst(p: Page, e: Event, rest: seq<Event>)
    requires Coherent(p)
    ensures Run(p, [e] + rest) == Run(Step(p, e), rest)
  {
    assert ([e] + rest)[1..] == rest;
  }

  /** A worked session on an empty store: a valid submit adds one row showing
      the record; editing it empties the list and fills the form with its
      values; resubmitting puts the same record back. */
  lemma AnnLeeSession(initial: Form)
    ensures var p1 := Run(Load(None, initial), [TypeInto(Ann), SubmitForm]);
            && p1.students == [AnnRecord]
            && Shown(p1.table[0]) == AnnRecord
    ensures var p2 := Run(Load(None, initial), [TypeInto(Ann), SubmitForm, ClickEdit(0)]);
            p2.students == [] && p2.form == Ann
    ensures var p3 := Run(Load(None, initial), [TypeInto(Ann), SubmitForm, ClickEdit(0), SubmitForm]);
            p3.students == [AnnRecord]
  {
    AnnIsValid();
    var p0 := Load(None, initial);
    var q := Step(p0, TypeInto(Ann));
    var p1 := Step(q, SubmitForm);
    assert p1.students == [AnnRecord];
    var p2 := Step(p1, ClickEdit(0));
    assert p2.students == [] && p2.form == Ann;
    var p3 := Step(p2, SubmitForm);
    assert p3.students == [AnnRecord];
    RunFirst(p2, SubmitForm, []);
    RunFirst(p1, ClickEdit(0), []);
    RunFirst(p1, ClickEdit(0), [SubmitForm]);
    RunFirst(q, SubmitForm, []);
    RunFirst(q, SubmitForm, [ClickEdit(0)]);
    RunFirst(q, SubmitForm, [ClickEdit(0), SubmitForm]);
    RunFirst(p0, TypeInto(Ann), [SubmitForm]);
    RunFirst(p0, TypeInto(Ann), [SubmitForm, ClickEdit(0)]);
    RunFirst(p0, TypeInto(Ann), [SubmitForm, ClickEdit(0), SubmitForm]);
  }
}
