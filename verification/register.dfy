/** The page state of the register: the in-memory list of students, its copy in
    durable storage, the rendered table and the four form inputs, with the
    handlers that change them. Every change to the list is followed at once by
    a full overwrite of the stored copy and a full re-render of the table. */
module Register {
  import opened Results
  import opened Validation

  /** One rendered table row: the four cells and the index passed to the row's
      Edit and Delete buttons. */
  datatype Row = Row(name: string, id: string, email: string, contact: string,
                     onEdit: int, onDelete: int)

  /** `students` is the in-memory list; `snapshot` is the value under the storage
      key, `None` while the key has never been written. */
  datatype Page = Page(students: seq<Student>, snapshot: Option<seq<Student>>,
                       table: seq<Row>, form: Form)

  /** The form as a reset leaves it. */
  const EmptyForm := Form("", "", "", "")

  /** The record a row displays. */
  function Shown(row: Row): Student {
    Student(row.name, row.id, row.email, row.contact)
  }

  /** The table built by iterating over `students` with their indices: one row
      per record, in list order, showing that record and bound to its index. */
  function Render(students: seq<Student>): (rows: seq<Row>)
    ensures |rows| == |students|
    ensures forall k :: 0 <= k < |rows| ==>
              Shown(rows[k]) == students[k] && rows[k].onEdit == k && rows[k].onDelete == k
  {
    if students == [] then []
    else
      var last := |students| - 1;
      var s := students[last];
      Render(students[..last]) + [Row(s.name, s.id, s.email, s.contact, last, last)]
  }

  /** The stored copy and the table both reflect the current list. */
  predicate Synced(p: Page) {
    p.snapshot == Some(p.students) && p.table == Render(p.students)
  }

  /** Replaces the list, then overwrites the stored copy and re-renders. */
  function Commit(p: Page, students: seq<Student>): (p': Page)
    ensures Synced(p') && p'.students == students && p'.form == p.form
  {
    p.(students := students, snapshot := Some(students), table := Render(students))
  }

  /** Page start-up: the list is whatever the storage key holds, an empty list
      when the key is absent, and the table is rendered from it. The script
      does not touch the form here; `initial` is whatever the inputs hold when
      the page comes up. */
  function Load(saved: Option<seq<Student>>, initial: Form): (p: Page)
    ensures p.snapshot == saved && p.table == Render(p.students) && p.form == initial
    ensures saved.Some? ==> p.students == saved.value
    ensures saved.None? ==> p.students == []
  {
    var students := saved.GetOr([]);
    Page(students, saved, Render(students), initial)
  }

  /** `splice(i, 1)` for an index inside the list: the list without its element
      at `i`, the others in their original order. */
  function RemoveAt(s: seq<Student>, i: int): (r: seq<Student>)
    requires 0 <= i < |s|
    ensures |r| == |s| - 1
    ensures forall k :: 0 <= k < i ==> r[k] == s[k]
    ensures forall k :: i <= k < |r| ==> r[k] == s[k + 1]
    ensures multiset(r) + multiset{s[i]} == multiset(s)
  {
    assert s == s[..i] + [s[i]] + s[i + 1..];
    s[..i] + s[i + 1..]
  }

  /** The submit handler. A form that fails validation leaves the page as it
      is; otherwise the new record is appended, the stored copy and table are
      refreshed and the form is cleared. */
  function Submit(p: Page): (p': Page)
    ensures Validate(p.form).Err? ==> p' == p
    ensures Validate(p.form).Ok? ==>
              && |p'.students| == |p.students| + 1
              && p'.students[..|p.students|] == p.students
              && p'.students[|p.students|] == Validate(p.form).value
              && Synced(p')
              && p'.form == EmptyForm
  {
    match Validate(p.form)
    case Err(_) => p
    case Ok(s) => Commit(p, p.students + [s]).(form := EmptyForm)
  }

  /** `editStudent(i)`: the record at `i` goes into the form and leaves the
      list; the stored copy and table are refreshed. */
  function Edit(p: Page, i: int): (p': Page)
    requires 0 <= i < |p.students|
    ensures p'.form == FormOf(p.students[i])
    ensures p'.students == RemoveAt(p.students, i)
    ensures Synced(p')
  {
    Commit(p, RemoveAt(p.students, i)).(form := FormOf(p.students[i]))
  }

  /** `deleteStudent(i)` with the user's answer to the confirmation prompt:
      declining changes nothing; confirming removes the record at `i` and
      refreshes the stored copy and table, leaving the form alone. */
  function Delete(p: Page, i: int, confirmed: bool): (p': Page)
    requires 0 <= i < |p.students|
    ensures !confirmed ==> p' == p
    ensures confirmed ==> p'.students == RemoveAt(p.students, i) && Synced(p') && p'.form == p.form
  {
    if confirmed then Commit(p, RemoveAt(p.students, i)) else p
  }

  /** Editing a record that a submit produced and then submitting the form
      unchanged moves that record to the end of the list: the same records as
      before, with the stored copy matching. */
  lemma EditThenResubmit(p: Page, i: int)
    requires 0 <= i < |p.students| && ValidRecord(p.students[i])
    ensures Submit(Edit(p, i)).students == RemoveAt(p.students, i) + [p.students[i]]
    ensures multiset(Submit(Edit(p, i)).students) == multiset(p.students)
    ensures Synced(Submit(Edit(p, i)))
  {
    ResubmitValid(p.students[i]);
    var q := Edit(p, i);
    var r := Submit(q);
    assert r.students == q.students + [p.students[i]];
  }

  /** All records in `s` are ones a submit could have produced. */
  predicate AllValid(s: seq<Student>) {
    forall k :: 0 <= k < |s| ==> ValidRecord(s[k])
  }

  /** Submitting, editing and deleting keep every record valid when every
      record already was; records that came from storage are never checked. */
  lemma HandlersKeepRecordsValid(p: Page, i: int, confirmed: bool)
    requires AllValid(p.students)
    ensures AllValid(Submit(p).students)
    ensures 0 <= i < |p.students| ==> AllValid(Edit(p, i).students) && AllValid(Delete(p, i, confirmed).students)
  {
    var v := Validate(p.form);
    if v.Ok? {
      var s := Submit(p).students;
      forall k | 0 <= k < |s| ensures ValidRecord(s[k]) {
        if k < |p.students| {
          assert s[k] == s[..|p.students|][k];
        }
      }
    }
    if 0 <= i < |p.students| {
      RemoveKeepsValid(p.students, i);
    }
  }

  lemma RemoveKeepsValid(s: seq<Student>, i: int)
    requires 0 <= i < |s| && AllValid(s)
    ensures AllValid(RemoveAt(s, i))
  {
    var r := RemoveAt(s, i);
    forall k | 0 <= k < |r| ensures ValidRecord(r[k]) {
      if k < i { assert r[k] == s[k]; } else { assert r[k] == s[k + 1]; }
    }
  }
}
