/** The Courses page: the new-course form with its three custom subject
    fields, and the preview of a course's fourth and fifth subjects. */
module CoursePage {

  import opened Common

  // ---------------------------------------------------------------------
  // The form

  datatype FormError = NameRequired | SubjectsRequired

  /** The body of `POST /courses`. */
  datatype CoursePayload = CoursePayload(name: string, subjects: seq<string>)

  predicate NotJsBlank(s: string) {
    !JsBlank(s)
  }

  /** The checks of `handleAddCourse`, the name first, and the payload
      it sends, whose subjects are the fields that are not blank. */
  function ValidateForm(courseName: string, customSubjects: seq<string>): Result<CoursePayload, FormError> {
    if JsBlank(courseName) then Err(NameRequired)
    else if exists i :: 0 <= i < |customSubjects| && JsBlank(customSubjects[i]) then Err(SubjectsRequired)
    else Ok(CoursePayload(courseName, Filter(NotJsBlank, customSubjects)))
  }

  /** A blank name is reported whatever the subjects; otherwise any blank
      subject is; a payload is sent only when nothing is blank, and then
      carries the name and the subjects exactly as typed. */
  lemma ValidateFormCorrect(courseName: string, customSubjects: seq<string>)
    ensures var r := ValidateForm(courseName, customSubjects);
            (r == Err(NameRequired) <==> JsBlank(courseName))
            && (r == Err(SubjectsRequired) <==>
                  !JsBlank(courseName) && exists i :: 0 <= i < |customSubjects| && JsBlank(customSubjects[i]))
            && (r.Ok? ==> r.value == CoursePayload(courseName, customSubjects))
  {
    if ValidateForm(courseName, customSubjects).Ok? {
      FilterAll(NotJsBlank, customSubjects);
    }
  }

  class CourseForm {
    var courseName: string
    var customSubjects: seq<string>
    var showForm: bool

    constructor ()
      ensures courseName == "" && customSubjects == ["", "", ""] && !showForm
    {
      courseName := "";
      customSubjects := ["", "", ""];
      showForm := false;
    }

    /** `handleSubjectChange(index, value)`: only field `index` changes. */
    method SubjectChange(index: nat, value: string)
      requires index < |customSubjects|
      modifies this
      ensures |customSubjects| == |old(customSubjects)| && customSubjects[index] == value
      ensures forall i :: 0 <= i < |customSubjects| && i != index ==> customSubjects[i] == old(customSubjects)[i]
      ensures courseName == old(courseName) && showForm == old(showForm)
    {
      customSubjects := customSubjects[index := value];
    }

    /** `resetForm`. */
    method ResetForm()
      modifies this
      ensures courseName == "" && customSubjects == ["", "", ""] && !showForm
    {
      courseName := "";
      customSubjects := ["", "", ""];
      showForm := false;
    }

    /** `handleAddCourse`, with `serverOk` the outcome of the POST: a
        rejected form sends nothing and keeps its fields; a sent form is
        reset when the server accepts it. */
    method AddCourse(serverOk: bool) returns (sent: Option<CoursePayload>, error: Option<FormError>)
      modifies this
      ensures match ValidateForm(old(courseName), old(customSubjects))
              case Err(e) => sent.None? && error == Some(e)
              case Ok(p) => sent == Some(p) && error.None?
      ensures sent.Some? && serverOk ==> courseName == "" && customSubjects == ["", "", ""] && !showForm
      ensures sent.None? || !serverOk ==>
                courseName == old(courseName) && customSubjects == old(customSubjects) && showForm == old(showForm)
    {
      match ValidateForm(courseName, customSubjects)
      case Err(e) =>
        sent, error := None, Some(e);
      case Ok(p) =>
        sent, error := Some(p), None;
        if serverOk {
          ResetForm();
        }
    }
  }

  // ---------------------------------------------------------------------
  // The subject preview

  /** An element of `course.subjects`: a name, or an object whose `name`
      may be missing. */
  datatype SubjectItem = Str(s: string) | Obj(name: Option<string>)

  /** `getName(subjects[i])`; `None` when the position does not exist. */
  function NameAt(items: seq<SubjectItem>, i: nat): Option<string> {
    if i >= |items| then None
    else match items[i]
      case Str(s) => Some(s)
      case Obj(n) => n
  }

  /** JavaScript truthiness of a name: present and not empty. */
  predicate Truthy(n: Option<string>) {
    n.Some? && n.value != ""
  }

  function Join(names: seq<string>, sep: string): string {
    if names == [] then ""
    else if |names| == 1 then names[0]
    else names[0] + sep + Join(names[1..], sep)
  }

  function TruthyNames(ns: seq<Option<string>>): seq<string> {
    if ns == [] then []
    else (if Truthy(ns[0]) then [ns[0].value] else []) + TruthyNames(ns[1..])
  }

  const FewSubjects: string := "Less than 4 subjects"

  /** The preview line under a course; a missing list counts as empty. */
  function Preview(subjects: Option<seq<SubjectItem>>): string {
    var items := if subjects.Some? then subjects.value else [];
    var fourth := NameAt(items, 3);
    var fifth := NameAt(items, 4);
    if !Truthy(fourth) && !Truthy(fifth) then FewSubjects
    else Join(TruthyNames([fourth, fifth]), ", ") + ", ..."
  }

  /** The preview names the fourth and fifth subjects that have a name,
      followed by ", ..."; without either it says there are fewer than 4. */
  lemma PreviewCases(subjects: Option<seq<SubjectItem>>)
    ensures var items := if subjects.Some? then subjects.value else [];
            var f := NameAt(items, 3);
            var g := NameAt(items, 4);
            var r := Preview(subjects);
            (|items| <= 3 ==> r == FewSubjects)
            && (!Truthy(f) && !Truthy(g) ==> r == FewSubjects)
            && (Truthy(f) && Truthy(g) ==> r == f.value + ", " + g.value + ", ...")
            && (Truthy(f) && !Truthy(g) ==> r == f.value + ", ...")
            && (!Truthy(f) && Truthy(g) ==> r == g.value + ", ...")
  {
    var items := if subjects.Some? then subjects.value else [];
    var f := NameAt(items, 3);
    var g := NameAt(items, 4);
    assert [f, g][1..] == [g];
    assert TruthyNames([g]) == (if Truthy(g) then [g.value] else []) by {
      assert [g][1..] == [];
    }
    if Truthy(f) && Truthy(g) {
      assert TruthyNames([f, g]) == [f.value, g.value];
      assert [f.value, g.value][1..] == [g.value];
      assert Join([f.value, g.value], ", ") == f.value + ", " + g.value;
    }
  }
}
