/** `/api/courses` of the service: creation with its name checks and its
    subjects, lookup and deletion. */
module CourseController {

  import opened Common
  import opened Store

  datatype CourseError = BadRequest(message: string) | Conflict(message: string) | NotFound(message: string)

  /** The HTTP status each error is answered with. */
  function Status(e: CourseError): int {
    match e
    case BadRequest(_) => 400
    case Conflict(_) => 409
    case NotFound(_) => 404
  }

  const NameRequired: string := "Course name is required"
  const AlreadyExists: string := "Course already exists"
  const CourseNotFound: string := "Course not found"
  const DefaultSubjects: seq<string> := ["English", "Tamil"]

  /** `existsByNameIgnoreCase`. */
  predicate NameTaken(courses: seq<Course>, name: string) {
    exists i :: 0 <= i < |courses| && EqualsIgnoreCase(courses[i].name, name)
  }

  /** `validateCourseInput`: a missing or blank name first, then a name
      already taken in any case. */
  function ValidateCourseInput(courses: seq<Course>, name: Option<string>): (r: Option<CourseError>)
    ensures r == Some(BadRequest(NameRequired)) <==> name.None? || JavaBlank(name.value)
    ensures r == Some(Conflict(AlreadyExists)) <==> name.Some? && !JavaBlank(name.value) && NameTaken(courses, name.value)
    ensures r.None? <==> name.Some? && !JavaBlank(name.value) && !NameTaken(courses, name.value)
  {
    if name.None? || JavaBlank(name.value) then Some(BadRequest(NameRequired))
    else if NameTaken(courses, name.value) then Some(Conflict(AlreadyExists))
    else None
  }

  predicate Kept(name: Option<string>) {
    name.Some? && !JavaBlank(name.value)
  }

  /** The custom names that are neither null nor blank, as given. */
  function KeptNames(custom: seq<Option<string>>): (r: seq<string>)
    ensures |r| <= |custom|
  {
    if custom == [] then []
    else (if Kept(custom[0]) then [custom[0].value] else []) + KeptNames(custom[1..])
  }

  /** The names of the subjects `createAndSaveSubjects` saves. */
  function SubjectNames(custom: Option<seq<Option<string>>>): (r: seq<string>)
    ensures |r| >= 2 && r[..2] == DefaultSubjects
    ensures custom.None? ==> r == DefaultSubjects
  {
    DefaultSubjects + if custom.Some? then KeptNames(custom.value) else []
  }

  /** After the two defaults come exactly the kept custom names, each
      stored as given, untrimmed. */
  lemma {:induction false} KeptNamesMembers(custom: seq<Option<string>>, n: string)
    ensures n in KeptNames(custom) <==> Some(n) in custom && !JavaBlank(n)
  {
    if custom != [] {
      KeptNamesMembers(custom[1..], n);
      assert custom == [custom[0]] + custom[1..];
    }
  }

  /** The filter keeps the given order: the names kept from a list are
      those kept from its first part followed by those kept from the rest,
      and one name is kept, as given, exactly when it is neither null nor
      blank. So `[Some("A"), None, Some("B")]` keeps `["A", "B"]`. */
  lemma {:induction false} KeptNamesInOrder(a: seq<Option<string>>, b: seq<Option<string>>, x: Option<string>)
    ensures KeptNames(a + b) == KeptNames(a) + KeptNames(b)
    ensures KeptNames([x]) == if Kept(x) then [x.value] else []
  {
    if a != [] {
      assert (a + b)[1..] == a[1..] + b;
      KeptNamesInOrder(a[1..], b, x);
    } else {
      assert a + b == b;
    }
    assert [x][1..] == [];
  }

  /** The subjects saved with a new course, with consecutive ids. */
  function NewSubjects(courseId: int, names: seq<string>, firstId: int): (r: seq<Subject>)
    ensures |r| == |names|
    ensures forall k :: 0 <= k < |r| ==> r[k] == Subject(firstId + k, names[k], courseId)
  {
    seq(|names|, k requires 0 <= k < |names| => Subject(firstId + k, names[k], courseId))
  }

  /** `createCourseWithSubjects`: nothing is saved when the input is
      refused; otherwise the course and then its subjects. */
  method CreateCourse(db: Database, name: Option<string>, custom: Option<seq<Option<string>>>)
    returns (r: Result<Course, CourseError>)
    requires db.Valid()
    modifies db
    ensures db.Valid()
    ensures match ValidateCourseInput(old(db.courses), name)
            case Some(e) =>
              r == Err(e) && db.courses == old(db.courses) && db.subjects == old(db.subjects) && db.nextId == old(db.nextId)
            case None =>
              r == Ok(Course(old(db.nextId), name.value))
              && db.courses == old(db.courses) + [r.value]
              && db.subjects == old(db.subjects) + NewSubjects(r.value.id, SubjectNames(custom), old(db.nextId) + 1)
    ensures db.students == old(db.students) && db.marks == old(db.marks) && db.attendance == old(db.attendance)
  {
    var e := ValidateCourseInput(db.courses, name);
    if e.Some? {
      return Err(e.value);
    }
    var course := Course(db.nextId, name.value);
    db.courses := db.courses + [course];
    var names := SubjectNames(custom);
    db.subjects := db.subjects + NewSubjects(course.id, names, db.nextId + 1);
    db.nextId := db.nextId + 1 + |names|;
    r := Ok(course);
  }

  /** No two courses share a name ignoring case. */
  predicate DistinctNames(courses: seq<Course>) {
    forall i, j :: 0 <= i < j < |courses| ==> !EqualsIgnoreCase(courses[i].name, courses[j].name)
  }

  /** A course that passes the checks keeps the names distinct. */
  lemma CreateCourseKeepsNamesDistinct(courses: seq<Course>, c: Course)
    requires DistinctNames(courses)
    requires ValidateCourseInput(courses, Some(c.name)).None?
    ensures DistinctNames(courses + [c])
  {
    var t := courses + [c];
    forall i, j | 0 <= i < j < |t|
      ensures !EqualsIgnoreCase(t[i].name, t[j].name)
    {
      assert t[i] == courses[i];
      if j < |courses| {
        assert t[j] == courses[j];
      }
    }
  }

  /** `getCourseById`. */
  function GetCourseById(courses: seq<Course>, id: int): (r: Result<Course, CourseError>)
    ensures r.Err? <==> forall i :: 0 <= i < |courses| ==> courses[i].id != id
    ensures r.Err? ==> r.error == NotFound(CourseNotFound)
    ensures r.Ok? ==> r.value in courses && r.value.id == id
  {
    match FindIndex(courses, (c: Course) => c.id, id)
    case None => Err(NotFound(CourseNotFound))
    case Some(k) => Ok(courses[k])
  }

  predicate NotCourse(id: int, c: Course) {
    c.id != id
  }

  /** `deleteCourse`: an unknown id is answered 404 and nothing changes;
      otherwise the course is removed. */
  method DeleteCourse(db: Database, id: int) returns (r: Option<CourseError>)
    requires db.Valid()
    modifies db
    ensures db.Valid()
    ensures GetCourseById(old(db.courses), id).Err? ==>
              r == Some(NotFound(CourseNotFound)) && db.courses == old(db.courses)
    ensures GetCourseById(old(db.courses), id).Ok? ==>
              r.None? && db.courses == Filter((c: Course) => NotCourse(id, c), old(db.courses))
    ensures db.students == old(db.students) && db.subjects == old(db.subjects) && db.marks == old(db.marks)
    ensures db.attendance == old(db.attendance) && db.nextId == old(db.nextId)
  {
    if GetCourseById(db.courses, id).Err? {
      return Some(NotFound(CourseNotFound));
    }
    ghost var before := db.courses;
    db.courses := Filter((c: Course) => NotCourse(id, c), db.courses);
    forall i | 0 <= i < |db.courses|
      ensures db.courses[i].id < db.nextId
    {
      FilterMembers((c: Course) => NotCourse(id, c), before, db.courses[i]);
    }
    r := None;
  }

  /** Deletion removes exactly the course with that id. */
  lemma DeleteCourseRemovesOnlyIt(courses: seq<Course>, id: int, c: Course)
    ensures c in Filter((c: Course) => NotCourse(id, c), courses) <==> c in courses && c.id != id
  {
    FilterMembers((c: Course) => NotCourse(id, c), courses, c);
  }
}
