/** The search bar: suggestions from the fixed menu, the students and the
    courses whose names contain the query, and navigation to a choice. */
module SearchBar {

  import opened Common
  import opened Records

  datatype MenuItem = MenuItem(caption: string, path: string)

  const MenuSuggestions: seq<MenuItem> := [
    MenuItem("Students", "/students"),
    MenuItem("Attendance", "/attendances"),
    MenuItem("Courses", "/courses"),
    MenuItem("Marks", "/marks")
  ]

  /** `name.toLowerCase().includes(query.toLowerCase())`; the query is
      not trimmed. */
  predicate Matches(name: string, query: string) {
    Contains(Lower(name), Lower(query))
  }

  function MenuMatches(query: string): seq<MenuItem> {
    Filter((m: MenuItem) => Matches(m.caption, query), MenuSuggestions)
  }

  function StudentMatches(students: seq<Student>, query: string): seq<Student> {
    Filter((s: Student) => Matches(s.name, query), students)
  }

  function CourseMatches(courses: seq<CourseRef>, query: string): seq<CourseRef> {
    Filter((c: CourseRef) => Matches(c.name, query), courses)
  }

  /** Matching ignores the case of both the name and the query. */
  lemma MatchesIgnoresCase(name: string, query: string)
    ensures Matches(name, query) <==> Matches(Lower(name), Lower(query))
  {
    LowerIdempotent(name);
    LowerIdempotent(query);
  }

  /** Every suggestion list holds exactly the items whose name matches,
      in the order they were listed. */
  lemma SuggestionsMembers(students: seq<Student>, courses: seq<CourseRef>, query: string,
                           s: Student, c: CourseRef, m: MenuItem)
    ensures s in StudentMatches(students, query) <==> s in students && Matches(s.name, query)
    ensures c in CourseMatches(courses, query) <==> c in courses && Matches(c.name, query)
    ensures m in MenuMatches(query) <==> m in MenuSuggestions && Matches(m.caption, query)
  {
    FilterMembers((s: Student) => Matches(s.name, query), students, s);
    FilterMembers((c: CourseRef) => Matches(c.name, query), courses, c);
    FilterMembers((m: MenuItem) => Matches(m.caption, query), MenuSuggestions, m);
  }

  /** A name matches a query that begins with a space only if it holds a
      space itself. */
  lemma LeadingSpaceNeedsSpace(name: string, query: string)
    requires Matches(name, " " + query)
    ensures exists i :: 0 <= i < |name| && name[i] == ' '
  {
    var q := Lower(" " + query);
    ContainsIff(Lower(name), q);
    var i :| OccursAt(Lower(name), q, i);
    assert Lower(name)[i..i + |q|][0] == q[0] == ' ';
    assert name[i] == ' ';
  }

  predicate HasNoSpace(s: string) {
    forall i :: 0 <= i < |s| ==> s[i] != ' '
  }

  /** A name without a space never matches a query that starts with one. */
  lemma NoSpaceHidden(name: string, query: string)
    requires HasNoSpace(name)
    ensures !Matches(name, " " + query)
  {
    if Matches(name, " " + query) {
      LeadingSpaceNeedsSpace(name, query);
    }
  }

  /** No item of a menu whose captions hold no space matches a query that
      starts with one. */
  lemma NoSpaceMenuHidden(menu: seq<MenuItem>, query: string)
    requires forall i :: 0 <= i < |menu| ==> HasNoSpace(menu[i].caption)
    ensures Filter((m: MenuItem) => Matches(m.caption, " " + query), menu) == []
  {
    var q := " " + query;
    var r := Filter((m: MenuItem) => Matches(m.caption, q), menu);
    if r != [] {
      var m := r[0];
      FilterMembers((m: MenuItem) => Matches(m.caption, q), menu, m);
      NoSpaceHidden(m.caption, query);
    }
  }

  /** Since the query is not trimmed, a leading space hides every menu
      entry: none of their captions holds a space. */
  lemma LeadingSpaceHidesMenu(query: string)
    ensures MenuMatches(" " + query) == []
  {
    assert forall i :: 0 <= i < |MenuSuggestions| ==> HasNoSpace(MenuSuggestions[i].caption);
    NoSpaceMenuHidden(MenuSuggestions, query);
  }

  /** What a suggestion leads to. */
  datatype Choice = MenuPath(path: string) | StudentChoice(id: int) | CourseChoice(id: int)

  /** The route `handleNavigate` opens. */
  function Route(choice: Choice): string {
    match choice
    case MenuPath(p) => p
    case StudentChoice(id) => "/students/" + IntToString(id)
    case CourseChoice(id) => "/courses/" + IntToString(id)
  }

  /** A menu entry leads to its own path; a student or a course leads to
      its page, whose last segment reads back as its id. */
  lemma RouteReadsBack(choice: Choice)
    ensures var r := Route(choice);
            (choice.StudentChoice? ==> |r| > 10 && r[..10] == "/students/" && ParseInt(r[10..]) == Some(choice.id))
            && (choice.CourseChoice? ==> |r| > 9 && r[..9] == "/courses/" && ParseInt(r[9..]) == Some(choice.id))
            && (choice.MenuPath? ==> r == choice.path)
  {
    var r := Route(choice);
    match choice
    case MenuPath(p) =>
    case StudentChoice(id) =>
      ParseIntRoundTrip(id);
      assert r[10..] == IntToString(id);
    case CourseChoice(id) =>
      ParseIntRoundTrip(id);
      assert r[9..] == IntToString(id);
  }

  class Search {
    var query: string
    var studentMatches: seq<Student>
    var courseMatches: seq<CourseRef>
    var menuMatches: seq<MenuItem>

    predicate Cleared()
      reads this
    {
      query == "" && studentMatches == [] && courseMatches == [] && menuMatches == []
    }

    constructor ()
      ensures Cleared()
    {
      query, studentMatches, courseMatches, menuMatches := "", [], [], [];
    }

    /** The query becomes `q`, and the effect on it runs to completion with
        the lists `students` and `courses` the service returned: a blank
        query clears every list, any other fills each with its matches. */
    method QueryChanged(q: string, students: seq<Student>, courses: seq<CourseRef>)
      modifies this
      ensures query == q
      ensures JsBlank(q) ==> studentMatches == [] && courseMatches == [] && menuMatches == []
      ensures !JsBlank(q) ==>
                studentMatches == StudentMatches(students, q)
                && courseMatches == CourseMatches(courses, q)
                && menuMatches == MenuMatches(q)
    {
      query := q;
      if JsBlank(q) {
        studentMatches, courseMatches, menuMatches := [], [], [];
      } else {
        menuMatches := MenuMatches(q);
        studentMatches := StudentMatches(students, q);
        courseMatches := CourseMatches(courses, q);
      }
    }

    /** `handleNavigate`: the chosen route, and the bar is cleared. */
    method Navigate(choice: Choice) returns (route: string)
      modifies this
      ensures route == Route(choice)
      ensures Cleared()
    {
      route := Route(choice);
      query, studentMatches, courseMatches, menuMatches := "", [], [], [];
    }
  }
}
