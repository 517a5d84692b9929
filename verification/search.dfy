/** GET / and GET /search/: the course list ordered by code, and the search whose
    WHERE clause is a conjunction with one conjunct per non-empty filter. */
module Search {
  import opened Wrappers
  import opened Seqs
  import opened Sorting
  import opened Identity
  import opened Schema

  /** The query string after Flask's parsing: text fields are "" when absent (they
      are stripped before use), `year` is None when absent or not an integer. */
  datatype SearchArgs = SearchArgs(
    code: string, title: string, area: string, year: Option<int>, semester: string, schedule: string)

  /** One `AND` conjunct of the WHERE clause. */
  datatype Conjunct =
    | CodeLike(pattern: string)
    | TitleLike(pattern: string)
    | AreaIs(value: string)
    | YearIs(year: int)
    | SemesterIs(value: string)
    | ScheduleLike(pattern: string)

  /** Python truthiness of the optional year: absent and 0 are dropped. */
  predicate YearGiven(year: Option<int>) {
    year.Some? && year.value != 0
  }

  /** The `.strip()` applied to each text field as it is read. */
  function StripArgs(args: SearchArgs): (r: SearchArgs)
    ensures r.year == args.year
    ensures NoEdgeSpace(r.code) && (r.code == [] <==> AllSpace(args.code))
    ensures NoEdgeSpace(r.title) && (r.title == [] <==> AllSpace(args.title))
    ensures NoEdgeSpace(r.area) && (r.area == [] <==> AllSpace(args.area))
    ensures NoEdgeSpace(r.semester) && (r.semester == [] <==> AllSpace(args.semester))
    ensures NoEdgeSpace(r.schedule) && (r.schedule == [] <==> AllSpace(args.schedule))
  {
    SearchArgs(Strip(args.code), Strip(args.title), Strip(args.area), args.year,
               Strip(args.semester), Strip(args.schedule))
  }

  /** Each text filter is its raw field with only the surrounding whitespace cut off. */
  lemma StripArgsRemovesOnlyPadding(args: SearchArgs)
    ensures var r := StripArgs(args);
            && PaddedBy(args.code, r.code) && PaddedBy(args.title, r.title)
            && PaddedBy(args.area, r.area) && PaddedBy(args.semester, r.semester)
            && PaddedBy(args.schedule, r.schedule)
  {
    StripRemovesOnlyPadding(args.code);
    StripRemovesOnlyPadding(args.title);
    StripRemovesOnlyPadding(args.area);
    StripRemovesOnlyPadding(args.semester);
    StripRemovesOnlyPadding(args.schedule);
  }

  /** Stripping the arguments a second time changes nothing. */
  lemma StripArgsIdempotent(args: SearchArgs)
    ensures StripArgs(StripArgs(args)) == StripArgs(args)
  {
    StripIdempotent(args.code);
    StripIdempotent(args.title);
    StripIdempotent(args.area);
    StripIdempotent(args.semester);
    StripIdempotent(args.schedule);
  }

  /** The conjunct a filter asks for: a (stripped) text filter is given when it is
      non-empty, the year when it is present and non-zero. */
  predicate Wanted(f: SearchArgs, j: Conjunct) {
    match j
    case CodeLike(p) => p != [] && p == f.code
    case TitleLike(p) => p != [] && p == f.title
    case AreaIs(v) => v != [] && v == f.area
    case YearIs(y) => YearGiven(f.year) && y == f.year.value
    case SemesterIs(v) => v != [] && v == f.semester
    case ScheduleLike(p) => p != [] && p == f.schedule
  }

  /** A text filter contributes its conjunct only when non-empty. */
  function When(s: string, conjunct: Conjunct): seq<Conjunct> {
    if s != [] then [conjunct] else []
  }

  /** The conjuncts `search` appends to `WHERE 1=1` for the stripped filters `f`, in
      the order it appends them: exactly the conjuncts the given filters ask for. */
  function BuildWhere(f: SearchArgs): (r: seq<Conjunct>)
    ensures forall j :: j in r <==> Wanted(f, j)
    ensures |r| <= 6
  {
    When(f.code, CodeLike(f.code))
    + When(f.title, TitleLike(f.title))
    + When(f.area, AreaIs(f.area))
    + (if YearGiven(f.year) then [YearIs(f.year.value)] else [])
    + When(f.semester, SemesterIs(f.semester))
    + When(f.schedule, ScheduleLike(f.schedule))
  }

  /** A conjunct's truth for one row; LIKE '%p%' is read as "contains p". */
  predicate Holds(c: Course, j: Conjunct) {
    match j
    case CodeLike(p) => Contains(c.code, p)
    case TitleLike(p) => Contains(c.title, p)
    case AreaIs(v) => c.area == v
    case YearIs(y) => c.year == y
    case SemesterIs(v) => c.semester == v
    case ScheduleLike(p) => Contains(c.schedule, p)
  }

  predicate MatchesAll(c: Course, where: seq<Conjunct>) {
    forall j :: j in where ==> Holds(c, j)
  }

  /** `ORDER BY code` */
  predicate CodeOrder(a: Course, b: Course) {
    LexLe(a.code, b.code)
  }

  lemma CodeOrderIsTotalPreorder()
    ensures TotalPreorder(CodeOrder)
  {
    forall a: Course, b: Course
      ensures CodeOrder(a, b) || CodeOrder(b, a)
    {
      LexLeTotal(a.code, b.code);
    }
    forall a: Course, b: Course, c: Course | CodeOrder(a, b) && CodeOrder(b, c)
      ensures CodeOrder(a, c)
    {
      LexLeTransitive(a.code, b.code, c.code);
    }
  }

  /** GET /: `SELECT * FROM courses ORDER BY code`. */
  function Index(courses: CourseTable): (r: seq<Course>)
    ensures multiset(r) == multiset(courses.rows)
    ensures Sorted(r, CodeOrder)
  {
    CodeOrderIsTotalPreorder();
    SortBy(courses.rows, CodeOrder)
  }

  /** The rows the WHERE clause selects, in table order. */
  function Selected(courses: CourseTable, args: SearchArgs): seq<Course> {
    Filter(courses.rows, c => MatchesAll(c, BuildWhere(StripArgs(args))))
  }

  /** The search query's answer: the matching courses ordered by code. */
  function SearchCourses(courses: CourseTable, args: SearchArgs): (r: seq<Course>)
    ensures forall c :: c in r ==> c in courses.rows && MatchesAll(c, BuildWhere(StripArgs(args)))
    ensures forall c :: c in courses.rows && MatchesAll(c, BuildWhere(StripArgs(args))) ==> c in r
    ensures multiset(r) == multiset(Selected(courses, args))
    ensures Sorted(r, CodeOrder)
  {
    CodeOrderIsTotalPreorder();
    var s := Selected(courses, args);
    var r := SortBy(s, CodeOrder);
    assert forall c :: c in r <==> c in multiset(r);
    assert forall c :: c in s <==> c in multiset(s);
    r
  }

  /** GET /search/: HTTP 500 (None) when the year filter is given but SQLite cannot
      hold it, as binding it raises `OverflowError`; otherwise the query's answer. */
  function SearchResponse(courses: CourseTable, args: SearchArgs): (r: Option<seq<Course>>)
    ensures r.None? <==> YearGiven(args.year) && !InSqliteRange(args.year.value)
    ensures r.Some? ==> r.value == SearchCourses(courses, args)
  {
    if YearGiven(args.year) && !InSqliteRange(args.year.value) then None
    else Some(SearchCourses(courses, args))
  }

  /** No filter given. */
  predicate NoFilters(args: SearchArgs) {
    && AllSpace(args.code) && AllSpace(args.title) && AllSpace(args.area) && !YearGiven(args.year)
    && AllSpace(args.semester) && AllSpace(args.schedule)
  }

  /** With no filters the WHERE clause is `1=1` and the search is the course list. */
  lemma NoFiltersListsEverything(courses: CourseTable, args: SearchArgs)
    requires NoFilters(args)
    ensures BuildWhere(StripArgs(args)) == []
    ensures SearchCourses(courses, args) == Index(courses)
  {
    FilterAll(courses.rows, c => MatchesAll(c, BuildWhere(StripArgs(args))));
  }

  /** `wide` with zero or more filters added: every filter given in `wide` is given,
      with the same value, in `narrow`. */
  predicate Narrows(narrow: SearchArgs, wide: SearchArgs) {
    && (Strip(wide.code) == [] || Strip(wide.code) == Strip(narrow.code))
    && (Strip(wide.title) == [] || Strip(wide.title) == Strip(narrow.title))
    && (Strip(wide.area) == [] || Strip(wide.area) == Strip(narrow.area))
    && (!YearGiven(wide.year) || narrow.year == wide.year)
    && (Strip(wide.semester) == [] || Strip(wide.semester) == Strip(narrow.semester))
    && (Strip(wide.schedule) == [] || Strip(wide.schedule) == Strip(narrow.schedule))
  }

  /** Adding filters only adds conjuncts. */
  lemma NarrowingAddsConjuncts(narrow: SearchArgs, wide: SearchArgs)
    requires Narrows(narrow, wide)
    ensures forall j :: j in BuildWhere(StripArgs(wide)) ==> j in BuildWhere(StripArgs(narrow))
  {
  }

  /** Adding filters never enlarges the result: every course it still returns was
      returned before. */
  lemma NarrowingShrinksResult(courses: CourseTable, narrow: SearchArgs, wide: SearchArgs)
    requires Narrows(narrow, wide)
    ensures multiset(SearchCourses(courses, narrow)) <= multiset(SearchCourses(courses, wide))
    ensures |SearchCourses(courses, narrow)| <= |SearchCourses(courses, wide)|
  {
    NarrowingAddsConjuncts(narrow, wide);
    FilterMonotone(courses.rows,
      c => MatchesAll(c, BuildWhere(StripArgs(narrow))), c => MatchesAll(c, BuildWhere(StripArgs(wide))));
    var n := SearchCourses(courses, narrow);
    var w := SearchCourses(courses, wide);
    assert |n| == |multiset(n)| && |w| == |multiset(w)|;
  }

  /** Rows of a valid course table occur once each. */
  lemma {:induction false} ValidRowsOccurOnce(s: seq<Course>, x: Course)
    requires Pairwise(s, CoursesCompatible)
    ensures multiset(s)[x] <= 1
  {
    if |s| > 0 {
      assert s == [s[0]] + s[1..];
      assert Pairwise(s[1..], CoursesCompatible);
      ValidRowsOccurOnce(s[1..], x);
    }
  }

  /** In a valid course table a row is determined by its code. */
  lemma SameCodeSameRow(rows: seq<Course>, x: Course, y: Course)
    requires Pairwise(rows, CoursesCompatible)
    requires x in rows && y in rows && x.code == y.code
    ensures x == y
  {
    var a :| 0 <= a < |rows| && rows[a] == x;
    var b :| 0 <= b < |rows| && rows[b] == y;
  }

  /** Over a valid course table the search lists each course once, in strictly
      ascending code order. */
  lemma SearchStrictlyAscending(courses: CourseTable, args: SearchArgs)
    requires ValidCourses(courses)
    ensures var r := SearchCourses(courses, args);
            forall i, j :: 0 <= i < j < |r| ==>
              && LexLe(r[i].code, r[j].code) && r[i].code != r[j].code
              && !LexLe(r[j].code, r[i].code)
  {
    var r := SearchCourses(courses, args);
    assert multiset(r) <= multiset(courses.rows);
    forall i, j | 0 <= i < j < |r|
      ensures LexLe(r[i].code, r[j].code) && r[i].code != r[j].code
      ensures !LexLe(r[j].code, r[i].code)
    {
      assert CodeOrder(r[i], r[j]);
      if r[i].code == r[j].code {
        SameCodeSameRow(courses.rows, r[i], r[j]);
        RepeatCountsTwice(r, i, j);
        ValidRowsOccurOnce(courses.rows, r[i]);
      }
      if LexLe(r[j].code, r[i].code) {
        LexLeAntisymmetric(r[i].code, r[j].code);
      }
    }
  }
}
