/** The two tables created by `init_db`: their rows, their constraints
    (primary keys with AUTOINCREMENT, `code UNIQUE`, the rating CHECKs and
    `UNIQUE(course_id, user_id, active)`) and the `CREATE TABLE IF NOT EXISTS` step. */
module Schema {
  import opened Wrappers
  import opened Seqs

  /** `created_at`: the ISO-8601 UTC strings the app writes order like the instants they name. */
  type Timestamp = nat

  /** One row of `courses`; the `credits` REAL column is not modelled. */
  datatype Course = Course(
    id: nat,
    code: string,
    title: string,
    area: string,
    year: int,
    semester: string,
    schedule: string,
    syllabusUrl: Option<string>)

  /** One row of `reviews`; `active` holds the 0/1 flag as a boolean. */
  datatype Review = Review(
    id: nat,
    courseId: int,
    userId: string,
    difficulty: int,
    recommend: int,
    attendanceRequired: int,
    assessment: string,
    comment: string,
    createdAt: Timestamp,
    active: bool)

  /** A table is its rows in rowid order plus the AUTOINCREMENT counter (the largest id ever issued). */
  datatype CourseTable = CourseTable(rows: seq<Course>, lastId: nat)
  datatype ReviewTable = ReviewTable(rows: seq<Review>, lastId: nat)

  const MinRating: int := 1
  const MaxRating: int := 5

  /** `CHECK(x>=1 AND x<=5)` on difficulty and recommend. */
  predicate RatingInRange(v: int) {
    MinRating <= v <= MaxRating
  }

  /** The values SQLite can hold in an INTEGER: signed 64-bit. Python's `sqlite3`
      raises `OverflowError` when a query binds an `int` outside this range; no
      handler catches it, so the request ends in HTTP 500. */
  predicate InSqliteRange(v: int) {
    -0x8000_0000_0000_0000 <= v < 0x8000_0000_0000_0000
  }

  /** `attendance_required INTEGER DEFAULT 0` */
  const DefaultAttendance: int := 0

  /** Two course rows may coexist: distinct primary keys and distinct `code`s. */
  predicate CoursesCompatible(a: Course, b: Course) {
    a.id != b.id && a.code != b.code
  }

  /** Two review rows may coexist: distinct primary keys and distinct
      `(course_id, user_id, active)` triples. */
  predicate ReviewsCompatible(a: Review, b: Review) {
    a.id != b.id && !(a.courseId == b.courseId && a.userId == b.userId && a.active == b.active)
  }

  /** Every constraint of the `courses` table holds. */
  predicate ValidCourses(t: CourseTable) {
    && Pairwise(t.rows, CoursesCompatible)
    && (forall c :: c in t.rows ==> 1 <= c.id <= t.lastId)
  }

  /** Every constraint of the `reviews` table holds. */
  predicate ValidReviews(t: ReviewTable) {
    && Pairwise(t.rows, ReviewsCompatible)
    && (forall r :: r in t.rows ==>
          RatingInRange(r.difficulty) && RatingInRange(r.recommend) && 1 <= r.id <= t.lastId)
  }

  /** The set of course codes present. */
  function Codes(t: CourseTable): set<string> {
    set c | c in t.rows :: c.code
  }

  /** `SELECT * FROM courses WHERE id=?` with `one=True`. */
  function FindCourse(t: CourseTable, id: int): (r: Option<Course>)
    ensures r.Some? ==> r.value in t.rows && r.value.id == id
    ensures r.None? <==> forall c :: c in t.rows ==> c.id != id
    decreases |t.rows|
  {
    if |t.rows| == 0 then None
    else if t.rows[0].id == id then Some(t.rows[0])
    else FindCourse(CourseTable(t.rows[1..], t.lastId), id)
  }

  /** The database file: each table exists or not. */
  datatype Database = Database(courses: Option<CourseTable>, reviews: Option<ReviewTable>)

  /** A table `CREATE TABLE` has just made: no rows, and a counter that has issued
      nothing, so its first row gets id 1. */
  const EmptyCourses: CourseTable := CourseTable([], 0)
  const EmptyReviews: ReviewTable := ReviewTable([], 0)

  /** `init_db`: both tables exist afterwards; a table that already existed keeps
      every row and its counter, a missing one is created empty with a zero counter. */
  function InitDb(db: Database): (r: Database)
    ensures r.courses.Some? && r.reviews.Some?
    ensures db.courses.Some? ==> r.courses == db.courses
    ensures db.reviews.Some? ==> r.reviews == db.reviews
    ensures db.courses.None? ==> r.courses.value == EmptyCourses
    ensures db.reviews.None? ==> r.reviews.value == EmptyReviews
  {
    Database(Some(db.courses.GetOr(EmptyCourses)), Some(db.reviews.GetOr(EmptyReviews)))
  }

  /** Running `init_db` again is a no-op, and it never produces an invalid table. */
  lemma InitDbIdempotent(db: Database)
    requires db.courses.Some? ==> ValidCourses(db.courses.value)
    requires db.reviews.Some? ==> ValidReviews(db.reviews.value)
    ensures InitDb(InitDb(db)) == InitDb(db)
    ensures ValidCourses(InitDb(db).courses.value)
    ensures ValidReviews(InitDb(db).reviews.value)
  {
  }
}
