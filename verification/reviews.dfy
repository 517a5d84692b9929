/** The review lifecycle of `add_review` and `cancel_review`, as pure functions over
    the `reviews` table. The key invariant is the table's own constraints
    (`Schema.ValidReviews`): per (course, user) pair at most one active and at most
    one inactive row, ratings within 1..5, distinct ids. */
module Reviews {
  import opened Wrappers
  import opened Seqs
  import opened Identity
  import opened Schema

  /** The POSTed add form after Flask's parsing: text fields are "" when absent,
      `type=int` fields are None when absent or not an integer. */
  datatype ReviewForm = ReviewForm(
    name: string,
    difficulty: Option<int>,
    recommend: Option<int>,
    attendance: Option<string>,
    assessment: Option<string>,
    comment: string)

  /** The assessment stored when the field is absent ("none"). */
  const DefaultAssessment: string := "なし"

  /** Python truthiness of an optional int field: absent and 0 both count as missing. */
  predicate Given(v: Option<int>) {
    v.Some? && v.value != 0
  }

  /** The validation of `add_review`: a non-blank name and both ratings given. */
  predicate FormComplete(form: ReviewForm) {
    !AllSpace(form.name) && Given(form.difficulty) && Given(form.recommend)
  }

  datatype AddOutcome =
    | CourseNotFound        // 404
    | InvalidInput          // flash "enter name, difficulty and recommendation"
    | ConstraintViolation   // IntegrityError caught: flash "an active review already exists"
    | ServerError           // OverflowError binding an int SQLite cannot hold: HTTP 500
    | Added

  datatype CancelOutcome =
    | NameMissing           // flash "enter your name"
    | NoActiveReview        // flash "no active review found"
    | ServerError           // OverflowError binding an int SQLite cannot hold: HTTP 500
    | Cancelled

  /** The row belongs to the (course, user) pair. */
  predicate OfPair(r: Review, courseId: int, userId: string) {
    r.courseId == courseId && r.userId == userId
  }

  /** The row belongs to the pair and has the given active flag. */
  predicate InState(r: Review, courseId: int, userId: string, active: bool) {
    OfPair(r, courseId, userId) && r.active == active
  }

  /** Some row already carries the UNIQUE key (course_id, user_id, active). */
  predicate KeyTaken(rows: seq<Review>, courseId: int, userId: string, active: bool) {
    exists r :: r in rows && InState(r, courseId, userId, active)
  }

  /** The rows of the pair with the given flag, in table order. */
  function PairRows(rows: seq<Review>, courseId: int, userId: string, active: bool): seq<Review> {
    Filter(rows, r => InState(r, courseId, userId, active))
  }

  /** The rows of every other pair, in table order. */
  function OtherRows(rows: seq<Review>, courseId: int, userId: string): seq<Review> {
    Filter(rows, r => !OfPair(r, courseId, userId))
  }

  /** `INSERT INTO reviews ...`: None when a CHECK or the UNIQUE constraint fails,
      otherwise the row appended under the next AUTOINCREMENT id. */
  function InsertReview(t: ReviewTable, row: Review): (r: Option<ReviewTable>)
    ensures r.None? <==>
      || !RatingInRange(row.difficulty) || !RatingInRange(row.recommend)
      || KeyTaken(t.rows, row.courseId, row.userId, row.active)
    ensures r.Some? ==> r.value.lastId == t.lastId + 1
    ensures r.Some? ==> r.value.rows == t.rows + [row.(id := r.value.lastId)]
    ensures r.Some? && ValidReviews(t) ==> ValidReviews(r.value)
  {
    if !RatingInRange(row.difficulty) || !RatingInRange(row.recommend) then None
    else if exists x :: x in t.rows && InState(x, row.courseId, row.userId, row.active) then None
    else
      var id := t.lastId + 1;
      var rows := t.rows + [row.(id := id)];
      assert forall x :: x in rows ==> x in t.rows || x == row.(id := id);
      assert ValidReviews(t) ==> Pairwise(rows, ReviewsCompatible) by {
        if ValidReviews(t) {
          forall i, j | 0 <= i < j < |rows|
            ensures ReviewsCompatible(rows[i], rows[j])
          {
            if j == |t.rows| {
              assert rows[i] in t.rows;
            }
          }
        }
      }
      Some(ReviewTable(rows, id))
  }

  /** The row `add_review` inserts for a complete form, before it receives its id. */
  function NewReview(courseId: int, form: ReviewForm, sha: string -> Digest, now: Timestamp): (r: Review)
    requires FormComplete(form)
    ensures r.courseId == courseId && r.userId == MakeUserId(sha, Strip(form.name))
    ensures r.difficulty == form.difficulty.value && r.recommend == form.recommend.value
    ensures r.attendanceRequired == 1 <==> form.attendance == Some("on")
    ensures form.attendance != Some("on") ==> r.attendanceRequired == DefaultAttendance
    ensures form.assessment.Some? ==> r.assessment == form.assessment.value
    ensures form.assessment.None? ==> r.assessment == DefaultAssessment
    ensures r.comment == Strip(form.comment)
    ensures r.createdAt == now && r.active
  {
    Review(
      0, courseId, MakeUserId(sha, Strip(form.name)),
      form.difficulty.value, form.recommend.value,
      if form.attendance == Some("on") then 1 else 0,
      form.assessment.GetOr(DefaultAssessment),
      Strip(form.comment), now, true)
  }

  /** POST /course/<id>/add/. The clock is the parameter `now`, the hash the parameter `sha`.
      The course id is bound by the course lookup, the ratings by the INSERT. */
  function AddReview(courses: CourseTable, t: ReviewTable, courseId: int, form: ReviewForm,
                     sha: string -> Digest, now: Timestamp): (r: (AddOutcome, ReviewTable))
    ensures r.0 == AddOutcome.ServerError <==>
      || !InSqliteRange(courseId)
      || (&& FindCourse(courses, courseId).Some? && FormComplete(form)
          && (!InSqliteRange(form.difficulty.value) || !InSqliteRange(form.recommend.value)))
    ensures r.0 == CourseNotFound <==>
      InSqliteRange(courseId) && forall c :: c in courses.rows ==> c.id != courseId
    ensures r.0 == InvalidInput <==>
      InSqliteRange(courseId) && FindCourse(courses, courseId).Some? && !FormComplete(form)
    ensures r.0 == ConstraintViolation <==>
      && InSqliteRange(courseId) && FindCourse(courses, courseId).Some? && FormComplete(form)
      && InSqliteRange(form.difficulty.value) && InSqliteRange(form.recommend.value)
      && (|| !RatingInRange(form.difficulty.value) || !RatingInRange(form.recommend.value)
          || KeyTaken(t.rows, courseId, MakeUserId(sha, Strip(form.name)), true))
    ensures r.0 == Added <==>
      && InSqliteRange(courseId) && FindCourse(courses, courseId).Some? && FormComplete(form)
      && RatingInRange(form.difficulty.value) && RatingInRange(form.recommend.value)
      && !KeyTaken(t.rows, courseId, MakeUserId(sha, Strip(form.name)), true)
    ensures r.0 != Added ==> r.1 == t
    ensures r.0 == Added ==>
      r.1 == ReviewTable(t.rows + [NewReview(courseId, form, sha, now).(id := t.lastId + 1)], t.lastId + 1)
    ensures ValidReviews(t) ==> ValidReviews(r.1)
  {
    if !InSqliteRange(courseId) then (AddOutcome.ServerError, t)
    else if FindCourse(courses, courseId).None? then (CourseNotFound, t)
    else if !FormComplete(form) then (InvalidInput, t)
    else if !InSqliteRange(form.difficulty.value) || !InSqliteRange(form.recommend.value) then
      (AddOutcome.ServerError, t)
    else match InsertReview(t, NewReview(courseId, form, sha, now))
      case None => (ConstraintViolation, t)
      case Some(t') => (Added, t')
  }

  /** `SELECT id ... WHERE course_id=? AND user_id=? AND active=1 ORDER BY created_at DESC LIMIT 1`. */
  function NewestActive(rows: seq<Review>, courseId: int, userId: string): (r: Option<Review>)
    ensures r.Some? ==> r.value in rows && InState(r.value, courseId, userId, true)
    ensures r.Some? ==> forall x :: x in rows && InState(x, courseId, userId, true) ==>
                          x.createdAt <= r.value.createdAt
    ensures r.None? <==> !KeyTaken(rows, courseId, userId, true)
  {
    if |rows| == 0 then None
    else
      assert forall x :: x in rows ==> x == rows[0] || x in rows[1..];
      var rest := NewestActive(rows[1..], courseId, userId);
      if InState(rows[0], courseId, userId, true) && (rest.None? || rest.value.createdAt <= rows[0].createdAt)
      then Some(rows[0])
      else rest
  }

  /** `UPDATE reviews SET active=0 WHERE id=?` */
  function Deactivate(rows: seq<Review>, id: nat): (r: seq<Review>)
    ensures |r| == |rows|
    ensures forall i :: 0 <= i < |rows| ==>
      r[i] == if rows[i].id == id then rows[i].(active := false) else rows[i]
  {
    if |rows| == 0 then []
    else [if rows[0].id == id then rows[0].(active := false) else rows[0]] + Deactivate(rows[1..], id)
  }

  /** `DELETE FROM reviews WHERE course_id=? AND user_id=? AND active=0` */
  function DeleteInactive(rows: seq<Review>, courseId: int, userId: string): (r: seq<Review>)
    ensures forall x :: x in r ==> x in rows && !InState(x, courseId, userId, false)
    ensures forall x :: x in rows && !InState(x, courseId, userId, false) ==> x in r
    ensures multiset(r) <= multiset(rows)
  {
    Filter(rows, r => !InState(r, courseId, userId, false))
  }

  /** POST /course/<id>/cancel. The course id is not checked against `courses`; the
      lookup query binds it. */
  function CancelReview(t: ReviewTable, courseId: int, name: string, sha: string -> Digest): (r: (CancelOutcome, ReviewTable))
    ensures r.0 == NameMissing <==> AllSpace(name)
    ensures r.0 == CancelOutcome.ServerError <==> !AllSpace(name) && !InSqliteRange(courseId)
    ensures r.0 == NoActiveReview <==>
      && !AllSpace(name) && InSqliteRange(courseId)
      && !KeyTaken(t.rows, courseId, MakeUserId(sha, Strip(name)), true)
    ensures r.0 == Cancelled <==>
      && !AllSpace(name) && InSqliteRange(courseId)
      && KeyTaken(t.rows, courseId, MakeUserId(sha, Strip(name)), true)
    ensures r.0 != Cancelled ==> r.1 == t
    ensures r.1.lastId == t.lastId
  {
    var n := Strip(name);
    if n == [] then (NameMissing, t)
    else if !InSqliteRange(courseId) then (CancelOutcome.ServerError, t)
    else
      var userId := MakeUserId(sha, n);
      match NewestActive(t.rows, courseId, userId)
      case None => (NoActiveReview, t)
      case Some(row) =>
        (Cancelled, ReviewTable(Deactivate(DeleteInactive(t.rows, courseId, userId), row.id), t.lastId))
  }

  // ---------------------------------------------------------------------------
  // The UNIQUE(course_id, user_id, active) invariant

  /** In a valid table a row is determined by its id, and by its UNIQUE key. */
  lemma ValidRowsUnique(rows: seq<Review>, x: Review, y: Review)
    requires Pairwise(rows, ReviewsCompatible)
    requires x in rows && y in rows
    ensures x.id == y.id ==> x == y
    ensures InState(y, x.courseId, x.userId, x.active) ==> x == y
  {
    var i :| 0 <= i < |rows| && rows[i] == x;
    var j :| 0 <= j < |rows| && rows[j] == y;
    if i < j {
      assert ReviewsCompatible(rows[i], rows[j]);
    } else if j < i {
      assert ReviewsCompatible(rows[j], rows[i]);
    }
  }

  /** A valid table has at most one active and at most one inactive row per pair. */
  lemma AtMostOneRowPerKey(t: ReviewTable, courseId: int, userId: string, active: bool)
    requires ValidReviews(t)
    ensures |PairRows(t.rows, courseId, userId, active)| <= 1
  {
    var p := PairRows(t.rows, courseId, userId, active);
    if |p| >= 2 {
      assert p[0] in p && p[1] in p;
      FilterPairwise(t.rows, r => InState(r, courseId, userId, active), ReviewsCompatible);
    }
  }

  /** When the key is taken in a valid table, the pair's rows with that flag are exactly that one row. */
  lemma PairRowsOfTakenKey(rows: seq<Review>, x: Review)
    requires Pairwise(rows, ReviewsCompatible)
    requires x in rows
    ensures PairRows(rows, x.courseId, x.userId, x.active) == [x]
  {
    var k :| 0 <= k < |rows| && rows[k] == x;
    forall i | 0 <= i < |rows| && i != k
      ensures !InState(rows[i], x.courseId, x.userId, x.active)
    {
    }
    FilterSingleton(rows, r => InState(r, x.courseId, x.userId, x.active), k);
  }

  /** Deactivating a row of the pair leaves every other pair's rows as they were. */
  lemma {:induction false} DeactivateKeepsOthers(rows: seq<Review>, id: nat, courseId: int, userId: string)
    requires forall x :: x in rows && x.id == id ==> OfPair(x, courseId, userId)
    ensures OtherRows(Deactivate(rows, id), courseId, userId) == OtherRows(rows, courseId, userId)
  {
    if |rows| > 0 {
      DeactivateKeepsOthers(rows[1..], id, courseId, userId);
      assert Deactivate(rows, id)[1..] == Deactivate(rows[1..], id);
    }
  }

  /** What DELETE keeps of a valid table when `row` is the pair's active row:
      a valid sequence with no inactive pair row, in which `row` is the only row with its id
      and the only active row of the pair. */
  lemma DeleteInactiveFacts(rows: seq<Review>, courseId: int, userId: string, row: Review)
    requires Pairwise(rows, ReviewsCompatible)
    requires row in rows && InState(row, courseId, userId, true)
    ensures var kept := DeleteInactive(rows, courseId, userId);
            && Pairwise(kept, ReviewsCompatible)
            && row in kept
            && (forall x :: x in kept ==> !InState(x, courseId, userId, false))
            && (forall x :: x in kept && x.id == row.id ==> x == row)
            && (forall x :: x in kept && InState(x, courseId, userId, true) ==> x == row)
  {
    var kept := DeleteInactive(rows, courseId, userId);
    FilterPairwise(rows, r => !InState(r, courseId, userId, false), ReviewsCompatible);
    forall x | x in kept
      ensures x.id == row.id ==> x == row
      ensures InState(x, courseId, userId, true) ==> x == row
    {
      ValidRowsUnique(rows, row, x);
    }
  }

  /** After DELETE, deactivating the pair's active row touches no other pair. */
  lemma CancelKeepsOtherPairs(rows: seq<Review>, courseId: int, userId: string, row: Review)
    requires Pairwise(rows, ReviewsCompatible)
    requires row in rows && InState(row, courseId, userId, true)
    ensures OtherRows(Deactivate(DeleteInactive(rows, courseId, userId), row.id), courseId, userId)
         == OtherRows(rows, courseId, userId)
  {
    var kept := DeleteInactive(rows, courseId, userId);
    DeleteInactiveFacts(rows, courseId, userId, row);
    DeactivateKeepsOthers(kept, row.id, courseId, userId);
    FilterAbsorb(rows, r => !InState(r, courseId, userId, false), r => !OfPair(r, courseId, userId));
  }

  /** After DELETE, deactivating the pair's active row makes it the pair's one inactive row ... */
  lemma CancelLeavesOneInactive(rows: seq<Review>, courseId: int, userId: string, row: Review)
    requires Pairwise(rows, ReviewsCompatible)
    requires row in rows && InState(row, courseId, userId, true)
    ensures PairRows(Deactivate(DeleteInactive(rows, courseId, userId), row.id), courseId, userId, false)
         == [row.(active := false)]
  {
    var kept := DeleteInactive(rows, courseId, userId);
    var u := Deactivate(kept, row.id);
    DeleteInactiveFacts(rows, courseId, userId, row);
    var k :| 0 <= k < |kept| && kept[k] == row;
    forall i | 0 <= i < |u| && i != k
      ensures kept[i].id != row.id
    {
      if i < k {
        assert ReviewsCompatible(kept[i], kept[k]);
      } else {
        assert ReviewsCompatible(kept[k], kept[i]);
      }
    }
    forall i | 0 <= i < |u| && i != k
      ensures !InState(u[i], courseId, userId, false)
    {
      assert kept[i] in kept;
    }
    FilterSingleton(u, r => InState(r, courseId, userId, false), k);
  }

  /** ... and leaves the pair with no active row. */
  lemma CancelLeavesNoActive(rows: seq<Review>, courseId: int, userId: string, row: Review)
    requires Pairwise(rows, ReviewsCompatible)
    requires row in rows && InState(row, courseId, userId, true)
    ensures PairRows(Deactivate(DeleteInactive(rows, courseId, userId), row.id), courseId, userId, true) == []
  {
    var kept := DeleteInactive(rows, courseId, userId);
    var u := Deactivate(kept, row.id);
    DeleteInactiveFacts(rows, courseId, userId, row);
    forall x | x in u
      ensures !InState(x, courseId, userId, true)
    {
      var i :| 0 <= i < |u| && u[i] == x;
      assert kept[i] in kept;
    }
    FilterNone(u, r => InState(r, courseId, userId, true));
  }

  /** After DELETE, deactivating the pair's active row keeps the table's constraints. */
  lemma CancelKeepsValid(t: ReviewTable, courseId: int, userId: string, row: Review)
    requires ValidReviews(t)
    requires row in t.rows && InState(row, courseId, userId, true)
    ensures ValidReviews(ReviewTable(Deactivate(DeleteInactive(t.rows, courseId, userId), row.id), t.lastId))
  {
    var kept := DeleteInactive(t.rows, courseId, userId);
    var u := Deactivate(kept, row.id);
    DeleteInactiveFacts(t.rows, courseId, userId, row);
    forall i, j | 0 <= i < j < |u|
      ensures ReviewsCompatible(u[i], u[j])
    {
      assert ReviewsCompatible(kept[i], kept[j]);
      assert kept[i] in kept && kept[j] in kept;
    }
    forall x | x in u
      ensures RatingInRange(x.difficulty) && RatingInRange(x.recommend) && 1 <= x.id <= t.lastId
    {
      var i :| 0 <= i < |u| && u[i] == x;
      assert kept[i] in t.rows;
    }
  }

  /** The effect of a successful cancel on a valid table: the pair's one active row
      becomes its one inactive row, the pair has no active row, every other pair's
      rows are untouched, and the table stays valid. */
  lemma CancelEffect(t: ReviewTable, courseId: int, name: string, sha: string -> Digest)
    requires ValidReviews(t)
    requires CancelReview(t, courseId, name, sha).0 == Cancelled
    ensures var userId := MakeUserId(sha, Strip(name));
            var t' := CancelReview(t, courseId, name, sha).1;
            var row := NewestActive(t.rows, courseId, userId).value;
            && PairRows(t.rows, courseId, userId, true) == [row]
            && PairRows(t'.rows, courseId, userId, true) == []
            && PairRows(t'.rows, courseId, userId, false) == [row.(active := false)]
            && OtherRows(t'.rows, courseId, userId) == OtherRows(t.rows, courseId, userId)
            && ValidReviews(t')
  {
    var userId := MakeUserId(sha, Strip(name));
    var row := NewestActive(t.rows, courseId, userId).value;
    PairRowsOfTakenKey(t.rows, row);
    CancelKeepsOtherPairs(t.rows, courseId, userId, row);
    CancelLeavesOneInactive(t.rows, courseId, userId, row);
    CancelLeavesNoActive(t.rows, courseId, userId, row);
    CancelKeepsValid(t, courseId, userId, row);
  }

  // ---------------------------------------------------------------------------
  // Scenarios

  /** Once a review is added, a second submission under the same (stripped) name for
      the same course changes nothing: the UNIQUE constraint refuses it, unless a rating
      SQLite cannot hold fails the request first. */
  lemma SecondAddRefused(courses: CourseTable, t: ReviewTable, courseId: int, form: ReviewForm,
                         form2: ReviewForm, sha: string -> Digest, now: Timestamp, now2: Timestamp)
    requires AddReview(courses, t, courseId, form, sha, now).0 == Added
    requires FormComplete(form2) && Strip(form2.name) == Strip(form.name)
    ensures var t1 := AddReview(courses, t, courseId, form, sha, now).1;
            var a := AddReview(courses, t1, courseId, form2, sha, now2);
            && a.1 == t1
            && (a.0 == ConstraintViolation || a.0 == AddOutcome.ServerError)
            && (InSqliteRange(form2.difficulty.value) && InSqliteRange(form2.recommend.value) ==>
                  a.0 == ConstraintViolation)
  {
    var t1 := AddReview(courses, t, courseId, form, sha, now).1;
    var row := NewReview(courseId, form, sha, now).(id := t.lastId + 1);
    assert row in t1.rows;
    assert InState(row, courseId, MakeUserId(sha, Strip(form2.name)), true);
  }

  /** A key is taken exactly when the pair has a row with that flag. */
  lemma KeyTakenIffPairRows(rows: seq<Review>, courseId: int, userId: string, active: bool)
    ensures KeyTaken(rows, courseId, userId, active) <==> PairRows(rows, courseId, userId, active) != []
  {
    var p := PairRows(rows, courseId, userId, active);
    if p != [] {
      assert p[0] in p;
    }
    if KeyTaken(rows, courseId, userId, active) {
      var x :| x in rows && InState(x, courseId, userId, active);
      assert x in p;
    }
  }

  /** Appending a row adds it to its own pair's rows and to no other. */
  lemma PairRowsAppend(rows: seq<Review>, x: Review, courseId: int, userId: string, active: bool)
    ensures PairRows(rows + [x], courseId, userId, active)
         == PairRows(rows, courseId, userId, active) + (if InState(x, courseId, userId, active) then [x] else [])
  {
    FilterConcat(rows, [x], r => InState(r, courseId, userId, active));
  }

  /** A complete, in-range form for a known course whose pair has no active row is added. */
  lemma {:induction false} AddWhenKeyFree(courses: CourseTable, t: ReviewTable, courseId: int, form: ReviewForm,
                                          sha: string -> Digest, now: Timestamp)
    requires InSqliteRange(courseId)
    requires FindCourse(courses, courseId).Some? && FormComplete(form)
    requires RatingInRange(form.difficulty.value) && RatingInRange(form.recommend.value)
    requires PairRows(t.rows, courseId, MakeUserId(sha, Strip(form.name)), true) == []
    ensures var a := AddReview(courses, t, courseId, form, sha, now);
            && a.0 == Added
            && a.1.rows == t.rows + [NewReview(courseId, form, sha, now).(id := t.lastId + 1)]
  {
    KeyTakenIffPairRows(t.rows, courseId, MakeUserId(sha, Strip(form.name)), true);
  }

  /** Adding to a pair with no active row (one whose review was withdrawn, say): the
      new row is the pair's one active row and the pair's inactive rows stay as they were. */
  lemma {:induction false} AddAfterCancel(courses: CourseTable, t: ReviewTable, courseId: int, form: ReviewForm,
                       sha: string -> Digest, now: Timestamp)
    requires InSqliteRange(courseId)
    requires FindCourse(courses, courseId).Some? && FormComplete(form)
    requires RatingInRange(form.difficulty.value) && RatingInRange(form.recommend.value)
    requires PairRows(t.rows, courseId, MakeUserId(sha, Strip(form.name)), true) == []
    ensures var userId := MakeUserId(sha, Strip(form.name));
            var a := AddReview(courses, t, courseId, form, sha, now);
            && a.0 == Added
            && |PairRows(a.1.rows, courseId, userId, true)| == 1
            && PairRows(a.1.rows, courseId, userId, true)[0].createdAt == now
            && PairRows(a.1.rows, courseId, userId, false) == PairRows(t.rows, courseId, userId, false)
  {
    var userId := MakeUserId(sha, Strip(form.name));
    AddWhenKeyFree(courses, t, courseId, form, sha, now);
    var added := NewReview(courseId, form, sha, now).(id := t.lastId + 1);
    assert InState(added, courseId, userId, true);
    PairRowsAppend(t.rows, added, courseId, userId, true);
    PairRowsAppend(t.rows, added, courseId, userId, false);
  }

  /** Right after a successful add, cancelling under the same name succeeds. */
  lemma {:induction false} CancelAfterAdd(courses: CourseTable, t: ReviewTable, courseId: int,
                                          form: ReviewForm, sha: string -> Digest, now: Timestamp)
    requires AddReview(courses, t, courseId, form, sha, now).0 == Added
    ensures CancelReview(AddReview(courses, t, courseId, form, sha, now).1, courseId, form.name, sha).0 == Cancelled
  {
    var t1 := AddReview(courses, t, courseId, form, sha, now).1;
    var row := NewReview(courseId, form, sha, now).(id := t.lastId + 1);
    assert FormComplete(form);
    assert t1.rows == t.rows + [row];
    assert row in t1.rows;
    assert InState(row, courseId, MakeUserId(sha, Strip(form.name)), true);
    assert KeyTaken(t1.rows, courseId, MakeUserId(sha, Strip(form.name)), true);
  }

  /** Add, cancel, add again: the pair ends with exactly one active row (the newest
      submission) and exactly one inactive row. */
  lemma {:induction false} AddCancelAdd(courses: CourseTable, t: ReviewTable, courseId: int, form: ReviewForm,
                     form2: ReviewForm, sha: string -> Digest, now: Timestamp, now2: Timestamp)
    requires ValidReviews(t)
    requires AddReview(courses, t, courseId, form, sha, now).0 == Added
    requires FormComplete(form2) && Strip(form2.name) == Strip(form.name)
    requires RatingInRange(form2.difficulty.value) && RatingInRange(form2.recommend.value)
    ensures var userId := MakeUserId(sha, Strip(form.name));
            var t1 := AddReview(courses, t, courseId, form, sha, now).1;
            var c := CancelReview(t1, courseId, form.name, sha);
            var a := AddReview(courses, c.1, courseId, form2, sha, now2);
            && c.0 == Cancelled
            && a.0 == Added
            && |PairRows(a.1.rows, courseId, userId, true)| == 1
            && PairRows(a.1.rows, courseId, userId, true)[0].createdAt == now2
            && |PairRows(a.1.rows, courseId, userId, false)| == 1
  {
    var t1 := AddReview(courses, t, courseId, form, sha, now).1;
    CancelAfterAdd(courses, t, courseId, form, sha, now);
    CancelEffect(t1, courseId, form.name, sha);
    AddAfterCancel(courses, CancelReview(t1, courseId, form.name, sha).1, courseId, form2, sha, now2);
  }

  // ---------------------------------------------------------------------------
  // The table as a state machine driven by requests

  /** The defaults of a freshly added row: active, attendance 0 unless the checkbox
      was ticked, assessment "none" unless given, comment stripped, stamped `now`. */
  lemma AddedRowDefaults(courses: CourseTable, t: ReviewTable, courseId: int, form: ReviewForm,
                         sha: string -> Digest, now: Timestamp)
    requires AddReview(courses, t, courseId, form, sha, now).0 == Added
    ensures var rows := AddReview(courses, t, courseId, form, sha, now).1.rows;
            var row := rows[|rows| - 1];
            && |rows| == |t.rows| + 1
            && row.active && row.createdAt == now && row.courseId == courseId
            && (row.attendanceRequired == 1 <==> form.attendance == Some("on"))
            && (form.attendance != Some("on") ==> row.attendanceRequired == DefaultAttendance)
            && (form.assessment.None? ==> row.assessment == DefaultAssessment)
            && row.comment == Strip(form.comment)
            && row.id > t.lastId
  {
  }

  /** Whatever its outcome, a cancel keeps the table's constraints. */
  lemma CancelKeepsTableValid(t: ReviewTable, courseId: int, name: string, sha: string -> Digest)
    requires ValidReviews(t)
    ensures ValidReviews(CancelReview(t, courseId, name, sha).1)
  {
    if CancelReview(t, courseId, name, sha).0 == Cancelled {
      CancelEffect(t, courseId, name, sha);
    }
  }

  /** A request that writes to `reviews`. */
  datatype Request =
    | AddRequest(courseId: int, form: ReviewForm, now: Timestamp)
    | CancelRequest(courseId: int, name: string)

  /** The table after one request. */
  function Step(courses: CourseTable, t: ReviewTable, req: Request, sha: string -> Digest): ReviewTable {
    match req
    case AddRequest(c, form, now) => AddReview(courses, t, c, form, sha, now).1
    case CancelRequest(c, name) => CancelReview(t, c, name, sha).1
  }

  /** The table after a sequence of requests, served one at a time. */
  function Run(courses: CourseTable, t: ReviewTable, reqs: seq<Request>, sha: string -> Digest): ReviewTable
    decreases |reqs|
  {
    if |reqs| == 0 then t else Run(courses, Step(courses, t, reqs[0], sha), reqs[1..], sha)
  }

  /** Every table reachable through add and cancel requests satisfies the schema's
      constraints: ratings in 1..5, distinct ids, and per (course, user) pair at most
      one active and at most one inactive row. */
  lemma {:induction false} RunKeepsValid(courses: CourseTable, t: ReviewTable, reqs: seq<Request>,
                                         sha: string -> Digest)
    requires ValidReviews(t)
    ensures ValidReviews(Run(courses, t, reqs, sha))
    ensures forall c, u, a :: |PairRows(Run(courses, t, reqs, sha).rows, c, u, a)| <= 1
    decreases |reqs|
  {
    if |reqs| > 0 {
      var t' := Step(courses, t, reqs[0], sha);
      match reqs[0] {
        case AddRequest(_, _, _) =>
        case CancelRequest(c, name) => CancelKeepsTableValid(t, c, name, sha);
      }
      RunKeepsValid(courses, t', reqs[1..], sha);
    } else {
      forall c, u, a
        ensures |PairRows(t.rows, c, u, a)| <= 1
      {
        AtMostOneRowPerKey(t, c, u, a);
      }
    }
  }
}
