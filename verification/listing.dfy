/** GET /course/<id>/ and /course/<id>/page/<n>/: the course's active reviews,
    optionally floored by `min_recommend`, newest first, cut into pages of 50. */
module Listing {
  import opened Wrappers
  import opened Seqs
  import opened Sorting
  import opened Schema

  const PerPage: nat := 50

  /** `if min_rec:` — the floor applies only when present and non-zero. */
  predicate FloorGiven(minRecommend: Option<int>) {
    minRecommend.Some? && minRecommend.value != 0
  }

  /** The listing's WHERE clause: `course_id=? AND active=1 [AND recommend>=?]`. */
  predicate Listed(r: Review, courseId: int, minRecommend: Option<int>) {
    && r.courseId == courseId
    && r.active
    && (FloorGiven(minRecommend) ==> r.recommend >= minRecommend.value)
  }

  /** `ORDER BY created_at DESC` */
  predicate NewerOrSame(a: Review, b: Review) {
    a.createdAt >= b.createdAt
  }

  lemma NewerOrSameIsTotalPreorder()
    ensures TotalPreorder(NewerOrSame)
  {
  }

  /** The rows the WHERE clause selects, in table order. */
  function Selected(t: ReviewTable, courseId: int, minRecommend: Option<int>): seq<Review> {
    Filter(t.rows, r => Listed(r, courseId, minRecommend))
  }

  /** The listing query: exactly the selected rows, newest first. */
  function ListReviews(t: ReviewTable, courseId: int, minRecommend: Option<int>): (r: seq<Review>)
    ensures forall x :: x in r ==> x in t.rows && Listed(x, courseId, minRecommend)
    ensures forall x :: x in t.rows && Listed(x, courseId, minRecommend) ==> x in r
    ensures multiset(r) == multiset(Selected(t, courseId, minRecommend))
    ensures forall i, j :: 0 <= i < j < |r| ==> r[i].createdAt >= r[j].createdAt
  {
    NewerOrSameIsTotalPreorder();
    var s := Selected(t, courseId, minRecommend);
    var r := SortBy(s, NewerOrSame);
    assert forall x :: x in r <==> x in multiset(r);
    assert forall x :: x in s <==> x in multiset(s);
    assert Sorted(r, NewerOrSame);
    r
  }

  /** A `min_recommend` of 0 lists the same reviews as none at all. */
  lemma {:induction false} ZeroFloorIsNoFloor(t: ReviewTable, courseId: int)
    ensures multiset(ListReviews(t, courseId, Some(0))) == multiset(ListReviews(t, courseId, None))
  {
    assert forall r :: Listed(r, courseId, Some(0)) <==> Listed(r, courseId, None);
    FilterMonotone(t.rows, r => Listed(r, courseId, Some(0)), r => Listed(r, courseId, None));
    FilterMonotone(t.rows, r => Listed(r, courseId, None), r => Listed(r, courseId, Some(0)));
  }

  /** A higher floor lists no review a lower one leaves out. */
  lemma {:induction false} HigherFloorShrinksListing(t: ReviewTable, courseId: int, low: int, high: int)
    requires 0 < low <= high
    ensures multiset(ListReviews(t, courseId, Some(high))) <= multiset(ListReviews(t, courseId, Some(low)))
  {
    assert forall r :: r in t.rows && Listed(r, courseId, Some(high)) ==> Listed(r, courseId, Some(low));
    FilterMonotone(t.rows, r => Listed(r, courseId, Some(high)), r => Listed(r, courseId, Some(low)));
    assert multiset(Selected(t, courseId, Some(high))) <= multiset(Selected(t, courseId, Some(low)));
  }

  /** Python's normalisation of a slice bound `i` for a sequence of length `n`. */
  function SliceBound(i: int, n: nat): (r: nat)
    ensures r <= n
    ensures 0 <= i <= n ==> r == i
  {
    if i < 0 then (if i + n < 0 then 0 else i + n)
    else if i > n then n
    else i
  }

  lemma SliceBoundMonotone(i: int, j: int, n: nat)
    requires 0 <= i <= j
    ensures SliceBound(i, n) <= SliceBound(j, n)
  {
  }

  /** Python's `s[start:stop]`: for non-negative bounds, `s[start..stop]` cut at the end. */
  function PySlice<T>(s: seq<T>, start: int, stop: int): (r: seq<T>)
    ensures |r| <= |s|
    ensures 0 <= start <= stop ==> r == s[Min(start, |s|)..Min(stop, |s|)]
    ensures 0 <= stop <= start ==> r == []
    ensures stop == 0 ==> r == []
  {
    var a := SliceBound(start, |s|);
    var b := SliceBound(stop, |s|);
    assert 0 <= stop <= start ==> b <= a by {
      if 0 <= stop <= start {
        SliceBoundMonotone(stop, start, |s|);
      }
    }
    if a < b then s[a..b] else []
  }

  /** What `course.html` receives about the page. */
  datatype PageWindow<T> = PageWindow(
    items: seq<T>, page: nat, pages: nat, total: nat, hasNext: bool, hasPrev: bool)

  /** The pagination arithmetic of `course_view`. `page` is a nat because Flask's
      `int` URL converter accepts only digit strings. */
  function Paginate<T>(all: seq<T>, page: nat): (r: PageWindow<T>)
    ensures r.total == |all| && r.page == page
    ensures r.pages * PerPage >= r.total
    ensures r.pages == 0 || (r.pages - 1) * PerPage < r.total
    ensures |r.items| <= PerPage
  {
    var total := |all|;
    var pages := (total + PerPage - 1) / PerPage;
    var start := (page - 1) * PerPage;
    var end := start + PerPage;
    PageWindow(PySlice(all, start, end), page, pages, total, end < total, start > 0)
  }

  function Min(a: int, b: int): int {
    if a <= b then a else b
  }

  /** A page from 1 on holds the items from position (page-1)*50 up to page*50, cut at
      the end; there is a next page exactly when this page is not the last, and a
      previous one exactly when this is not page 1; a page past the end is empty. */
  lemma PageContents<T>(all: seq<T>, page: nat)
    requires page >= 1
    ensures var r := Paginate(all, page);
            && r.items == all[Min((page - 1) * PerPage, |all|)..Min(page * PerPage, |all|)]
            && (r.hasNext <==> page * PerPage < |all|)
            && (r.hasNext <==> page < r.pages)
            && (r.hasPrev <==> page > 1)
            && (page > r.pages ==> r.items == [])
  {
    var r := Paginate(all, page);
    if page < r.pages {
      assert (r.pages - 1) * PerPage < |all|;
      assert page * PerPage <= (r.pages - 1) * PerPage;
    }
    if page * PerPage < |all| {
      assert page * PerPage < r.pages * PerPage;
    }
    if page > r.pages {
      assert (page - 1) * PerPage >= r.pages * PerPage;
    }
  }

  /** Page 0 (Python's negative slice start) shows nothing, has no previous page,
      and has a next page whenever there is any review. */
  lemma PageZero<T>(all: seq<T>)
    ensures var r := Paginate(all, 0);
            r.items == [] && !r.hasPrev && (r.hasNext <==> |all| > 0)
  {
  }

  /** Every item sits on page i/50 + 1 at position i%50. */
  lemma ItemPlacement<T>(all: seq<T>, i: nat)
    requires i < |all|
    ensures var r := Paginate(all, i / PerPage + 1);
            i % PerPage < |r.items| && r.items[i % PerPage] == all[i]
  {
    var page := i / PerPage + 1;
    PageContents(all, page);
    assert (page - 1) * PerPage + i % PerPage == i;
  }

  /** Pages 1..k laid end to end. */
  function PagesUpTo<T>(all: seq<T>, k: nat): seq<T> {
    if k == 0 then [] else PagesUpTo(all, k - 1) + Paginate(all, k).items
  }

  /** The first k pages are the first k*50 items. */
  lemma {:induction false} PagesUpToPrefix<T>(all: seq<T>, k: nat)
    ensures PagesUpTo(all, k) == all[..Min(k * PerPage, |all|)]
  {
    if k > 0 {
      PagesUpToPrefix(all, k - 1);
      PageContents(all, k);
      var a := Min((k - 1) * PerPage, |all|);
      var b := Min(k * PerPage, |all|);
      assert all[..a] + all[a..b] == all[..b];
    }
  }

  /** The pages partition the listing: read in order they give every item once. */
  lemma PagesPartition<T>(all: seq<T>)
    ensures PagesUpTo(all, Paginate(all, 1).pages) == all
  {
    var pages := Paginate(all, 1).pages;
    PagesUpToPrefix(all, pages);
    assert all[..|all|] == all;
  }

  /** A page of an ordered listing keeps the listing's order. */
  lemma PageKeepsOrder<T>(all: seq<T>, page: nat, le: (T, T) -> bool)
    requires Sorted(all, le)
    ensures Sorted(Paginate(all, page).items, le)
  {
    if page > 0 {
      var a, b := Min((page - 1) * PerPage, |all|), Min(page * PerPage, |all|);
      var items := all[a..b];
      assert Paginate(all, page).items == items;
      forall i, j | 0 <= i < j < |items|
        ensures le(items[i], items[j])
      {
        assert items[i] == all[a + i] && items[j] == all[a + j];
      }
    }
  }

  /** What `course.html` receives. */
  datatype CoursePage = CoursePage(course: Course, window: PageWindow<Review>, minRecommend: Option<int>)

  /** What `course_view` answers: 404, HTTP 500 when a query binds an int SQLite
      cannot hold, or the rendered page. */
  datatype ViewOutcome = CourseNotFound | ServerError | Shown(view: CoursePage)

  /** The page `course_view` renders for a course it found: the requested page of
      the newest-first listing. */
  function ShowPage(course: Course, t: ReviewTable, courseId: int, page: nat,
                    minRecommend: Option<int>): (p: CoursePage)
    ensures p.course == course
    ensures p.window == Paginate(ListReviews(t, courseId, minRecommend), page)
    ensures forall x :: x in p.window.items ==> x in t.rows && Listed(x, courseId, minRecommend)
    ensures Sorted(p.window.items, NewerOrSame)
    ensures p.window.total == |Selected(t, courseId, minRecommend)|
  {
    var all := ListReviews(t, courseId, minRecommend);
    var w := Paginate(all, page);
    assert |all| == |multiset(all)|;
    assert Sorted(all, NewerOrSame);
    PageKeepsOrder(all, page, NewerOrSame);
    PageItemsListed(all, page);
    CoursePage(course, w, minRecommend)
  }

  /** Every item of a page is an item of the listing. */
  lemma PageItemsListed<T>(all: seq<T>, page: nat)
    ensures forall x :: x in Paginate(all, page).items ==> x in all
  {
    if page > 0 {
      var a, b := Min((page - 1) * PerPage, |all|), Min(page * PerPage, |all|);
      assert 0 <= a <= b <= |all| && Paginate(all, page).items == all[a..b];
      forall x | x in all[a..b]
        ensures x in all
      {
        var k :| 0 <= k < b - a && all[a..b][k] == x;
        assert all[a..b][k] == all[a + k];
      }
    }
  }

  /** `course_view`. The course lookup binds the course id; the listing query binds
      the floor when one is given. */
  function CourseView(courses: CourseTable, t: ReviewTable, courseId: int, page: nat,
                      minRecommend: Option<int>): (r: ViewOutcome)
    ensures r.ServerError? <==>
      || !InSqliteRange(courseId)
      || (FindCourse(courses, courseId).Some? && FloorGiven(minRecommend) && !InSqliteRange(minRecommend.value))
    ensures r.CourseNotFound? <==> InSqliteRange(courseId) && forall c :: c in courses.rows ==> c.id != courseId
    ensures r.Shown? ==> r.view.course in courses.rows && r.view.course.id == courseId
    ensures r.Shown? ==> r.view.window == Paginate(ListReviews(t, courseId, minRecommend), page)
    ensures r.Shown? ==> forall x :: x in r.view.window.items ==> x in t.rows && Listed(x, courseId, minRecommend)
    ensures r.Shown? ==> Sorted(r.view.window.items, NewerOrSame)
    ensures r.Shown? ==> r.view.window.total == |Selected(t, courseId, minRecommend)|
  {
    if !InSqliteRange(courseId) then ServerError
    else match FindCourse(courses, courseId)
      case None => CourseNotFound
      case Some(course) =>
        if FloorGiven(minRecommend) && !InSqliteRange(minRecommend.value) then ServerError
        else Shown(ShowPage(course, t, courseId, page, minRecommend))
  }
}
