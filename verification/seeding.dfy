/** `seed_sample_courses`: insert each sample course, silently skipping one whose
    `code` is already present (the UNIQUE constraint raises and the error is ignored). */
module Seeding {
  import opened Wrappers
  import opened Seqs
  import opened Schema

  /** The inserted columns of a course; `credits` (always 2) is not modelled and
      `syllabus_url` is always NULL. */
  datatype CourseSeed = CourseSeed(
    code: string, title: string, area: string, year: int, semester: string, schedule: string)

  const Samples: seq<CourseSeed> := [
    CourseSeed("SES101", "社会経済入門", "基礎", 1, "前期", "月1"),
    CourseSeed("ENG201", "経営工学基礎", "経営工学", 2, "前期", "火2-3"),
    CourseSeed("URP301", "都市計画論", "都市計画", 3, "後期", "水4"),
    CourseSeed("STAT220", "統計学入門", "基礎", 2, "前期", "木3")
  ]

  /** The row the seeding INSERT writes for `s` under primary key `id`: the seed's
      columns and a NULL `syllabus_url`. */
  function SeedRow(s: CourseSeed, id: nat): Course {
    Course(id, s.code, s.title, s.area, s.year, s.semester, s.schedule, None)
  }

  /** The rows the seeds would receive, in order, under consecutive ids from `first`. */
  function SeedRows(seeds: seq<CourseSeed>, first: nat): (r: seq<Course>)
    ensures |r| == |seeds|
    decreases |seeds|
  {
    if |seeds| == 0 then [] else [SeedRow(seeds[0], first)] + SeedRows(seeds[1..], first + 1)
  }

  /** The row came from one of the seeds. */
  predicate SeededFrom(c: Course, seeds: seq<CourseSeed>) {
    exists s :: s in seeds && c == SeedRow(s, c.id)
  }

  function SeedCodes(seeds: seq<CourseSeed>): set<string> {
    set s | s in seeds :: s.code
  }

  /** `INSERT INTO courses ...`: fails (None) exactly when the code is taken;
      otherwise appends one row under the next AUTOINCREMENT id. */
  function InsertCourse(t: CourseTable, s: CourseSeed): (r: Option<CourseTable>)
    ensures r.None? <==> s.code in Codes(t)
    ensures r.Some? ==> Codes(r.value) == Codes(t) + {s.code}
    ensures r.Some? ==> |r.value.rows| == |t.rows| + 1 && t.rows <= r.value.rows
    ensures r.Some? ==> r.value.lastId == t.lastId + 1 && r.value.rows[|t.rows|] == SeedRow(s, t.lastId + 1)
    ensures r.Some? && ValidCourses(t) ==> ValidCourses(r.value)
  {
    if exists c :: c in t.rows && c.code == s.code then None
    else
      var id := t.lastId + 1;
      var row := SeedRow(s, id);
      var rows := t.rows + [row];
      assert forall c :: c in rows ==> c in t.rows || c == row;
      assert ValidCourses(t) ==> Pairwise(rows, CoursesCompatible) by {
        if ValidCourses(t) {
          forall i, j | 0 <= i < j < |rows|
            ensures CoursesCompatible(rows[i], rows[j])
          {
            if j == |t.rows| {
              assert rows[i] in t.rows;
            }
          }
        }
      }
      Some(CourseTable(rows, id))
  }

  /** One iteration of the seeding loop: the INSERT, or nothing when it raises. */
  function InsertOrSkip(t: CourseTable, s: CourseSeed): (r: CourseTable)
    ensures Codes(r) == Codes(t) + {s.code}
    ensures t.rows <= r.rows
    ensures ValidCourses(t) ==> ValidCourses(r)
    ensures s.code in Codes(t) ==> r == t
    ensures s.code !in Codes(t) ==> r.rows == t.rows + [SeedRow(s, t.lastId + 1)] && r.lastId == t.lastId + 1
    ensures r.rows == t.rows || r.rows == t.rows + [SeedRow(s, t.lastId + 1)]
  {
    match InsertCourse(t, s)
    case Some(t') => t'
    case None => t
  }

  /** The seeding loop with its `try ... except IntegrityError: pass`. */
  function SeedAll(t: CourseTable, seeds: seq<CourseSeed>): (r: CourseTable)
    ensures Codes(r) == Codes(t) + SeedCodes(seeds)
    ensures t.rows <= r.rows
    ensures forall k :: |t.rows| <= k < |r.rows| ==> SeededFrom(r.rows[k], seeds)
    ensures ValidCourses(t) ==> ValidCourses(r)
    decreases |seeds|
  {
    if |seeds| == 0 then t
    else
      assert SeedCodes(seeds) == {seeds[0].code} + SeedCodes(seeds[1..]) by {
        assert forall s :: s in seeds ==> s == seeds[0] || s in seeds[1..];
      }
      var t' := InsertOrSkip(t, seeds[0]);
      var r := SeedAll(t', seeds[1..]);
      SeededAfterFirst(t.rows, t'.rows, r.rows, seeds, t.lastId + 1);
      r
  }

  /** The rows `SeedAll` adds come from the first seed or, after it, from the rest. */
  lemma SeededAfterFirst(rows0: seq<Course>, rows1: seq<Course>, rows: seq<Course>,
                         seeds: seq<CourseSeed>, id: nat)
    requires |seeds| > 0
    requires rows1 == rows0 || rows1 == rows0 + [SeedRow(seeds[0], id)]
    requires rows1 <= rows
    requires forall k :: |rows1| <= k < |rows| ==> SeededFrom(rows[k], seeds[1..])
    ensures forall k :: |rows0| <= k < |rows| ==> SeededFrom(rows[k], seeds)
  {
    forall k | |rows0| <= k < |rows|
      ensures SeededFrom(rows[k], seeds)
    {
      if k < |rows1| {
        assert rows[k] == rows1[k] == SeedRow(seeds[0], id);
        assert seeds[0] in seeds;
      } else {
        assert SeededFrom(rows[k], seeds[1..]);
        var x :| x in seeds[1..] && rows[k] == SeedRow(x, rows[k].id);
        assert x in seeds;
      }
    }
  }

  /** `seed_sample_courses`: the four sample codes are present afterwards, and every
      row that was there before is kept, in place. */
  function SeedSampleCourses(t: CourseTable): (r: CourseTable)
    ensures Codes(r) == Codes(t) + {"SES101", "ENG201", "URP301", "STAT220"}
    ensures t.rows <= r.rows
    ensures forall k :: |t.rows| <= k < |r.rows| ==> SeededFrom(r.rows[k], Samples)
    ensures ValidCourses(t) ==> ValidCourses(r)
  {
    SampleCodeSet();
    SeedAll(t, Samples)
  }

  /** Seeding codes that are all present already changes nothing. */
  lemma {:induction false} SeedAllSkipsPresent(t: CourseTable, seeds: seq<CourseSeed>)
    requires SeedCodes(seeds) <= Codes(t)
    ensures SeedAll(t, seeds) == t
  {
    if |seeds| > 0 {
      assert seeds[0].code in SeedCodes(seeds);
      assert SeedCodes(seeds[1..]) <= SeedCodes(seeds);
      SeedAllSkipsPresent(t, seeds[1..]);
    }
  }

  /** Seeding is idempotent: the second run skips every sample. */
  lemma SeedSampleCoursesIdempotent(t: CourseTable)
    ensures SeedSampleCourses(SeedSampleCourses(t)) == SeedSampleCourses(t)
    ensures Codes(SeedSampleCourses(t)) == Codes(t) + SeedCodes(Samples)
  {
    SeedAllSkipsPresent(SeedSampleCourses(t), Samples);
  }

  /** Seeds with distinct codes, none present yet, each add one row. */
  lemma {:induction false} SeedAllFresh(t: CourseTable, seeds: seq<CourseSeed>)
    requires forall i :: 0 <= i < |seeds| ==> seeds[i].code !in Codes(t)
    requires forall i, j :: 0 <= i < j < |seeds| ==> seeds[i].code != seeds[j].code
    ensures |SeedAll(t, seeds).rows| == |t.rows| + |seeds|
    ensures SeedAll(t, seeds).rows == t.rows + SeedRows(seeds, t.lastId + 1)
    decreases |seeds|
  {
    if |seeds| > 0 {
      var t' := InsertOrSkip(t, seeds[0]);
      assert seeds[0].code !in Codes(t);
      forall i | 0 <= i < |seeds[1..]|
        ensures seeds[1..][i].code !in Codes(t')
      {
        assert seeds[1..][i] == seeds[i + 1];
      }
      SeedAllFresh(t', seeds[1..]);
      assert t'.rows + SeedRows(seeds[1..], t'.lastId + 1)
          == t.rows + SeedRows(seeds, t.lastId + 1);
    } else {
      assert t.rows + [] == t.rows;
    }
  }

  /** The samples carry four distinct codes ... */
  lemma SampleCodesDistinct()
    ensures forall i, j :: 0 <= i < j < |Samples| ==> Samples[i].code != Samples[j].code
  {
    var codes: seq<string> := ["SES101", "ENG201", "URP301", "STAT220"];
    assert forall i :: 0 <= i < 4 ==> Samples[i].code == codes[i];
    assert codes[0][0] == 'S' && codes[1][0] == 'E' && codes[2][0] == 'U' && codes[3][0] == 'S';
    assert |codes[0]| == 6 && |codes[3]| == 7;
  }

  /** ... namely these. */
  lemma SampleCodeSet()
    ensures SeedCodes(Samples) == {"SES101", "ENG201", "URP301", "STAT220"}
  {
    var codes := {"SES101", "ENG201", "URP301", "STAT220"};
    assert Samples[0].code == "SES101" && Samples[1].code == "ENG201";
    assert Samples[2].code == "URP301" && Samples[3].code == "STAT220";
    forall c | c in SeedCodes(Samples) ensures c in codes {
      var s :| s in Samples && s.code == c;
      var i :| 0 <= i < |Samples| && Samples[i] == s;
    }
    forall c | c in codes ensures c in SeedCodes(Samples) {
      var i :| 0 <= i < |Samples| && Samples[i].code == c;
      assert Samples[i] in Samples;
    }
  }

  /** Seeding a fresh table yields exactly the four sample codes ... */
  lemma {:induction false} SeedFreshTableCodes(t: CourseTable)
    requires t.rows == []
    ensures Codes(SeedSampleCourses(t)) == {"SES101", "ENG201", "URP301", "STAT220"}
  {
    SampleCodeSet();
  }

  /** ... carried by four rows, one per sample. */
  lemma {:induction false} SeedFreshTableSize(t: CourseTable)
    requires t.rows == []
    ensures |SeedSampleCourses(t).rows| == 4
  {
    SampleCodesDistinct();
    SeedAllFresh(t, Samples);
  }

  /** ... namely, in order, the four samples under the next four ids, each with a
      NULL `syllabus_url`. */
  lemma {:induction false} SeedFreshTableRows(t: CourseTable)
    requires t.rows == []
    ensures var n := t.lastId;
            SeedSampleCourses(t).rows
              == [SeedRow(Samples[0], n + 1), SeedRow(Samples[1], n + 2),
                  SeedRow(Samples[2], n + 3), SeedRow(Samples[3], n + 4)]
  {
    SampleCodesDistinct();
    SeedAllFresh(t, Samples);
    SeedRowsOfFour(Samples, t.lastId + 1);
    assert [] + SeedRows(Samples, t.lastId + 1) == SeedRows(Samples, t.lastId + 1);
  }

  /** Four seeds receive four consecutive ids, in order. */
  lemma {:induction false} SeedRowsOfFour(seeds: seq<CourseSeed>, first: nat)
    requires |seeds| == 4
    ensures SeedRows(seeds, first)
              == [SeedRow(seeds[0], first), SeedRow(seeds[1], first + 1),
                  SeedRow(seeds[2], first + 2), SeedRow(seeds[3], first + 3)]
  {
    var s1, s2, s3 := seeds[1..], seeds[2..], seeds[3..];
    assert s1[1..] == s2 && s2[1..] == s3 && s3[1..] == [];
    assert SeedRows(s3, first + 3) == [SeedRow(seeds[3], first + 3)];
    assert SeedRows(s2, first + 2) == [SeedRow(seeds[2], first + 2)] + SeedRows(s3, first + 3);
    assert SeedRows(s1, first + 1) == [SeedRow(seeds[1], first + 1)] + SeedRows(s2, first + 2);
  }

  /** In a `courses` table that `init_db` has just created, the first course inserted
      gets the id 1 and is the only row. */
  lemma FirstInsertIntoFreshDatabase(db: Database, s: CourseSeed)
    requires db.courses.None?
    ensures InsertCourse(InitDb(db).courses.value, s) == Some(CourseTable([SeedRow(s, 1)], 1))
  {
    var t := InitDb(db).courses.value;
    assert s.code !in Codes(t);
    var r := InsertCourse(t, s).value;
    assert r.rows == [SeedRow(s, 1)];
  }
}
