/** The built-in grade tables, the expected column schema and the column
    aliases, with the two preset lookups (src/config.py). A Python `dict` is
    modelled as a sequence of entries in insertion order whose keys are
    pairwise distinct, since the analyzer iterates these tables in order. */
module Config {

  /** One entry of a boundary table: `grade: (lo, hi)`, an inclusive range of marks. */
  datatype Boundary = Boundary(grade: string, lo: real, hi: real)

  /** One entry of a points table: `grade: points`. */
  datatype GradePoints = GradePoints(grade: string, points: real)

  predicate DistinctBoundaryGrades(bs: seq<Boundary>) {
    forall i, j :: 0 <= i < j < |bs| ==> bs[i].grade != bs[j].grade
  }

  predicate DistinctPointGrades(ms: seq<GradePoints>) {
    forall i, j :: 0 <= i < j < |ms| ==> ms[i].grade != ms[j].grade
  }

  /** A `Dict[str, tuple]` of grade boundaries, in insertion order. */
  type BoundaryTable = bs: seq<Boundary> | DistinctBoundaryGrades(bs) witness []

  /** A `Dict[str, float]` of grade points, in insertion order. */
  type PointsTable = ms: seq<GradePoints> | DistinctPointGrades(ms) witness []

  /** The grade keys of a table, in order. A boundary table and a points table are dicts
      with different value types, so each has its own projection; `PresetKeysAgree` below
      relates the two presets through them. */
  function BoundaryGrades(bs: seq<Boundary>): (r: seq<string>)
    ensures |r| == |bs| && forall i :: 0 <= i < |bs| ==> r[i] == bs[i].grade
  {
    seq(|bs|, i requires 0 <= i < |bs| => bs[i].grade)
  }

  function PointGrades(ms: seq<GradePoints>): (r: seq<string>)
    ensures |r| == |ms| && forall i :: 0 <= i < |ms| ==> r[i] == ms[i].grade
  {
    seq(|ms|, i requires 0 <= i < |ms| => ms[i].grade)
  }

  const FOUR_POINT_MAPPINGS: PointsTable := [
    GradePoints("A+", 4.0), GradePoints("A", 4.0), GradePoints("A-", 3.7),
    GradePoints("B+", 3.3), GradePoints("B", 3.0), GradePoints("B-", 2.7),
    GradePoints("C+", 2.3), GradePoints("C", 2.0), GradePoints("C-", 1.7),
    GradePoints("D+", 1.3), GradePoints("D", 1.0), GradePoints("F", 0.0)
  ]

  const HUNDRED_POINT_MAPPINGS: PointsTable := [
    GradePoints("A+", 95.0), GradePoints("A", 90.0), GradePoints("A-", 85.0),
    GradePoints("B+", 80.0), GradePoints("B", 75.0), GradePoints("B-", 70.0),
    GradePoints("C+", 65.0), GradePoints("C", 60.0), GradePoints("C-", 55.0),
    GradePoints("D+", 50.0), GradePoints("D", 45.0), GradePoints("F", 0.0)
  ]

  const FOUR_POINT_BOUNDARIES: BoundaryTable := [
    Boundary("A+", 97.0, 100.0), Boundary("A", 93.0, 96.0), Boundary("A-", 90.0, 92.0),
    Boundary("B+", 87.0, 89.0), Boundary("B", 83.0, 86.0), Boundary("B-", 80.0, 82.0),
    Boundary("C+", 77.0, 79.0), Boundary("C", 73.0, 76.0), Boundary("C-", 70.0, 72.0),
    Boundary("D+", 67.0, 69.0), Boundary("D", 63.0, 66.0), Boundary("F", 0.0, 62.0)
  ]

  const HUNDRED_POINT_BOUNDARIES: BoundaryTable := [
    Boundary("A+", 95.0, 100.0), Boundary("A", 90.0, 94.0), Boundary("A-", 85.0, 89.0),
    Boundary("B+", 80.0, 84.0), Boundary("B", 75.0, 79.0), Boundary("B-", 70.0, 74.0),
    Boundary("C+", 65.0, 69.0), Boundary("C", 60.0, 64.0), Boundary("C-", 55.0, 59.0),
    Boundary("D+", 50.0, 54.0), Boundary("D", 45.0, 49.0), Boundary("F", 0.0, 44.0)
  ]

  const REQUIRED_COLUMNS: seq<string> := [
    "StudentID", "Name", "Department", "Semester",
    "CourseCode", "CourseName", "CreditHours", "Marks"
  ]

  /** `COLUMN_MAPPINGS`: alias (as written) to canonical column name, in order. */
  const COLUMN_MAPPINGS: seq<(string, string)> := [
    ("student_id", "StudentID"), ("student_name", "Name"), ("dept", "Department"),
    ("sem", "Semester"), ("course_code", "CourseCode"), ("course_name", "CourseName"),
    ("credits", "CreditHours"), ("marks", "Marks"), ("grade", "Grade"), ("gpa", "GPA")
  ]

  const MIN_GPA: real := 0.0
  const MAX_GPA: real := 4.0
  const PASSING_GRADE: string := "D"

  /** `get_grade_mapping(scale)`: the "100" table for "100", otherwise the "4.0" table. */
  function GetGradeMapping(scale: string): (r: PointsTable)
    ensures scale == "100" ==> r == HUNDRED_POINT_MAPPINGS
    ensures scale != "100" ==> r == FOUR_POINT_MAPPINGS
  {
    if scale == "4.0" then FOUR_POINT_MAPPINGS
    else if scale == "100" then HUNDRED_POINT_MAPPINGS
    else FOUR_POINT_MAPPINGS
  }

  /** `get_grade_boundaries(scale)`: the "100" table for "100", otherwise the "4.0" table. */
  function GetGradeBoundaries(scale: string): (r: BoundaryTable)
    ensures scale == "100" ==> r == HUNDRED_POINT_BOUNDARIES
    ensures scale != "100" ==> r == FOUR_POINT_BOUNDARIES
  {
    if scale == "4.0" then FOUR_POINT_BOUNDARIES
    else if scale == "100" then HUNDRED_POINT_BOUNDARIES
    else FOUR_POINT_BOUNDARIES
  }

  /** Two inclusive ranges share at least one mark. */
  predicate Intersect(a: Boundary, b: Boundary) {
    !(a.hi < b.lo || b.hi < a.lo)
  }

  /** Ranges listed strictly from highest to lowest: every later range lies wholly below. */
  predicate Descending(bs: seq<Boundary>) {
    forall i, j :: 0 <= i < j < |bs| ==> bs[j].hi < bs[i].lo
  }

  predicate PairwiseDisjoint(bs: seq<Boundary>) {
    forall i, j :: 0 <= i < |bs| && 0 <= j < |bs| && i != j ==> !Intersect(bs[i], bs[j])
  }

  lemma DescendingIsDisjoint(bs: seq<Boundary>)
    requires Descending(bs)
    ensures PairwiseDisjoint(bs)
  {
  }

  predicate InRange(b: Boundary, m: real) {
    b.lo <= m <= b.hi
  }

  /** The integer mark `m` lies in some range of `bs`, and in no two. */
  predicate InExactlyOneRange(bs: seq<Boundary>, m: int) {
    && (exists i :: 0 <= i < |bs| && InRange(bs[i], m as real))
    && (forall i, j ::
          0 <= i < |bs| && 0 <= j < |bs| && InRange(bs[i], m as real) && InRange(bs[j], m as real)
          ==> i == j)
  }

  /** Every integer mark 0..100 lies in exactly one range. */
  predicate CoversIntegerMarks(bs: seq<Boundary>) {
    forall m: int :: 0 <= m <= 100 ==> InExactlyOneRange(bs, m)
  }

  lemma {:induction false} FourPointBoundariesDescending()
    ensures Descending(FOUR_POINT_BOUNDARIES)
    ensures PairwiseDisjoint(FOUR_POINT_BOUNDARIES)
  {
    var bs := FOUR_POINT_BOUNDARIES;
    forall i, j | 0 <= i < j < |bs| ensures bs[j].hi < bs[i].lo {
      assert forall k :: 0 <= k < |bs| - 1 ==> bs[k + 1].hi < bs[k].lo;
      assert forall k :: 0 <= k < |bs| ==> bs[k].lo <= bs[k].hi;
      AdjacentDescending(bs, i, j);
    }
  }

  lemma {:induction false} HundredPointBoundariesDescending()
    ensures Descending(HUNDRED_POINT_BOUNDARIES)
    ensures PairwiseDisjoint(HUNDRED_POINT_BOUNDARIES)
  {
    var bs := HUNDRED_POINT_BOUNDARIES;
    forall i, j | 0 <= i < j < |bs| ensures bs[j].hi < bs[i].lo {
      assert forall k :: 0 <= k < |bs| - 1 ==> bs[k + 1].hi < bs[k].lo;
      assert forall k :: 0 <= k < |bs| ==> bs[k].lo <= bs[k].hi;
      AdjacentDescending(bs, i, j);
    }
  }

  /** Descending neighbours with non-empty ranges are descending at any distance. */
  lemma {:induction false} AdjacentDescending(bs: seq<Boundary>, i: int, j: int)
    requires forall k :: 0 <= k < |bs| - 1 ==> bs[k + 1].hi < bs[k].lo
    requires forall k :: 0 <= k < |bs| ==> bs[k].lo <= bs[k].hi
    requires 0 <= i < j < |bs|
    ensures bs[j].hi < bs[i].lo
    decreases j - i
  {
    if j > i + 1 {
      AdjacentDescending(bs, i + 1, j);
    }
  }

  lemma {:induction false} FourPointBoundariesCoverIntegers()
    ensures CoversIntegerMarks(FOUR_POINT_BOUNDARIES)
  {
    var bs := FOUR_POINT_BOUNDARIES;
    FourPointBoundariesDescending();
    forall m: int | 0 <= m <= 100
      ensures InExactlyOneRange(bs, m)
    {
      var i := if m >= 97 then 0 else if m >= 93 then 1 else if m >= 90 then 2
        else if m >= 87 then 3 else if m >= 83 then 4 else if m >= 80 then 5
        else if m >= 77 then 6 else if m >= 73 then 7 else if m >= 70 then 8
        else if m >= 67 then 9 else if m >= 63 then 10 else 11;
      assert InRange(bs[i], m as real);
    }
  }

  lemma {:induction false} HundredPointBoundariesCoverIntegers()
    ensures CoversIntegerMarks(HUNDRED_POINT_BOUNDARIES)
  {
    var bs := HUNDRED_POINT_BOUNDARIES;
    HundredPointBoundariesDescending();
    forall m: int | 0 <= m <= 100
      ensures InExactlyOneRange(bs, m)
    {
      var i := if m >= 95 then 0 else if m >= 90 then 1 else if m >= 85 then 2
        else if m >= 80 then 3 else if m >= 75 then 4 else if m >= 70 then 5
        else if m >= 65 then 6 else if m >= 60 then 7 else if m >= 55 then 8
        else if m >= 50 then 9 else if m >= 45 then 10 else 11;
      assert InRange(bs[i], m as real);
    }
  }

  /** Every range of both presets lies within the marks 0..100. */
  lemma PresetRangesWithinScale()
    ensures forall i :: 0 <= i < |FOUR_POINT_BOUNDARIES| ==>
      0.0 <= FOUR_POINT_BOUNDARIES[i].lo <= FOUR_POINT_BOUNDARIES[i].hi <= 100.0
    ensures forall i :: 0 <= i < |HUNDRED_POINT_BOUNDARIES| ==>
      0.0 <= HUNDRED_POINT_BOUNDARIES[i].lo <= HUNDRED_POINT_BOUNDARIES[i].hi <= 100.0
  {
  }

  /** For each preset, the points table and the boundary table list the same grades in the same order. */
  lemma PresetKeysAgree()
    ensures PointGrades(FOUR_POINT_MAPPINGS) == BoundaryGrades(FOUR_POINT_BOUNDARIES)
    ensures PointGrades(HUNDRED_POINT_MAPPINGS) == BoundaryGrades(HUNDRED_POINT_BOUNDARIES)
  {
  }

  /** The "4.0" points lie in [MIN_GPA, MAX_GPA] and never increase down the table. */
  lemma FourPointValuesBounded()
    ensures forall i :: 0 <= i < |FOUR_POINT_MAPPINGS| ==>
      MIN_GPA <= FOUR_POINT_MAPPINGS[i].points <= MAX_GPA
    ensures forall i, j :: 0 <= i < j < |FOUR_POINT_MAPPINGS| ==>
      FOUR_POINT_MAPPINGS[j].points <= FOUR_POINT_MAPPINGS[i].points
  {
  }
}
