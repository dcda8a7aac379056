/** The grouped statistics of src/analytics.py. Each aggregate is a function on the
    table (the specification) and a method that computes it the way the code does,
    looping over the distinct students, courses, departments or semesters and
    re-running the per-student GPA; the methods are proved equal to the functions, and
    the lemmas state what the results mean. A scale argument of `null` is the code's
    `scale=None`. Rounding of the reported figures, medians and standard deviations
    are not modelled. */
module Analytics {
  import opened Wrappers
  import opened Config
  import opened Tables
  import opened Grading
  import opened Sorting

  /** The mean mark the code treats as a pass when there is no grade scale. */
  const PASS_MARK: real := 60.0

  function ScaleView(scale: GradeScale?): Option<Scale>
    reads scale
  {
    if scale == null then None else Some(scale.View())
  }

  /** The rows of `t` whose column `c` holds `v`, with the same columns. */
  function Restrict(t: Table, c: TextColumn, v: string): Table {
    Table(t.columns, Select(t.rows, c, v))
  }

  /** `df[c].unique()` */
  function DistinctValues(t: Table, c: TextColumn): seq<string> {
    Unique(Values(t.rows, c))
  }

  /** `df['StudentID'].unique()` */
  function StudentIds(t: Table): seq<string> {
    DistinctValues(t, StudentId)
  }

  lemma StudentIdsPresent(t: Table)
    requires |t.rows| > 0
    ensures |StudentIds(t)| > 0
  {
    assert Values(t.rows, StudentId)[0] in StudentIds(t);
  }

  // ---------------------------------------------------------------------------
  // _calculate_student_gpa

  /** `_calculate_student_gpa`: 0.0 for an empty table or one without Marks or CreditHours,
      otherwise the credit-weighted GPA of its rows. */
  function StudentGpa(s: Scale, t: Table): real {
    if IsEmpty(t) || MARKS !in t.columns || CREDIT_HOURS !in t.columns then 0.0
    else Gpa(s, RowCourses(t.rows))
  }

  /** A student's GPA lies within any bounds of the scale's points. */
  lemma StudentGpaWithin(s: Scale, t: Table, lo: real, hi: real)
    requires s.PointsWithin(lo, hi)
    ensures lo <= StudentGpa(s, t) <= hi
  {
    GpaWithin(s, RowCourses(t.rows), lo, hi);
  }

  /** One credited row: the GPA is that row's points. */
  lemma StudentGpaOfSingleRow(s: Scale, t: Table)
    requires MARKS in t.columns && CREDIT_HOURS in t.columns
    requires |t.rows| == 1 && t.rows[0].creditHours > 0.0
    ensures StudentGpa(s, t) == s.MarksToPoints(Number(t.rows[0].marks))
  {
    assert RowCourses(t.rows) == [RowCourse(t.rows[0])];
    GpaOfSingleCourse(s, RowCourse(t.rows[0]));
  }

  /** No row with positive credits: the GPA is 0.0. */
  lemma StudentGpaWithoutCredits(s: Scale, t: Table)
    requires forall i :: 0 <= i < |t.rows| ==> t.rows[i].creditHours <= 0.0
    ensures StudentGpa(s, t) == 0.0
  {
    GpaWithoutCreditsIsZero(s, RowCourses(t.rows));
  }

  /** `WeightedPoints` and `CountedCredits` after one more row. */
  lemma AccumulateRow(s: Scale, rows: seq<Row>, i: nat)
    requires i < |rows|
    ensures var c := RowCourse(rows[i]);
      && WeightedPoints(s, RowCourses(rows[..i + 1]))
         == WeightedPoints(s, RowCourses(rows[..i])) + (if c.credits > 0.0 then s.MarksToPoints(c.mark) * c.credits else 0.0)
      && CountedCredits(RowCourses(rows[..i + 1]))
         == CountedCredits(RowCourses(rows[..i])) + (if c.credits > 0.0 then c.credits else 0.0)
  {
    var done := RowCourses(rows[..i + 1]);
    assert done[..i] == RowCourses(rows[..i]);
    PeelLastCourse(s, done);
  }

  /** The loop of `_calculate_student_gpa`: points × credits and credits, summed over the
      rows with positive credits. */
  method RowTotals(rows: seq<Row>, scale: GradeScale) returns (totalPoints: real, totalCredits: real)
    ensures totalPoints == WeightedPoints(scale.View(), RowCourses(rows))
    ensures totalCredits == CountedCredits(RowCourses(rows))
  {
    ghost var view := scale.View();
    totalPoints := 0.0;
    totalCredits := 0.0;
    for i := 0 to |rows|
      invariant totalPoints == WeightedPoints(view, RowCourses(rows[..i]))
      invariant totalCredits == CountedCredits(RowCourses(rows[..i]))
    {
      var marks := rows[i].marks;
      var credits := rows[i].creditHours;
      AccumulateRow(view, rows, i);
      if credits > 0.0 {
        var points := scale.MarksToPoints(Number(marks));
        totalPoints := totalPoints + points * credits;
        totalCredits := totalCredits + credits;
      }
    }
    assert rows[..|rows|] == rows;
  }

  /** `_calculate_student_gpa`: running totals of points × credits and of credits over the rows
      with positive credits. */
  method CalculateStudentGpa(studentRecords: Table, scale: GradeScale) returns (gpa: real)
    ensures gpa == StudentGpa(scale.View(), studentRecords)
  {
    if IsEmpty(studentRecords) || MARKS !in studentRecords.columns || CREDIT_HOURS !in studentRecords.columns {
      return 0.0;
    }
    var totalPoints, totalCredits := RowTotals(studentRecords.rows, scale);
    if totalCredits == 0.0 {
      return 0.0;
    }
    gpa := totalPoints / totalCredits;
  }

  // ---------------------------------------------------------------------------
  // Per-student loops shared by the aggregates

  /** The GPA of each of the given students, in order. */
  function GpasOf(s: Scale, t: Table, ids: seq<string>): (gpas: seq<real>)
    ensures |gpas| == |ids|
    ensures forall k :: 0 <= k < |ids| ==> gpas[k] == StudentGpa(s, Restrict(t, StudentId, ids[k]))
  {
    seq(|ids|, k requires 0 <= k < |ids| => StudentGpa(s, Restrict(t, StudentId, ids[k])))
  }

  /** The mean mark of each of the given students, in order. */
  function MeanMarksOf(t: Table, ids: seq<string>): (means: seq<real>)
    ensures |means| == |ids|
    ensures forall k :: 0 <= k < |ids| ==> means[k] == Mean(MarksOf(Select(t.rows, StudentId, ids[k])))
  {
    seq(|ids|, k requires 0 <= k < |ids| => Mean(MarksOf(Select(t.rows, StudentId, ids[k]))))
  }

  /** The average GPA of a group of rows: with a scale and both numeric columns the mean of
      its students' GPAs; otherwise the mean mark over 25; 0.0 without marks. */
  function AverageGpa(g: Table, s: Option<Scale>): real {
    if s.Some? && MARKS in g.columns && CREDIT_HOURS in g.columns then Mean(GpasOf(s.value, g, StudentIds(g)))
    else if MARKS in g.columns then Mean(MarksOf(g.rows)) / 25.0
    else 0.0
  }

  /** The students of a group who pass: with a scale, those whose GPA reaches the passing
      grade's points; without one, those whose mean mark is at least 60. */
  function PassingStudents(g: Table, s: Option<Scale>): (n: nat)
    ensures n <= |StudentIds(g)|
  {
    if MARKS !in g.columns then 0
    else if s.Some? then CountAtLeast(GpasOf(s.value, g, StudentIds(g)), s.value.PassingPoints())
    else CountAtLeast(MeanMarksOf(g, StudentIds(g)), PASS_MARK)
  }

  /** The average GPA of a group lies within the bounds of the scale's points, and the proxy
      (mean mark / 25) within a quarter of the bounds of the marks. */
  lemma AverageGpaWithin(g: Table, s: Scale, lo: real, hi: real)
    requires s.PointsWithin(lo, hi)
    requires MARKS in g.columns && CREDIT_HOURS in g.columns
    ensures lo <= AverageGpa(g, Some(s)) <= hi
  {
    var gpas := GpasOf(s, g, StudentIds(g));
    forall k | 0 <= k < |gpas| ensures lo <= gpas[k] <= hi {
      StudentGpaWithin(s, Restrict(g, StudentId, StudentIds(g)[k]), lo, hi);
    }
    if |gpas| > 0 {
      MeanBounds(gpas, lo, hi);
    }
  }

  /** `[_calculate_student_gpa(df[df['StudentID'] == id], scale) for id in ids]` */
  method StudentGpas(t: Table, ids: seq<string>, scale: GradeScale) returns (gpas: seq<real>)
    ensures gpas == GpasOf(scale.View(), t, ids)
  {
    gpas := [];
    for i := 0 to |ids|
      invariant |gpas| == i
      invariant forall k :: 0 <= k < i ==> gpas[k] == StudentGpa(scale.View(), Restrict(t, StudentId, ids[k]))
    {
      var studentRecords := Table(t.columns, Select(t.rows, StudentId, ids[i]));
      var gpa := CalculateStudentGpa(studentRecords, scale);
      gpas := gpas + [gpa];
    }
  }

  /** The code's pass-count loop: one more passing student for each GPA at or above the threshold. */
  method CountPassingByGpa(t: Table, ids: seq<string>, scale: GradeScale, threshold: real)
    returns (passing: nat)
    ensures passing == CountAtLeast(GpasOf(scale.View(), t, ids), threshold)
  {
    passing := 0;
    for i := 0 to |ids|
      invariant passing == CountAtLeast(GpasOf(scale.View(), t, ids[..i]), threshold)
    {
      var studentRecords := Table(t.columns, Select(t.rows, StudentId, ids[i]));
      var studentGpa := CalculateStudentGpa(studentRecords, scale);
      assert GpasOf(scale.View(), t, ids[..i + 1])[..i] == GpasOf(scale.View(), t, ids[..i]);
      if studentGpa >= threshold {
        passing := passing + 1;
      }
    }
    assert ids[..|ids|] == ids;
  }

  /** The code's pass-count loop without a scale: a student passes when the mean mark is at least 60. */
  method CountPassingByMarks(t: Table, ids: seq<string>) returns (passing: nat)
    ensures passing == CountAtLeast(MeanMarksOf(t, ids), PASS_MARK)
  {
    passing := 0;
    for i := 0 to |ids|
      invariant passing == CountAtLeast(MeanMarksOf(t, ids[..i]), PASS_MARK)
    {
      var avgMarks := Mean(MarksOf(Select(t.rows, StudentId, ids[i])));
      assert MeanMarksOf(t, ids[..i + 1])[..i] == MeanMarksOf(t, ids[..i]);
      if avgMarks >= PASS_MARK {
        passing := passing + 1;
      }
    }
    assert ids[..|ids|] == ids;
  }

  /** The average-GPA branch shared by the aggregates. */
  method ComputeAverageGpa(g: Table, scale: GradeScale?) returns (avg: real)
    ensures avg == AverageGpa(g, ScaleView(scale))
  {
    if scale != null && MARKS in g.columns && CREDIT_HOURS in g.columns {
      var gpas := StudentGpas(g, StudentIds(g), scale);
      avg := if |gpas| > 0 then Mean(gpas) else 0.0;
    } else if MARKS in g.columns {
      avg := Mean(MarksOf(g.rows)) / 25.0;
    } else {
      avg := 0.0;
    }
  }

  /** The pass-count branch shared by the aggregates. */
  method ComputePassingStudents(g: Table, scale: GradeScale?) returns (passing: nat)
    ensures passing == PassingStudents(g, ScaleView(scale))
  {
    if MARKS !in g.columns {
      passing := 0;
    } else if scale != null {
      var threshold := scale.GradeToPoints(scale.passingGrade);
      passing := CountPassingByGpa(g, StudentIds(g), scale, threshold);
    } else {
      passing := CountPassingByMarks(g, StudentIds(g));
    }
  }

  // ---------------------------------------------------------------------------
  // cohort_summary

  datatype CohortStats = CohortStats(
    totalStudents: nat,
    totalCourses: nat,
    averageGpa: real,
    passRate: real,
    failCount: int,
    totalCredits: real)

  const EMPTY_COHORT: CohortStats := CohortStats(0, 0, 0.0, 0.0, 0, 0.0)

  /** `df[col].nunique() if col in df.columns else 0` */
  function DistinctCount(t: Table, c: TextColumn): nat {
    if ColumnName(c) in t.columns then |DistinctValues(t, c)| else 0
  }

  /** `cohort_summary`: all zeros for an empty table; an error when Marks is present but
      StudentID is not; otherwise distinct counts, total credits, the average GPA and the
      pass rate and fail count over students. */
  function CohortSummaryOf(t: Table, s: Option<Scale>): Result<CohortStats, ColumnError> {
    if IsEmpty(t) then Ok(EMPTY_COHORT)
    else if MARKS in t.columns && ColumnName(StudentId) !in t.columns then Err(MissingColumn(ColumnName(StudentId)))
    else
      var totalStudents := DistinctCount(t, StudentId);
      var passing := PassingStudents(t, s);
      Ok(CohortStats(
        totalStudents,
        DistinctCount(t, CourseCode),
        AverageGpa(t, s),
        if MARKS in t.columns then Percent(passing, totalStudents) else 0.0,
        totalStudents - passing,
        if CREDIT_HOURS in t.columns then Sum(CreditsOf(t.rows)) else 0.0))
  }

  /** The cohort summary fails exactly when Marks is present without StudentID; otherwise the
      pass rate is a percentage, the fail count lies between zero and the number of students,
      and that number is the number of distinct student ids. */
  lemma CohortSummaryFacts(t: Table, s: Option<Scale>)
    ensures IsEmpty(t) ==> CohortSummaryOf(t, s) == Ok(EMPTY_COHORT)
    ensures CohortSummaryOf(t, s).Err? <==>
      !IsEmpty(t) && MARKS in t.columns && ColumnName(StudentId) !in t.columns
    ensures CohortSummaryOf(t, s).Ok? ==>
      var c := CohortSummaryOf(t, s).value;
      && 0.0 <= c.passRate <= 100.0
      && 0 <= c.failCount <= c.totalStudents
      && (!IsEmpty(t) && ColumnName(StudentId) in t.columns ==>
            c.totalStudents == |set id | id in Values(t.rows, StudentId)|)
  {
    if !IsEmpty(t) && !(MARKS in t.columns && ColumnName(StudentId) !in t.columns) {
      var passing := PassingStudents(t, s);
      if ColumnName(StudentId) in t.columns {
        UniqueCountIsDistinctCount(Values(t.rows, StudentId));
        PercentBounds(passing, DistinctCount(t, StudentId));
      } else {
        assert MARKS !in t.columns;
      }
    }
  }

  /** With a scale whose points lie in [lo, hi], the cohort's average GPA does too. */
  lemma CohortAverageGpaWithin(t: Table, s: Scale, lo: real, hi: real)
    requires s.PointsWithin(lo, hi)
    requires CohortSummaryOf(t, Some(s)).Ok?
    requires MARKS in t.columns && CREDIT_HOURS in t.columns
    ensures lo <= CohortSummaryOf(t, Some(s)).value.averageGpa <= hi
  {
    if !IsEmpty(t) {
      AverageGpaWithin(t, s, lo, hi);
    }
  }

  /** The pass/fail branch of `cohort_summary`. */
  method CohortPassFigures(t: Table, scale: GradeScale?, totalStudents: nat) returns (passRate: real, failCount: int)
    ensures passRate == if MARKS in t.columns then Percent(PassingStudents(t, ScaleView(scale)), totalStudents) else 0.0
    ensures failCount == totalStudents - PassingStudents(t, ScaleView(scale))
  {
    if MARKS in t.columns {
      var passingStudents := ComputePassingStudents(t, scale);
      passRate := Percent(passingStudents, totalStudents);
      failCount := totalStudents - passingStudents;
    } else {
      passRate := 0.0;
      failCount := totalStudents;
    }
  }

  /** `cohort_summary`, computed as the code does. */
  method CohortSummary(t: Table, scale: GradeScale?) returns (r: Result<CohortStats, ColumnError>)
    ensures r == CohortSummaryOf(t, ScaleView(scale))
  {
    if IsEmpty(t) {
      return Ok(EMPTY_COHORT);
    }
    var totalStudents := DistinctCount(t, StudentId);
    var totalCourses := DistinctCount(t, CourseCode);
    var totalCredits := if CREDIT_HOURS in t.columns then Sum(CreditsOf(t.rows)) else 0.0;
    if MARKS in t.columns && ColumnName(StudentId) !in t.columns {
      return Err(MissingColumn(ColumnName(StudentId)));
    }
    var averageGpa := ComputeAverageGpa(t, scale);
    var passRate, failCount := CohortPassFigures(t, scale, totalStudents);
    r := Ok(CohortStats(totalStudents, totalCourses, averageGpa, passRate, failCount, totalCredits));
    assert r == CohortSummaryOf(t, ScaleView(scale)) by {
      assert !IsEmpty(t) && !(MARKS in t.columns && ColumnName(StudentId) !in t.columns);
    }
  }

  // ---------------------------------------------------------------------------
  // subject_stats

  datatype TopScorer = TopScorer(name: string, score: real)

  datatype SubjectStat = SubjectStat(
    courseCode: string,
    courseName: string,
    department: string,
    totalStudents: nat,
    averageMarks: real,
    passRate: real,
    top: Option<TopScorer>,
    creditHours: real)

  function AverageMarksKey(st: SubjectStat): real {
    st.averageMarks
  }

  /** `idxmax`: the position of the first largest value. */
  function ArgMax(xs: seq<real>): (k: nat)
    requires |xs| > 0
    ensures k < |xs|
    ensures forall j :: 0 <= j < |xs| ==> xs[j] <= xs[k]
    ensures forall j :: 0 <= j < k ==> xs[j] < xs[k]
  {
    if |xs| == 1 then 0
    else
      var k := ArgMax(xs[..|xs| - 1]);
      assert forall j :: 0 <= j < |xs| - 1 ==> xs[..|xs| - 1][j] == xs[j];
      if xs[|xs| - 1] > xs[k] then |xs| - 1 else k
  }

  /** The mark a row must reach to pass a course: the passing grade's points × 25 with a
      scale, 60 without. */
  function SubjectPassThreshold(s: Option<Scale>): real {
    if s.Some? then s.value.PassingPoints() * 25.0 else PASS_MARK
  }

  /** One course's entry; name, department and credit hours come from its first row. */
  function SubjectStatOf(t: Table, s: Option<Scale>, code: string): SubjectStat
    requires code in Values(t.rows, CourseCode)
  {
    var rows := Select(t.rows, CourseCode, code);
    SelectPresentValue(t.rows, CourseCode, code);
    var marks := MarksOf(rows);
    SubjectStat(
      code,
      if ColumnName(CourseName) in t.columns then rows[0].courseName else code,
      if ColumnName(Department) in t.columns then rows[0].department else "Unknown",
      |rows|,
      if MARKS in t.columns then Mean(marks) else 0.0,
      if MARKS in t.columns then Percent(CountAtLeast(marks, SubjectPassThreshold(s)), |rows|) else 0.0,
      if MARKS in t.columns && ColumnName(Name) in t.columns
        then Some(TopScorer(rows[ArgMax(marks)].name, marks[ArgMax(marks)]))
        else None,
      if CREDIT_HOURS in t.columns then rows[0].creditHours else 0.0)
  }

  function SubjectStatsInOrder(t: Table, s: Option<Scale>, codes: seq<string>): (stats: seq<SubjectStat>)
    requires forall code :: code in codes ==> code in Values(t.rows, CourseCode)
    ensures |stats| == |codes|
    ensures forall k :: 0 <= k < |codes| ==> stats[k] == SubjectStatOf(t, s, codes[k])
  {
    seq(|codes|, k requires 0 <= k < |codes| => SubjectStatOf(t, s, codes[k]))
  }

  /** `subject_stats`: [] for an empty table or one without CourseCode; otherwise one entry per
      distinct course, sorted by average marks, highest first (stable). */
  function SubjectStatsOf(t: Table, s: Option<Scale>): seq<SubjectStat> {
    if IsEmpty(t) || ColumnName(CourseCode) !in t.columns then []
    else SortDesc(SubjectStatsInOrder(t, s, DistinctValues(t, CourseCode)), AverageMarksKey)
  }

  /** One entry per distinct course code, sorted by average marks with ties in first-appearance
      order. */
  lemma SubjectStatsFacts(t: Table, s: Option<Scale>)
    ensures IsEmpty(t) || ColumnName(CourseCode) !in t.columns ==> SubjectStatsOf(t, s) == []
    ensures !IsEmpty(t) && ColumnName(CourseCode) in t.columns ==>
      var stats := SubjectStatsOf(t, s);
      var codes := Values(t.rows, CourseCode);
      && |stats| == |Unique(codes)|
      && NonIncreasing(stats, AverageMarksKey)
      && (forall k :: 0 <= k < |stats| ==>
            stats[k].courseCode in codes && stats[k] == SubjectStatOf(t, s, stats[k].courseCode))
      && (forall code :: code in codes ==> SubjectStatOf(t, s, code) in stats)
      && (forall m :: WithKey(stats, AverageMarksKey, m)
                    == WithKey(SubjectStatsInOrder(t, s, Unique(codes)), AverageMarksKey, m))
  {
    if !IsEmpty(t) && ColumnName(CourseCode) in t.columns {
      var codes := Values(t.rows, CourseCode);
      var inOrder := SubjectStatsInOrder(t, s, Unique(codes));
      var stats := SubjectStatsOf(t, s);
      SortDescSorted(inOrder, AverageMarksKey);
      SortDescPermutes(inOrder, AverageMarksKey);
      forall m ensures WithKey(stats, AverageMarksKey, m) == WithKey(inOrder, AverageMarksKey, m) {
        SortDescStable(inOrder, AverageMarksKey, m);
      }
      forall k | 0 <= k < |stats|
        ensures stats[k].courseCode in codes && stats[k] == SubjectStatOf(t, s, stats[k].courseCode)
      {
        assert stats[k] in multiset(inOrder);
        var p :| 0 <= p < |inOrder| && inOrder[p] == stats[k];
      }
      forall code | code in codes ensures SubjectStatOf(t, s, code) in stats {
        var p :| 0 <= p < |Unique(codes)| && Unique(codes)[p] == code;
        assert inOrder[p] in multiset(stats);
      }
    }
  }

  /** A course's entry: its row count, a pass rate that is a percentage, and (with marks and
      names) the course's highest mark and the name on the first row that has it. */
  lemma SubjectStatFacts(t: Table, s: Option<Scale>, code: string)
    requires code in Values(t.rows, CourseCode)
    ensures var st := SubjectStatOf(t, s, code);
      var rows := Select(t.rows, CourseCode, code);
      && st.totalStudents == |rows| > 0
      && 0.0 <= st.passRate <= 100.0
      && (st.top.Some? <==> MARKS in t.columns && ColumnName(Name) in t.columns)
      && (st.top.Some? ==>
            exists k :: 0 <= k < |rows| && st.top.value == TopScorer(rows[k].name, rows[k].marks)
              && (forall j :: 0 <= j < |rows| ==> rows[j].marks <= rows[k].marks)
              && (forall j :: 0 <= j < k ==> rows[j].marks < rows[k].marks))
  {
    var rows := Select(t.rows, CourseCode, code);
    SelectPresentValue(t.rows, CourseCode, code);
    var marks := MarksOf(rows);
    PercentBounds(CountAtLeast(marks, SubjectPassThreshold(s)), |rows|);
    if MARKS in t.columns && ColumnName(Name) in t.columns {
      var k := ArgMax(marks);
      assert SubjectStatOf(t, s, code).top.value == TopScorer(rows[k].name, rows[k].marks);
    }
  }

  /** A course's pass rate: the share of its marks at or above the threshold, 0 without marks. */
  method CoursePassRate(marks: seq<real>, hasMarks: bool, scale: GradeScale?) returns (passRate: real)
    ensures passRate == if hasMarks then Percent(CountAtLeast(marks, SubjectPassThreshold(ScaleView(scale))), |marks|) else 0.0
  {
    if scale != null && hasMarks {
      var points := scale.GradeToPoints(scale.passingGrade);
      var passingThreshold := points * 25.0;
      passRate := Percent(CountAtLeast(marks, passingThreshold), |marks|);
    } else {
      var passingStudents := if hasMarks then CountAtLeast(marks, PASS_MARK) else 0;
      passRate := Percent(passingStudents, |marks|);
    }
  }

  /** The body of `subject_stats`' loop: one course's entry. */
  method CourseStat(t: Table, scale: GradeScale?, courseCode: string) returns (stat: SubjectStat)
    requires courseCode in Values(t.rows, CourseCode)
    ensures stat == SubjectStatOf(t, ScaleView(scale), courseCode)
  {
    var courseRows := Select(t.rows, CourseCode, courseCode);
    SelectPresentValue(t.rows, CourseCode, courseCode);
    var courseName := if ColumnName(CourseName) in t.columns then courseRows[0].courseName else courseCode;
    var department := if ColumnName(Department) in t.columns then courseRows[0].department else "Unknown";
    var creditHours := if CREDIT_HOURS in t.columns then courseRows[0].creditHours else 0.0;
    var totalStudents := |courseRows|;
    var marks := MarksOf(courseRows);
    var averageMarks := if MARKS in t.columns then Mean(marks) else 0.0;
    var top: Option<TopScorer> := None;
    if MARKS in t.columns && ColumnName(Name) in t.columns {
      var topIdx := ArgMax(marks);
      top := Some(TopScorer(courseRows[topIdx].name, marks[topIdx]));
    }
    var passRate := CoursePassRate(marks, MARKS in t.columns, scale);
    stat := SubjectStat(courseCode, courseName, department, totalStudents, averageMarks,
                        passRate, top, creditHours);
  }

  /** The loop of `subject_stats`: the entries of `codes`, in order. */
  method CourseStats(t: Table, scale: GradeScale?, codes: seq<string>) returns (stats: seq<SubjectStat>)
    requires forall code :: code in codes ==> code in Values(t.rows, CourseCode)
    ensures stats == SubjectStatsInOrder(t, ScaleView(scale), codes)
  {
    stats := [];
    for i := 0 to |codes|
      invariant |stats| == i
      invariant forall k :: 0 <= k < i ==> stats[k] == SubjectStatOf(t, ScaleView(scale), codes[k])
    {
      var stat := CourseStat(t, scale, codes[i]);
      stats := stats + [stat];
    }
  }

  /** `subject_stats`, computed as the code does. */
  method SubjectStats(t: Table, scale: GradeScale?) returns (stats: seq<SubjectStat>)
    ensures stats == SubjectStatsOf(t, ScaleView(scale))
  {
    if IsEmpty(t) || ColumnName(CourseCode) !in t.columns {
      return [];
    }
    stats := CourseStats(t, scale, DistinctValues(t, CourseCode));
    stats := SortDesc(stats, AverageMarksKey);
  }

  // ---------------------------------------------------------------------------
  // top_n_students

  datatype StudentEntry = StudentEntry(
    studentId: string,
    name: string,
    department: string,
    semester: string,
    gpa: real,
    totalCredits: real,
    coursesCount: nat)

  function GpaKey(e: StudentEntry): real {
    e.gpa
  }

  /** The GPA the leaderboard shows: the scale's GPA with both numeric columns, else mean marks / 25. */
  function EntryGpa(g: Table, s: Option<Scale>): real {
    if s.Some? && MARKS in g.columns && CREDIT_HOURS in g.columns then StudentGpa(s.value, g)
    else if MARKS in g.columns then Mean(MarksOf(g.rows)) / 25.0
    else 0.0
  }

  /** One student's leaderboard entry; name, department and semester come from the first row. */
  function StudentEntryOf(t: Table, s: Option<Scale>, id: string): StudentEntry
    requires id in Values(t.rows, StudentId)
  {
    var g := Restrict(t, StudentId, id);
    SelectPresentValue(t.rows, StudentId, id);
    StudentEntry(
      id,
      if ColumnName(Name) in t.columns then g.rows[0].name else "Unknown",
      if ColumnName(Department) in t.columns then g.rows[0].department else "Unknown",
      if ColumnName(Semester) in t.columns then g.rows[0].semester else "Unknown",
      EntryGpa(g, s),
      if CREDIT_HOURS in t.columns then Sum(CreditsOf(g.rows)) else 0.0,
      |g.rows|)
  }

  function EntriesInOrder(t: Table, s: Option<Scale>, ids: seq<string>): (es: seq<StudentEntry>)
    requires forall id :: id in ids ==> id in Values(t.rows, StudentId)
    ensures |es| == |ids|
    ensures forall k :: 0 <= k < |ids| ==> es[k] == StudentEntryOf(t, s, ids[k])
  {
    seq(|ids|, k requires 0 <= k < |ids| => StudentEntryOf(t, s, ids[k]))
  }

  /** Python's `xs[:n]`: the first `n` elements, or all but the last `-n` for negative `n`. */
  function Take<T>(xs: seq<T>, n: int): (r: seq<T>)
    ensures n >= 0 ==> r == xs[..if n < |xs| then n else |xs|]
    ensures n < 0 ==> r == xs[..if |xs| + n > 0 then |xs| + n else 0]
  {
    if n >= 0 then (if n < |xs| then xs[..n] else xs)
    else if |xs| + n > 0 then xs[..|xs| + n] else []
  }

  /** Every student's entry, highest GPA first (stable). */
  function RankedStudents(t: Table, s: Option<Scale>): seq<StudentEntry> {
    SortDesc(EntriesInOrder(t, s, StudentIds(t)), GpaKey)
  }

  /** `top_n_students`: [] for an empty table or one without StudentID; otherwise the first
      `n` (in Python's slice sense) of the students ranked by GPA. */
  function TopNStudentsOf(t: Table, n: int, s: Option<Scale>): seq<StudentEntry> {
    if IsEmpty(t) || ColumnName(StudentId) !in t.columns then []
    else Take(RankedStudents(t, s), n)
  }

  /** Each entry of `es` is the entry of a student of the table. */
  predicate OwnEntries(t: Table, s: Option<Scale>, es: seq<StudentEntry>) {
    forall k :: 0 <= k < |es| ==>
      es[k].studentId in Values(t.rows, StudentId) && es[k] == StudentEntryOf(t, s, es[k].studentId)
  }

  /** No student has two entries in `es`. */
  predicate DistinctStudents(es: seq<StudentEntry>) {
    forall i, j :: 0 <= i < j < |es| ==> es[i].studentId != es[j].studentId
  }

  /** Every student occurs once in the ranking, with that student's own entry, highest GPA
      first, students with equal GPAs in first-appearance order, and nobody else occurs. */
  lemma RankedStudentsFacts(t: Table, s: Option<Scale>)
    ensures var all := RankedStudents(t, s);
      && |all| == |set id | id in Values(t.rows, StudentId)|
      && NonIncreasing(all, GpaKey)
      && (forall e :: e in all ==> e.studentId in Values(t.rows, StudentId))
      && OwnEntries(t, s, all)
      && (forall id :: id in Values(t.rows, StudentId) ==> StudentEntryOf(t, s, id) in all)
      && DistinctStudents(all)
      && (forall g :: WithKey(all, GpaKey, g) == WithKey(EntriesInOrder(t, s, StudentIds(t)), GpaKey, g))
  {
    var inOrder := EntriesInOrder(t, s, StudentIds(t));
    SortDescSorted(inOrder, GpaKey);
    SortDescPermutes(inOrder, GpaKey);
    UniqueCountIsDistinctCount(Values(t.rows, StudentId));
    RankedOwnEntries(t, s);
    RankedCoversStudents(t, s);
    RankedDistinct(t, s);
    RankedStable(t, s);
  }

  lemma RankedOwnEntries(t: Table, s: Option<Scale>)
    ensures OwnEntries(t, s, RankedStudents(t, s))
    ensures forall e :: e in RankedStudents(t, s) ==> e.studentId in Values(t.rows, StudentId)
  {
    var all := RankedStudents(t, s);
    var inOrder := EntriesInOrder(t, s, StudentIds(t));
    SortDescPermutes(inOrder, GpaKey);
    forall k | 0 <= k < |all|
      ensures all[k].studentId in Values(t.rows, StudentId) && all[k] == StudentEntryOf(t, s, all[k].studentId)
    {
      assert all[k] in multiset(inOrder);
      var p :| 0 <= p < |inOrder| && inOrder[p] == all[k];
    }
  }

  lemma RankedCoversStudents(t: Table, s: Option<Scale>)
    ensures forall id :: id in Values(t.rows, StudentId) ==> StudentEntryOf(t, s, id) in RankedStudents(t, s)
  {
    var all := RankedStudents(t, s);
    var ids := StudentIds(t);
    var inOrder := EntriesInOrder(t, s, ids);
    SortDescPermutes(inOrder, GpaKey);
    forall id | id in Values(t.rows, StudentId) ensures StudentEntryOf(t, s, id) in all {
      var p :| 0 <= p < |ids| && ids[p] == id;
      assert inOrder[p] in multiset(all);
    }
  }

  lemma RankedDistinct(t: Table, s: Option<Scale>)
    ensures DistinctStudents(RankedStudents(t, s))
  {
    var all := RankedStudents(t, s);
    var ids := StudentIds(t);
    var inOrder := EntriesInOrder(t, s, ids);
    SortDescPermutes(inOrder, GpaKey);
    EntriesNoDuplicates(t, s, ids);
    PermutationNoDuplicates(inOrder, all);
    RankedOwnEntries(t, s);
    forall i, j | 0 <= i < j < |all| ensures all[i].studentId != all[j].studentId {
      assert all[i] != all[j];
    }
  }

  lemma RankedStable(t: Table, s: Option<Scale>)
    ensures forall g :: WithKey(RankedStudents(t, s), GpaKey, g)
                     == WithKey(EntriesInOrder(t, s, StudentIds(t)), GpaKey, g)
  {
    forall g ensures WithKey(RankedStudents(t, s), GpaKey, g) == WithKey(EntriesInOrder(t, s, StudentIds(t)), GpaKey, g) {
      SortDescStable(EntriesInOrder(t, s, StudentIds(t)), GpaKey, g);
    }
  }

  /** A prefix of a list of the students' own entries, each once, is one too. */
  lemma PrefixOwnEntries(t: Table, s: Option<Scale>, top: seq<StudentEntry>, all: seq<StudentEntry>)
    requires top <= all && OwnEntries(t, s, all) && DistinctStudents(all)
    ensures OwnEntries(t, s, top) && DistinctStudents(top)
  {
    assert forall k :: 0 <= k < |top| ==> top[k] == all[k];
  }

  /** Distinct students have distinct entries. */
  lemma EntriesNoDuplicates(t: Table, s: Option<Scale>, ids: seq<string>)
    requires forall id :: id in ids ==> id in Values(t.rows, StudentId)
    requires NoDuplicates(ids)
    ensures NoDuplicates(EntriesInOrder(t, s, ids))
  {
    var es := EntriesInOrder(t, s, ids);
    forall i, j | 0 <= i < j < |es| ensures es[i] != es[j] {
      assert es[i].studentId == ids[i] && es[j].studentId == ids[j];
    }
  }

  /** A prefix of a list ordered highest first is itself ordered, and nothing after the
      prefix is higher than anything in it. */
  lemma TakeOfRanked(all: seq<StudentEntry>, n: int)
    requires NonIncreasing(all, GpaKey)
    ensures var top := Take(all, n);
      && NonIncreasing(top, GpaKey)
      && (n >= 0 ==> |top| == if n < |all| then n else |all|)
      && top <= all
      && (forall i, j :: 0 <= i < |top| <= j < |all| ==> all[j].gpa <= top[i].gpa)
  {
  }

  /** The leaderboard is ordered by GPA, holds `min(n, #students)` entries for `n >= 0`, and no
      student left off it has a higher GPA than one on it. */
  lemma TopNStudentsFacts(t: Table, n: int, s: Option<Scale>)
    requires !IsEmpty(t) && ColumnName(StudentId) in t.columns
    ensures var top := TopNStudentsOf(t, n, s);
      var all := RankedStudents(t, s);
      && |all| == |set id | id in Values(t.rows, StudentId)|
      && NonIncreasing(top, GpaKey)
      && (n >= 0 ==> |top| == if n < |all| then n else |all|)
      && top <= all
      && (forall i, j :: 0 <= i < |top| <= j < |all| ==> all[j].gpa <= top[i].gpa)
      && (forall e :: e in all ==> e.studentId in Values(t.rows, StudentId))
      && OwnEntries(t, s, top)
      && DistinctStudents(top)
      && (forall g :: WithKey(all, GpaKey, g) == WithKey(EntriesInOrder(t, s, StudentIds(t)), GpaKey, g))
  {
    RankedStudentsFacts(t, s);
    TakeOfRanked(RankedStudents(t, s), n);
    PrefixOwnEntries(t, s, TopNStudentsOf(t, n, s), RankedStudents(t, s));
  }

  /** The GPA branch of `top_n_students`' loop. */
  method ComputeEntryGpa(studentRecords: Table, scale: GradeScale?) returns (gpa: real)
    ensures gpa == EntryGpa(studentRecords, ScaleView(scale))
  {
    if scale != null && MARKS in studentRecords.columns && CREDIT_HOURS in studentRecords.columns {
      gpa := CalculateStudentGpa(studentRecords, scale);
    } else {
      gpa := if MARKS in studentRecords.columns then Mean(MarksOf(studentRecords.rows)) / 25.0 else 0.0;
    }
  }

  /** The body of `top_n_students`' loop: one student's entry. */
  method StudentEntryFor(t: Table, scale: GradeScale?, studentId: string) returns (entry: StudentEntry)
    requires studentId in Values(t.rows, StudentId)
    ensures entry == StudentEntryOf(t, ScaleView(scale), studentId)
  {
    var studentRecords := Restrict(t, StudentId, studentId);
    SelectPresentValue(t.rows, StudentId, studentId);
    var gpa := ComputeEntryGpa(studentRecords, scale);
    var first := studentRecords.rows[0];
    entry := StudentEntry(
      studentId,
      if ColumnName(Name) in t.columns then first.name else "Unknown",
      if ColumnName(Department) in t.columns then first.department else "Unknown",
      if ColumnName(Semester) in t.columns then first.semester else "Unknown",
      gpa,
      if CREDIT_HOURS in t.columns then Sum(CreditsOf(studentRecords.rows)) else 0.0,
      |studentRecords.rows|);
  }

  /** The loop of `top_n_students`: the entries of `ids`, in order. */
  method StudentEntries(t: Table, scale: GradeScale?, ids: seq<string>) returns (entries: seq<StudentEntry>)
    requires forall id :: id in ids ==> id in Values(t.rows, StudentId)
    ensures entries == EntriesInOrder(t, ScaleView(scale), ids)
  {
    entries := [];
    for i := 0 to |ids|
      invariant |entries| == i
      invariant forall k :: 0 <= k < i ==> entries[k] == StudentEntryOf(t, ScaleView(scale), ids[k])
    {
      var entry := StudentEntryFor(t, scale, ids[i]);
      entries := entries + [entry];
    }
  }

  /** `top_n_students`, computed as the code does. */
  method TopNStudents(t: Table, n: int, scale: GradeScale?) returns (top: seq<StudentEntry>)
    ensures top == TopNStudentsOf(t, n, ScaleView(scale))
  {
    if IsEmpty(t) || ColumnName(StudentId) !in t.columns {
      return [];
    }
    var studentGpas := StudentEntries(t, scale, StudentIds(t));
    studentGpas := SortDesc(studentGpas, GpaKey);
    top := Take(studentGpas, n);
  }

  // ---------------------------------------------------------------------------
  // department_analysis and semester_analysis

  datatype DepartmentStats = DepartmentStats(
    totalStudents: nat,
    totalCourses: nat,
    averageGpa: real,
    passRate: real)

  function DepartmentStatsOf(g: Table, s: Option<Scale>): DepartmentStats {
    var totalStudents := DistinctCount(g, StudentId);
    DepartmentStats(
      totalStudents,
      DistinctCount(g, CourseCode),
      AverageGpa(g, s),
      if MARKS in g.columns then Percent(PassingStudents(g, s), totalStudents) else 0.0)
  }

  /** `department_analysis`: {} for an empty table or one without Department; an error when
      StudentID or CourseCode is absent; otherwise an entry per distinct department. */
  function DepartmentAnalysisOf(t: Table, s: Option<Scale>): Result<map<string, DepartmentStats>, ColumnError> {
    if IsEmpty(t) || ColumnName(Department) !in t.columns then Ok(map[])
    else if ColumnName(StudentId) !in t.columns then Err(MissingColumn(ColumnName(StudentId)))
    else if ColumnName(CourseCode) !in t.columns then Err(MissingColumn(ColumnName(CourseCode)))
    else Ok(map d | d in DistinctValues(t, Department) :: DepartmentStatsOf(Restrict(t, Department, d), s))
  }

  /** The keys are exactly the departments that occur; each has at least one and at most as
      many students as rows, and a pass rate that is a percentage. */
  lemma DepartmentAnalysisFacts(t: Table, s: Option<Scale>)
    requires DepartmentAnalysisOf(t, s).Ok?
    ensures var a := DepartmentAnalysisOf(t, s).value;
      && (forall d :: d in a <==> !IsEmpty(t) && ColumnName(Department) in t.columns && d in Values(t.rows, Department))
      && (forall d :: d in a ==>
            && 1 <= a[d].totalStudents <= |Select(t.rows, Department, d)|
            && 0.0 <= a[d].passRate <= 100.0)
  {
    var a := DepartmentAnalysisOf(t, s).value;
    forall d | d in a
      ensures 1 <= a[d].totalStudents <= |Select(t.rows, Department, d)|
      ensures 0.0 <= a[d].passRate <= 100.0
    {
      var g := Restrict(t, Department, d);
      SelectPresentValue(t.rows, Department, d);
      StudentIdsPresent(g);
      PercentBounds(PassingStudents(g, s), |StudentIds(g)|);
    }
  }

  /** The body of `department_analysis`' loop: one department's figures. */
  method DepartmentStat(deptDf: Table, scale: GradeScale?) returns (stats: DepartmentStats)
    requires ColumnName(StudentId) in deptDf.columns && ColumnName(CourseCode) in deptDf.columns
    ensures stats == DepartmentStatsOf(deptDf, ScaleView(scale))
  {
    var totalStudents := DistinctCount(deptDf, StudentId);
    var totalCourses := DistinctCount(deptDf, CourseCode);
    var avgGpa := ComputeAverageGpa(deptDf, scale);
    var passRate := 0.0;
    if MARKS in deptDf.columns {
      var passingStudents := ComputePassingStudents(deptDf, scale);
      passRate := Percent(passingStudents, totalStudents);
    }
    stats := DepartmentStats(totalStudents, totalCourses, avgGpa, passRate);
  }

  /** The loop of `department_analysis`: an entry for each of `depts`. */
  method DepartmentEntries(t: Table, scale: GradeScale?, depts: seq<string>) returns (analysis: map<string, DepartmentStats>)
    requires ColumnName(StudentId) in t.columns && ColumnName(CourseCode) in t.columns
    ensures analysis == map d | d in depts :: DepartmentStatsOf(Restrict(t, Department, d), ScaleView(scale))
  {
    analysis := map[];
    for i := 0 to |depts|
      invariant forall d :: d in analysis <==> d in depts[..i]
      invariant forall d :: d in analysis ==> analysis[d] == DepartmentStatsOf(Restrict(t, Department, d), ScaleView(scale))
    {
      var deptStats := DepartmentStat(Restrict(t, Department, depts[i]), scale);
      assert depts[..i + 1] == depts[..i] + [depts[i]];
      analysis := analysis[depts[i] := deptStats];
    }
    assert depts[..|depts|] == depts;
  }

  /** `department_analysis`, computed as the code does. */
  method DepartmentAnalysis(t: Table, scale: GradeScale?) returns (r: Result<map<string, DepartmentStats>, ColumnError>)
    ensures r == DepartmentAnalysisOf(t, ScaleView(scale))
  {
    if IsEmpty(t) || ColumnName(Department) !in t.columns {
      return Ok(map[]);
    }
    if ColumnName(StudentId) !in t.columns {
      return Err(MissingColumn(ColumnName(StudentId)));
    }
    if ColumnName(CourseCode) !in t.columns {
      return Err(MissingColumn(ColumnName(CourseCode)));
    }
    var depts := DistinctValues(t, Department);
    var analysis := DepartmentEntries(t, scale, depts);
    return Ok(analysis);
  }

  datatype SemesterStats = SemesterStats(totalStudents: nat, totalCourses: nat, averageGpa: real)

  function SemesterStatsOf(g: Table, s: Option<Scale>): SemesterStats {
    SemesterStats(DistinctCount(g, StudentId), DistinctCount(g, CourseCode), AverageGpa(g, s))
  }

  /** `semester_analysis`: {} for an empty table or one without Semester; an error when
      StudentID or CourseCode is absent; otherwise an entry per distinct semester. */
  function SemesterAnalysisOf(t: Table, s: Option<Scale>): Result<map<string, SemesterStats>, ColumnError> {
    if IsEmpty(t) || ColumnName(Semester) !in t.columns then Ok(map[])
    else if ColumnName(StudentId) !in t.columns then Err(MissingColumn(ColumnName(StudentId)))
    else if ColumnName(CourseCode) !in t.columns then Err(MissingColumn(ColumnName(CourseCode)))
    else Ok(map m | m in DistinctValues(t, Semester) :: SemesterStatsOf(Restrict(t, Semester, m), s))
  }

  /** The keys are exactly the semesters that occur, each with at least one student. */
  lemma SemesterAnalysisFacts(t: Table, s: Option<Scale>)
    requires SemesterAnalysisOf(t, s).Ok?
    ensures var a := SemesterAnalysisOf(t, s).value;
      && (forall m :: m in a <==> !IsEmpty(t) && ColumnName(Semester) in t.columns && m in Values(t.rows, Semester))
      && (forall m :: m in a ==> 1 <= a[m].totalStudents <= |Select(t.rows, Semester, m)|)
  {
    var a := SemesterAnalysisOf(t, s).value;
    forall m | m in a ensures 1 <= a[m].totalStudents <= |Select(t.rows, Semester, m)| {
      SelectPresentValue(t.rows, Semester, m);
      StudentIdsPresent(Restrict(t, Semester, m));
    }
  }

  /** The body of `semester_analysis`' loop: one semester's figures. */
  method SemesterStat(semDf: Table, scale: GradeScale?) returns (stats: SemesterStats)
    requires ColumnName(StudentId) in semDf.columns && ColumnName(CourseCode) in semDf.columns
    ensures stats == SemesterStatsOf(semDf, ScaleView(scale))
  {
    var totalStudents := DistinctCount(semDf, StudentId);
    var totalCourses := DistinctCount(semDf, CourseCode);
    var avgGpa := ComputeAverageGpa(semDf, scale);
    stats := SemesterStats(totalStudents, totalCourses, avgGpa);
  }

  /** The loop of `semester_analysis`: an entry for each of `semesters`. */
  method SemesterEntries(t: Table, scale: GradeScale?, semesters: seq<string>) returns (analysis: map<string, SemesterStats>)
    requires ColumnName(StudentId) in t.columns && ColumnName(CourseCode) in t.columns
    ensures analysis == map m | m in semesters :: SemesterStatsOf(Restrict(t, Semester, m), ScaleView(scale))
  {
    analysis := map[];
    for i := 0 to |semesters|
      invariant forall m :: m in analysis <==> m in semesters[..i]
      invariant forall m :: m in analysis ==> analysis[m] == SemesterStatsOf(Restrict(t, Semester, m), ScaleView(scale))
    {
      var semStats := SemesterStat(Restrict(t, Semester, semesters[i]), scale);
      assert semesters[..i + 1] == semesters[..i] + [semesters[i]];
      analysis := analysis[semesters[i] := semStats];
    }
    assert semesters[..|semesters|] == semesters;
  }

  /** `semester_analysis`, computed as the code does. */
  method SemesterAnalysis(t: Table, scale: GradeScale?) returns (r: Result<map<string, SemesterStats>, ColumnError>)
    ensures r == SemesterAnalysisOf(t, ScaleView(scale))
  {
    if IsEmpty(t) || ColumnName(Semester) !in t.columns {
      return Ok(map[]);
    }
    if ColumnName(StudentId) !in t.columns {
      return Err(MissingColumn(ColumnName(StudentId)));
    }
    if ColumnName(CourseCode) !in t.columns {
      return Err(MissingColumn(ColumnName(CourseCode)));
    }
    var semesters := DistinctValues(t, Semester);
    var analysis := SemesterEntries(t, scale, semesters);
    return Ok(analysis);
  }

  // ---------------------------------------------------------------------------
  // get_performance_trends

  datatype Trends = Trends(
    semesters: seq<string>,
    averageGpaBySemester: seq<real>,
    passRateBySemester: seq<real>,
    totalStudentsBySemester: seq<nat>)

  /** The trend's pass rate: only with a scale and marks, else 0.0. */
  function TrendPassRate(g: Table, s: Option<Scale>): real {
    if s.Some? && MARKS in g.columns then Percent(PassingStudents(g, s), DistinctCount(g, StudentId)) else 0.0
  }

  /** One semester's three figures: average GPA, pass rate and number of students. */
  function TrendPoint(t: Table, s: Option<Scale>, semester: string): (real, real, nat) {
    var g := Restrict(t, Semester, semester);
    (AverageGpa(g, s), TrendPassRate(g, s), DistinctCount(g, StudentId))
  }

  function TrendsOver(t: Table, s: Option<Scale>, semesters: seq<string>): Trends {
    Trends(
      semesters,
      seq(|semesters|, k requires 0 <= k < |semesters| => TrendPoint(t, s, semesters[k]).0),
      seq(|semesters|, k requires 0 <= k < |semesters| => TrendPoint(t, s, semesters[k]).1),
      seq(|semesters|, k requires 0 <= k < |semesters| => TrendPoint(t, s, semesters[k]).2))
  }

  /** `get_performance_trends`: {} (here `None`) for an empty table or one without Semester; an
      error without StudentID; otherwise the sorted distinct semesters with a figure per semester
      in each list. */
  function PerformanceTrendsOf(t: Table, s: Option<Scale>): Result<Option<Trends>, ColumnError> {
    if IsEmpty(t) || ColumnName(Semester) !in t.columns then Ok(None)
    else if ColumnName(StudentId) !in t.columns then Err(MissingColumn(ColumnName(StudentId)))
    else Ok(Some(TrendsOver(t, s, SortStrings(DistinctValues(t, Semester)))))
  }

  /** The semesters are the distinct semesters in ascending order, each once; the three lists
      run parallel to them; each pass rate is a percentage and each student count positive. */
  lemma PerformanceTrendsFacts(t: Table, s: Option<Scale>)
    requires PerformanceTrendsOf(t, s).Ok? && PerformanceTrendsOf(t, s).value.Some?
    ensures var tr := PerformanceTrendsOf(t, s).value.value;
      && Ascending(tr.semesters)
      && (forall m :: m in tr.semesters <==> m in Values(t.rows, Semester))
      && |tr.semesters| == |set m | m in Values(t.rows, Semester)|
      && |tr.averageGpaBySemester| == |tr.semesters|
      && |tr.passRateBySemester| == |tr.semesters|
      && |tr.totalStudentsBySemester| == |tr.semesters|
      && (forall k :: 0 <= k < |tr.semesters| ==>
            0.0 <= tr.passRateBySemester[k] <= 100.0 && tr.totalStudentsBySemester[k] >= 1)
  {
    var values := Values(t.rows, Semester);
    var tr := PerformanceTrendsOf(t, s).value.value;
    SortStringsSorted(Unique(values));
    SortStringsPermutes(Unique(values));
    UniqueCountIsDistinctCount(values);
    forall m ensures m in tr.semesters <==> m in values {
      assert m in tr.semesters <==> m in multiset(Unique(values));
    }
    forall k | 0 <= k < |tr.semesters|
      ensures 0.0 <= tr.passRateBySemester[k] <= 100.0 && tr.totalStudentsBySemester[k] >= 1
    {
      var g := Restrict(t, Semester, tr.semesters[k]);
      SelectPresentValue(t.rows, Semester, tr.semesters[k]);
      StudentIdsPresent(g);
      PercentBounds(PassingStudents(g, s), |StudentIds(g)|);
    }
  }

  /** The body of `get_performance_trends`' loop: one semester's average GPA and pass rate. */
  method TrendFigures(semDf: Table, scale: GradeScale?) returns (avgGpa: real, passRate: real)
    ensures avgGpa == AverageGpa(semDf, ScaleView(scale))
    ensures passRate == TrendPassRate(semDf, ScaleView(scale))
  {
    avgGpa := ComputeAverageGpa(semDf, scale);
    passRate := 0.0;
    if scale != null && MARKS in semDf.columns {
      var passingStudents := ComputePassingStudents(semDf, scale);
      passRate := Percent(passingStudents, DistinctCount(semDf, StudentId));
    }
  }

  /** The loop of `get_performance_trends`: the three figures for each of `semesters`. */
  method TrendLists(t: Table, scale: GradeScale?, semesters: seq<string>) returns (tr: Trends)
    ensures tr == TrendsOver(t, ScaleView(scale), semesters)
  {
    ghost var sv := ScaleView(scale);
    var averageGpas: seq<real> := [];
    var passRates: seq<real> := [];
    var totalStudents: seq<nat> := [];
    for i := 0 to |semesters|
      invariant |averageGpas| == i && |passRates| == i && |totalStudents| == i
      invariant forall k :: 0 <= k < i ==> TrendPoint(t, sv, semesters[k]) == (averageGpas[k], passRates[k], totalStudents[k])
    {
      var semDf := Restrict(t, Semester, semesters[i]);
      var avgGpa, passRate := TrendFigures(semDf, scale);
      averageGpas := averageGpas + [avgGpa];
      passRates := passRates + [passRate];
      totalStudents := totalStudents + [DistinctCount(semDf, StudentId)];
    }
    tr := Trends(semesters, averageGpas, passRates, totalStudents);
  }

  /** `get_performance_trends`, computed as the code does. */
  method GetPerformanceTrends(t: Table, scale: GradeScale?) returns (r: Result<Option<Trends>, ColumnError>)
    ensures r == PerformanceTrendsOf(t, ScaleView(scale))
  {
    if IsEmpty(t) || ColumnName(Semester) !in t.columns {
      return Ok(None);
    }
    if ColumnName(StudentId) !in t.columns {
      return Err(MissingColumn(ColumnName(StudentId)));
    }
    var semesters := SortStrings(DistinctValues(t, Semester));
    var tr := TrendLists(t, scale, semesters);
    return Ok(Some(tr));
  }
}
