/** The pydantic models of src/models.py. Constructing a model either yields the
    record with its normalised fields or raises a ValidationError that lists every
    failing field in declaration order; here that is a `Result` whose error is the
    list of `FieldError`s. Rounding of the accepted floats (`round(v, 2)`,
    `round(v, 1)`, `round(v, 3)`) is not modelled: an accepted value is kept as given. */
module Models {
  import opened Wrappers
  import opened Text
  import opened Config
  import opened Tables
  import opened Grading
  import opened Analytics

  /** A Python float: a real number, or NaN (what `float()` of a missing cell gives). */
  datatype Float = Finite(value: real) | NaN

  /** One entry of a ValidationError: a field validator's own message, or a failed
      `Field(ge=..., le=...)` bound (whose wording is pydantic's and is not modelled). */
  datatype FieldError = ValidatorError(field: string, message: string) | BoundError(field: string)

  /** The error `e` when `ok` fails, nothing otherwise. */
  function Check(ok: bool, e: FieldError): (r: seq<FieldError>)
    ensures r == [] <==> ok
  {
    if ok then [] else [e]
  }

  // ---------------------------------------------------------------------------
  // StudentRecord

  datatype StudentRecord = StudentRecord(
    studentId: string,
    name: string,
    department: string,
    semester: string,
    courseCode: string,
    courseName: string,
    creditHours: real,
    marks: real,
    grade: Option<string>,
    gpaPoints: Option<real>)

  /** How a string validator normalises the stripped value. */
  datatype Casing = AsIs | TitleCase | UpperCase

  function Recase(c: Casing, s: string): string {
    match c
    case AsIs => s
    case TitleCase => Title(s)
    case UpperCase => Upper(s)
  }

  /** The six string fields of a StudentRecord, each with its own validator. */
  datatype TextField = StudentIdField | NameField | DepartmentField | SemesterField | CourseCodeField | CourseNameField

  function FieldName(f: TextField): string {
    match f
    case StudentIdField => "student_id"
    case NameField => "name"
    case DepartmentField => "department"
    case SemesterField => "semester"
    case CourseCodeField => "course_code"
    case CourseNameField => "course_name"
  }

  function EmptyMessage(f: TextField): string {
    match f
    case StudentIdField => "Student ID cannot be empty"
    case NameField => "Student name cannot be empty"
    case DepartmentField => "Department cannot be empty"
    case SemesterField => "Semester cannot be empty"
    case CourseCodeField => "Course code cannot be empty"
    case CourseNameField => "Course name cannot be empty"
  }

  /** Name and department are title-cased, the course code upper-cased, the rest only stripped. */
  function CasingOf(f: TextField): Casing {
    match f
    case NameField => TitleCase
    case DepartmentField => TitleCase
    case CourseCodeField => UpperCase
    case _ => AsIs
  }

  /** The six string validators: a blank value (`not v or len(v.strip()) == 0`) is an
      error with the validator's message; otherwise the stripped value, re-cased. */
  function CheckText(f: TextField, v: string): (r: Result<string, FieldError>)
    ensures r.Err? <==> IsBlank(v)
    ensures r.Err? ==> r.error == ValidatorError(FieldName(f), EmptyMessage(f))
    ensures r.Ok? ==> r.value == Recase(CasingOf(f), Strip(v)) && !IsBlank(r.value)
  {
    if IsBlank(v) then Err(ValidatorError(FieldName(f), EmptyMessage(f)))
    else
      RecasedNotBlank(CasingOf(f), v);
      Ok(Recase(CasingOf(f), Strip(v)))
  }

  /** Re-casing the stripped text of a value that is not blank leaves it not blank. */
  lemma RecasedNotBlank(c: Casing, v: string)
    requires !IsBlank(v)
    ensures !IsBlank(Recase(c, Strip(v)))
  {
    CaseOfStripped(v);
    match c
    case AsIs => StripIdempotent(v);
    case TitleCase =>
    case UpperCase =>
  }

  /** `marks`: `Field(ge=0, le=100)`; the validator's own range check can then no longer fail. */
  function CheckMarks(v: Float): (r: Result<real, FieldError>)
    ensures r.Ok? <==> v.Finite? && 0.0 <= v.value <= 100.0
    ensures r.Ok? ==> r.value == v.value
    ensures r.Err? ==> r.error == BoundError("marks")
  {
    if v.Finite? && 0.0 <= v.value <= 100.0 then Ok(v.value) else Err(BoundError("marks"))
  }

  /** `credit_hours`: `Field(ge=0, le=10)`, then the validator rejects zero. */
  function CheckCreditHours(v: Float): (r: Result<real, FieldError>)
    ensures r.Ok? <==> v.Finite? && 0.0 < v.value <= 10.0
    ensures r.Ok? ==> r.value == v.value
    ensures v == Finite(0.0) ==> r == Err(ValidatorError("credit_hours", "Credit hours must be positive"))
  {
    if !(v.Finite? && 0.0 <= v.value <= 10.0) then Err(BoundError("credit_hours"))
    else if v.value <= 0.0 then Err(ValidatorError("credit_hours", "Credit hours must be positive"))
    else Ok(v.value)
  }

  function ErrorsOf<T>(r: Result<T, FieldError>): (es: seq<FieldError>)
    ensures es == [] <==> r.Ok?
  {
    if r.Err? then [r.error] else []
  }

  /** Every field of a StudentRecord, checked in declaration order: the errors of those that fail. */
  function StudentRecordErrors(studentId: string, name: string, department: string, semester: string,
                               courseCode: string, courseName: string, creditHours: Float, marks: Float)
    : (errors: seq<FieldError>)
    ensures errors == [] <==>
      && !IsBlank(studentId) && !IsBlank(name) && !IsBlank(department) && !IsBlank(semester)
      && !IsBlank(courseCode) && !IsBlank(courseName)
      && creditHours.Finite? && 0.0 < creditHours.value <= 10.0
      && marks.Finite? && 0.0 <= marks.value <= 100.0
    ensures IsBlank(name) ==> ValidatorError(FieldName(NameField), EmptyMessage(NameField)) in errors
  {
    var e1 := ErrorsOf(CheckText(StudentIdField, studentId));
    var e2 := ErrorsOf(CheckText(NameField, name));
    var e3 := ErrorsOf(CheckText(DepartmentField, department));
    var e4 := ErrorsOf(CheckText(SemesterField, semester));
    var e5 := ErrorsOf(CheckText(CourseCodeField, courseCode));
    var e6 := ErrorsOf(CheckText(CourseNameField, courseName));
    var e7 := ErrorsOf(CheckCreditHours(creditHours));
    var e8 := ErrorsOf(CheckMarks(marks));
    e1 + e2 + e3 + e4 + e5 + e6 + e7 + e8
  }

  /** `StudentRecord(...)` with `grade` and `gpa_points` left at `None`. */
  function NewStudentRecord(studentId: string, name: string, department: string, semester: string,
                            courseCode: string, courseName: string, creditHours: Float, marks: Float)
    : (r: Result<StudentRecord, seq<FieldError>>)
    ensures r.Ok? <==>
      && !IsBlank(studentId) && !IsBlank(name) && !IsBlank(department) && !IsBlank(semester)
      && !IsBlank(courseCode) && !IsBlank(courseName)
      && creditHours.Finite? && 0.0 < creditHours.value <= 10.0
      && marks.Finite? && 0.0 <= marks.value <= 100.0
    ensures r.Ok? ==> r.value == StudentRecord(
      Strip(studentId), Title(Strip(name)), Title(Strip(department)), Strip(semester),
      Upper(Strip(courseCode)), Strip(courseName), creditHours.value, marks.value, None, None)
    ensures r.Err? ==> |r.error| > 0 && (IsBlank(name) ==> ValidatorError(FieldName(NameField), EmptyMessage(NameField)) in r.error)
  {
    var errors := StudentRecordErrors(studentId, name, department, semester, courseCode, courseName, creditHours, marks);
    if errors == [] then
      Ok(StudentRecord(Strip(studentId), Title(Strip(name)), Title(Strip(department)), Strip(semester),
                       Upper(Strip(courseCode)), Strip(courseName), creditHours.value, marks.value, None, None))
    else
      Err(errors)
  }

  /** Validation is a fixed point: assigning an accepted record's own values again (the
      models set `validate_assignment`) accepts them unchanged. */
  lemma StudentRecordRevalidates(studentId: string, name: string, department: string, semester: string,
                                 courseCode: string, courseName: string, creditHours: Float, marks: Float)
    requires NewStudentRecord(studentId, name, department, semester, courseCode, courseName, creditHours, marks).Ok?
    ensures var rec := NewStudentRecord(studentId, name, department, semester, courseCode, courseName, creditHours, marks).value;
      NewStudentRecord(rec.studentId, rec.name, rec.department, rec.semester, rec.courseCode, rec.courseName,
                       Finite(rec.creditHours), Finite(rec.marks)) == Ok(rec)
  {
    StrippedFixed(studentId);
    TitledFixed(name);
    TitledFixed(department);
    StrippedFixed(semester);
    UpperedFixed(courseCode);
    StrippedFixed(courseName);
  }

  /** What the plain string validators keep passes them again unchanged. */
  lemma StrippedFixed(v: string)
    requires !IsBlank(v)
    ensures !IsBlank(Strip(v)) && Strip(Strip(v)) == Strip(v)
  {
    StripIdempotent(v);
  }

  /** What the title-casing validators keep passes them again unchanged. */
  lemma TitledFixed(v: string)
    requires !IsBlank(v)
    ensures !IsBlank(Title(Strip(v))) && Title(Strip(Title(Strip(v)))) == Title(Strip(v))
  {
    RecasedNotBlank(TitleCase, v);
    CaseOfStripped(v);
    TitleFromIdempotent(Strip(v), false);
  }

  /** What the upper-casing validator keeps passes it again unchanged. */
  lemma UpperedFixed(v: string)
    requires !IsBlank(v)
    ensures !IsBlank(Upper(Strip(v))) && Upper(Strip(Upper(Strip(v)))) == Upper(Strip(v))
  {
    RecasedNotBlank(UpperCase, v);
    CaseOfStripped(v);
    UpperIdempotent(Strip(v));
  }

  // ---------------------------------------------------------------------------
  // ParsedStudent

  datatype ParsedStudent = ParsedStudent(
    studentId: string,
    name: string,
    department: string,
    semester: string,
    totalCredits: real,
    totalMarks: real,
    gpa: real,
    coursesCount: int,
    passFailStatus: string,
    gradeDistribution: map<string, int>)

  const PASS_FAIL_MESSAGE: string := "Pass/Fail status must be 'Pass' or 'Fail'"

  function ParsedStudentErrors(totalCredits: real, totalMarks: real, gpa: real, coursesCount: int,
                               passFailStatus: string): seq<FieldError> {
    Check(totalCredits >= 0.0, BoundError("total_credits"))
    + Check(totalMarks >= 0.0, BoundError("total_marks"))
    + Check(0.0 <= gpa <= 4.0, BoundError("gpa"))
    + Check(coursesCount >= 1, BoundError("courses_count"))
    + Check(passFailStatus == "Pass" || passFailStatus == "Fail", ValidatorError("pass_fail_status", PASS_FAIL_MESSAGE))
  }

  /** `ParsedStudent(...)`: credits and marks non-negative, GPA in [0, 4], at least one
      course, and a status of "Pass" or "Fail". */
  function NewParsedStudent(studentId: string, name: string, department: string, semester: string,
                            totalCredits: real, totalMarks: real, gpa: real, coursesCount: int,
                            passFailStatus: string, gradeDistribution: map<string, int>)
    : (r: Result<ParsedStudent, seq<FieldError>>)
    ensures r.Ok? <==>
      totalCredits >= 0.0 && totalMarks >= 0.0 && 0.0 <= gpa <= 4.0 && coursesCount >= 1
      && (passFailStatus == "Pass" || passFailStatus == "Fail")
    ensures r.Ok? ==> r.value.gpa == gpa && r.value.passFailStatus == passFailStatus
    ensures r.Err? ==> |r.error| > 0 && forall e :: e in r.error ==>
      e.field in ["total_credits", "total_marks", "gpa", "courses_count", "pass_fail_status"]
  {
    var errors := ParsedStudentErrors(totalCredits, totalMarks, gpa, coursesCount, passFailStatus);
    if errors == [] then
      Ok(ParsedStudent(studentId, name, department, semester, totalCredits, totalMarks, gpa,
                       coursesCount, passFailStatus, gradeDistribution))
    else Err(errors)
  }

  // ---------------------------------------------------------------------------
  // CohortSummary

  datatype CohortSummary = CohortSummary(
    totalStudents: int,
    totalCourses: int,
    averageGpa: real,
    medianGpa: real,
    passRate: real,
    failCount: int,
    gpaStdDev: real,
    totalCredits: real)

  /** `CohortSummary(...)`: non-negative counts, credits and deviation, GPAs in [0, 4] and a
      pass rate in [0, 100]. */
  function NewCohortSummary(totalStudents: int, totalCourses: int, averageGpa: real, medianGpa: real,
                            passRate: real, failCount: int, gpaStdDev: real, totalCredits: real)
    : (r: Result<CohortSummary, seq<FieldError>>)
    ensures r.Ok? <==>
      totalStudents >= 0 && totalCourses >= 0 && 0.0 <= averageGpa <= 4.0 && 0.0 <= medianGpa <= 4.0
      && 0.0 <= passRate <= 100.0 && failCount >= 0 && gpaStdDev >= 0.0 && totalCredits >= 0.0
    ensures r.Ok? ==> r.value == CohortSummary(totalStudents, totalCourses, averageGpa, medianGpa,
                                               passRate, failCount, gpaStdDev, totalCredits)
    ensures r.Err? ==> (!(0.0 <= passRate <= 100.0) <==> BoundError("pass_rate") in r.error)
  {
    var errors :=
      Check(totalStudents >= 0, BoundError("total_students"))
      + Check(totalCourses >= 0, BoundError("total_courses"))
      + Check(0.0 <= averageGpa <= 4.0, BoundError("average_gpa"))
      + Check(0.0 <= medianGpa <= 4.0, BoundError("median_gpa"))
      + Check(0.0 <= passRate <= 100.0, BoundError("pass_rate"))
      + Check(failCount >= 0, BoundError("fail_count"))
      + Check(gpaStdDev >= 0.0, BoundError("gpa_std_dev"))
      + Check(totalCredits >= 0.0, BoundError("total_credits"));
    if errors == [] then
      Ok(CohortSummary(totalStudents, totalCourses, averageGpa, medianGpa, passRate, failCount,
                       gpaStdDev, totalCredits))
    else Err(errors)
  }

  /** Rows as a validated `StudentRecord` admits them: marks in [0, 100], credits in (0, 10]. */
  predicate RecordBounds(t: Table) {
    forall i :: 0 <= i < |t.rows| ==> 0.0 <= t.rows[i].marks <= 100.0 && 0.0 < t.rows[i].creditHours <= 10.0
  }

  /** The 4.0 preset or no scale at all: the settings under which every GPA figure is in [0, 4]. */
  predicate FourPointOrNone(s: Option<Scale>) {
    s.None? || (s.value == Preset(s.value.scaleType) && s.value.scaleType != "100")
  }

  lemma CreditsTotalNonNegative(t: Table)
    requires RecordBounds(t)
    ensures Sum(CreditsOf(t.rows)) >= 0.0
  {
    SumBounds(CreditsOf(t.rows), 0.0, 10.0);
  }

  /** The average GPA of a group lies in [0, 4] on the 4.0 preset or without a scale. */
  lemma AverageGpaOnFourPoint(g: Table, s: Option<Scale>)
    requires RecordBounds(g) && FourPointOrNone(s) && |g.rows| > 0
    ensures 0.0 <= AverageGpa(g, s) <= 4.0
  {
    if s.Some? && MARKS in g.columns && CREDIT_HOURS in g.columns {
      FourPointValuesBounded();
      AverageGpaWithin(g, s.value, 0.0, 4.0);
    } else if MARKS in g.columns {
      MeanBounds(MarksOf(g.rows), 0.0, 100.0);
    }
  }

  /** What `cohort_summary` reports on validated rows fits the CohortSummary model, on the
      4.0 preset or without a scale, for any median in [0, 4] and any deviation >= 0. */
  lemma CohortSummaryConforms(t: Table, s: Option<Scale>, medianGpa: real, gpaStdDev: real)
    requires RecordBounds(t) && FourPointOrNone(s)
    requires CohortSummaryOf(t, s).Ok?
    requires 0.0 <= medianGpa <= 4.0 && gpaStdDev >= 0.0
    ensures var c := CohortSummaryOf(t, s).value;
      NewCohortSummary(c.totalStudents, c.totalCourses, c.averageGpa, medianGpa, c.passRate,
                       c.failCount, gpaStdDev, c.totalCredits).Ok?
  {
    CohortSummaryFacts(t, s);
    if !IsEmpty(t) {
      AverageGpaOnFourPoint(t, s);
      CreditsTotalNonNegative(t);
    }
  }

  // ---------------------------------------------------------------------------
  // SubjectStats

  datatype SubjectStats = SubjectStats(
    courseCode: string,
    courseName: string,
    department: string,
    totalStudents: int,
    averageMarks: real,
    passRate: real,
    topScorer: Option<string>,
    topScore: Option<real>,
    creditHours: real)

  /** `SubjectStats(...)`: average marks, pass rate and (when present) top score in their
      ranges; student count and credit hours non-negative. */
  function NewSubjectStats(courseCode: string, courseName: string, department: string, totalStudents: int,
                           averageMarks: real, passRate: real, topScorer: Option<string>,
                           topScore: Option<real>, creditHours: real)
    : (r: Result<SubjectStats, seq<FieldError>>)
    ensures r.Ok? <==>
      totalStudents >= 0 && 0.0 <= averageMarks <= 100.0 && 0.0 <= passRate <= 100.0
      && (topScore.Some? ==> 0.0 <= topScore.value <= 100.0) && creditHours >= 0.0
    ensures r.Ok? ==> r.value.topScore == topScore && r.value.averageMarks == averageMarks
  {
    var errors :=
      Check(totalStudents >= 0, BoundError("total_students"))
      + Check(0.0 <= averageMarks <= 100.0, BoundError("average_marks"))
      + Check(0.0 <= passRate <= 100.0, BoundError("pass_rate"))
      + Check(topScore.Some? ==> 0.0 <= topScore.value <= 100.0, BoundError("top_score"))
      + Check(creditHours >= 0.0, BoundError("credit_hours"));
    if errors == [] then
      Ok(SubjectStats(courseCode, courseName, department, totalStudents, averageMarks, passRate,
                      topScorer, topScore, creditHours))
    else Err(errors)
  }

  /** Each entry `subject_stats` reports on validated rows fits the SubjectStats model. */
  lemma SubjectStatConforms(t: Table, s: Option<Scale>, code: string)
    requires RecordBounds(t)
    requires code in Values(t.rows, CourseCode)
    ensures var st := SubjectStatOf(t, s, code);
      NewSubjectStats(st.courseCode, st.courseName, st.department, st.totalStudents, st.averageMarks,
                      st.passRate, if st.top.Some? then Some(st.top.value.name) else None,
                      if st.top.Some? then Some(st.top.value.score) else None, st.creditHours).Ok?
  {
    var rows := Select(t.rows, CourseCode, code);
    SubjectStatFacts(t, s, code);
    forall i | 0 <= i < |rows| ensures 0.0 <= rows[i].marks <= 100.0 && 0.0 < rows[i].creditHours <= 10.0 {
      assert rows[i] in t.rows;
    }
    MeanBounds(MarksOf(rows), 0.0, 100.0);
  }

  // ---------------------------------------------------------------------------
  // GradeScaleConfig

  datatype GradeScaleConfig = GradeScaleConfig(
    scaleName: string,
    scaleType: string,
    gradeMappings: PointsTable,
    gradeBoundaries: BoundaryTable,
    passingGrade: string)

  const SCALE_TYPE_MESSAGE: string := "Scale type must be '4.0', '100', or 'custom'"
  const EMPTY_MAPPINGS_MESSAGE: string := "Grade mappings cannot be empty"

  predicate KnownScaleType(scaleType: string) {
    scaleType == "4.0" || scaleType == "100" || scaleType == "custom"
  }

  /** `GradeScaleConfig(...)`: a known scale type and at least one grade mapping. */
  function NewGradeScaleConfig(scaleName: string, scaleType: string, gradeMappings: PointsTable,
                               gradeBoundaries: BoundaryTable, passingGrade: string)
    : (r: Result<GradeScaleConfig, seq<FieldError>>)
    ensures r.Ok? <==> KnownScaleType(scaleType) && |gradeMappings| > 0
    ensures r.Err? ==> (!KnownScaleType(scaleType) <==> ValidatorError("scale_type", SCALE_TYPE_MESSAGE) in r.error)
    ensures r.Ok? ==> r.value == GradeScaleConfig(scaleName, scaleType, gradeMappings, gradeBoundaries, passingGrade)
  {
    var errors :=
      Check(KnownScaleType(scaleType), ValidatorError("scale_type", SCALE_TYPE_MESSAGE))
      + Check(|gradeMappings| > 0, ValidatorError("grade_mappings", EMPTY_MAPPINGS_MESSAGE));
    if errors == [] then Ok(GradeScaleConfig(scaleName, scaleType, gradeMappings, gradeBoundaries, passingGrade))
    else Err(errors)
  }

  /** The configuration a scale exports is a valid GradeScaleConfig exactly when its type is
      one of the three known ones and its mapping is not empty; so every preset "4.0" or
      "100" scale exports a valid one. */
  lemma ExportedScaleConforms(name: string, s: Scale)
    ensures var c := Export(s);
      NewGradeScaleConfig(name, c.scaleType.value, c.gradeMappings.value, c.gradeBoundaries.value,
                          c.passingGrade.value).Ok?
      <==> KnownScaleType(s.scaleType) && |s.gradeMappings| > 0
    ensures (s == Preset("4.0") || s == Preset("100")) ==>
      NewGradeScaleConfig(name, s.scaleType, s.gradeMappings, s.gradeBoundaries, s.passingGrade).Ok?
  {
  }

  // ---------------------------------------------------------------------------
  // FilterOptions

  datatype FilterOptions = FilterOptions(
    departments: Option<seq<string>>,
    semesters: Option<seq<string>>,
    minGpa: Option<real>,
    maxGpa: Option<real>,
    studentSearch: Option<string>,
    passFailFilter: Option<string>)

  const PASS_FAIL_FILTER_MESSAGE: string := "Pass/Fail filter must be 'Pass', 'Fail', or 'All'"

  predicate GpaBound(v: Option<real>) {
    v.Some? ==> 0.0 <= v.value <= 4.0
  }

  /** `FilterOptions(...)`: GPA bounds in [0, 4] when given, a pass/fail filter of "Pass",
      "Fail" or "All" when given. */
  function NewFilterOptions(departments: Option<seq<string>>, semesters: Option<seq<string>>,
                            minGpa: Option<real>, maxGpa: Option<real>, studentSearch: Option<string>,
                            passFailFilter: Option<string>)
    : (r: Result<FilterOptions, seq<FieldError>>)
    ensures r.Ok? <==>
      GpaBound(minGpa) && GpaBound(maxGpa)
      && (passFailFilter.Some? ==> passFailFilter.value in ["Pass", "Fail", "All"])
    ensures r.Ok? ==> r.value == FilterOptions(departments, semesters, minGpa, maxGpa, studentSearch, passFailFilter)
  {
    var errors :=
      Check(GpaBound(minGpa), BoundError("min_gpa"))
      + Check(GpaBound(maxGpa), BoundError("max_gpa"))
      + Check(passFailFilter.Some? ==> passFailFilter.value in ["Pass", "Fail", "All"],
              ValidatorError("pass_fail_filter", PASS_FAIL_FILTER_MESSAGE));
    if errors == [] then Ok(FilterOptions(departments, semesters, minGpa, maxGpa, studentSearch, passFailFilter))
    else Err(errors)
  }
}
