/** The two data-handling helpers of src/ui.py: `apply_filters`, which narrows
    the table by the sidebar's department, semester, GPA-range and name-search
    choices one after the other, and the page's own copy of the per-student GPA.
    A filter the sidebar did not set is `None`; the name search is a plain
    case-insensitive substring test. */
module Ui {
  import opened Wrappers
  import opened Text
  import opened Tables
  import opened Grading
  import Analytics

  /** The `filters` dictionary: a key that is absent is `None`. */
  datatype Filters = Filters(
    department: Option<string>,
    semester: Option<string>,
    gpaRange: Option<(real, real)>,
    studentSearch: Option<string>)

  /** The marks scale's width of one GPA point (`gpa * 25`). */
  const MARKS_PER_GPA_POINT: real := 25.0

  /** One boolean mask of `apply_filters`. */
  datatype Condition =
    | DepartmentIs(department: string)
    | SemesterIs(semester: string)
    | MarksWithin(minMarks: real, maxMarks: real)
    | NameContains(term: string)

  /** The column a condition reads; indexing an absent one is a `KeyError`. */
  function ColumnOf(c: Condition): string {
    match c
    case DepartmentIs(_) => "Department"
    case SemesterIs(_) => "Semester"
    case MarksWithin(_, _) => "Marks"
    case NameContains(_) => "Name"
  }

  predicate Holds(c: Condition, r: Row) {
    match c
    case DepartmentIs(d) => r.department == d
    case SemesterIs(s) => r.semester == s
    case MarksWithin(lo, hi) => lo <= r.marks <= hi
    case NameContains(term) => Contains(Lower(r.name), Lower(term))
  }

  /** The mask of stage `k` of `apply_filters` (department, semester, GPA
      range, name search), or none when that filter is not set. */
  function StageMask(f: Filters, k: nat): seq<Condition> {
    if k == 0 then (if f.department.Some? then [DepartmentIs(f.department.value)] else [])
    else if k == 1 then (if f.semester.Some? then [SemesterIs(f.semester.value)] else [])
    else if k == 2 then
      (if f.gpaRange.Some?
       then [MarksWithin(f.gpaRange.value.0 * MARKS_PER_GPA_POINT, f.gpaRange.value.1 * MARKS_PER_GPA_POINT)]
       else [])
    else if k == 3 then (if f.studentSearch.Some? then [NameContains(f.studentSearch.value)] else [])
    else []
  }

  /** The masks of the first `k` stages, in the order the code applies them. */
  function Masks(f: Filters, k: nat): seq<Condition> {
    if k == 0 then [] else Masks(f, k - 1) + StageMask(f, k - 1)
  }

  /** All the masks the filters ask for. */
  function Conditions(f: Filters): seq<Condition> {
    Masks(f, 4)
  }

  lemma {:induction false} MasksPrefix(f: Filters, k: nat, n: nat)
    requires k <= n
    ensures Masks(f, k) <= Masks(f, n)
  {
    if k < n {
      MasksPrefix(f, k, n - 1);
    }
  }

  predicate AllHold(cs: seq<Condition>, r: Row) {
    forall i :: 0 <= i < |cs| ==> Holds(cs[i], r)
  }

  /** The rows every condition accepts, in table order. */
  function Keep(rows: seq<Row>, cs: seq<Condition>): (k: seq<Row>)
    ensures |k| <= |rows|
    ensures forall r :: r in k <==> r in rows && AllHold(cs, r)
  {
    if |rows| == 0 then []
    else
      var init := rows[..|rows| - 1];
      var last := rows[|rows| - 1];
      assert rows == init + [last];
      Keep(init, cs) + (if AllHold(cs, last) then [last] else [])
  }

  /** The first condition, in application order, whose column is absent. */
  function FirstMissing(columns: set<string>, cs: seq<Condition>): (m: Option<string>)
    ensures m.None? <==> forall i :: 0 <= i < |cs| ==> ColumnOf(cs[i]) in columns
    ensures m.Some? ==> m.value !in columns
                        && exists i :: 0 <= i < |cs| && ColumnOf(cs[i]) == m.value
                                       && forall j :: 0 <= j < i ==> ColumnOf(cs[j]) in columns
  {
    if |cs| == 0 then None
    else if ColumnOf(cs[0]) !in columns then Some(ColumnOf(cs[0]))
    else
      var m := FirstMissing(columns, cs[1..]);
      if m.Some? then
        var i :| 0 <= i < |cs[1..]| && ColumnOf(cs[1..][i]) == m.value
                 && forall j :: 0 <= j < i ==> ColumnOf(cs[1..][j]) in columns;
        assert ColumnOf(cs[i + 1]) == m.value;
        assert forall j :: 1 <= j < i + 1 ==> ColumnOf(cs[j]) == ColumnOf(cs[1..][j - 1]);
        m
      else
        assert forall i :: 1 <= i < |cs| ==> cs[i] == cs[1..][i - 1];
        m
  }

  /** What `apply_filters` returns: the `KeyError` of the first mask whose column
      is absent, or the table with only the rows every mask accepts. */
  function Filtered(t: Table, f: Filters): Result<Table, ColumnError> {
    var cs := Conditions(f);
    var missing := FirstMissing(t.columns, cs);
    if missing.Some? then Err(MissingColumn(missing.value))
    else Ok(Table(t.columns, Keep(t.rows, cs)))
  }

  lemma {:induction false} KeepNothing(rows: seq<Row>)
    ensures Keep(rows, []) == rows
  {
    if |rows| > 0 {
      KeepNothing(rows[..|rows| - 1]);
    }
  }

  /** Masking the already masked rows by one more condition is masking by all of
      them at once. */
  lemma {:induction false} KeepThenKeep(rows: seq<Row>, cs: seq<Condition>, c: Condition)
    ensures Keep(Keep(rows, cs), [c]) == Keep(rows, cs + [c])
  {
    if |rows| > 0 {
      var init := rows[..|rows| - 1];
      var last := rows[|rows| - 1];
      KeepThenKeep(init, cs, c);
      assert AllHold(cs + [c], last) <==> AllHold(cs, last) && AllHold([c], last) by {
        assert forall i :: 0 <= i < |cs| ==> (cs + [c])[i] == cs[i];
        assert (cs + [c])[|cs|] == c;
      }
      var before := Keep(init, cs);
      assert Keep(rows, cs + [c]) == Keep(init, cs + [c]) + (if AllHold(cs + [c], last) then [last] else []);
      if AllHold(cs, last) {
        var k := before + [last];
        assert Keep(rows, cs) == k;
        assert k[..|k| - 1] == before && k[|k| - 1] == last;
        assert Keep(k, [c]) == Keep(before, [c]) + (if AllHold([c], last) then [last] else []);
      } else {
        assert Keep(rows, cs) == before;
      }
    }
  }

  /** The columns a longer condition list reads: its prefix's, then the new one's. */
  lemma FirstMissingStep(columns: set<string>, cs: seq<Condition>, c: Condition)
    requires FirstMissing(columns, cs).None?
    ensures FirstMissing(columns, cs + [c])
            == if ColumnOf(c) in columns then None else Some(ColumnOf(c))
  {
    var ext := cs + [c];
    assert ext[|cs|] == c;
    assert forall i :: 0 <= i < |cs| ==> ext[i] == cs[i];
  }

  /** Once a prefix of the masks hits an absent column, later masks are never reached. */
  lemma FirstMissingPrefix(columns: set<string>, p: seq<Condition>, q: seq<Condition>)
    requires FirstMissing(columns, p).Some? && p <= q
    ensures FirstMissing(columns, q) == FirstMissing(columns, p)
  {
    var i :| 0 <= i < |p| && ColumnOf(p[i]) == FirstMissing(columns, p).value
             && forall j :: 0 <= j < i ==> ColumnOf(p[j]) in columns;
    FirstMissingIsFirst(columns, p, i);
    assert forall j :: 0 <= j <= i ==> q[j] == p[j];
    FirstMissingIsFirst(columns, q, i);
  }

  lemma {:induction false} FirstMissingIsFirst(columns: set<string>, cs: seq<Condition>, i: nat)
    requires i < |cs| && ColumnOf(cs[i]) !in columns
    requires forall j :: 0 <= j < i ==> ColumnOf(cs[j]) in columns
    ensures FirstMissing(columns, cs) == Some(ColumnOf(cs[i]))
  {
    if i > 0 {
      assert forall j :: 0 <= j < i - 1 ==> cs[1..][j] == cs[j + 1];
      FirstMissingIsFirst(columns, cs[1..], i - 1);
    }
  }

  /** Before stage `k`: the masks of the earlier stages all found their columns, and
      `filtered` holds the rows they all accept. */
  ghost predicate Reached(t: Table, f: Filters, k: nat, filtered: Table) {
    FirstMissing(t.columns, Masks(f, k)).None? && filtered == Table(t.columns, Keep(t.rows, Masks(f, k)))
  }

  /** Stage `k` of the sequence: a `KeyError` when its mask's column is
      absent, else the rows the mask accepts. */
  method FilterStage(filtered: Table, c: Condition, ghost t: Table, ghost f: Filters, ghost k: nat)
    returns (r: Result<Table, ColumnError>)
    requires k < 4 && StageMask(f, k) == [c]
    requires FirstMissing(t.columns, Masks(f, k)).None?
    requires filtered == Table(t.columns, Keep(t.rows, Masks(f, k)))
    ensures r.Err? ==> r == Filtered(t, f)
    ensures r.Ok? ==> FirstMissing(t.columns, Masks(f, k + 1)).None?
                      && r.value == Table(t.columns, Keep(t.rows, Masks(f, k + 1)))
  {
    var applied := Masks(f, k);
    assert Masks(f, k + 1) == applied + [c];
    FirstMissingStep(t.columns, applied, c);
    if ColumnOf(c) !in filtered.columns {
      MasksPrefix(f, k + 1, 4);
      FirstMissingPrefix(t.columns, applied + [c], Conditions(f));
      return Err(MissingColumn(ColumnOf(c)));
    }
    KeepThenKeep(t.rows, applied, c);
    r := Ok(Table(filtered.columns, Keep(filtered.rows, [c])));
  }

  /** A stage whose filter is not set leaves the masks as they were. */
  lemma SkipStage(t: Table, f: Filters, k: nat, filtered: Table)
    requires StageMask(f, k) == [] && Reached(t, f, k, filtered)
    ensures Masks(f, k + 1) == Masks(f, k) && Reached(t, f, k + 1, filtered)
  {
    assert Masks(f, k) + [] == Masks(f, k);
  }

  /** No stage has been applied to the copy of the table. */
  lemma StartReached(t: Table, f: Filters)
    ensures Reached(t, f, 0, t)
  {
    KeepNothing(t.rows);
  }

  /** After the last stage the table is what `apply_filters` returns. */
  lemma EndReached(t: Table, f: Filters, filtered: Table)
    requires Reached(t, f, 4, filtered)
    ensures Ok(filtered) == Filtered(t, f)
  {
  }

  /** `apply_filters`: starting from a copy of the table, each filter that is set
      replaces it by its masked rows, in the order department, semester, GPA
      range (converted to marks by `* 25`), name search. */
  method ApplyFilters(t: Table, f: Filters) returns (r: Result<Table, ColumnError>)
    ensures r == Filtered(t, f)
  {
    var filtered := t;
    StartReached(t, f);
    var step: Result<Table, ColumnError>;
    if f.department.Some? {
      step := FilterStage(filtered, DepartmentIs(f.department.value), t, f, 0);
      if step.Err? {
        return step;
      }
      filtered := step.value;
    } else {
      SkipStage(t, f, 0, filtered);
    }
    if f.semester.Some? {
      step := FilterStage(filtered, SemesterIs(f.semester.value), t, f, 1);
      if step.Err? {
        return step;
      }
      filtered := step.value;
    } else {
      SkipStage(t, f, 1, filtered);
    }
    if f.gpaRange.Some? {
      var (minGpa, maxGpa) := f.gpaRange.value;
      var minMarks := minGpa * MARKS_PER_GPA_POINT;
      var maxMarks := maxGpa * MARKS_PER_GPA_POINT;
      step := FilterStage(filtered, MarksWithin(minMarks, maxMarks), t, f, 2);
      if step.Err? {
        return step;
      }
      filtered := step.value;
    } else {
      SkipStage(t, f, 2, filtered);
    }
    if f.studentSearch.Some? {
      step := FilterStage(filtered, NameContains(f.studentSearch.value), t, f, 3);
      if step.Err? {
        return step;
      }
      filtered := step.value;
    } else {
      SkipStage(t, f, 3, filtered);
    }
    EndReached(t, f, filtered);
    return Ok(filtered);
  }

  lemma AllHoldAppend(a: seq<Condition>, b: seq<Condition>, row: Row)
    ensures AllHold(a + b, row) <==> AllHold(a, row) && AllHold(b, row)
  {
    assert forall i :: 0 <= i < |a| ==> (a + b)[i] == a[i];
    assert forall i :: 0 <= i < |b| ==> (a + b)[|a| + i] == b[i];
  }

  predicate ColumnsPresent(columns: set<string>, cs: seq<Condition>) {
    forall i :: 0 <= i < |cs| ==> ColumnOf(cs[i]) in columns
  }

  lemma ColumnsPresentAppend(columns: set<string>, a: seq<Condition>, b: seq<Condition>)
    ensures ColumnsPresent(columns, a + b) <==> ColumnsPresent(columns, a) && ColumnsPresent(columns, b)
  {
    assert forall i :: 0 <= i < |a| ==> (a + b)[i] == a[i];
    assert forall i :: 0 <= i < |b| ==> (a + b)[|a| + i] == b[i];
  }

  lemma ConditionsSplit(f: Filters)
    ensures Conditions(f) == StageMask(f, 0) + StageMask(f, 1) + StageMask(f, 2) + StageMask(f, 3)
  {
    assert Masks(f, 1) == StageMask(f, 0);
    assert Masks(f, 2) == StageMask(f, 0) + StageMask(f, 1);
    assert Masks(f, 3) == StageMask(f, 0) + StageMask(f, 1) + StageMask(f, 2);
  }

  /** The row test of the four stages' masks, spelled out. */
  lemma ConditionsMeaning(f: Filters, row: Row)
    ensures AllHold(Conditions(f), row)
            <==> (f.department.Some? ==> row.department == f.department.value)
                 && (f.semester.Some? ==> row.semester == f.semester.value)
                 && (f.gpaRange.Some? ==> f.gpaRange.value.0 * MARKS_PER_GPA_POINT <= row.marks
                                          <= f.gpaRange.value.1 * MARKS_PER_GPA_POINT)
                 && (f.studentSearch.Some? ==> Contains(Lower(row.name), Lower(f.studentSearch.value)))
  {
    var m0, m1, m2, m3 := StageMask(f, 0), StageMask(f, 1), StageMask(f, 2), StageMask(f, 3);
    ConditionsSplit(f);
    AllHoldAppend(m0 + m1 + m2, m3, row);
    AllHoldAppend(m0 + m1, m2, row);
    AllHoldAppend(m0, m1, row);
    assert AllHold([], row);
    if f.department.Some? {
      SingleMask(m0[0], row);
    }
    if f.semester.Some? {
      SingleMask(m1[0], row);
    }
    if f.gpaRange.Some? {
      SingleMask(m2[0], row);
    }
    if f.studentSearch.Some? {
      SingleMask(m3[0], row);
    }
  }

  /** The columns the four stages' masks read, spelled out. */
  lemma ConditionsColumns(f: Filters, columns: set<string>)
    ensures ColumnsPresent(columns, Conditions(f))
            <==> (f.department.Some? ==> "Department" in columns)
                 && (f.semester.Some? ==> "Semester" in columns)
                 && (f.gpaRange.Some? ==> "Marks" in columns)
                 && (f.studentSearch.Some? ==> "Name" in columns)
  {
    var m0, m1, m2, m3 := StageMask(f, 0), StageMask(f, 1), StageMask(f, 2), StageMask(f, 3);
    ConditionsSplit(f);
    ColumnsPresentAppend(columns, m0 + m1 + m2, m3);
    ColumnsPresentAppend(columns, m0 + m1, m2);
    ColumnsPresentAppend(columns, m0, m1);
    assert ColumnsPresent(columns, []);
    if f.department.Some? {
      SingleColumn(m0[0], columns);
    }
    if f.semester.Some? {
      SingleColumn(m1[0], columns);
    }
    if f.gpaRange.Some? {
      SingleColumn(m2[0], columns);
    }
    if f.studentSearch.Some? {
      SingleColumn(m3[0], columns);
    }
  }

  lemma SingleMask(c: Condition, row: Row)
    ensures AllHold([c], row) <==> Holds(c, row)
  {
    assert [c][0] == c;
  }

  lemma SingleColumn(c: Condition, columns: set<string>)
    ensures ColumnsPresent(columns, [c]) <==> ColumnOf(c) in columns
  {
    assert [c][0] == c;
  }

  /** A filtered table keeps the columns and exactly the rows that pass every
      set filter; the department, semester, GPA-range and search filters each
      mean what the sidebar says. */
  lemma FilteredRows(t: Table, f: Filters, row: Row)
    requires Filtered(t, f).Ok?
    ensures Filtered(t, f).value.columns == t.columns
    ensures |Filtered(t, f).value.rows| <= |t.rows|
    ensures row in Filtered(t, f).value.rows
            <==> row in t.rows
                 && (f.department.Some? ==> row.department == f.department.value)
                 && (f.semester.Some? ==> row.semester == f.semester.value)
                 && (f.gpaRange.Some? ==> f.gpaRange.value.0 * MARKS_PER_GPA_POINT <= row.marks
                                          <= f.gpaRange.value.1 * MARKS_PER_GPA_POINT)
                 && (f.studentSearch.Some? ==> Contains(Lower(row.name), Lower(f.studentSearch.value)))
  {
    ConditionsMeaning(f, row);
  }

  /** Each filter that is set reads its column: the result is a `KeyError`
      exactly when one of those columns is absent, and names an absent one. */
  lemma FilteredError(t: Table, f: Filters)
    ensures Filtered(t, f).Err?
            <==> (f.department.Some? && "Department" !in t.columns)
                 || (f.semester.Some? && "Semester" !in t.columns)
                 || (f.gpaRange.Some? && "Marks" !in t.columns)
                 || (f.studentSearch.Some? && "Name" !in t.columns)
    ensures Filtered(t, f).Err? ==> Filtered(t, f).error.column !in t.columns
  {
    ConditionsColumns(f, t.columns);
    assert FirstMissing(t.columns, Conditions(f)).None? <==> ColumnsPresent(t.columns, Conditions(f));
  }

  /** With no filter set, the table comes back unchanged. */
  lemma NoFiltersKeepTable(t: Table)
    ensures Filtered(t, Filters(None, None, None, None)) == Ok(t)
  {
    KeepNothing(t.rows);
  }

  lemma {:induction false} KeepIdempotent(rows: seq<Row>, cs: seq<Condition>)
    ensures Keep(Keep(rows, cs), cs) == Keep(rows, cs)
  {
    if |rows| > 0 {
      var init := rows[..|rows| - 1];
      var last := rows[|rows| - 1];
      KeepIdempotent(init, cs);
      var before := Keep(init, cs);
      if AllHold(cs, last) {
        var k := before + [last];
        assert Keep(rows, cs) == k;
        assert k[..|k| - 1] == before && k[|k| - 1] == last;
        assert Keep(k, cs) == Keep(before, cs) + [last];
      } else {
        assert Keep(rows, cs) == before;
      }
    }
  }

  /** Filtering a filtered table again by the same filters changes nothing. */
  lemma FilteredIdempotent(t: Table, f: Filters)
    requires Filtered(t, f).Ok?
    ensures Filtered(Filtered(t, f).value, f) == Filtered(t, f)
  {
    KeepIdempotent(t.rows, Conditions(f));
  }

  /** The page's own `_calculate_student_gpa`, the same running totals of points ×
      credits and of credits as the analytics one. */
  method CalculateStudentGpa(studentRecords: Table, scale: GradeScale) returns (gpa: real)
    ensures gpa == Analytics.StudentGpa(scale.View(), studentRecords)
  {
    gpa := Analytics.CalculateStudentGpa(studentRecords, scale);
  }
}
