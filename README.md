# University Performance Analyzer — grading and aggregation core in Dafny

This project models the computational core of the University Performance Analyzer. The
analyzer reads a CSV of course results: one row per student and course, with StudentID,
Name, Department, Semester, CourseCode, CourseName, CreditHours and Marks. It cleans the
rows and grades each mark on a 4.0 or a 100-point letter scale. From there it computes
credit-weighted GPAs and the cohort, course, leaderboard, department, semester and trend
statistics that the dashboard shows.

The model follows the program module by module:

- `Config` (config.dfy) holds the preset grade tables, the required column names, the
  column aliases, and the two table lookups. Each boundary table is an ordered sequence of
  `(grade, lo, hi)`. Each points table is an ordered sequence of `(grade, points)`.
- `Grading` (grading.dfy) has the `GradeScale` class. Its fields are set by the constructor
  and overwritten by `ApplyCustomConfig`. Its methods are the grade lookups, proved against
  the value-level `Scale`. The module also holds the credit-weighted GPA (an accumulator
  loop proved against `Gpa`), the grouped `compute_gpa`, `get_grade_statistics`,
  `create_custom_grade_scale` and `validate_grade_scale` (nested loops that append
  messages).
- `Tables` (tables.dfy) is the table model used after loading: rows of typed fields, and
  the set of column names present. It also has distinct values in first-appearance order,
  row selection, sums, means and percentages.
- `Sorting` (sorting.dfy) has a stable descending sort by a real key (Python's
  `list.sort(reverse=True)`) and ascending string sort (`sorted`).
- `Text` (text.dfy) has `strip`, `lower`, `upper`, `title`, substring search and `join` on
  strings.
- `Analytics` (analytics.dfy) holds cohort summary, per-course statistics, the top-N
  leaderboard, department and semester analysis, and performance trends. Each is a method
  whose loops over distinct ids or groups are proved equal to a specification function.
  Lemmas state what those functions promise.
- `Models` (models.dfy) has the field validators of the pydantic models as functions. Each
  returns the normalised value or the list of errors.
- `DataLoader` (data_loader.dfy) covers:
  - the raw frame as read from the CSV;
  - the case-insensitive required-column check;
  - alias renaming, built as a mapping in a loop;
  - numeric coercion and row dropping, step by step;
  - per-row validation with all errors collected;
  - the per-student aggregation;
  - the data summary.
- `Ui` (ui.dfy) has the sidebar filter `apply_filters`, as four sequential stages, and the
  page's GPA helper.

Marks and credits are `real`s. A mark that is NaN or not a number is `NotANumber`. A
missing cell in the raw frame is `Missing`.

## Model

| member | source | states |
|---|---|---|
| Config.GetGradeMapping | src/config.py:156-158 | key "100" gives the 100-point points table; every other key (including "4.0" and "custom") gives the 4.0 table |
| Config.GetGradeBoundaries | src/config.py:161-163 | key "100" gives the 100-point boundary table; every other key gives the 4.0 table |
| Config.FourPointBoundariesDescending | src/config.py:103-108 | the twelve 4.0 ranges are listed from highest to lowest, each wholly below the previous one, and so are pairwise disjoint |
| Config.HundredPointBoundariesDescending | src/config.py:109-114 | the same for the twelve 100-point ranges |
| Config.FourPointBoundariesCoverIntegers | src/config.py:103-108 | every integer mark 0..100 lies in exactly one 4.0 range |
| Config.HundredPointBoundariesCoverIntegers | src/config.py:109-114 | every integer mark 0..100 lies in exactly one 100-point range |
| Config.PresetKeysAgree | src/config.py:60-115 | for each preset, the points table and the boundary table list the same grades in the same order |
| Config.FourPointValuesBounded | src/config.py:61-66 | every 4.0 point value lies in [MIN_GPA, MAX_GPA] = [0, 4], and values never increase down the table |
| Grading.GradeOfIsFirstMatch | src/grading.py:60-71 | the grade of a mark is the grade of the first range (in table order) containing it, or "F" when none does |
| Grading.RankOf | src/grading.py:66-71 | the index scanned to is the first matching range, or the table length with grade "F" |
| Grading.LookupPoints | src/grading.py:83-86 | the points of the grade's entry, 0.0 for a grade not in the table |
| Grading.PointsOf | src/grading.py:83-86 | 0.0 for "" or an unknown grade; otherwise the mapped points |
| Grading.MarksToPointsWithin | src/grading.py:88-99 | when every mapped value (and the 0.0 default) lies in [lo, hi], so does the points of any mark |
| Grading.ApplyConfig | src/grading.py:41-48 | each of mappings, boundaries and passing grade present in the config replaces that field; absent ones and the scale type stay |
| Grading.ExportRoundTrip | src/grading.py:135-169 | building a scale from the exported four-field dictionary restores type, mappings, boundaries and passing grade |
| Grading.EmptyConfigKeepsPreset | src/grading.py:33-48 | an empty custom config leaves the preset scale unchanged |
| Grading.GradeScale.constructor | src/grading.py:25-39 | the new scale is the preset for its type (tables from the lookups, passing grade "D"), then the custom config applied |
| Grading.GradeScale.ApplyCustomConfig | src/grading.py:41-48 | the scale's fields afterwards are `ApplyConfig` of the old fields and the config |
| Grading.GradeScale.MarksToGrade | src/grading.py:50-71 | "F" for NaN; otherwise the grade of the first range containing the mark, or "F" when none does |
| Grading.GradeScale.GradeToPoints | src/grading.py:73-86 | 0.0 for "" or an unknown grade; the mapped points of a known grade |
| Grading.GradeScale.MarksToPoints | src/grading.py:88-99 | equals grade-to-points of marks-to-grade |
| Grading.GradeScale.IsPassingGrade | src/grading.py:101-120 | false for ""; with the passing grade in the boundaries, true iff the grade's points are at least the passing grade's; otherwise true iff the grade is not "F" |
| Grading.GradeScale.GetGradeDistribution | src/grading.py:122-133 | the multiset of the marks' grades; its counts add up to the number of marks |
| Grading.GradeScale.ExportConfig | src/grading.py:135-150 | the exported dictionary reloads to the same four fields |
| Grading.GradeScale.FromYaml | src/grading.py:152-169 | a fresh scale equal to the configured type's preset with the configured fields applied |
| Grading.ReloadExported | src/grading.py:135-169 | exporting and reloading gives a new scale with the same four fields |
| Grading.CreateCustomGradeScale | src/grading.py:304-328 | a fresh "custom" scale with exactly the given tables and passing grade |
| Grading.CountedCreditsZero | src/grading.py:228-238 | the counted credits are non-negative, and zero iff no course has positive credits |
| Grading.WeightedPointsBetween | src/grading.py:228-240 | the weighted points lie between lo and hi times the counted credits when every points value lies in [lo, hi] |
| Grading.GpaWithin | src/grading.py:222-240 | the GPA lies in [lo, hi] whenever every points value (and 0.0) does |
| Grading.FourPointGpaBounded | src/grading.py:222-240 | on the preset 4.0 scale (any type but "100") the GPA lies in [MIN_GPA, MAX_GPA] |
| Grading.GpaWithoutCreditsIsZero | src/grading.py:237-238 | with no course of positive credits, the GPA is 0.0 |
| Grading.GpaOfSingleCourse | src/grading.py:228-240 | one course with positive credits gives exactly that course's points |
| Grading.GpaIgnoresUncredited | src/grading.py:232 | adding a course with credits <= 0 leaves the GPA unchanged |
| Grading.ComputeStudentGpa | src/grading.py:211-240 | the running totals give the credit-weighted mean of points over courses with positive credits, 0.0 when there are none (equals `Gpa`) |
| Grading.AllTermsAgree | src/grading.py:195-200 | with non-negative credits, weighting every row (as `np.average` does) gives the same sums as counting only rows with credits > 0 |
| Grading.MissingGpaColumns | src/grading.py:185-188 | lists exactly the required columns (StudentID, Marks, CreditHours) that are absent |
| Grading.ComputeGpaAgreesWithGpa | src/grading.py:172-208 | a missing-column error exactly when one of the three columns is absent; otherwise one entry per student id, equal to that student's `Gpa` when credits are non-negative |
| Grading.PassingCount | src/grading.py:264-266 | the passing count never exceeds the number of records |
| Grading.GradeStatisticsConsistent | src/grading.py:243-301 | total equals the row count; the distribution counts every record; passing + failing = total; the pass rates are percentages; department keys are exactly the departments present, each with 1..rows students |
| Grading.UnmappedBoundaryErrorsEmpty | src/grading.py:344-346 | no message iff every boundary grade has points |
| Grading.UnboundedMappingErrorsEmpty | src/grading.py:349-351 | no message iff every mapped grade has a boundary |
| Grading.OverlapErrorsEmpty | src/grading.py:354-359 | no overlap message iff no range intersects another |
| Grading.ValidationErrorsEmptyIffWellFormed | src/grading.py:331-365 | `validate_grade_scale` returns [] iff the key sets agree, the ranges are pairwise disjoint, and the passing grade is mapped |
| Grading.PresetScalesValid | src/grading.py:369-370 | both preset scales validate without errors |
| Grading.CheckBoundaryGrades | src/grading.py:344-346 | one "in boundaries but not in mappings" message per boundary grade that has no points, in boundary order |
| Grading.CheckMappedGrades | src/grading.py:349-351 | one "in mappings but not in boundaries" message per mapped grade that has no range, in mapping order |
| Grading.RangeOverlaps | src/grading.py:355-359 | the inner loop finds an overlap iff range i intersects another range |
| Grading.ValidateGradeScale | src/grading.py:331-365 | the messages equal `ValidationErrors` of the scale, whose emptiness is characterised above |
| Grading.ClosedRankOf | src/grading.py:66-71 | (corrected) a mark above every range gets "F" as in the code; any other mark gets the first range whose lower bound it reaches, all earlier lower bounds lying above it |
| Grading.ClosedRankMonotone | src/grading.py:66-71 | (corrected) a higher mark never gets a lower-ranked grade, unless it lies above the whole table |
| Grading.ClosedGradeAgreesInsideRanges | src/grading.py:66-71 | on a descending table, the corrected grading agrees with the code for every mark inside some range |
| Grading.ClosedGradeAgreesOnWholeMarks | src/grading.py:66-71 | on both preset tables, the corrected grading agrees with the code on every integer mark 0..100 |
| Grading.ClosedGradeAgreesOutsideGaps | src/grading.py:66-71 | on a descending table, the corrected grading agrees with the code for every mark inside a range, above the table or below it: they differ only in the gaps |
| Grading.ClosedGradeAgreesOffScale | src/grading.py:66-71 | on both preset tables, a mark below 0 or above 100 (150, say) is an "F" in both readings |
| Grading.FractionalMarkFallsInGap | src/grading.py:66-71 | on the 4.0 table, 96.0 gives "A" but 96.5 gives "F" as written; the corrected grading gives "A" |
| Tables.Unique | src/analytics.py:54 | pandas `unique()`: the same values, each once, no more of them than inputs |
| Tables.UniqueKeepsFirstAppearanceOrder | src/analytics.py:54 | each distinct value occurs in the input, in order of first appearance |
| Tables.UniqueCountIsDistinctCount | src/analytics.py:46 | the length of `unique()` equals `nunique()`, the size of the value set |
| Tables.Select | src/analytics.py:55 | `df[df[c] == v]`: a row is selected iff it is a row whose column equals v |
| Tables.SelectCounts | src/analytics.py:55 | each row whose column equals v is kept as many times as it occurs, every other row not at all |
| Tables.SelectAppend | src/analytics.py:55 | selection keeps row order: selecting from `a + b` is selecting from `a`, then from `b` |
| Tables.MeanBounds | src/analytics.py:93 | a mean of values in [lo, hi] lies in [lo, hi] |
| Tables.PercentBounds | src/analytics.py:85 | part/total*100 (0 for no total) lies in [0, 100] when part <= total |
| Sorting.SortDescPermutes | src/analytics.py:185 | the sorted list is a permutation of the input |
| Sorting.SortDescSorted | src/analytics.py:185 | the result is ordered by key, highest first |
| Sorting.SortDescStable | src/analytics.py:237 | elements with equal keys keep their input order (Python's sort is stable) |
| Sorting.SortStringsPermutes | src/analytics.py:449 | the sorted list is a permutation of the input |
| Sorting.SortStringsSorted | src/analytics.py:449 | the result is in ascending string order |
| Sorting.LexLessTotal | src/analytics.py:449 | string comparison is total |
| Sorting.LexLessTransitive | src/analytics.py:449 | string comparison is transitive |
| Text.Strip | src/models.py:32 | no leading or trailing whitespace remains, and only whitespace is removed |
| Text.StripIdempotent | src/models.py:32 | stripping twice equals stripping once |
| Text.TitleFromIdempotent | src/models.py:39 | title-casing twice equals title-casing once |
| Text.CaseOfStripped | src/models.py:39-60 | title- or upper-casing a stripped value leaves nothing to strip |
| Text.ContainsAt | src/ui.py:557-561 | substring search holds iff the term occurs at some position |
| Analytics.StudentGpaWithin | src/analytics.py:400-430 | the student's GPA lies in [lo, hi] when every points value does |
| Analytics.StudentGpaOfSingleRow | src/analytics.py:418-430 | one row with positive credits gives exactly that mark's points |
| Analytics.StudentGpaWithoutCredits | src/analytics.py:427-428 | with no row of positive credits the GPA is 0.0 |
| Analytics.CalculateStudentGpa | src/analytics.py:400-430 | 0.0 for an empty table or a missing column; otherwise the loop's running totals give the credit-weighted mean over rows with credits > 0 |
| Analytics.RowTotals | src/analytics.py:412-425 | the loop's totals are the points × credits and the credits summed over the rows with credits > 0 |
| Analytics.GpasOf | src/analytics.py:54-57 | one GPA per listed student, each computed on that student's rows |
| Analytics.PassingStudents | src/analytics.py:75-98 | the number of passing students never exceeds the number of students |
| Analytics.AverageGpaWithin | src/analytics.py:51-72 | with a scale and both numeric columns, the average GPA lies in the scale's points range |
| Analytics.StudentGpas | src/analytics.py:54-57 | the loop appends each student's GPA in id order |
| Analytics.CountPassingByGpa | src/analytics.py:75-83 | counts the students whose GPA is at least the passing grade's points |
| Analytics.CountPassingByMarks | src/analytics.py:89-95 | counts the students whose mean mark is at least 60 |
| Analytics.ComputeAverageGpa | src/analytics.py:51-72 | the mean of the per-student GPAs with a scale, mean marks / 25 without one, 0 without marks |
| Analytics.ComputePassingStudents | src/analytics.py:75-98 | the passing count of the chosen mode: GPA with a scale, mean marks >= 60 without |
| Analytics.CohortSummaryFacts | src/analytics.py:21-119 | all zeros for an empty table; an error exactly when Marks is present without StudentID; otherwise pass rate in [0, 100], 0 <= fail count <= total students, and total students = number of distinct ids |
| Analytics.CohortAverageGpaWithin | src/analytics.py:51-72 | the cohort average GPA lies in the scale's points range |
| Analytics.CohortPassFigures | src/analytics.py:75-101 | pass rate = passing/total*100 (0 without marks) and fail count = total - passing |
| Analytics.CohortSummary | src/analytics.py:21-119 | the computed summary equals `CohortSummaryOf` |
| Analytics.ArgMax | src/analytics.py:152-155 | `idxmax`: the first position holding the maximum |
| Analytics.SubjectStatsFacts | src/analytics.py:122-192 | [] for an empty table or one without CourseCode; otherwise one entry per distinct course, ordered by average marks (highest first), with ties in first-appearance order |
| Analytics.SubjectStatFacts | src/analytics.py:139-183 | a course's row count is positive; its pass rate is a percentage; with marks and names, the top score is the course maximum and the scorer is on the first row holding it |
| Analytics.CoursePassRate | src/analytics.py:161-168 | the share of marks at or above the threshold (passing points × 25 with a scale, 60 without), 0 without marks |
| Analytics.CourseStat | src/analytics.py:139-183 | the loop body's entry equals `SubjectStatOf` for that course |
| Analytics.CourseStats | src/analytics.py:139-183 | the loop builds one entry per course in order |
| Analytics.SubjectStats | src/analytics.py:122-192 | the result equals `SubjectStatsOf` |
| Analytics.Take | src/analytics.py:240 | Python's `xs[:n]`, including negative n |
| Analytics.RankedStudentsFacts | src/analytics.py:212-237 | each distinct student exactly once (count, coverage and no repeated id), each entry that student's own (`StudentEntryOf`, so the GPA is that student's), ordered by GPA highest first, equal GPAs in first-appearance order (stable sort) |
| Analytics.TakeOfRanked | src/analytics.py:237-240 | a prefix of a ranked list is ranked, and nobody left off ranks above anybody kept |
| Analytics.TopNStudentsFacts | src/analytics.py:195-246 | the leaderboard is a prefix of the stable ranking, ordered by GPA, holds min(n, #students) entries for n >= 0, lists each student at most once with that student's own entry, and no omitted student has a higher GPA than one listed |
| Analytics.ComputeEntryGpa | src/analytics.py:217-221 | the scale's GPA with both numeric columns, mean marks / 25 otherwise, 0 without marks |
| Analytics.StudentEntryFor | src/analytics.py:214-233 | the loop body's entry equals `StudentEntryOf` |
| Analytics.StudentEntries | src/analytics.py:212-233 | the loop builds one entry per student in order |
| Analytics.TopNStudents | src/analytics.py:195-246 | the result equals `TopNStudentsOf` |
| Analytics.DepartmentAnalysisFacts | src/analytics.py:250-336 | the keys are exactly the departments present; each has 1..rows students and a pass rate in [0, 100] |
| Analytics.DepartmentStat | src/analytics.py:268-330 | the loop body's entry equals `DepartmentStatsOf` |
| Analytics.DepartmentEntries | src/analytics.py:267-330 | the loop fills one entry per department |
| Analytics.DepartmentAnalysis | src/analytics.py:250-336 | {} for an empty table or one without Department; an error without StudentID or CourseCode; otherwise equals `DepartmentAnalysisOf` |
| Analytics.SemesterAnalysisFacts | src/analytics.py:340-396 | the keys are exactly the semesters present, each with 1..rows students |
| Analytics.SemesterStat | src/analytics.py:358-390 | the loop body's entry equals `SemesterStatsOf` |
| Analytics.SemesterEntries | src/analytics.py:357-390 | the loop fills one entry per semester |
| Analytics.SemesterAnalysis | src/analytics.py:340-396 | the result equals `SemesterAnalysisOf` |
| Analytics.PerformanceTrendsFacts | src/analytics.py:433-497 | semesters are the distinct semesters in ascending order, each once; three parallel lists of that length; each pass rate is a percentage and each student count is positive |
| Analytics.TrendFigures | src/analytics.py:459-487 | one semester's average GPA and pass rate |
| Analytics.TrendLists | src/analytics.py:458-491 | the lists built by appending equal `TrendsOver` |
| Analytics.GetPerformanceTrends | src/analytics.py:433-497 | the result equals `PerformanceTrendsOf` |
| Models.CheckText | src/models.py:27-67 | rejects a blank value with the field's message; otherwise the stripped value, title-cased for name and department and upper-cased for course code |
| Models.CheckMarks | src/models.py:23 | accepted iff finite and 0 <= marks <= 100, with the bound error otherwise |
| Models.CheckCreditHours | src/models.py:22 | accepted iff finite and 0 < hours <= 10; exactly 0 gives "Credit hours must be positive" |
| Models.StudentRecordErrors | src/models.py:13-81 | no errors iff every field validates; a blank name is reported with its message |
| Models.NewStudentRecord | src/models.py:13-81 | a record iff every field validates, holding the normalised values; otherwise a non-empty error list |
| Models.StudentRecordRevalidates | src/models.py:13-81 | a validated record's own values validate to the same record |
| Models.NewParsedStudent | src/models.py:89-115 | accepted iff credits and marks totals >= 0, gpa in [0, 4], courses >= 1 and status "Pass" or "Fail" |
| Models.NewCohortSummary | src/models.py:122-146 | accepted iff counts, fail count, deviation and credits >= 0, GPAs in [0, 4] and pass rate in [0, 100]; a bad pass rate is reported |
| Models.CreditsTotalNonNegative | src/models.py:22 | the credits of validated rows sum to at least 0 |
| Models.AverageGpaOnFourPoint | src/analytics.py:51-72 | on validated rows, the average GPA lies in [0, 4] on the 4.0 preset or without a scale |
| Models.CohortSummaryConforms | src/models.py:122-146 | what `cohort_summary` reports on validated rows is accepted by the CohortSummary model |
| Models.NewSubjectStats | src/models.py:153-178 | accepted iff total >= 0, average marks, pass rate and (when present) top score in range, credits >= 0 |
| Models.SubjectStatConforms | src/models.py:153-178 | a course entry from `subject_stats` on validated rows is accepted by the SubjectStats model |
| Models.NewGradeScaleConfig | src/models.py:185-206 | accepted iff the scale type is "4.0", "100" or "custom" and the mappings are not empty |
| Models.ExportedScaleConforms | src/models.py:185-206 | an exported scale is a valid config iff its type is known and its mappings are not empty; both presets are |
| Models.NewFilterOptions | src/models.py:213-235 | accepted iff the GPA bounds (when given) lie in [0, 4] and the pass/fail filter (when given) is "Pass", "Fail" or "All" |
| DataLoader.MissingRequired | src/data_loader.py:45-51 | empty iff every required name, lower-cased, is among the cleaned columns; otherwise it lists exactly the missing ones upper-cased |
| DataLoader.CsvColumnsError | src/data_loader.py:31-60 | "empty file" exactly for an empty frame; no error exactly when every required name is present case-insensitively |
| DataLoader.ValidateCsvColumns | src/data_loader.py:31-60 | the loop's verdict equals `CsvColumnsError` |
| DataLoader.FindMissing | src/data_loader.py:45-51 | the loop collects, in order, the upper-cased lower-cased required names absent from the cleaned columns (`MissingRequired`) |
| DataLoader.LoadErrorMessage | src/data_loader.py:53-58 | the empty-file message, or "Required columns missing: " followed by the list |
| DataLoader.FindRequired | src/data_loader.py:80-84 | the first required column whose lower-case name equals the cleaned column |
| DataLoader.FindAlias | src/data_loader.py:86-90 | the first alias whose lower-case key equals the cleaned column |
| DataLoader.BuildColumnMapping | src/data_loader.py:74-92 | each column that matches a required name or an alias maps to its canonical name; the others get no entry |
| DataLoader.RenameColumns | src/data_loader.py:94-95 | the columns renamed through the mapping; count, order and rows unchanged |
| DataLoader.NormalizeColumnNames | src/data_loader.py:63-95 | the frame with `NormalizedColumns` and the same rows |
| DataLoader.CanonicalNameFixed | src/data_loader.py:79-89 | a canonical column name maps to itself |
| DataLoader.CanonicalIdempotent | src/data_loader.py:76-92 | renaming a renamed column changes nothing |
| DataLoader.NormalizeIdempotent | src/data_loader.py:63-95 | normalising twice gives the same columns as once |
| DataLoader.NormalizedUpdate | src/data_loader.py:76-95 | each column is renamed on its own: replacing one column changes only its normalised name |
| DataLoader.RequiredAfterValidation | src/data_loader.py:31-95 | after the column check passes, normalisation yields every required name |
| DataLoader.ParseIntegerText | src/data_loader.py:112-120 | decimal integer text, with or without "-", parses to its value |
| DataLoader.DigitsPointDigits | src/data_loader.py:112-120 | "w.ds" parses to w plus ds over 10^|ds| |
| DataLoader.ParseDecimalCharacters | src/data_loader.py:112-120 | text that parses has only digits, one point and a leading sign, and at least one digit |
| DataLoader.NumericCell | src/data_loader.py:112-120 | `to_numeric(errors='coerce')`: every cell becomes a number or missing; numbers and missing cells are kept |
| DataLoader.NumericCellFloat | src/data_loader.py:112-120 | a cell becomes a number iff its text parses to a finite float, and then to that value |
| DataLoader.Convert | src/data_loader.py:112-129 | number conversion gives a number or missing; text conversion gives stripped text |
| DataLoader.ConvertIdempotent | src/data_loader.py:112-129 | converting twice equals converting once |
| DataLoader.RowsWith | src/data_loader.py:132-136 | `dropna`: no more rows, and exactly the rows complete in the given columns, in order |
| DataLoader.RowsWithTwice | src/data_loader.py:132-136 | dropping by one column list and then another equals dropping by both |
| DataLoader.DropMissingInRows | src/data_loader.py:132-136 | the column-by-column drops keep exactly the rows complete in every present critical column |
| DataLoader.CoercedTyped | src/data_loader.py:98-147 | every surviving row has numbers in the numeric columns and text in the string columns |
| DataLoader.CoercedKeeps | src/data_loader.py:98-147 | a row whose critical cells are present after coercion survives, coerced |
| DataLoader.ConvertEach | src/data_loader.py:112-129 | the per-column loop equals `ConvertColumns` |
| DataLoader.DropEach | src/data_loader.py:132-136 | the per-column drop loop equals `DropMissingIn` |
| DataLoader.CoerceDataTypes | src/data_loader.py:98-147 | the step-by-step frame equals `Coerced` |
| DataLoader.MissingIdentifierKept | src/data_loader.py:123-137 | (as written) a row with a missing StudentID but numeric marks and credits survives with StudentID "nan" |
| DataLoader.CoercedIntendedKeeps | src/data_loader.py:132-137 | (corrected) dropping before stringifying keeps exactly the rows whose four critical cells are present |
| DataLoader.FloatAt | src/data_loader.py:288-299 | a missing column, a non-number, or the cell's float |
| DataLoader.RowRecord | src/data_loader.py:288-303 | a row gives a record iff every field validates; the record holds the stripped id and in-range marks and credits; each error kind says which column |
| DataLoader.Partition | src/data_loader.py:288-303 | every row ends up as either a record or an error |
| DataLoader.PartitionRows | src/data_loader.py:288-307 | no errors iff every row validates; then the records in row order; otherwise the errors are exactly the failing rows as "Row index+1" |
| DataLoader.ValidatedAllOrNothing | src/data_loader.py:272-310 | the records (one per row, in order) iff every row validates; otherwise all failing rows are reported |
| DataLoader.ValidateStudentRecords | src/data_loader.py:272-310 | the loop's result equals `ValidatedRecords` |
| DataLoader.CheckRows | src/data_loader.py:285-304 | the loop over the rows returns the accepted records and the numbered errors, each in row order (`Partition` of the row outcomes) |
| DataLoader.CheckRow | src/data_loader.py:288-303 | the loop body's outcome for row i |
| DataLoader.RecordOutcome | src/data_loader.py:300-304 | an accepted row appends its record, a rejected one appends "Row index+1" with its error; the other list is unchanged |
| DataLoader.LoadedRowsParse | src/data_loader.py:188-195 | rows of a loaded frame never fail validation for a non-number |
| DataLoader.LoadFrame | src/data_loader.py:188-195 | check, normalise and coerce in that order |
| DataLoader.LoadedSchema | src/data_loader.py:188-195 | a loaded frame has every required column, and every row is typed |
| DataLoader.CreditsAliasRejected | src/data_loader.py:188-192 | (as written) a frame with header "credits" for CreditHours is rejected as missing columns |
| DataLoader.IntendedAcceptsRenamed | src/data_loader.py:188-192 | (corrected) normalising before the check accepts a frame whose headers all normalise to the required names |
| DataLoader.IntendedAcceptsMore | src/data_loader.py:188-192 | (corrected) every frame the code accepts is still accepted |
| DataLoader.KeyLessTotal | src/data_loader.py:220 | the group-key order is total |
| DataLoader.KeyLessTransitive | src/data_loader.py:220 | the group-key order is transitive |
| DataLoader.GroupKeysFacts | src/data_loader.py:220 | the group keys are strictly ascending and are exactly the keys of the rows |
| DataLoader.GroupRows | src/data_loader.py:220 | a group is exactly the rows with that key |
| DataLoader.AggregateStudentRecords | src/data_loader.py:208-242 | an error names an absent column; a result iff all eight columns are present |
| DataLoader.AggregateGroups | src/data_loader.py:220-225 | one aggregate per distinct (StudentID, Name, Department, Semester), in ascending key order |
| DataLoader.AggregateFigures | src/data_loader.py:220-236 | courses count = the group's rows (at least one); average marks lies within the marks' bounds; "Pass" iff average marks >= 60, else "Fail" |
| DataLoader.AggregateCountsCoverRows | src/data_loader.py:220-225 | the course counts add up to the number of rows |
| DataLoader.AggregateOneStudent | src/data_loader.py:220-236 | two courses of 3 credits with marks 85 and 90 give 6 credits, average 87.5, 2 courses, "Pass" |
| DataLoader.MinTextLeast | src/data_loader.py:331 | the minimum semester is no greater than any semester |
| DataLoader.MaxTextGreatest | src/data_loader.py:332 | the maximum semester is no less than any semester |
| DataLoader.GetDataSummary | src/data_loader.py:313-351 | total records = rows; unique counts and value lists no larger than the rows |
| DataLoader.SummaryCounts | src/data_loader.py:326-329 | unique students and courses are the sizes of the value sets (0 when absent); departments and semesters list each present value once |
| DataLoader.SummaryMarks | src/data_loader.py:334-338 | with marks: min <= mean <= max, every mark in [min, max], min and max attained |
| DataLoader.SummaryCredits | src/data_loader.py:339-343 | with credits: min × rows <= total <= max × rows |
| DataLoader.SummarySemesters | src/data_loader.py:330-333 | earliest and latest bound every semester, and earliest <= latest |
| DataLoader.SummaryOfEmpty | src/data_loader.py:324-343 | for no rows: zero counts, empty lists, no values, and total credits 0 exactly when the column is present |
| Ui.FirstMissing | src/ui.py:538-561 | none iff every column read by a set filter is present; otherwise the first absent one |
| Ui.KeepThenKeep | src/ui.py:538-561 | filtering by one more mask equals filtering by all masks at once |
| Ui.FilterStage | src/ui.py:538-561 | one stage: applied to the rows so far, it either raises the first missing column or gives the next prefix |
| Ui.ApplyFilters | src/ui.py:524-563 | the sequential filtering equals `Filtered` |
| Ui.FilteredRows | src/ui.py:535-561 | same columns; a row is kept iff it is an input row satisfying every set filter: equal department, equal semester, lo·25 <= marks <= hi·25, lower-cased name containing the lower-cased term |
| Ui.FilteredError | src/ui.py:538-561 | a missing-column error iff a set filter's column is absent, naming an absent column |
| Ui.NoFiltersKeepTable | src/ui.py:535-563 | no filters give the table back unchanged |
| Ui.KeepIdempotent | src/ui.py:538-561 | filtering filtered rows again changes nothing |
| Ui.FilteredIdempotent | src/ui.py:538-561 | re-applying the same filters to the result returns it unchanged |
| Ui.CalculateStudentGpa | src/ui.py:428-448 | the page's GPA helper gives the same credit-weighted mean as the analytics one |

## Left out

- File I/O: CSV decoding and the encoding loop of `load_csv`, `load_sample_data`, and the YAML file layer of `export_config` / `from_yaml`. Only the dictionary-level round trip is modelled. A frame arrives as column names and rows of cells.
- Logging, the `Settings` object, environment variables and `is_development` / `is_production`. They compute nothing the model uses.
- Streamlit, Plotly and PDF output, including the widget and chart functions of src/ui.py. These only display results.
- Rounding: every `round(x, k)` is omitted, so results are exact reals.
- Models.CheckMarks: returns the mark unrounded, because `round(v, 2)` is a floating-point detail.
- Models.CheckCreditHours: returns the hours unrounded, for the same reason.
- Median, population and sample standard deviation (`np.median`, `np.std`, `.std()`). The median and deviation fields of the statistics are absent or only bounded by what the caller passes.
- The `gpa_statistics` of `get_grade_statistics` (src/grading.py:271-277): the mean, median, standard deviation, minimum and maximum of the GPA points are not part of `Grading.GradeStatistics`. Only the total, the distribution, the pass/fail counts and rate, and the department rows are modelled.
- Rounding before sorting: `subject_stats` sorts on `round(average_marks, 2)` and `top_n_students` on `round(gpa, 3)` (src/analytics.py:175, 185, 229, 237). The model sorts on the exact values. Two entries whose values differ but round to the same number stay in first-appearance order in the code, but the model orders them by their exact values.
- Floating point: marks and credits are exact reals.
  - Parsing accepts plain decimals (an optional sign, digits, at most one point), ignores surrounding whitespace, and reads "nan" in any letter case as NaN.
  - Exponents, "inf" and underscores are treated as unparseable.
  - `str()` of a number is not pandas' formatting: a numeric cell keeps the text it was read from, and stringifying it gives that text back. pandas reformats the number instead: "007" read into an integer column gives "7", and an integer column that also holds a NaN becomes a float column, so 1001 gives "1001.0".
- Ui.FilteredRows: `str.contains` is a regular-expression search by default. The model treats the search term as a plain substring, because regular expressions are not modelled.
- Duplicate column names in a frame. The model reads the first column of a given name.
- pydantic's wording of its built-in bound errors (`ge`/`le`). A bound violation is a `BoundError(field)`. The messages written in the validators themselves are modelled verbatim.
- `load_csv`'s exception wrapping (src/data_loader.py:200-205): every exception other than an empty-data or parser error, including the `ValidationError` of the column check and of type coercion, is re-raised as `DataLoaderError("Unexpected error loading CSV: ...")`. `DataLoader.Loaded` returns the underlying `LoadError` without the wrapping exception class or message prefix.
- `get_data_summary`'s catch-all `{'error': ...}` result. No error can arise in the model.
- The exceptions wrapped as `ValueError("Error computing ...")` by the analytics functions. The model returns the underlying missing-column error.
- Group-by over the raw StudentID when `compute_gpa` or the analytics meet NaN keys. After loading, every key is text.
- Lower, Upper and Title act on ASCII letters only. There is no Unicode case mapping.
- Ui.CalculateStudentGpa: its body is the same loop as `_calculate_student_gpa` in src/analytics.py:400-430. It calls that model rather than repeating the loop.

## Findings

| source | as written | input that shows it | evidently intended | confidence | as-written member | corrected member |
|---|---|---|---|---|---|---|
| src/grading.py:66-68 with src/config.py:103-108 | a mark is graded by the first inclusive range containing it, and the 4.0 table has gaps between whole-number ranges (A+ = [97, 100], A = [93, 96]) | mark 96.5 on the 4.0 scale gives "F" | every mark from 0 to 100 gets the grade whose range starts at or below it ("A" for 96.5); marks above the table stay "F" | not executed | Grading.FractionalMarkFallsInGap | Grading.ClosedRankOf |
| src/data_loader.py:123-137 | the string columns are stringified before the rows with missing critical values are dropped, so a missing StudentID or Name becomes "nan" and survives | a row with an empty StudentID cell and numeric Marks and CreditHours | rows missing StudentID or Name are dropped along with those missing Marks or CreditHours | not executed | DataLoader.MissingIdentifierKept | DataLoader.CoercedIntendedKeeps |
| src/data_loader.py:188-192 | the required-column check runs before alias renaming, so alias headers never count | a CSV whose credit column is headed "credits" (an alias of CreditHours) | aliases are renamed first, so such a file loads | not executed | DataLoader.CreditsAliasRejected | DataLoader.IntendedAcceptsRenamed |
