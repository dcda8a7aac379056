/** The loading stage of src/data_loader.py: checking the required columns of a
    freshly read CSV frame, renaming flexible column names to canonical ones,
    coercing cell types and dropping incomplete rows, validating each row as a
    StudentRecord, and the per-student aggregation and summary of the loaded table.
    Reading the bytes (encodings, the CSV parser) is not modelled: a frame arrives
    as column names and rows of cells. */
module DataLoader {
  import opened Wrappers
  import opened Text
  import opened Config
  import opened Tables
  import opened Models
  import opened Sorting

  // ---------------------------------------------------------------------------
  // The raw frame

  /** A cell as pandas reads it: text, a number (with the token it was read from, which
      stringifying gives back; pandas would reformat it instead), or a missing value (NaN). */
  datatype Cell = Text(text: string) | Number(value: real, token: string) | Missing

  datatype RawRow = RawRow(index: int, cells: seq<Cell>)

  datatype RawFrame = RawFrame(columns: seq<string>, rows: seq<RawRow>)

  predicate Rectangular(f: RawFrame) {
    forall i :: 0 <= i < |f.rows| ==> |f.rows[i].cells| == |f.columns|
  }

  /** A DataFrame: every row has one cell per column. */
  type Frame = f: RawFrame | Rectangular(f) witness RawFrame([], [])

  /** `df.empty`: no rows or no columns. */
  predicate FrameEmpty(f: Frame) {
    |f.rows| == 0 || |f.columns| == 0
  }

  /** The position of column `name`: the first one so named. */
  function ColumnIndex(columns: seq<string>, name: string): (r: Option<nat>)
    ensures r.None? <==> name !in columns
    ensures r.Some? ==> r.value < |columns| && columns[r.value] == name
                        && forall k :: 0 <= k < r.value ==> columns[k] != name
  {
    if |columns| == 0 then None
    else if columns[0] == name then Some(0)
    else match ColumnIndex(columns[1..], name)
      case None => None
      case Some(k) => Some(k + 1)
  }

  // ---------------------------------------------------------------------------
  // validate_csv_columns

  /** The two ways column validation fails. */
  datatype LoadError = EmptyFile | MissingColumns(names: seq<string>)

  /** The messages of `ERROR_MESSAGES["empty_file"]` and `ERROR_MESSAGES["missing_columns"]`. */
  function LoadErrorMessage(e: LoadError): (m: string)
    ensures e.EmptyFile? ==> m == "Uploaded file is empty"
    ensures e.MissingColumns? ==> "Required columns missing: " <= m
  {
    match e
    case EmptyFile => "Uploaded file is empty"
    case MissingColumns(names) => "Required columns missing: " + Join(names, ", ")
  }

  /** A column name as both column checks compare it: stripped and lower-cased. */
  function CleanName(col: string): string {
    Lower(Strip(col))
  }

  function CleanNames(columns: seq<string>): (r: seq<string>)
    ensures |r| == |columns| && forall j :: 0 <= j < |columns| ==> r[j] == CleanName(columns[j])
  {
    seq(|columns|, j requires 0 <= j < |columns| => CleanName(columns[j]))
  }

  /** The required names (lower-cased, then upper-cased for the message) absent from `present`. */
  function MissingRequired(present: seq<string>, required: seq<string>): (m: seq<string>)
    ensures m == [] <==> forall i :: 0 <= i < |required| ==> Lower(required[i]) in present
    ensures forall i :: 0 <= i < |required| && Lower(required[i]) !in present ==> Upper(Lower(required[i])) in m
    ensures forall x :: x in m ==> exists i :: 0 <= i < |required| && Lower(required[i]) !in present && x == Upper(Lower(required[i]))
  {
    if |required| == 0 then []
    else
      var init := required[..|required| - 1];
      var last := required[|required| - 1];
      assert forall i :: 0 <= i < |init| ==> init[i] == required[i];
      MissingRequired(present, init) + (if Lower(last) in present then [] else [Upper(Lower(last))])
  }

  /** What `validate_csv_columns` raises, or `None` when it returns. */
  function CsvColumnsError(f: Frame): (r: Option<LoadError>)
    ensures r == Some(EmptyFile) <==> FrameEmpty(f)
    ensures r == None <==> (!FrameEmpty(f) &&
      forall i :: 0 <= i < |REQUIRED_COLUMNS| ==> Lower(REQUIRED_COLUMNS[i]) in CleanNames(f.columns))
  {
    if FrameEmpty(f) then Some(EmptyFile)
    else
      var missing := MissingRequired(CleanNames(f.columns), REQUIRED_COLUMNS);
      if missing == [] then None else Some(MissingColumns(missing))
  }

  method ValidateCsvColumns(f: Frame) returns (r: Option<LoadError>)
    ensures r == CsvColumnsError(f)
  {
    if FrameEmpty(f) {
      return Some(EmptyFile);
    }
    var missing := FindMissing(CleanNames(f.columns), REQUIRED_COLUMNS);
    if missing != [] {
      return Some(MissingColumns(missing));
    }
    return None;
  }

  /** The loop of `validate_csv_columns`: each required name, lower-cased, looked up
      among the cleaned column names. */
  method FindMissing(present: seq<string>, required: seq<string>) returns (missing: seq<string>)
    ensures missing == MissingRequired(present, required)
  {
    missing := [];
    for i := 0 to |required|
      invariant missing == MissingRequired(present, required[..i])
    {
      var req := Lower(required[i]);
      assert required[..i + 1][..i] == required[..i];
      if req !in present {
        missing := missing + [Upper(req)];
      }
    }
    assert required[..|required|] == required;
  }

  // ---------------------------------------------------------------------------
  // normalize_column_names

  /** The first required column, from position `k` on, whose lower-cased name is `clean`. */
  function FirstRequired(clean: string, required: seq<string>, k: nat): Option<string>
    decreases |required| - k
  {
    if k >= |required| then None
    else if clean == Lower(required[k]) then Some(required[k])
    else FirstRequired(clean, required, k + 1)
  }

  /** The canonical name of the first alias, from position `k` on, whose lower-cased form is `clean`. */
  function FirstAlias(clean: string, aliases: seq<(string, string)>, k: nat): Option<string>
    decreases |aliases| - k
  {
    if k >= |aliases| then None
    else if clean == Lower(aliases[k].0) then Some(aliases[k].1)
    else FirstAlias(clean, aliases, k + 1)
  }

  /** The required-name loop finds a required column with that lower-cased name, or reports
      that there is none. */
  lemma {:induction false} FirstRequiredFacts(clean: string, required: seq<string>, k: nat)
    ensures FirstRequired(clean, required, k).Some? ==>
      FirstRequired(clean, required, k).value in required && Lower(FirstRequired(clean, required, k).value) == clean
    ensures FirstRequired(clean, required, k).None? <==> forall i :: k <= i < |required| ==> Lower(required[i]) != clean
    decreases |required| - k
  {
    if k < |required| && clean != Lower(required[k]) {
      FirstRequiredFacts(clean, required, k + 1);
    }
  }

  /** The alias loop finds an alias with that lower-cased form, or reports that there is none. */
  lemma {:induction false} FirstAliasFacts(clean: string, aliases: seq<(string, string)>, k: nat)
    ensures FirstAlias(clean, aliases, k).Some? ==>
      exists i :: k <= i < |aliases| && Lower(aliases[i].0) == clean && FirstAlias(clean, aliases, k).value == aliases[i].1
    ensures FirstAlias(clean, aliases, k).None? <==> forall i :: k <= i < |aliases| ==> Lower(aliases[i].0) != clean
    decreases |aliases| - k
  {
    if k < |aliases| {
      if clean != Lower(aliases[k].0) {
        FirstAliasFacts(clean, aliases, k + 1);
      } else {
        assert Lower(aliases[k].0) == clean;
      }
    }
  }

  /** The entry `column_mapping` gets for a column under the given alias and required
      tables, if any: an alias match is written after a required-name match, so it wins. */
  function MappedNameIn(col: string, aliases: seq<(string, string)>, required: seq<string>): Option<string> {
    MappedFromClean(CleanName(col), aliases, required)
  }

  function MappedFromClean(clean: string, aliases: seq<(string, string)>, required: seq<string>): Option<string> {
    var alias := FirstAlias(clean, aliases, 0);
    if alias.Some? then alias else FirstRequired(clean, required, 0)
  }

  function MappedName(col: string): Option<string> {
    MappedNameIn(col, COLUMN_MAPPINGS, REQUIRED_COLUMNS)
  }

  /** The name a column has after `normalize_column_names`. */
  function Canonical(col: string): string {
    MappedName(col).GetOr(col)
  }

  /** The required-name loop of one column, which stops at the first match. */
  method FindRequired(clean: string, required: seq<string>) returns (r: Option<string>)
    ensures r == FirstRequired(clean, required, 0)
  {
    r := None;
    var j := 0;
    while j < |required|
      invariant 0 <= j <= |required|
      invariant FirstRequired(clean, required, 0) == FirstRequired(clean, required, j)
    {
      if clean == Lower(required[j]) {
        r := Some(required[j]);
        break;
      }
      j := j + 1;
    }
  }

  /** The alias loop of one column, which stops at the first match. */
  method FindAlias(clean: string, aliases: seq<(string, string)>) returns (r: Option<string>)
    ensures r == FirstAlias(clean, aliases, 0)
  {
    r := None;
    var j := 0;
    while j < |aliases|
      invariant 0 <= j <= |aliases|
      invariant FirstAlias(clean, aliases, 0) == FirstAlias(clean, aliases, j)
    {
      if clean == Lower(aliases[j].0) {
        r := Some(aliases[j].1);
        break;
      }
      j := j + 1;
    }
  }

  /** The columns renamed as `normalize_column_names` renames them. */
  function NormalizedColumns(columns: seq<string>): seq<string>
  {
    NormalizedColumnsIn(columns, COLUMN_MAPPINGS, REQUIRED_COLUMNS)
  }

  /** One pass of the outer loop: the required-name match, then the alias match, are
      written to `column_mapping` under the column's own name. */
  method AddColumnEntry(mapping: map<string, string>, col: string, aliases: seq<(string, string)>, required: seq<string>)
    returns (m: map<string, string>)
    ensures MappedNameIn(col, aliases, required).Some? ==> m == mapping[col := MappedNameIn(col, aliases, required).value]
    ensures MappedNameIn(col, aliases, required).None? ==> m == mapping
  {
    m := mapping;
    var clean := CleanName(col);
    var req := FindRequired(clean, required);
    if req.Some? {
      m := m[col := req.value];
    }
    var alias := FindAlias(clean, aliases);
    if alias.Some? {
      m := m[col := alias.value];
    }
  }

  /** `column_mapping`'s entry for column `k` is that column's mapped name, if it has one. */
  predicate EntryFor(mapping: map<string, string>, col: string, name: Option<string>) {
    (col in mapping <==> name.Some?) && (col in mapping ==> mapping[col] == name.value)
  }

  /** Writing the entry of one more column keeps the entries of the earlier columns: an
      earlier column of the same name has the same entry. */
  lemma EntriesAfterAdd(mapping: map<string, string>, m: map<string, string>, columns: seq<string>, i: nat,
                        names: seq<Option<string>>, name: Option<string>)
    requires i < |columns| && |names| == i
    requires forall k :: 0 <= k < i ==> EntryFor(mapping, columns[k], names[k])
    requires forall k :: 0 <= k < i && columns[k] == columns[i] ==> names[k] == name
    requires name.Some? ==> m == mapping[columns[i] := name.value]
    requires name.None? ==> m == mapping && columns[i] !in mapping
    ensures forall k :: 0 <= k < i + 1 ==> EntryFor(m, columns[k], (names + [name])[k])
  {
    forall k | 0 <= k < i + 1
      ensures EntryFor(m, columns[k], (names + [name])[k])
    {
      if k < i && columns[k] != columns[i] {
        assert EntryFor(mapping, columns[k], names[k]);
      }
    }
  }

  /** `column_mapping`: for each column that matches a required name or an alias, the
      name the last matching loop assigned; no entry for any other column. */
  method BuildColumnMapping(columns: seq<string>, aliases: seq<(string, string)>, required: seq<string>)
    returns (mapping: map<string, string>)
    ensures forall k :: 0 <= k < |columns| ==> EntryFor(mapping, columns[k], MappedNameIn(columns[k], aliases, required))
  {
    mapping := map[];
    ghost var names: seq<Option<string>> := [];
    for i := 0 to |columns|
      invariant |names| == i
      invariant forall k :: 0 <= k < i ==> names[k] == MappedNameIn(columns[k], aliases, required)
      invariant forall k :: 0 <= k < i ==> EntryFor(mapping, columns[k], names[k])
      invariant forall c :: c in mapping ==> MappedNameIn(c, aliases, required).Some?
    {
      var m := AddColumnEntry(mapping, columns[i], aliases, required);
      ghost var name := MappedNameIn(columns[i], aliases, required);
      EntriesAfterAdd(mapping, m, columns, i, names, name);
      mapping := m;
      names := names + [name];
    }
  }

  /** `df.rename(columns=mapping)`: a column with an entry takes its mapped name. */
  function Rename(col: string, mapping: map<string, string>): string {
    if col in mapping then mapping[col] else col
  }

  /** The columns renamed under the given alias and required tables. */
  function NormalizedColumnsIn(columns: seq<string>, aliases: seq<(string, string)>, required: seq<string>)
    : (r: seq<string>)
    ensures |r| == |columns|
    ensures forall j :: 0 <= j < |columns| ==> r[j] == MappedNameIn(columns[j], aliases, required).GetOr(columns[j])
  {
    seq(|columns|, j requires 0 <= j < |columns| => MappedNameIn(columns[j], aliases, required).GetOr(columns[j]))
  }

  /** Builds `column_mapping` from the given tables, then renames. */
  method RenameColumns(f: Frame, aliases: seq<(string, string)>, required: seq<string>) returns (g: Frame)
    ensures g == RawFrame(NormalizedColumnsIn(f.columns, aliases, required), f.rows)
  {
    var mapping := BuildColumnMapping(f.columns, aliases, required);
    var renamed: seq<string> := [];
    for i := 0 to |f.columns|
      invariant |renamed| == i && forall j :: 0 <= j < i ==> renamed[j] == Rename(f.columns[j], mapping)
    {
      renamed := renamed + [Rename(f.columns[i], mapping)];
    }
    g := RawFrame(renamed, f.rows);
  }

  /** `normalize_column_names`: the same rows under the canonical column names, in the
      same order. */
  method NormalizeColumnNames(f: Frame) returns (g: Frame)
    ensures g == RawFrame(NormalizedColumns(f.columns), f.rows)
  {
    g := RenameColumns(f, COLUMN_MAPPINGS, REQUIRED_COLUMNS);
  }

  // ---------------------------------------------------------------------------
  // What normalisation guarantees for the configured names

  /** The names the renaming produces: the required columns and the alias targets. */
  predicate IsCanonicalName(c: string) {
    c in REQUIRED_COLUMNS || c == "Grade" || c == "GPA"
  }

  /** `a` lower-cased is not `b`: the lengths differ, or the characters at position `t` do. */
  predicate LowerDiffers(a: string, b: string, t: nat) {
    |a| != |b| || (t < |a| == |b| && LowerChar(a[t]) != b[t])
  }

  /** An alias whose lower-cased form differs from `clean` is passed over. */
  lemma {:induction false} AliasesSkipped(clean: string, aliases: seq<(string, string)>, k: nat, j: nat, t: nat)
    requires k <= j <= |aliases|
    requires forall i :: k <= i < j ==> LowerDiffers(aliases[i].0, clean, t)
    ensures FirstAlias(clean, aliases, k) == FirstAlias(clean, aliases, j)
    decreases j - k
  {
    if k < j {
      if |aliases[k].0| == |clean| {
        assert Lower(aliases[k].0)[t] != clean[t];
      }
      AliasesSkipped(clean, aliases, k + 1, j, t);
    }
  }

  /** A required column whose lower-cased name differs from `clean` is passed over. */
  lemma {:induction false} RequiredSkipped(clean: string, required: seq<string>, k: nat, j: nat, t: nat)
    requires k <= j <= |required|
    requires forall i :: k <= i < j ==> LowerDiffers(required[i], clean, t)
    ensures FirstRequired(clean, required, k) == FirstRequired(clean, required, j)
    decreases j - k
  {
    if k < j {
      if |required[k]| == |clean| {
        assert Lower(required[k])[t] != clean[t];
      }
      RequiredSkipped(clean, required, k + 1, j, t);
    }
  }

  /** A cleaned name that no alias matches maps to the first required column it matches,
      here the one at position `j`. */
  lemma MappedToRequired(clean: string, aliases: seq<(string, string)>, required: seq<string>, j: nat, t: nat)
    requires j < |required| && Lower(required[j]) == clean
    requires forall i :: 0 <= i < |aliases| ==> LowerDiffers(aliases[i].0, clean, t)
    requires forall i :: 0 <= i < j ==> LowerDiffers(required[i], clean, t)
    ensures MappedFromClean(clean, aliases, required) == Some(required[j])
  {
    AliasesSkipped(clean, aliases, 0, |aliases|, t);
    RequiredSkipped(clean, required, 0, j, t);
  }

  /** A cleaned name whose first matching alias is the one at position `j` maps to that
      alias's target. */
  lemma MappedToAlias(clean: string, aliases: seq<(string, string)>, required: seq<string>, j: nat)
    requires j < |aliases| && Lower(aliases[j].0) == clean
    requires forall i :: 0 <= i < j ==> LowerDiffers(aliases[i].0, clean, 0)
    ensures MappedFromClean(clean, aliases, required) == Some(aliases[j].1)
  {
    AliasesSkipped(clean, aliases, 0, j, 0);
  }

  /** A column without surrounding whitespace cleans to its lower-cased form, and maps to
      whatever that form maps to. */
  lemma MappedThrough(col: string, clean: string, target: string)
    requires |col| > 0 ==> !IsSpace(col[0]) && !IsSpace(col[|col| - 1])
    requires Lower(col) == clean
    requires MappedFromClean(clean, COLUMN_MAPPINGS, REQUIRED_COLUMNS) == Some(target)
    ensures CleanName(col) == clean && MappedName(col) == Some(target)
  {
    StripTrimmed(col);
  }

  lemma MapsStudentId()
    ensures Lower("StudentID") == "studentid"
    ensures MappedFromClean("studentid", COLUMN_MAPPINGS, REQUIRED_COLUMNS) == Some("StudentID")
  {
    assert Lower("StudentID") == "studentid";
    MappedToRequired("studentid", COLUMN_MAPPINGS, REQUIRED_COLUMNS, 0, 0);
  }

  lemma MapsName()
    ensures Lower("Name") == "name"
    ensures MappedFromClean("name", COLUMN_MAPPINGS, REQUIRED_COLUMNS) == Some("Name")
  {
    assert Lower("Name") == "name";
    MappedToRequired("name", COLUMN_MAPPINGS, REQUIRED_COLUMNS, 1, 0);
  }

  lemma MapsDepartment()
    ensures Lower("Department") == "department"
    ensures MappedFromClean("department", COLUMN_MAPPINGS, REQUIRED_COLUMNS) == Some("Department")
  {
    assert Lower("Department") == "department";
    MappedToRequired("department", COLUMN_MAPPINGS, REQUIRED_COLUMNS, 2, 0);
  }

  lemma MapsSemester()
    ensures Lower("Semester") == "semester"
    ensures MappedFromClean("semester", COLUMN_MAPPINGS, REQUIRED_COLUMNS) == Some("Semester")
  {
    assert Lower("Semester") == "semester";
    MappedToRequired("semester", COLUMN_MAPPINGS, REQUIRED_COLUMNS, 3, 0);
  }

  lemma MapsCourseCode()
    ensures Lower("CourseCode") == "coursecode"
    ensures MappedFromClean("coursecode", COLUMN_MAPPINGS, REQUIRED_COLUMNS) == Some("CourseCode")
  {
    assert Lower("CourseCode") == "coursecode";
    MappedToRequired("coursecode", COLUMN_MAPPINGS, REQUIRED_COLUMNS, 4, 0);
  }

  /** "coursename" first differs from "coursecode" and "department" at position 6. */
  lemma MapsCourseName()
    ensures Lower("CourseName") == "coursename"
    ensures MappedFromClean("coursename", COLUMN_MAPPINGS, REQUIRED_COLUMNS) == Some("CourseName")
  {
    assert Lower("CourseName") == "coursename";
    MappedToRequired("coursename", COLUMN_MAPPINGS, REQUIRED_COLUMNS, 5, 6);
  }

  /** "credithours" first differs from "course_code" and "course_name" at position 1. */
  lemma MapsCreditHours()
    ensures Lower("CreditHours") == "credithours"
    ensures MappedFromClean("credithours", COLUMN_MAPPINGS, REQUIRED_COLUMNS) == Some("CreditHours")
  {
    assert Lower("CreditHours") == "credithours";
    MappedToRequired("credithours", COLUMN_MAPPINGS, REQUIRED_COLUMNS, 6, 1);
  }

  lemma MapsMarks()
    ensures Lower("Marks") == "marks"
    ensures MappedFromClean("marks", COLUMN_MAPPINGS, REQUIRED_COLUMNS) == Some("Marks")
  {
    assert Lower("Marks") == "marks";
    MappedToAlias("marks", COLUMN_MAPPINGS, REQUIRED_COLUMNS, 7);
  }

  lemma MapsGrade()
    ensures Lower("Grade") == "grade"
    ensures MappedFromClean("grade", COLUMN_MAPPINGS, REQUIRED_COLUMNS) == Some("Grade")
  {
    assert Lower("Grade") == "grade";
    MappedToAlias("grade", COLUMN_MAPPINGS, REQUIRED_COLUMNS, 8);
  }

  lemma MapsGpa()
    ensures Lower("GPA") == "gpa"
    ensures MappedFromClean("gpa", COLUMN_MAPPINGS, REQUIRED_COLUMNS) == Some("GPA")
  {
    assert Lower("GPA") == "gpa";
    MappedToAlias("gpa", COLUMN_MAPPINGS, REQUIRED_COLUMNS, 9);
  }

  /** A canonical name is left as it is: it cleans to its lower-cased form, which maps
      back to it. */
  lemma CanonicalNameFixed(c: string)
    requires IsCanonicalName(c)
    ensures CleanName(c) == Lower(c) && MappedName(c) == Some(c)
  {
    if c == "StudentID" || c == "Name" || c == "Department" || c == "Semester" {
      StudentNamesFixed(c);
    } else if c == "CourseCode" || c == "CourseName" || c == "CreditHours" || c == "Marks" {
      CourseNamesFixed(c);
    } else if c == "Grade" {
      MapsGrade();
      MappedThrough(c, "grade", c);
    } else {
      MapsGpa();
      MappedThrough(c, "gpa", c);
    }
  }

  lemma StudentNamesFixed(c: string)
    requires c == "StudentID" || c == "Name" || c == "Department" || c == "Semester"
    ensures CleanName(c) == Lower(c) && MappedName(c) == Some(c)
  {
    if c == "StudentID" {
      MapsStudentId();
      MappedThrough(c, "studentid", c);
    } else if c == "Name" {
      MapsName();
      MappedThrough(c, "name", c);
    } else if c == "Department" {
      MapsDepartment();
      MappedThrough(c, "department", c);
    } else {
      MapsSemester();
      MappedThrough(c, "semester", c);
    }
  }

  lemma CourseNamesFixed(c: string)
    requires c == "CourseCode" || c == "CourseName" || c == "CreditHours" || c == "Marks"
    ensures CleanName(c) == Lower(c) && MappedName(c) == Some(c)
  {
    if c == "CourseCode" {
      MapsCourseCode();
      MappedThrough(c, "coursecode", c);
    } else if c == "CourseName" {
      MapsCourseName();
      MappedThrough(c, "coursename", c);
    } else if c == "CreditHours" {
      MapsCreditHours();
      MappedThrough(c, "credithours", c);
    } else {
      MapsMarks();
      MappedThrough(c, "marks", c);
    }
  }

  /** Every alias renames to a canonical name. */
  lemma AliasTargetsCanonical()
    ensures forall i :: 0 <= i < |COLUMN_MAPPINGS| ==> IsCanonicalName(COLUMN_MAPPINGS[i].1)
  {
  }

  /** A column's new name is a canonical name, or the column is left as it is. */
  lemma MappedNameCanonical(col: string)
    ensures MappedName(col).Some? ==> IsCanonicalName(MappedName(col).value)
  {
    var clean := CleanName(col);
    FirstAliasFacts(clean, COLUMN_MAPPINGS, 0);
    FirstRequiredFacts(clean, REQUIRED_COLUMNS, 0);
    AliasTargetsCanonical();
  }

  /** Renaming a renamed column changes nothing. */
  lemma CanonicalIdempotent(col: string)
    ensures Canonical(Canonical(col)) == Canonical(col)
  {
    MappedNameCanonical(col);
    if MappedName(col).Some? {
      CanonicalNameFixed(MappedName(col).value);
    }
  }

  /** Normalising twice gives the same columns as normalising once. */
  lemma NormalizeIdempotent(columns: seq<string>)
    ensures NormalizedColumns(NormalizedColumns(columns)) == NormalizedColumns(columns)
  {
    var once := NormalizedColumns(columns);
    forall j | 0 <= j < |columns|
      ensures NormalizedColumns(once)[j] == once[j]
    {
      CanonicalIdempotent(columns[j]);
    }
  }

  /** Every required column is its own canonical name. */
  lemma RequiredNamesFixed()
    ensures forall i :: 0 <= i < |REQUIRED_COLUMNS| ==>
      CleanName(REQUIRED_COLUMNS[i]) == Lower(REQUIRED_COLUMNS[i]) && MappedName(REQUIRED_COLUMNS[i]) == Some(REQUIRED_COLUMNS[i])
  {
    forall i | 0 <= i < |REQUIRED_COLUMNS|
      ensures CleanName(REQUIRED_COLUMNS[i]) == Lower(REQUIRED_COLUMNS[i]) && MappedName(REQUIRED_COLUMNS[i]) == Some(REQUIRED_COLUMNS[i])
    {
      CanonicalNameFixed(REQUIRED_COLUMNS[i]);
    }
  }

  /** Names that are their own canonical names, and whose lower-cased forms are all among
      the cleaned columns, are all among the normalised columns. */
  lemma {:induction false} FixedNamesKept(columns: seq<string>, names: seq<string>)
    requires forall i :: 0 <= i < |names| ==> MappedName(names[i]) == Some(names[i])
    requires forall i :: 0 <= i < |names| ==> CleanName(names[i]) == Lower(names[i])
    requires forall i :: 0 <= i < |names| ==> Lower(names[i]) in CleanNames(columns)
    ensures forall i :: 0 <= i < |names| ==> names[i] in NormalizedColumns(columns)
  {
    forall i | 0 <= i < |names|
      ensures names[i] in NormalizedColumns(columns)
    {
      var j :| 0 <= j < |columns| && CleanNames(columns)[j] == Lower(names[i]);
      assert MappedName(columns[j]) == MappedName(names[i]);
      assert NormalizedColumns(columns)[j] == names[i];
    }
  }

  /** Names that clean to their lower-cased forms, and are all among the columns, have
      their lower-cased forms among the cleaned columns. */
  lemma {:induction false} PresentNamesCleaned(columns: seq<string>, names: seq<string>)
    requires forall i :: 0 <= i < |names| ==> CleanName(names[i]) == Lower(names[i])
    requires forall i :: 0 <= i < |names| ==> names[i] in columns
    ensures forall i :: 0 <= i < |names| ==> Lower(names[i]) in CleanNames(columns)
  {
    forall i | 0 <= i < |names|
      ensures Lower(names[i]) in CleanNames(columns)
    {
      var j :| 0 <= j < |columns| && columns[j] == names[i];
      assert CleanNames(columns)[j] == Lower(names[i]);
    }
  }

  /** Once `validate_csv_columns` has passed, normalisation leaves every required column
      under its exact canonical name. */
  lemma RequiredAfterValidation(f: Frame)
    requires CsvColumnsError(f) == None
    ensures forall i :: 0 <= i < |REQUIRED_COLUMNS| ==> REQUIRED_COLUMNS[i] in NormalizedColumns(f.columns)
  {
    RequiredNamesFixed();
    FixedNamesKept(f.columns, REQUIRED_COLUMNS);
  }

  // ---------------------------------------------------------------------------
  // Numbers in text: what `float()` and `pd.to_numeric` accept

  predicate IsDigit(c: char) { '0' <= c <= '9' }

  predicate AllDigits(s: string) {
    forall i :: 0 <= i < |s| ==> IsDigit(s[i])
  }

  /** The value of a run of decimal digits. */
  function DigitsValue(s: string): nat
    requires AllDigits(s)
  {
    if |s| == 0 then 0 else DigitsValue(s[..|s| - 1]) * 10 + (s[|s| - 1] as int - '0' as int)
  }

  function Pow10(n: nat): (p: nat)
    ensures p >= 1
  {
    if n == 0 then 1 else 10 * Pow10(n - 1)
  }

  /** The position of the first decimal point. */
  function PointIndex(s: string): (r: Option<nat>)
    ensures r.None? <==> '.' !in s
    ensures r.Some? ==> r.value < |s| && s[r.value] == '.' && '.' !in s[..r.value]
  {
    if |s| == 0 then None
    else if s[0] == '.' then Some(0)
    else match PointIndex(s[1..])
      case None => None
      case Some(k) =>
        assert s[..k + 1] == [s[0]] + s[1..][..k];
        Some(k + 1)
  }

  /** An unsigned decimal numeral: digits with at most one point, and at least one digit. */
  function ParseUnsigned(s: string): (r: Option<real>)
    ensures r.Some? ==> r.value >= 0.0
  {
    match PointIndex(s)
    case None => if |s| > 0 && AllDigits(s) then Some(DigitsValue(s) as real) else None
    case Some(k) =>
      var whole, frac := s[..k], s[k + 1..];
      if |whole| + |frac| > 0 && AllDigits(whole) && AllDigits(frac)
      then Some(PointValue(DigitsValue(whole), DigitsValue(frac), |frac|))
      else None
  }

  /** The value of `whole.frac` where `frac` has `places` digits. */
  function PointValue(whole: nat, frac: nat, places: nat): (v: real)
    ensures v >= whole as real
  {
    whole as real + frac as real / Pow10(places) as real
  }

  /** A decimal numeral with an optional sign: the part of Python's float syntax the
      analyzer's data uses. */
  function ParseDecimal(s: string): Option<real> {
    if |s| > 0 && s[0] == '-' then
      match ParseUnsigned(s[1..])
      case None => None
      case Some(v) => Some(-v)
    else if |s| > 0 && s[0] == '+' then ParseUnsigned(s[1..])
    else ParseUnsigned(s)
  }

  /** What `float()` makes of a text: NaN for "nan" in any letter case, the value of a
      decimal numeral, with surrounding whitespace ignored; `None` where it raises. */
  function NumberText(s: string): Option<Float> {
    var t := Strip(s);
    if Lower(t) == "nan" then Some(NaN)
    else match ParseDecimal(t)
      case Some(v) => Some(Finite(v))
      case None => None
  }

  function DigitChar(d: nat): char
    requires d < 10
  {
    ('0' as int + d) as char
  }

  /** The decimal numeral of `n`, as `str(n)` writes it. */
  function NatText(n: nat): (s: string)
    ensures |s| > 0 && AllDigits(s)
  {
    if n < 10 then [DigitChar(n)] else NatText(n / 10) + [DigitChar(n % 10)]
  }

  lemma {:induction false} NatTextValue(n: nat)
    ensures DigitsValue(NatText(n)) == n
  {
    if n >= 10 {
      NatTextValue(n / 10);
      var s := NatText(n);
      assert s[..|s| - 1] == NatText(n / 10);
    }
  }

  /** In digits followed by a point, the first point is the one after the digits. */
  lemma {:induction false} PointAfterDigits(w: string, rest: string)
    requires AllDigits(w) && |rest| > 0 && rest[0] == '.'
    ensures PointIndex(w + rest) == Some(|w|)
  {
    if |w| > 0 {
      assert IsDigit(w[0]);
      assert (w + rest)[1..] == w[1..] + rest;
      PointAfterDigits(w[1..], rest);
    }
  }

  /** Integers read back: `float(str(n)) == n` and `float("-" + str(n)) == -n`. */
  lemma ParseIntegerText(n: nat)
    ensures ParseDecimal(NatText(n)) == Some(n as real)
    ensures ParseDecimal("-" + NatText(n)) == Some(-(n as real))
  {
    var s := NatText(n);
    NatTextValue(n);
    assert s[0] != '-' && s[0] != '+' by { assert IsDigit(s[0]); }
    assert ("-" + s)[1..] == s;
  }

  /** A numeral with a fraction: `float(str(n) + "." + ds) == n + ds / 10^|ds|`. */
  lemma ParseFractionText(n: nat, ds: string)
    requires AllDigits(ds)
    ensures ParseDecimal(NatText(n) + "." + ds) == Some(PointValue(n, DigitsValue(ds), |ds|))
  {
    NatTextValue(n);
    DigitsPointDigits(NatText(n), ds);
  }

  lemma DigitsPointDigits(w: string, ds: string)
    requires |w| > 0 && AllDigits(w) && AllDigits(ds)
    ensures ParseDecimal(w + "." + ds) == Some(PointValue(DigitsValue(w), DigitsValue(ds), |ds|))
  {
    var s := w + "." + ds;
    assert s == w + ("." + ds);
    PointAfterDigits(w, "." + ds);
    assert s[..|w|] == w;
    assert s[|w| + 1..] == ds;
    assert s[0] == w[0];
    UnsignedDecimal(s);
  }

  /** A text starting with a digit has no sign: `ParseDecimal` reads it unsigned. */
  lemma UnsignedDecimal(s: string)
    requires |s| > 0 && IsDigit(s[0])
    ensures ParseDecimal(s) == ParseUnsigned(s)
  {
  }

  /** Only digits, one point and a leading sign make a number. */
  lemma ParseDecimalCharacters(s: string)
    requires ParseDecimal(s).Some?
    ensures forall i :: 0 <= i < |s| ==> IsDigit(s[i]) || s[i] == '.' || (i == 0 && (s[i] == '-' || s[i] == '+'))
    ensures exists i :: 0 <= i < |s| && IsDigit(s[i])
  {
    var u := if |s| > 0 && (s[0] == '-' || s[0] == '+') then s[1..] else s;
    var off := |s| - |u|;
    assert ParseUnsigned(u).Some?;
    UnsignedCharacters(u);
    assert forall i :: 0 <= i < |u| ==> s[i + off] == u[i];
    if IsDigit(u[0]) {
      assert IsDigit(s[off]);
    } else {
      assert IsDigit(s[off + 1]);
    }
  }

  /** An unsigned numeral has only digits and points, and a digit first or right after
      a leading point. */
  lemma UnsignedCharacters(u: string)
    requires ParseUnsigned(u).Some?
    ensures forall i :: 0 <= i < |u| ==> IsDigit(u[i]) || u[i] == '.'
    ensures |u| > 0 && (IsDigit(u[0]) || (|u| > 1 && IsDigit(u[1])))
  {
    match PointIndex(u)
    case None =>
    case Some(k) =>
      var whole, frac := u[..k], u[k + 1..];
      forall i | 0 <= i < |u|
        ensures IsDigit(u[i]) || u[i] == '.'
      {
        if i < k { assert u[i] == whole[i]; }
        else if i > k { assert u[i] == frac[i - k - 1]; }
      }
      if |whole| > 0 {
        assert u[0] == whole[0];
      } else {
        assert u[1] == frac[0];
      }
  }

  // ---------------------------------------------------------------------------
  // coerce_data_types

  /** `str(value)` of a cell: its text, the token a number was read from, or "nan". */
  function CellText(c: Cell): string {
    match c
    case Text(s) => s
    case Number(_, token) => token
    case Missing => "nan"
  }

  /** `float(value)` of a cell, `None` where it raises. */
  function FloatOf(c: Cell): Option<Float> {
    match c
    case Text(s) => NumberText(s)
    case Number(v, _) => Some(Finite(v))
    case Missing => Some(NaN)
  }

  /** `pd.to_numeric(value, errors='coerce')` of a cell: what is not a finite number becomes NaN. */
  function NumericCell(c: Cell): (r: Cell)
    ensures r.Number? || r.Missing?
    ensures !c.Text? ==> r == c
  {
    match c
    case Text(s) =>
      (match NumberText(s)
       case Some(Finite(v)) => Number(v, s)
       case _ => Missing)
    case _ => c
  }

  /** `to_numeric` keeps exactly the cells `float()` reads as a finite number, with the
      same value. */
  lemma NumericCellFloat(c: Cell)
    ensures NumericCell(c).Number? <==> FloatOf(c).Some? && FloatOf(c).value.Finite?
    ensures NumericCell(c).Number? ==> FloatOf(c) == Some(Finite(NumericCell(c).value))
  {
  }

  /** The two conversions the code applies to a column. */
  datatype Conversion =
    | ToNumber   // pd.to_numeric(..., errors='coerce')
    | ToText     // .astype(str).str.strip()

  function Convert(conv: Conversion, c: Cell): (r: Cell)
    ensures conv == ToNumber ==> r.Number? || r.Missing?
    ensures conv == ToText ==> r.Text? && Strip(r.text) == r.text
  {
    match conv
    case ToNumber => NumericCell(c)
    case ToText =>
      StripIdempotent(CellText(c));
      Text(Strip(CellText(c)))
  }

  /** Converting twice is converting once. */
  lemma ConvertIdempotent(conv: Conversion, c: Cell)
    ensures Convert(conv, Convert(conv, c)) == Convert(conv, c)
  {
    if conv == ToText {
      StripIdempotent(CellText(c));
    }
  }

  function ConvertIf(b: bool, conv: Conversion, c: Cell): Cell {
    if b then Convert(conv, c) else c
  }

  /** Column `k` is the first column with its name: the one `df[name]` assigns to. */
  predicate FirstOfName(columns: seq<string>, k: nat) {
    k < |columns| && ColumnIndex(columns, columns[k]) == Some(k)
  }

  /** Column `k` is the one `df[name] = ...` replaces for some `name` in `names`. */
  predicate Targeted(columns: seq<string>, names: seq<string>, k: nat) {
    FirstOfName(columns, k) && columns[k] in names
  }

  /** `df[name] = conv(df[name])` when `name` is a column. */
  function ConvertColumn(f: Frame, name: string, conv: Conversion): (g: Frame)
    ensures g.columns == f.columns && |g.rows| == |f.rows|
    ensures forall i :: 0 <= i < |f.rows| ==> g.rows[i].index == f.rows[i].index
  {
    match ColumnIndex(f.columns, name)
    case None => f
    case Some(j) =>
      RawFrame(f.columns, seq(|f.rows|, i requires 0 <= i < |f.rows| =>
        RawRow(f.rows[i].index, f.rows[i].cells[j := Convert(conv, f.rows[i].cells[j])])))
  }

  /** Converting the columns `names` one after the other. */
  function ConvertColumns(f: Frame, names: seq<string>, conv: Conversion): (g: Frame)
    ensures g.columns == f.columns && |g.rows| == |f.rows|
    ensures forall i :: 0 <= i < |f.rows| ==> g.rows[i].index == f.rows[i].index
  {
    if |names| == 0 then f
    else ConvertColumn(ConvertColumns(f, names[..|names| - 1], conv), names[|names| - 1], conv)
  }

  /** One `df[name] = conv(df[name])` converts the cell in column `k` exactly when `name` names column `k`. */
  lemma ConvertColumnCell(g: Frame, n: string, conv: Conversion, i: nat, k: nat)
    requires i < |g.rows| && k < |g.columns|
    ensures ConvertColumn(g, n, conv).rows[i].cells[k]
         == ConvertIf(ColumnIndex(g.columns, n) == Some(k), conv, g.rows[i].cells[k])
  {
  }

  /** Column `k` is targeted by `init + [n]` exactly when `init` or `n` targets it. */
  lemma TargetedAppend(columns: seq<string>, init: seq<string>, n: string, k: nat)
    ensures Targeted(columns, init + [n], k)
        == (Targeted(columns, init, k) || ColumnIndex(columns, n) == Some(k))
  {
    assert forall x :: x in init + [n] <==> x in init || x == n;
  }

  /** After converting `names`, each cell is converted exactly when its column was targeted. */
  lemma {:induction false} ConvertColumnsCell(f: Frame, names: seq<string>, conv: Conversion, i: nat, k: nat)
    requires i < |f.rows| && k < |f.columns|
    ensures ConvertColumns(f, names, conv).rows[i].cells[k]
         == ConvertIf(Targeted(f.columns, names, k), conv, f.rows[i].cells[k])
  {
    if |names| > 0 {
      var init, n := names[..|names| - 1], names[|names| - 1];
      assert names == init + [n];
      var g := ConvertColumns(f, init, conv);
      ConvertColumnsCell(f, init, conv, i, k);
      ConvertColumnCell(g, n, conv, i, k);
      TargetedAppend(f.columns, init, n, k);
      ConvertIdempotent(conv, f.rows[i].cells[k]);
    }
  }

  /** The row has a value in each of the columns at positions `js`. */
  predicate Complete(r: RawRow, js: seq<nat>) {
    forall t :: 0 <= t < |js| ==> js[t] < |r.cells| && r.cells[js[t]] != Missing
  }

  /** The rows with a value in each column of `js`, in their order. */
  function RowsWith(rows: seq<RawRow>, js: seq<nat>): (r: seq<RawRow>)
    ensures |r| <= |rows|
    ensures forall x :: x in r <==> x in rows && Complete(x, js)
  {
    if |rows| == 0 then []
    else
      var init, last := rows[..|rows| - 1], rows[|rows| - 1];
      assert forall x :: x in rows <==> x in init || x == last;
      RowsWith(init, js) + (if Complete(last, js) then [last] else [])
  }

  /** `df.dropna(subset=[name])` when `name` is a column. */
  function DropMissing(f: Frame, name: string): (g: Frame)
    ensures g.columns == f.columns
  {
    match ColumnIndex(f.columns, name)
    case None => f
    case Some(j) =>
      var rows := RowsWith(f.rows, [j]);
      assert forall i :: 0 <= i < |rows| ==> rows[i] in f.rows;
      RawFrame(f.columns, rows)
  }

  /** Dropping the rows missing a value in any of the columns `names`, one after the other. */
  function DropMissingIn(f: Frame, names: seq<string>): (g: Frame)
    ensures g.columns == f.columns
  {
    if |names| == 0 then f else DropMissing(DropMissingIn(f, names[..|names| - 1]), names[|names| - 1])
  }

  /** The positions of those of `names` that are columns. */
  function PresentIndices(columns: seq<string>, names: seq<string>): (js: seq<nat>)
    ensures forall t :: 0 <= t < |js| ==> js[t] < |columns|
  {
    if |names| == 0 then []
    else
      PresentIndices(columns, names[..|names| - 1])
      + match ColumnIndex(columns, names[|names| - 1]) case None => [] case Some(j) => [j]
  }

  lemma {:induction false} RowsWithNothing(rows: seq<RawRow>)
    ensures RowsWith(rows, []) == rows
  {
    if |rows| > 0 {
      RowsWithNothing(rows[..|rows| - 1]);
    }
  }

  lemma CompleteAppend(r: RawRow, js: seq<nat>, extra: seq<nat>)
    ensures Complete(r, js + extra) <==> Complete(r, js) && Complete(r, extra)
  {
    assert forall t :: 0 <= t < |js| ==> (js + extra)[t] == js[t];
    assert forall t :: 0 <= t < |extra| ==> (js + extra)[|js| + t] == extra[t];
  }

  /** Filtering twice is filtering once on both conditions. */
  lemma {:induction false} RowsWithTwice(rows: seq<RawRow>, js: seq<nat>, extra: seq<nat>)
    ensures RowsWith(RowsWith(rows, js), extra) == RowsWith(rows, js + extra)
  {
    if |rows| > 0 {
      var init, last := rows[..|rows| - 1], rows[|rows| - 1];
      RowsWithTwice(init, js, extra);
      CompleteAppend(last, js, extra);
      var inner := RowsWith(init, js);
      if Complete(last, js) {
        var once := inner + [last];
        assert RowsWith(rows, js) == once;
        assert once[..|once| - 1] == inner;
        assert RowsWith(once, extra) == RowsWith(inner, extra) + (if Complete(last, extra) then [last] else []);
      } else {
        assert RowsWith(rows, js) == inner;
      }
    }
  }

  /** Dropping column by column keeps the rows with a value in every one of them. */
  lemma {:induction false} DropMissingInRows(f: Frame, names: seq<string>)
    ensures DropMissingIn(f, names).rows == RowsWith(f.rows, PresentIndices(f.columns, names))
  {
    if |names| == 0 {
      RowsWithNothing(f.rows);
    } else {
      var init := names[..|names| - 1];
      DropMissingInRows(f, init);
      var js := PresentIndices(f.columns, init);
      match ColumnIndex(f.columns, names[|names| - 1])
      case None =>
        assert js + [] == js;
      case Some(j) =>
        RowsWithTwice(f.rows, js, [j]);
    }
  }

  /** Column `name` of row `r` has a value, or is not a column. */
  predicate CellPresent(columns: seq<string>, r: RawRow, name: string) {
    match ColumnIndex(columns, name)
    case None => true
    case Some(j) => j < |r.cells| && r.cells[j] != Missing
  }

  lemma {:induction false} CompletePresent(columns: seq<string>, names: seq<string>, r: RawRow)
    ensures Complete(r, PresentIndices(columns, names)) <==> forall t :: 0 <= t < |names| ==> CellPresent(columns, r, names[t])
  {
    if |names| > 0 {
      var init := names[..|names| - 1];
      CompletePresent(columns, init, r);
      var js := PresentIndices(columns, init);
      assert names == init + [names[|names| - 1]];
      PresentSplit(columns, init, names[|names| - 1], r);
      match ColumnIndex(columns, names[|names| - 1])
      case None =>
        assert js + [] == js;
      case Some(j) =>
        CompleteAppend(r, js, [j]);
        assert Complete(r, [j]) <==> j < |r.cells| && r.cells[j] != Missing by {
          assert [j][0] == j;
        }
    }
  }

  /** Every name of `init + [last]` is present exactly when every name of `init` is and `last` is. */
  lemma PresentSplit(columns: seq<string>, init: seq<string>, last: string, r: RawRow)
    ensures (forall t :: 0 <= t < |init| + 1 ==> CellPresent(columns, r, (init + [last])[t]))
        <==> (forall t :: 0 <= t < |init| ==> CellPresent(columns, r, init[t])) && CellPresent(columns, r, last)
  {
    assert forall t :: 0 <= t < |init| ==> (init + [last])[t] == init[t];
    assert (init + [last])[|init|] == last;
  }

  /** What coercion does to cell `k`: `to_numeric` on the numeric columns, then
      `astype(str).str.strip()` on the text columns. */
  function CoerceCell(columns: seq<string>, numeric: seq<string>, strings: seq<string>, k: nat, c: Cell): Cell {
    ConvertIf(Targeted(columns, strings, k), ToText, ConvertIf(Targeted(columns, numeric, k), ToNumber, c))
  }

  function CoerceRow(columns: seq<string>, numeric: seq<string>, strings: seq<string>, r: RawRow): (y: RawRow)
    ensures y.index == r.index && |y.cells| == |r.cells|
  {
    RawRow(r.index, seq(|r.cells|, k requires 0 <= k < |r.cells| => CoerceCell(columns, numeric, strings, k, r.cells[k])))
  }

  function CoerceRows(f: Frame, numeric: seq<string>, strings: seq<string>): (ys: seq<RawRow>)
    ensures |ys| == |f.rows|
  {
    seq(|f.rows|, i requires 0 <= i < |f.rows| => CoerceRow(f.columns, numeric, strings, f.rows[i]))
  }

  /** The stages of `coerce_data_types`: numeric columns, text columns, then dropping rows
      missing a critical value. */
  function CoercedWith(f: Frame, numeric: seq<string>, strings: seq<string>, critical: seq<string>): Frame {
    DropMissingIn(ConvertColumns(ConvertColumns(f, numeric, ToNumber), strings, ToText), critical)
  }

  /** Converting the numeric columns, then the text columns, converts each row cell by cell. */
  lemma ConvertBothRows(f: Frame, numeric: seq<string>, strings: seq<string>)
    ensures ConvertColumns(ConvertColumns(f, numeric, ToNumber), strings, ToText).rows == CoerceRows(f, numeric, strings)
  {
    var g := ConvertColumns(f, numeric, ToNumber);
    var h := ConvertColumns(g, strings, ToText);
    forall i, k | 0 <= i < |f.rows| && 0 <= k < |f.columns|
      ensures h.rows[i].cells[k] == CoerceRows(f, numeric, strings)[i].cells[k]
    {
      ConvertColumnsCell(f, numeric, ToNumber, i, k);
      ConvertColumnsCell(g, strings, ToText, i, k);
    }
    forall i | 0 <= i < |f.rows|
      ensures h.rows[i] == CoerceRows(f, numeric, strings)[i]
    {
      assert h.rows[i].cells == CoerceRows(f, numeric, strings)[i].cells;
    }
  }

  /** Coercion keeps, in order, the converted rows that have every critical value. */
  lemma CoercedRows(f: Frame, numeric: seq<string>, strings: seq<string>, critical: seq<string>)
    ensures CoercedWith(f, numeric, strings, critical).rows
         == RowsWith(CoerceRows(f, numeric, strings), PresentIndices(f.columns, critical))
  {
    ConvertBothRows(f, numeric, strings);
    DropMissingInRows(ConvertColumns(ConvertColumns(f, numeric, ToNumber), strings, ToText), critical);
  }

  /** Each kept row holds numbers in the numeric columns and text in the text columns. */
  predicate Typed(columns: seq<string>, numeric: seq<string>, strings: seq<string>, y: RawRow) {
    forall k :: 0 <= k < |y.cells| ==>
      (Targeted(columns, numeric, k) ==> y.cells[k].Number?) && (Targeted(columns, strings, k) ==> y.cells[k].Text?)
  }

  lemma {:induction false} PresentIndexOf(columns: seq<string>, names: seq<string>, n: string, j: nat)
    requires n in names && ColumnIndex(columns, n) == Some(j)
    ensures j in PresentIndices(columns, names)
  {
    var init := names[..|names| - 1];
    if n != names[|names| - 1] {
      assert n in init by { assert forall x :: x in names <==> x in init || x == names[|names| - 1]; }
      PresentIndexOf(columns, init, n, j);
    }
  }

  lemma CoercedTypedWith(f: Frame, numeric: seq<string>, strings: seq<string>, critical: seq<string>)
    requires forall n :: n in numeric ==> n !in strings && n in critical
    ensures forall y :: y in CoercedWith(f, numeric, strings, critical).rows ==> Typed(f.columns, numeric, strings, y)
  {
    CoercedRows(f, numeric, strings, critical);
    var js := PresentIndices(f.columns, critical);
    forall y | y in CoercedWith(f, numeric, strings, critical).rows
      ensures Typed(f.columns, numeric, strings, y)
    {
      var p :| 0 <= p < |f.rows| && y == CoerceRows(f, numeric, strings)[p];
      forall k | 0 <= k < |y.cells| && Targeted(f.columns, numeric, k)
        ensures y.cells[k].Number?
      {
        PresentIndexOf(f.columns, critical, f.columns[k], k);
        var t :| 0 <= t < |js| && js[t] == k;
      }
    }
  }

  /** Column `name`, where it exists, holds a number `to_numeric` can read. */
  predicate NumberIn(columns: seq<string>, r: RawRow, name: string) {
    match ColumnIndex(columns, name)
    case None => true
    case Some(j) => j < |r.cells| && NumericCell(r.cells[j]).Number?
  }

  lemma TextColumnPresent(columns: seq<string>, numeric: seq<string>, strings: seq<string>, r: RawRow, n: string)
    requires n in strings && |r.cells| == |columns|
    ensures CellPresent(columns, CoerceRow(columns, numeric, strings, r), n)
  {
    match ColumnIndex(columns, n)
    case None =>
    case Some(j) =>
      assert Targeted(columns, strings, j);
  }

  lemma NumericColumnPresent(columns: seq<string>, numeric: seq<string>, strings: seq<string>, r: RawRow, n: string)
    requires n in numeric && n !in strings && |r.cells| == |columns|
    ensures CellPresent(columns, CoerceRow(columns, numeric, strings, r), n) <==> NumberIn(columns, r, n)
  {
    match ColumnIndex(columns, n)
    case None =>
    case Some(j) =>
      assert Targeted(columns, numeric, j) && !Targeted(columns, strings, j);
  }

  // The column lists of coerce_data_types.

  const NUMERIC_COLUMNS: seq<string> := [CREDIT_HOURS, MARKS]
  const STRING_COLUMNS: seq<string> := ["StudentID", "Name", "Department", "Semester", "CourseCode", "CourseName"]
  const CRITICAL_COLUMNS: seq<string> := ["StudentID", "Name", "Marks", "CreditHours"]

  lemma ColumnListsDisjoint()
    ensures forall n :: n in NUMERIC_COLUMNS ==> n !in STRING_COLUMNS && n in CRITICAL_COLUMNS
    ensures |CRITICAL_COLUMNS| == 4 && CRITICAL_COLUMNS[0] == STRING_COLUMNS[0] && CRITICAL_COLUMNS[1] == STRING_COLUMNS[1]
    ensures CRITICAL_COLUMNS[2] == MARKS && CRITICAL_COLUMNS[3] == CREDIT_HOURS
  {
  }

  lemma FourPresent(columns: seq<string>, r: RawRow, names: seq<string>)
    requires |names| == 4
    ensures (forall t :: 0 <= t < |names| ==> CellPresent(columns, r, names[t]))
        <==> CellPresent(columns, r, names[0]) && CellPresent(columns, r, names[1])
             && CellPresent(columns, r, names[2]) && CellPresent(columns, r, names[3])
  {
  }

  /** The frame `coerce_data_types` returns. */
  function Coerced(f: Frame): Frame {
    CoercedWith(f, NUMERIC_COLUMNS, STRING_COLUMNS, CRITICAL_COLUMNS)
  }

  function CoercedRow(f: Frame, i: nat): RawRow
    requires i < |f.rows|
  {
    CoerceRows(f, NUMERIC_COLUMNS, STRING_COLUMNS)[i]
  }

  /** After coercion, credit hours and marks are numbers and the text columns are text. */
  lemma CoercedTyped(f: Frame)
    ensures forall y :: y in Coerced(f).rows ==> Typed(f.columns, NUMERIC_COLUMNS, STRING_COLUMNS, y)
  {
    ColumnListsDisjoint();
    CoercedTypedWith(f, NUMERIC_COLUMNS, STRING_COLUMNS, CRITICAL_COLUMNS);
  }

  /** A row survives coercion exactly when its credit hours and marks, where those columns
      exist, are numbers; a missing student ID or name never removes it. */
  lemma CoercedKeeps(f: Frame, i: nat)
    requires i < |f.rows|
    ensures CoercedRow(f, i) in Coerced(f).rows
        <==> NumberIn(f.columns, f.rows[i], CREDIT_HOURS) && NumberIn(f.columns, f.rows[i], MARKS)
  {
    ColumnListsDisjoint();
    CoercedRows(f, NUMERIC_COLUMNS, STRING_COLUMNS, CRITICAL_COLUMNS);
    var x := CoercedRow(f, i);
    var r := f.rows[i];
    assert x in CoerceRows(f, NUMERIC_COLUMNS, STRING_COLUMNS);
    CompletePresent(f.columns, CRITICAL_COLUMNS, x);
    FourPresent(f.columns, x, CRITICAL_COLUMNS);
    TextColumnPresent(f.columns, NUMERIC_COLUMNS, STRING_COLUMNS, r, STRING_COLUMNS[0]);
    TextColumnPresent(f.columns, NUMERIC_COLUMNS, STRING_COLUMNS, r, STRING_COLUMNS[1]);
    NumericColumnPresent(f.columns, NUMERIC_COLUMNS, STRING_COLUMNS, r, MARKS);
    NumericColumnPresent(f.columns, NUMERIC_COLUMNS, STRING_COLUMNS, r, CREDIT_HOURS);
  }

  /** The loop `for col in string_columns: if col in df.columns: df[col] = ...`. */
  method ConvertEach(f: Frame, names: seq<string>, conv: Conversion) returns (g: Frame)
    ensures g == ConvertColumns(f, names, conv)
  {
    g := f;
    for i := 0 to |names|
      invariant g == ConvertColumns(f, names[..i], conv)
    {
      assert names[..i + 1][..i] == names[..i];
      if names[i] in g.columns {
        g := ConvertColumn(g, names[i], conv);
      }
    }
    assert names[..|names|] == names;
  }

  /** The loop `for col in critical_columns: if col in df.columns: df = df.dropna(subset=[col])`. */
  method DropEach(f: Frame, names: seq<string>) returns (g: Frame)
    ensures g == DropMissingIn(f, names)
  {
    g := f;
    for i := 0 to |names|
      invariant g == DropMissingIn(f, names[..i])
    {
      assert names[..i + 1][..i] == names[..i];
      if names[i] in g.columns {
        g := DropMissing(g, names[i]);
      }
    }
    assert names[..|names|] == names;
  }

  method CoerceDataTypes(f: Frame) returns (g: Frame)
    ensures g == Coerced(f)
  {
    g := f;
    if CREDIT_HOURS in g.columns {
      g := ConvertColumn(g, CREDIT_HOURS, ToNumber);
    }
    assert g == ConvertColumn(f, CREDIT_HOURS, ToNumber);
    ghost var credited := g;
    if MARKS in g.columns {
      g := ConvertColumn(g, MARKS, ToNumber);
    }
    assert g == ConvertColumn(credited, MARKS, ToNumber);
    assert g == ConvertColumns(f, NUMERIC_COLUMNS, ToNumber) by {
      assert NUMERIC_COLUMNS[..1] == [CREDIT_HOURS] && [CREDIT_HOURS][..0] == [];
      assert ConvertColumns(f, [CREDIT_HOURS], ToNumber) == credited;
    }
    g := ConvertEach(g, STRING_COLUMNS, ToText);
    g := DropEach(g, CRITICAL_COLUMNS);
  }

  /** As written, `dropna` on the student ID runs after `astype(str)` has turned a missing
      ID into the text "nan", so the row is kept with "nan" as its ID. */
  lemma MissingIdentifierKept(f: Frame, i: nat, j: nat)
    requires i < |f.rows| && ColumnIndex(f.columns, STRING_COLUMNS[0]) == Some(j)
    requires f.rows[i].cells[j] == Missing
    requires NumberIn(f.columns, f.rows[i], CREDIT_HOURS) && NumberIn(f.columns, f.rows[i], MARKS)
    ensures exists y :: y in Coerced(f).rows && y.index == f.rows[i].index && y.cells[j] == Text("nan")
  {
    CoercedKeeps(f, i);
    ColumnListsDisjoint();
    MissingBecomesNan(f.columns, NUMERIC_COLUMNS, STRING_COLUMNS, f.rows[i], STRING_COLUMNS[0], j);
    assert CoercedRow(f, i).cells[j] == Text("nan");
  }

  /** `astype(str)` writes a missing value as "nan". */
  lemma MissingBecomesNan(columns: seq<string>, numeric: seq<string>, strings: seq<string>, r: RawRow, n: string, j: nat)
    requires n in strings && n !in numeric && ColumnIndex(columns, n) == Some(j)
    requires |r.cells| == |columns| && r.cells[j] == Missing
    ensures CoerceRow(columns, numeric, strings, r).cells[j] == Text("nan")
  {
    assert Targeted(columns, strings, j) && !Targeted(columns, numeric, j);
    NanStripped();
  }

  lemma NanStripped()
    ensures Strip(CellText(Missing)) == "nan"
  {
    StripTrimmed("nan");
  }

  /** The critical values of a row are there: student ID and name present, credit hours
      and marks numbers (each where the column exists). */
  predicate CriticalPresent(columns: seq<string>, r: RawRow) {
    CellPresent(columns, r, STRING_COLUMNS[0]) && CellPresent(columns, r, STRING_COLUMNS[1])
    && NumberIn(columns, r, CREDIT_HOURS) && NumberIn(columns, r, MARKS)
  }

  /** Coercion as intended: rows missing a critical value are dropped before the text
      columns are converted, so a missing ID or name removes its row. */
  function CoercedIntendedWith(f: Frame, numeric: seq<string>, strings: seq<string>, critical: seq<string>): Frame {
    ConvertColumns(DropMissingIn(ConvertColumns(f, numeric, ToNumber), critical), strings, ToText)
  }

  function CoercedIntended(f: Frame): Frame {
    CoercedIntendedWith(f, NUMERIC_COLUMNS, STRING_COLUMNS, CRITICAL_COLUMNS)
  }

  /** Converting a row's numeric columns first and its text columns later gives the
      coerced row. */
  lemma ConvertInTwoSteps(f: Frame, numeric: seq<string>, strings: seq<string>, h: Frame, i: nat, p: nat)
    requires h.columns == f.columns && i < |h.rows| && p < |f.rows|
    requires h.rows[i] == ConvertColumns(f, numeric, ToNumber).rows[p]
    ensures ConvertColumns(h, strings, ToText).rows[i] == CoerceRows(f, numeric, strings)[p]
  {
    var y := ConvertColumns(h, strings, ToText).rows[i];
    forall k | 0 <= k < |f.columns|
      ensures y.cells[k] == CoerceRows(f, numeric, strings)[p].cells[k]
    {
      ConvertColumnsCell(f, numeric, ToNumber, p, k);
      ConvertColumnsCell(h, strings, ToText, i, k);
    }
  }

  lemma IntendedRowsWith(f: Frame, numeric: seq<string>, strings: seq<string>, critical: seq<string>)
    ensures forall y :: y in CoercedIntendedWith(f, numeric, strings, critical).rows ==>
      exists p :: 0 <= p < |f.rows| && y == CoerceRows(f, numeric, strings)[p]
        && Complete(ConvertColumns(f, numeric, ToNumber).rows[p], PresentIndices(f.columns, critical))
    ensures forall p :: 0 <= p < |f.rows| ==>
      (Complete(ConvertColumns(f, numeric, ToNumber).rows[p], PresentIndices(f.columns, critical))
       ==> CoerceRows(f, numeric, strings)[p] in CoercedIntendedWith(f, numeric, strings, critical).rows)
  {
    var g := ConvertColumns(f, numeric, ToNumber);
    var h := DropMissingIn(g, critical);
    var js := PresentIndices(f.columns, critical);
    DropMissingInRows(g, critical);
    var out := CoercedIntendedWith(f, numeric, strings, critical);
    forall y | y in out.rows
      ensures exists p :: 0 <= p < |f.rows| && y == CoerceRows(f, numeric, strings)[p] && Complete(g.rows[p], js)
    {
      var i :| 0 <= i < |out.rows| && out.rows[i] == y;
      assert h.rows[i] in g.rows;
      var p :| 0 <= p < |g.rows| && g.rows[p] == h.rows[i];
      ConvertInTwoSteps(f, numeric, strings, h, i, p);
    }
    forall p | 0 <= p < |f.rows| && Complete(g.rows[p], js)
      ensures CoerceRows(f, numeric, strings)[p] in out.rows
    {
      assert g.rows[p] in h.rows;
      var i :| 0 <= i < |h.rows| && h.rows[i] == g.rows[p];
      ConvertInTwoSteps(f, numeric, strings, h, i, p);
      assert out.rows[i] == CoerceRows(f, numeric, strings)[p];
    }
  }

  lemma TextColumnUnconverted(columns: seq<string>, r: RawRow, y: RawRow, numeric: seq<string>, n: string)
    requires n !in numeric && |r.cells| == |columns| == |y.cells|
    requires forall k :: 0 <= k < |columns| ==> y.cells[k] == ConvertIf(Targeted(columns, numeric, k), ToNumber, r.cells[k])
    ensures CellPresent(columns, y, n) <==> CellPresent(columns, r, n)
  {
    match ColumnIndex(columns, n)
    case None =>
    case Some(j) =>
      assert !Targeted(columns, numeric, j);
  }

  lemma NumberColumnConverted(columns: seq<string>, r: RawRow, y: RawRow, numeric: seq<string>, n: string)
    requires n in numeric && |r.cells| == |columns| == |y.cells|
    requires forall k :: 0 <= k < |columns| ==> y.cells[k] == ConvertIf(Targeted(columns, numeric, k), ToNumber, r.cells[k])
    ensures CellPresent(columns, y, n) <==> NumberIn(columns, r, n)
  {
    match ColumnIndex(columns, n)
    case None =>
    case Some(j) =>
      assert Targeted(columns, numeric, j);
  }

  /** After the numeric conversion, a row has every critical value exactly when the
      original row has them. */
  lemma CriticalAfterNumeric(f: Frame, p: nat)
    requires p < |f.rows|
    ensures Complete(ConvertColumns(f, NUMERIC_COLUMNS, ToNumber).rows[p], PresentIndices(f.columns, CRITICAL_COLUMNS))
        <==> CriticalPresent(f.columns, f.rows[p])
  {
    ColumnListsDisjoint();
    var y := ConvertColumns(f, NUMERIC_COLUMNS, ToNumber).rows[p];
    var r := f.rows[p];
    forall k | 0 <= k < |f.columns|
      ensures y.cells[k] == ConvertIf(Targeted(f.columns, NUMERIC_COLUMNS, k), ToNumber, r.cells[k])
    {
      ConvertColumnsCell(f, NUMERIC_COLUMNS, ToNumber, p, k);
    }
    CompletePresent(f.columns, CRITICAL_COLUMNS, y);
    FourPresent(f.columns, y, CRITICAL_COLUMNS);
    TextColumnUnconverted(f.columns, r, y, NUMERIC_COLUMNS, STRING_COLUMNS[0]);
    TextColumnUnconverted(f.columns, r, y, NUMERIC_COLUMNS, STRING_COLUMNS[1]);
    NumberColumnConverted(f.columns, r, y, NUMERIC_COLUMNS, MARKS);
    NumberColumnConverted(f.columns, r, y, NUMERIC_COLUMNS, CREDIT_HOURS);
  }

  /** Intended coercion keeps, converted, exactly the rows with every critical value. */
  lemma CoercedIntendedKeeps(f: Frame)
    ensures forall y :: y in CoercedIntended(f).rows ==>
      exists p :: 0 <= p < |f.rows| && y == CoercedRow(f, p) && CriticalPresent(f.columns, f.rows[p])
    ensures forall p :: 0 <= p < |f.rows| && CriticalPresent(f.columns, f.rows[p]) ==> CoercedRow(f, p) in CoercedIntended(f).rows
  {
    IntendedRowsWith(f, NUMERIC_COLUMNS, STRING_COLUMNS, CRITICAL_COLUMNS);
    forall p | 0 <= p < |f.rows|
      ensures Complete(ConvertColumns(f, NUMERIC_COLUMNS, ToNumber).rows[p], PresentIndices(f.columns, CRITICAL_COLUMNS))
        <==> CriticalPresent(f.columns, f.rows[p])
    {
      CriticalAfterNumeric(f, p);
    }
  }

  // ---------------------------------------------------------------------------
  // validate_student_records

  /** Why a row is not a StudentRecord: `row[name]` raised `KeyError`, `float()` raised
      `ValueError`, or the model's validation failed. */
  datatype RowProblem =
    | MissingKey(column: string)
    | NotANumber(column: string, text: string)
    | Invalid(errors: seq<FieldError>)

  /** "Row {index + 1}: {error}" */
  datatype RowError = RowError(row: int, problem: RowProblem)

  /** `str(row[name])` for a column that exists. */
  function TextAt(columns: seq<string>, r: RawRow, name: string): string
    requires |r.cells| == |columns| && name in columns
  {
    CellText(r.cells[ColumnIndex(columns, name).value])
  }

  /** `float(row[name])` */
  function FloatAt(columns: seq<string>, r: RawRow, name: string): (res: Result<Float, RowProblem>)
    requires |r.cells| == |columns|
    ensures res.Err? ==> res.error.MissingKey? || res.error.NotANumber?
    ensures res.Err? && res.error.MissingKey? ==> res.error.column == name && name !in columns
    ensures res.Err? && res.error.NotANumber? ==> res.error.column == name && name in columns && NumberText(res.error.text).None?
    ensures res.Ok? ==> name in columns && FloatOf(r.cells[ColumnIndex(columns, name).value]) == Some(res.value)
  {
    match ColumnIndex(columns, name)
    case None => Err(MissingKey(name))
    case Some(j) =>
      match FloatOf(r.cells[j])
      case None => Err(NotANumber(name, CellText(r.cells[j])))
      case Some(v) => Ok(v)
  }

  /** One iteration of the loop: the StudentRecord built from a row, the keyword
      arguments evaluated in order. */
  function RowRecord(columns: seq<string>, r: RawRow): (res: Result<StudentRecord, RowProblem>)
    requires |r.cells| == |columns|
    ensures res.Err? && res.error.MissingKey? ==> res.error.column !in columns
    ensures res.Err? && res.error.NotANumber? ==> res.error.column in columns && NumberText(res.error.text).None?
    ensures res.Err? && res.error.NotANumber? ==>
      FloatAt(columns, r, CREDIT_HOURS) == Err(res.error) || FloatAt(columns, r, MARKS) == Err(res.error)
    ensures res.Err? && res.error.Invalid? ==> |res.error.errors| > 0
    ensures res.Ok? ==> "StudentID" in columns && res.value.studentId == Strip(TextAt(columns, r, "StudentID"))
    ensures res.Ok? ==> 0.0 < res.value.creditHours <= 10.0 && 0.0 <= res.value.marks <= 100.0
  {
    if "StudentID" !in columns then Err(MissingKey("StudentID"))
    else if "Name" !in columns then Err(MissingKey("Name"))
    else if "Department" !in columns then Err(MissingKey("Department"))
    else if "Semester" !in columns then Err(MissingKey("Semester"))
    else if "CourseCode" !in columns then Err(MissingKey("CourseCode"))
    else if "CourseName" !in columns then Err(MissingKey("CourseName"))
    else
      match FloatAt(columns, r, CREDIT_HOURS)
      case Err(e) => Err(e)
      case Ok(credits) =>
        match FloatAt(columns, r, MARKS)
        case Err(e) => Err(e)
        case Ok(marks) =>
          match NewStudentRecord(TextAt(columns, r, "StudentID"), TextAt(columns, r, "Name"),
                                 TextAt(columns, r, "Department"), TextAt(columns, r, "Semester"),
                                 TextAt(columns, r, "CourseCode"), TextAt(columns, r, "CourseName"),
                                 credits, marks)
          case Ok(rec) => Ok(rec)
          case Err(es) => Err(Invalid(es))
  }

  /** Each row's outcome, in row order. */
  function Outcomes(columns: seq<string>, rows: seq<RawRow>): (os: seq<Result<StudentRecord, RowProblem>>)
    requires forall i :: 0 <= i < |rows| ==> |rows[i].cells| == |columns|
    ensures |os| == |rows|
  {
    if |rows| == 0 then []
    else Outcomes(columns, rows[..|rows| - 1]) + [RowRecord(columns, rows[|rows| - 1])]
  }

  function RowOutcomes(f: Frame): (os: seq<Result<StudentRecord, RowProblem>>)
    ensures |os| == |f.rows|
  {
    Outcomes(f.columns, f.rows)
  }

  lemma {:induction false} OutcomeAt(columns: seq<string>, rows: seq<RawRow>, i: nat)
    requires forall i :: 0 <= i < |rows| ==> |rows[i].cells| == |columns|
    requires i < |rows|
    ensures Outcomes(columns, rows)[i] == RowRecord(columns, rows[i])
  {
    if i < |rows| - 1 {
      OutcomeAt(columns, rows[..|rows| - 1], i);
    }
  }

  /** One row's contribution: its record appended to the records, or its error to the errors. */
  function Step(acc: (seq<StudentRecord>, seq<RowError>), row: RawRow, outcome: Result<StudentRecord, RowProblem>)
    : (seq<StudentRecord>, seq<RowError>)
  {
    match outcome
    case Ok(rec) => (acc.0 + [rec], acc.1)
    case Err(p) => (acc.0, acc.1 + [RowError(row.index + 1, p)])
  }

  /** The records of the accepted rows and the errors of the rejected ones, each in row order. */
  function Partition(rows: seq<RawRow>, outcomes: seq<Result<StudentRecord, RowProblem>>): (v: (seq<StudentRecord>, seq<RowError>))
    requires |outcomes| == |rows|
    ensures |v.0| + |v.1| == |rows|
  {
    if |rows| == 0 then ([], [])
    else
      var n := |rows| - 1;
      Step(Partition(rows[..n], outcomes[..n]), rows[n], outcomes[n])
  }

  lemma PartitionPrefix(rows: seq<RawRow>, outcomes: seq<Result<StudentRecord, RowProblem>>, i: nat)
    requires |outcomes| == |rows| && i < |rows|
    ensures Partition(rows[..i + 1], outcomes[..i + 1]) == Step(Partition(rows[..i], outcomes[..i]), rows[i], outcomes[i])
  {
    assert rows[..i + 1][..i] == rows[..i] && outcomes[..i + 1][..i] == outcomes[..i];
  }

  /** What `validate_student_records` returns, or the errors of the `ValidationError` it raises. */
  function ValidatedRecords(f: Frame): Result<seq<StudentRecord>, seq<RowError>> {
    var (records, errors) := Partition(f.rows, RowOutcomes(f));
    if errors == [] then Ok(records) else Err(errors)
  }

  method ValidateStudentRecords(f: Frame) returns (res: Result<seq<StudentRecord>, seq<RowError>>)
    ensures res == ValidatedRecords(f)
  {
    var records, errors := CheckRows(f);
    if errors != [] {
      return Err(errors);
    }
    return Ok(records);
  }

  /** The loop over the rows: the records of the accepted rows and the errors of the others. */
  method CheckRows(f: Frame) returns (records: seq<StudentRecord>, errors: seq<RowError>)
    ensures (records, errors) == Partition(f.rows, RowOutcomes(f))
  {
    ghost var outcomes := RowOutcomes(f);
    records, errors := [], [];
    for i := 0 to |f.rows|
      invariant (records, errors) == Partition(f.rows[..i], outcomes[..i])
    {
      PartitionPrefix(f.rows, outcomes, i);
      var outcome := CheckRow(f, i);
      records, errors := RecordOutcome(records, errors, f.rows[i], outcome);
    }
    assert f.rows[..|f.rows|] == f.rows && outcomes[..|f.rows|] == outcomes;
  }

  /** The `try`/`except` of the loop: an accepted row appends its record, a rejected one
      its error, numbered from 1. */
  method RecordOutcome(records: seq<StudentRecord>, errors: seq<RowError>, row: RawRow,
                       outcome: Result<StudentRecord, RowProblem>)
    returns (records': seq<StudentRecord>, errors': seq<RowError>)
    ensures (records', errors') == Step((records, errors), row, outcome)
  {
    records', errors' := records, errors;
    match outcome
    case Ok(rec) =>
      records' := records + [rec];
    case Err(p) =>
      errors' := errors + [RowError(row.index + 1, p)];
  }

  /** The body of the loop: building the StudentRecord of row `i`. */
  method CheckRow(f: Frame, i: nat) returns (outcome: Result<StudentRecord, RowProblem>)
    requires i < |f.rows|
    ensures outcome == RowOutcomes(f)[i]
  {
    outcome := RowRecord(f.columns, f.rows[i]);
    OutcomeAt(f.columns, f.rows, i);
  }

  /** Row by row: each accepted row adds its record, each rejected row its error, in order. */
  lemma {:induction false} PartitionRows(rows: seq<RawRow>, outcomes: seq<Result<StudentRecord, RowProblem>>)
    requires |outcomes| == |rows|
    ensures Partition(rows, outcomes).1 == [] <==> forall i :: 0 <= i < |rows| ==> outcomes[i].Ok?
    ensures Partition(rows, outcomes).1 == [] ==>
      forall i :: 0 <= i < |rows| ==> Partition(rows, outcomes).0[i] == outcomes[i].value
    ensures forall e :: e in Partition(rows, outcomes).1 <==>
      exists i :: 0 <= i < |rows| && outcomes[i].Err? && e == RowError(rows[i].index + 1, outcomes[i].error)
  {
    if |rows| > 0 {
      var n := |rows| - 1;
      PartitionRows(rows[..n], outcomes[..n]);
      assert forall i :: 0 <= i < n ==> rows[..n][i] == rows[i] && outcomes[..n][i] == outcomes[i];
    }
  }

  /** `validate_student_records` returns every row's record, in order, when every row
      validates, and otherwise raises with exactly the errors of the rows that fail. */
  lemma ValidatedAllOrNothing(f: Frame)
    ensures ValidatedRecords(f).Ok? <==> forall i :: 0 <= i < |f.rows| ==> RowOutcomes(f)[i].Ok?
    ensures ValidatedRecords(f).Ok? ==>
      (|ValidatedRecords(f).value| == |f.rows|
       && forall i :: 0 <= i < |f.rows| ==> ValidatedRecords(f).value[i] == RowOutcomes(f)[i].value)
    ensures ValidatedRecords(f).Err? ==> forall e :: e in ValidatedRecords(f).error <==>
      exists i :: 0 <= i < |f.rows| && RowOutcomes(f)[i].Err?
        && e == RowError(f.rows[i].index + 1, RowOutcomes(f)[i].error)
  {
    PartitionRows(f.rows, RowOutcomes(f));
  }

  /** Once coerced, credit hours and marks always read through `float()`: a loaded row
      is rejected only for a missing column or by the model's validation. */
  lemma LoadedRowsParse(f: Frame, y: RawRow)
    requires y in Coerced(f).rows
    ensures RowRecord(f.columns, y).Err? ==> !RowRecord(f.columns, y).error.NotANumber?
  {
    CoercedTyped(f);
    assert |y.cells| == |f.columns|;
    NumberReads(f.columns, y, CREDIT_HOURS);
    NumberReads(f.columns, y, MARKS);
    ReadNumbersParse(f.columns, y);
  }

  /** `RowRecord` reports an unreadable number only when `float()` fails on one. */
  lemma ReadNumbersParse(columns: seq<string>, y: RawRow)
    requires |y.cells| == |columns|
    requires FloatAt(columns, y, CREDIT_HOURS).Ok? || FloatAt(columns, y, CREDIT_HOURS) == Err(MissingKey(CREDIT_HOURS))
    requires FloatAt(columns, y, MARKS).Ok? || FloatAt(columns, y, MARKS) == Err(MissingKey(MARKS))
    ensures RowRecord(columns, y).Err? ==> !RowRecord(columns, y).error.NotANumber?
  {
  }

  lemma NumberReads(columns: seq<string>, y: RawRow, n: string)
    requires |y.cells| == |columns| && n in NUMERIC_COLUMNS
    requires Typed(columns, NUMERIC_COLUMNS, STRING_COLUMNS, y)
    ensures FloatAt(columns, y, n).Ok? || FloatAt(columns, y, n) == Err(MissingKey(n))
  {
    match ColumnIndex(columns, n)
    case None =>
    case Some(j) =>
      assert Targeted(columns, NUMERIC_COLUMNS, j);
  }

  // ---------------------------------------------------------------------------
  // load_csv, after the bytes are read: validate, normalise, coerce

  /** The frame with its columns renamed. */
  function Renamed(f: Frame): (g: Frame)
    ensures g.columns == NormalizedColumns(f.columns) && g.rows == f.rows
  {
    RawFrame(NormalizedColumns(f.columns), f.rows)
  }

  /** What `load_csv` returns for a frame it has read, or the error it raises: as written,
      the column check runs on the names as they were read. */
  function Loaded(f: Frame): Result<Frame, LoadError> {
    match CsvColumnsError(f)
    case Some(e) => Err(e)
    case None => Ok(Coerced(Renamed(f)))
  }

  method LoadFrame(f: Frame) returns (r: Result<Frame, LoadError>)
    ensures r == Loaded(f)
  {
    var error := ValidateCsvColumns(f);
    if error.Some? {
      return Err(error.value);
    }
    var g := NormalizeColumnNames(f);
    g := CoerceDataTypes(g);
    return Ok(g);
  }

  /** A loaded frame has every required column under its canonical name, numbers in
      CreditHours and Marks, and text in the text columns. */
  lemma LoadedSchema(f: Frame)
    requires Loaded(f).Ok?
    ensures forall i :: 0 <= i < |REQUIRED_COLUMNS| ==> REQUIRED_COLUMNS[i] in Loaded(f).value.columns
    ensures forall y :: y in Loaded(f).value.rows ==> Typed(Loaded(f).value.columns, NUMERIC_COLUMNS, STRING_COLUMNS, y)
  {
    RequiredAfterValidation(f);
    CoercedTyped(Renamed(f));
  }

  /** `load_csv` as intended: names normalised before the column check, so an accepted
      alias such as "credits" satisfies it, and rows missing a critical value dropped
      before the text conversion. */
  function LoadedIntended(f: Frame): Result<Frame, LoadError> {
    var g := Renamed(f);
    match CsvColumnsError(g)
    case Some(e) => Err(e)
    case None => Ok(CoercedIntended(g))
  }

  /** The intended loader accepts every non-empty frame whose normalised names include
      all the required columns. */
  lemma IntendedAcceptsRenamed(f: Frame)
    requires !FrameEmpty(f)
    requires forall i :: 0 <= i < |REQUIRED_COLUMNS| ==> REQUIRED_COLUMNS[i] in NormalizedColumns(f.columns)
    ensures LoadedIntended(f).Ok?
  {
    RequiredNamesFixed();
    PresentNamesCleaned(Renamed(f).columns, REQUIRED_COLUMNS);
  }

  /** The intended loader accepts every frame the written one accepts. */
  lemma IntendedAcceptsMore(f: Frame)
    ensures Loaded(f).Ok? ==> LoadedIntended(f).Ok?
  {
    if Loaded(f).Ok? {
      RequiredAfterValidation(f);
      IntendedAcceptsRenamed(f);
    }
  }

  /** The column "credits" is an accepted alias of CreditHours. */
  lemma MapsCredits()
    ensures Lower("credits") == "credits"
    ensures MappedFromClean("credits", COLUMN_MAPPINGS, REQUIRED_COLUMNS) == Some("CreditHours")
  {
    assert Lower("credits") == "credits";
    MappedToAlias("credits", COLUMN_MAPPINGS, REQUIRED_COLUMNS, 6);
  }

  /** The header of a file that names its credit hours by the alias "credits" and is
      otherwise the canonical header. */
  const CREDITS_ALIAS_HEADER: seq<string> := REQUIRED_COLUMNS[6 := "credits"]

  /** As written, `load_csv` rejects a file whose only difference from the canonical header
      is the alias "credits", although normalisation would have renamed it to CreditHours;
      the intended loader accepts it. */
  lemma CreditsAliasRejected(f: Frame)
    requires f.columns == CREDITS_ALIAS_HEADER && |f.rows| > 0
    ensures Loaded(f).Err? && Loaded(f).error.MissingColumns?
    ensures LoadedIntended(f).Ok?
  {
    CreditsHeaderRejected(f.columns);
    CreditsHeaderNormalized(f.columns);
    IntendedAcceptsRenamed(f);
  }

  /** No column of that header cleans to "credithours": all are shorter. */
  lemma CreditsHeaderRejected(cols: seq<string>)
    requires cols == CREDITS_ALIAS_HEADER
    ensures Lower(REQUIRED_COLUMNS[6]) !in CleanNames(cols)
  {
    ShortColumnsMissed(cols, Lower(REQUIRED_COLUMNS[6]));
  }

  /** A name longer than every column is not among the cleaned columns. */
  lemma ShortColumnsMissed(columns: seq<string>, name: string)
    requires forall j :: 0 <= j < |columns| ==> |columns[j]| < |name|
    ensures name !in CleanNames(columns)
  {
    forall j | 0 <= j < |columns|
      ensures CleanNames(columns)[j] != name
    {
      assert |CleanName(columns[j])| <= |columns[j]|;
    }
  }

  /** Columns that are all their own canonical names are left as they are. */
  lemma FixedColumnsNormalized(columns: seq<string>)
    requires forall j :: 0 <= j < |columns| ==> MappedName(columns[j]) == Some(columns[j])
    ensures NormalizedColumns(columns) == columns
  {
  }

  /** Normalisation renames each column on its own: replacing one column replaces its
      normalised name only. */
  lemma NormalizedUpdate(columns: seq<string>, k: nat, col: string)
    requires k < |columns|
    ensures NormalizedColumns(columns[k := col]) == NormalizedColumns(columns)[k := Canonical(col)]
  {
  }

  lemma CreditsHeaderNormalized(cols: seq<string>)
    requires cols == CREDITS_ALIAS_HEADER
    ensures forall i :: 0 <= i < |REQUIRED_COLUMNS| ==> REQUIRED_COLUMNS[i] in NormalizedColumns(cols)
  {
    RequiredNamesFixed();
    FixedColumnsNormalized(REQUIRED_COLUMNS);
    NormalizedUpdate(REQUIRED_COLUMNS, 6, "credits");
    MapsCredits();
    MappedThrough("credits", "credits", "CreditHours");
    assert NormalizedColumns(cols) == REQUIRED_COLUMNS;
  }

  // ---------------------------------------------------------------------
  // aggregate_student_records: one row per (StudentID, Name, Department,
  // Semester) group, in the ascending key order pandas' groupby produces.
  // ---------------------------------------------------------------------

  datatype StudentKey = StudentKey(studentId: string, name: string, department: string, semester: string)

  function KeyOf(r: Row): StudentKey {
    StudentKey(r.studentId, r.name, r.department, r.semester)
  }

  /** Python's `<` on the key tuples: field by field, each by `LexLess`. */
  predicate KeyLess(a: StudentKey, b: StudentKey) {
    LexLess(a.studentId, b.studentId)
    || (a.studentId == b.studentId
        && (LexLess(a.name, b.name)
            || (a.name == b.name
                && (LexLess(a.department, b.department)
                    || (a.department == b.department && LexLess(a.semester, b.semester))))))
  }

  lemma KeyLessIrreflexive(a: StudentKey)
    ensures !KeyLess(a, a)
  {
    LexLessIrreflexive(a.studentId);
    LexLessIrreflexive(a.name);
    LexLessIrreflexive(a.department);
    LexLessIrreflexive(a.semester);
  }

  lemma KeyLessTotal(a: StudentKey, b: StudentKey)
    ensures a == b || KeyLess(a, b) || KeyLess(b, a)
  {
    LexLessTotal(a.studentId, b.studentId);
    LexLessTotal(a.name, b.name);
    LexLessTotal(a.department, b.department);
    LexLessTotal(a.semester, b.semester);
  }

  lemma KeyLessTransitive(a: StudentKey, b: StudentKey, c: StudentKey)
    requires KeyLess(a, b) && KeyLess(b, c)
    ensures KeyLess(a, c)
  {
    if LexLess(a.studentId, b.studentId) && LexLess(b.studentId, c.studentId) {
      LexLessTransitive(a.studentId, b.studentId, c.studentId);
    } else if a.studentId == b.studentId && b.studentId == c.studentId {
      if LexLess(a.name, b.name) && LexLess(b.name, c.name) {
        LexLessTransitive(a.name, b.name, c.name);
      } else if a.name == b.name && b.name == c.name {
        if LexLess(a.department, b.department) && LexLess(b.department, c.department) {
          LexLessTransitive(a.department, b.department, c.department);
        } else if a.department == b.department && b.department == c.department {
          LexLessTransitive(a.semester, b.semester, c.semester);
        }
      }
    }
  }

  predicate StrictlyAscending(ks: seq<StudentKey>) {
    forall i, j :: 0 <= i < j < |ks| ==> KeyLess(ks[i], ks[j])
  }

  /** Puts `k` into an ascending key list, unless it is there already. */
  function InsertKey(k: StudentKey, ks: seq<StudentKey>): seq<StudentKey> {
    if |ks| == 0 then [k]
    else if k == ks[0] then ks
    else if KeyLess(k, ks[0]) then [k] + ks
    else [ks[0]] + InsertKey(k, ks[1..])
  }

  lemma {:induction false} InsertKeyFacts(k: StudentKey, ks: seq<StudentKey>)
    requires StrictlyAscending(ks)
    ensures StrictlyAscending(InsertKey(k, ks))
    ensures forall x :: x in InsertKey(k, ks) <==> x == k || x in ks
  {
    if |ks| == 0 {
    } else if k == ks[0] {
    } else if KeyLess(k, ks[0]) {
      var r := [k] + ks;
      forall i, j | 0 <= i < j < |r| ensures KeyLess(r[i], r[j]) {
        if i == 0 && j > 1 {
          KeyLessTransitive(k, ks[0], ks[j - 1]);
        } else if i > 0 {
          assert r[i] == ks[i - 1] && r[j] == ks[j - 1];
        }
      }
    } else {
      KeyLessTotal(k, ks[0]);
      var rest := InsertKey(k, ks[1..]);
      InsertKeyFacts(k, ks[1..]);
      assert ks == [ks[0]] + ks[1..];
      var r := [ks[0]] + rest;
      forall i, j | 0 <= i < j < |r| ensures KeyLess(r[i], r[j]) {
        if i == 0 {
          assert r[j] in rest;
          if r[j] != k {
            var p :| 0 <= p < |ks[1..]| && ks[1..][p] == r[j];
            assert ks[p + 1] == r[j];
          }
        } else {
          assert r[i] == rest[i - 1] && r[j] == rest[j - 1];
        }
      }
    }
  }

  /** The keys of the rows, as `groupby` lists its groups. */
  function GroupKeys(rows: seq<Row>): seq<StudentKey> {
    if |rows| == 0 then []
    else InsertKey(KeyOf(rows[|rows| - 1]), GroupKeys(rows[..|rows| - 1]))
  }

  /** The groups come out in strictly ascending key order, one per key that occurs. */
  lemma {:induction false} GroupKeysFacts(rows: seq<Row>)
    ensures StrictlyAscending(GroupKeys(rows))
    ensures forall k :: k in GroupKeys(rows) <==> exists i :: 0 <= i < |rows| && KeyOf(rows[i]) == k
  {
    if |rows| > 0 {
      var init := rows[..|rows| - 1];
      GroupKeysFacts(init);
      InsertKeyFacts(KeyOf(rows[|rows| - 1]), GroupKeys(init));
      forall k ensures k in GroupKeys(rows) <==> exists i :: 0 <= i < |rows| && KeyOf(rows[i]) == k {
        if k in GroupKeys(rows) && k != KeyOf(rows[|rows| - 1]) {
          var i :| 0 <= i < |init| && KeyOf(init[i]) == k;
          assert rows[i] == init[i];
        }
        if exists i :: 0 <= i < |rows| && KeyOf(rows[i]) == k {
          var i :| 0 <= i < |rows| && KeyOf(rows[i]) == k;
          if i < |init| {
            assert init[i] == rows[i];
          }
        }
      }
    }
  }

  lemma AscendingDistinct(ks: seq<StudentKey>)
    requires StrictlyAscending(ks)
    ensures NoDuplicates(ks)
  {
    forall i, j | 0 <= i < j < |ks| ensures ks[i] != ks[j] {
      KeyLessIrreflexive(ks[i]);
    }
  }

  /** The rows of one group, in table order. */
  function GroupRows(rows: seq<Row>, k: StudentKey): (g: seq<Row>)
    ensures |g| <= |rows|
    ensures forall r :: r in g <==> r in rows && KeyOf(r) == k
  {
    if |rows| == 0 then []
    else
      var init := rows[..|rows| - 1];
      assert rows == init + [rows[|rows| - 1]];
      GroupRows(init, k) + (if KeyOf(rows[|rows| - 1]) == k then [rows[|rows| - 1]] else [])
  }

  /** One output row of `aggregate_student_records`. */
  datatype StudentAggregate = StudentAggregate(
    key: StudentKey,
    totalCredits: real,
    averageMarks: real,
    coursesCount: nat,
    coursesList: string,
    passFailStatus: string)

  const PASS_MARKS: real := 60.0

  function AggregateOf(rows: seq<Row>, k: StudentKey): StudentAggregate {
    var g := GroupRows(rows, k);
    var mean := Mean(MarksOf(g));
    StudentAggregate(k, Sum(CreditsOf(g)), mean, |g|,
                     Join(Unique(Values(g, CourseName)), ", "),
                     if mean >= PASS_MARKS then "Pass" else "Fail")
  }

  function AggregatesFor(rows: seq<Row>, ks: seq<StudentKey>): (aggs: seq<StudentAggregate>)
    ensures |aggs| == |ks|
    ensures forall i :: 0 <= i < |ks| ==> aggs[i] == AggregateOf(rows, ks[i])
  {
    seq(|ks|, i requires 0 <= i < |ks| => AggregateOf(rows, ks[i]))
  }

  /** `aggregate_student_records`: the first of the eight columns it reads that is
      absent is a `KeyError` (an empty frame has none of them); otherwise one
      aggregate per group. */
  function AggregateStudentRecords(t: Table): (r: Result<seq<StudentAggregate>, ColumnError>)
    ensures r.Err? ==> r.error.column !in t.columns
    ensures r.Ok? <==> ("StudentID" in t.columns && "Name" in t.columns && "Department" in t.columns
                        && "Semester" in t.columns && CREDIT_HOURS in t.columns && MARKS in t.columns
                        && "CourseCode" in t.columns && "CourseName" in t.columns)
  {
    if "StudentID" !in t.columns then Err(MissingColumn("StudentID"))
    else if "Name" !in t.columns then Err(MissingColumn("Name"))
    else if "Department" !in t.columns then Err(MissingColumn("Department"))
    else if "Semester" !in t.columns then Err(MissingColumn("Semester"))
    else if CREDIT_HOURS !in t.columns then Err(MissingColumn(CREDIT_HOURS))
    else if MARKS !in t.columns then Err(MissingColumn(MARKS))
    else if "CourseCode" !in t.columns then Err(MissingColumn("CourseCode"))
    else if "CourseName" !in t.columns then Err(MissingColumn("CourseName"))
    else
      Ok(AggregatesFor(t.rows, GroupKeys(t.rows)))
  }

  /** The groups are exactly the distinct keys of the table, in strictly
      ascending order, so each student-semester appears once. */
  lemma AggregateGroups(t: Table)
    requires AggregateStudentRecords(t).Ok?
    ensures StrictlyAscending(KeysOfAggregates(AggregateStudentRecords(t).value))
    ensures forall k :: k in KeysOfAggregates(AggregateStudentRecords(t).value)
                        <==> exists i :: 0 <= i < |t.rows| && KeyOf(t.rows[i]) == k
  {
    GroupKeysFacts(t.rows);
    assert KeysOfAggregates(AggregateStudentRecords(t).value) == GroupKeys(t.rows);
  }

  function KeysOfAggregates(aggs: seq<StudentAggregate>): (ks: seq<StudentKey>)
    ensures |ks| == |aggs| && forall i :: 0 <= i < |aggs| ==> ks[i] == aggs[i].key
  {
    seq(|aggs|, i requires 0 <= i < |aggs| => aggs[i].key)
  }

  /** What one aggregate row means: its count is the number of course rows of
      that student-semester (at least one), its courses list names each of
      their course names once, its status is "Pass" exactly when the mean mark
      reaches 60, and the mean mark lies within any bounds of the group's marks. */
  lemma AggregateFigures(t: Table, i: nat, lo: real, hi: real)
    requires AggregateStudentRecords(t).Ok? && i < |AggregateStudentRecords(t).value|
    requires forall r :: r in t.rows ==> lo <= r.marks <= hi
    ensures var a := AggregateStudentRecords(t).value[i];
            && a.coursesCount >= 1
            && a.coursesCount == |GroupRows(t.rows, a.key)|
            && (forall r :: r in GroupRows(t.rows, a.key) <==> r in t.rows && KeyOf(r) == a.key)
            && (a.passFailStatus == "Pass" <==> a.averageMarks >= 60.0)
            && (a.passFailStatus == "Pass" || a.passFailStatus == "Fail")
            && lo <= a.averageMarks <= hi
  {
    var a := AggregateStudentRecords(t).value[i];
    GroupKeysFacts(t.rows);
    assert a.key in GroupKeys(t.rows);
    var p :| 0 <= p < |t.rows| && KeyOf(t.rows[p]) == a.key;
    var g := GroupRows(t.rows, a.key);
    assert t.rows[p] in g;
    var ms := MarksOf(g);
    forall j | 0 <= j < |ms| ensures lo <= ms[j] <= hi {
      assert g[j] in g;
    }
    MeanBounds(ms, lo, hi);
  }

  function TotalCourses(aggs: seq<StudentAggregate>): nat {
    if |aggs| == 0 then 0 else TotalCourses(aggs[..|aggs| - 1]) + aggs[|aggs| - 1].coursesCount
  }

  function SumCounts(rows: seq<Row>, ks: seq<StudentKey>): nat {
    if |ks| == 0 then 0 else SumCounts(rows, ks[..|ks| - 1]) + |GroupRows(rows, ks[|ks| - 1])|
  }

  lemma {:induction false} TotalCoursesIsSumCounts(rows: seq<Row>, ks: seq<StudentKey>)
    ensures TotalCourses(AggregatesFor(rows, ks)) == SumCounts(rows, ks)
  {
    if |ks| > 0 {
      TotalCoursesIsSumCounts(rows, ks[..|ks| - 1]);
      var aggs := AggregatesFor(rows, ks);
      assert aggs[..|aggs| - 1] == AggregatesFor(rows, ks[..|ks| - 1]);
    }
  }

  lemma {:induction false} SumCountsOfNoRows(ks: seq<StudentKey>)
    ensures SumCounts([], ks) == 0
  {
    if |ks| > 0 {
      SumCountsOfNoRows(ks[..|ks| - 1]);
    }
  }

  /** One more row adds one to the count of its own key and to no other. */
  lemma {:induction false} SumCountsStep(rows: seq<Row>, ks: seq<StudentKey>)
    requires |rows| > 0 && NoDuplicates(ks)
    ensures SumCounts(rows, ks)
            == SumCounts(rows[..|rows| - 1], ks) + (if KeyOf(rows[|rows| - 1]) in ks then 1 else 0)
  {
    if |ks| > 0 {
      var init := ks[..|ks| - 1];
      var last := ks[|ks| - 1];
      assert NoDuplicates(init);
      SumCountsStep(rows, init);
      assert KeyOf(rows[|rows| - 1]) in ks <==> KeyOf(rows[|rows| - 1]) in init || KeyOf(rows[|rows| - 1]) == last;
      assert last !in init;
    }
  }

  /** Counting each key's rows over a duplicate-free key list that covers every
      row counts every row once. */
  lemma {:induction false} SumCountsCoversRows(rows: seq<Row>, ks: seq<StudentKey>)
    requires NoDuplicates(ks)
    requires forall i :: 0 <= i < |rows| ==> KeyOf(rows[i]) in ks
    ensures SumCounts(rows, ks) == |rows|
  {
    if |rows| == 0 {
      SumCountsOfNoRows(ks);
    } else {
      var init := rows[..|rows| - 1];
      assert forall i :: 0 <= i < |init| ==> init[i] == rows[i];
      SumCountsCoversRows(init, ks);
      SumCountsStep(rows, ks);
    }
  }

  /** The aggregated course counts add up to the number of course rows: the
      groups partition the table. */
  lemma AggregateCountsCoverRows(t: Table)
    requires AggregateStudentRecords(t).Ok?
    ensures TotalCourses(AggregateStudentRecords(t).value) == |t.rows|
  {
    var ks := GroupKeys(t.rows);
    GroupKeysFacts(t.rows);
    AscendingDistinct(ks);
    TotalCoursesIsSumCounts(t.rows, ks);
    SumCountsCoversRows(t.rows, ks);
  }

  /** The single-student example: two 3-credit courses with marks 85 and 90
      give 6 credits, a mean of 87.5, two courses and a pass. */
  lemma AggregateOneStudent(t: Table, r1: Row, r2: Row)
    requires AggregateStudentRecords(t).Ok? && t.rows == [r1, r2] && KeyOf(r1) == KeyOf(r2)
    requires r1.creditHours == 3.0 && r2.creditHours == 3.0 && r1.marks == 85.0 && r2.marks == 90.0
    ensures |AggregateStudentRecords(t).value| == 1
    ensures var a := AggregateStudentRecords(t).value[0];
            a.totalCredits == 6.0 && a.averageMarks == 87.5 && a.coursesCount == 2 && a.passFailStatus == "Pass"
  {
    OneGroup(r1, r2);
    var g := GroupRows(t.rows, KeyOf(r1));
    assert MarksOf(g) == [85.0, 90.0];
    assert CreditsOf(g) == [3.0, 3.0];
    assert [85.0, 90.0][..1] == [85.0];
    assert [3.0, 3.0][..1] == [3.0];
    assert Sum(MarksOf(g)) == 175.0;
    assert Sum(CreditsOf(g)) == 6.0;
  }

  /** Two rows with the same key form one group holding both. */
  lemma OneGroup(r1: Row, r2: Row)
    requires KeyOf(r1) == KeyOf(r2)
    ensures GroupKeys([r1, r2]) == [KeyOf(r1)]
    ensures GroupRows([r1, r2], KeyOf(r1)) == [r1, r2]
  {
    var rows := [r1, r2];
    assert rows[..1] == [r1];
    assert GroupKeys(rows[..1]) == [KeyOf(r1)];
    assert GroupRows(rows[..1], KeyOf(r1)) == [r1];
  }

  // ---------------------------------------------------------------------
  // get_data_summary
  // ---------------------------------------------------------------------

  /** A column statistic: `None` when the column is absent, NaN when it has
      no values, otherwise the value. */
  datatype Stat<T> = Absent | NoValues | Value(value: T)

  /** `date_range`: the smallest and largest semester strings. */
  datatype DateRange = DateRange(earliest: Stat<string>, latest: Stat<string>)

  /** `marks_range`. */
  datatype MarksRange = MarksRange(min: Stat<real>, max: Stat<real>, mean: Stat<real>)

  /** `credits_range`; the total of an empty present column is 0. */
  datatype CreditsRange = CreditsRange(min: Stat<real>, max: Stat<real>, total: Option<real>)

  datatype DataSummary = DataSummary(
    totalRecords: nat,
    uniqueStudents: nat,
    uniqueCourses: nat,
    departments: seq<string>,
    semesters: seq<string>,
    dateRange: DateRange,
    marksRange: MarksRange,
    creditsRange: CreditsRange)

  /** `min()` of strings. */
  function MinText(xs: seq<string>): (m: string)
    requires |xs| > 0
    ensures m in xs
  {
    if |xs| == 1 then xs[0]
    else
      var m := MinText(xs[..|xs| - 1]);
      if LexLess(xs[|xs| - 1], m) then xs[|xs| - 1] else m
  }

  /** `max()` of strings. */
  function MaxText(xs: seq<string>): (m: string)
    requires |xs| > 0
    ensures m in xs
  {
    if |xs| == 1 then xs[0]
    else
      var m := MaxText(xs[..|xs| - 1]);
      if LexLess(m, xs[|xs| - 1]) then xs[|xs| - 1] else m
  }

  lemma {:induction false} MinTextLeast(xs: seq<string>)
    requires |xs| > 0
    ensures forall x :: x in xs ==> !LexLess(x, MinText(xs))
  {
    if |xs| == 1 {
      LexLessIrreflexive(xs[0]);
    } else {
      var init := xs[..|xs| - 1];
      var last := xs[|xs| - 1];
      MinTextLeast(init);
      var m := MinText(init);
      LexLessIrreflexive(MinText(xs));
      forall x | x in xs ensures !LexLess(x, MinText(xs)) {
        if x in init && LexLess(last, m) && LexLess(x, last) {
          LexLessTransitive(x, last, m);
        }
        if x !in init {
          assert x == last;
          if !LexLess(last, m) {
            assert MinText(xs) == m;
          }
        }
      }
    }
  }

  lemma {:induction false} MaxTextGreatest(xs: seq<string>)
    requires |xs| > 0
    ensures forall x :: x in xs ==> !LexLess(MaxText(xs), x)
  {
    if |xs| == 1 {
      LexLessIrreflexive(xs[0]);
    } else {
      var init := xs[..|xs| - 1];
      var last := xs[|xs| - 1];
      MaxTextGreatest(init);
      var m := MaxText(init);
      LexLessIrreflexive(MaxText(xs));
      forall x | x in xs ensures !LexLess(MaxText(xs), x) {
        if x in init && LexLess(m, last) && LexLess(last, x) {
          LexLessTransitive(m, last, x);
        }
        if x !in init {
          assert x == last;
          if !LexLess(m, last) {
            assert MaxText(xs) == m;
          }
        }
      }
    }
  }

  /** `min()` of numbers. */
  function MinReal(xs: seq<real>): (m: real)
    requires |xs| > 0
    ensures m in xs && forall i :: 0 <= i < |xs| ==> m <= xs[i]
  {
    if |xs| == 1 then xs[0]
    else
      var m := MinReal(xs[..|xs| - 1]);
      if xs[|xs| - 1] < m then xs[|xs| - 1] else m
  }

  /** `max()` of numbers. */
  function MaxReal(xs: seq<real>): (m: real)
    requires |xs| > 0
    ensures m in xs && forall i :: 0 <= i < |xs| ==> xs[i] <= m
  {
    if |xs| == 1 then xs[0]
    else
      var m := MaxReal(xs[..|xs| - 1]);
      if xs[|xs| - 1] > m then xs[|xs| - 1] else m
  }

  function TextCount(t: Table, c: TextColumn): nat {
    if ColumnName(c) in t.columns then |Unique(Values(t.rows, c))| else 0
  }

  function TextList(t: Table, c: TextColumn): seq<string> {
    if ColumnName(c) in t.columns then Unique(Values(t.rows, c)) else []
  }

  function TextStat(t: Table, c: TextColumn, least: bool): Stat<string> {
    if ColumnName(c) !in t.columns then Absent
    else if |t.rows| == 0 then NoValues
    else if least then Value(MinText(Values(t.rows, c)))
    else Value(MaxText(Values(t.rows, c)))
  }

  datatype Reduction = Least | Greatest | Average

  function NumberStat(t: Table, column: string, xs: seq<real>, how: Reduction): Stat<real> {
    if column !in t.columns then Absent
    else if |xs| == 0 then NoValues
    else match how
      case Least => Value(MinReal(xs))
      case Greatest => Value(MaxReal(xs))
      case Average => Value(Mean(xs))
  }

  /** `get_data_summary`: record count, distinct students and courses, the
      department and semester lists, and the semester, mark and credit ranges;
      each part reads as `None` (or 0, or an empty list) without its column. */
  function DateRangeOf(t: Table): DateRange {
    DateRange(TextStat(t, Semester, true), TextStat(t, Semester, false))
  }

  function MarksRangeOf(t: Table): MarksRange {
    var marks := MarksOf(t.rows);
    MarksRange(NumberStat(t, MARKS, marks, Least), NumberStat(t, MARKS, marks, Greatest),
               NumberStat(t, MARKS, marks, Average))
  }

  function CreditsRangeOf(t: Table): CreditsRange {
    var credits := CreditsOf(t.rows);
    CreditsRange(NumberStat(t, CREDIT_HOURS, credits, Least), NumberStat(t, CREDIT_HOURS, credits, Greatest),
                 if CREDIT_HOURS in t.columns then Some(Sum(credits)) else None)
  }

  function GetDataSummary(t: Table): (s: DataSummary)
    ensures s.totalRecords == |t.rows|
    ensures s.uniqueStudents <= |t.rows| && s.uniqueCourses <= |t.rows|
    ensures |s.departments| <= |t.rows| && |s.semesters| <= |t.rows|
  {
    DataSummary(
      |t.rows|,
      TextCount(t, StudentId),
      TextCount(t, CourseCode),
      TextList(t, Department),
      TextList(t, Semester),
      DateRangeOf(t),
      MarksRangeOf(t),
      CreditsRangeOf(t))
  }

  /** A present text column counts its distinct values and lists each of them once. */
  lemma TextColumnSummary(t: Table, c: TextColumn)
    requires ColumnName(c) in t.columns
    ensures TextCount(t, c) == |set r | r in t.rows :: Tables.Cell(r, c)|
    ensures NoDuplicates(TextList(t, c))
    ensures forall v :: v in TextList(t, c) <==> exists r :: r in t.rows && Tables.Cell(r, c) == v
  {
    ValuesAsSet(t.rows, c);
    UniqueCountIsDistinctCount(Values(t.rows, c));
    forall v ensures v in Values(t.rows, c) <==> exists r :: r in t.rows && Tables.Cell(r, c) == v {
      ValueIn(t.rows, c, v);
    }
  }

  /** The counts are the numbers of distinct student IDs and course codes, and
      the department and semester lists hold each value of their column once. */
  lemma SummaryCounts(t: Table)
    ensures "StudentID" in t.columns
            ==> GetDataSummary(t).uniqueStudents == |set r | r in t.rows :: r.studentId|
    ensures "CourseCode" in t.columns
            ==> GetDataSummary(t).uniqueCourses == |set r | r in t.rows :: r.courseCode|
    ensures NoDuplicates(GetDataSummary(t).departments) && NoDuplicates(GetDataSummary(t).semesters)
    ensures "Department" in t.columns
            ==> forall d :: d in GetDataSummary(t).departments <==> exists r :: r in t.rows && r.department == d
    ensures "Semester" in t.columns
            ==> forall m :: m in GetDataSummary(t).semesters <==> exists r :: r in t.rows && r.semester == m
  {
    if "StudentID" in t.columns {
      StudentCount(t);
    }
    if "CourseCode" in t.columns {
      CourseCount(t);
    }
    if "Department" in t.columns {
      TextColumnSummary(t, Department);
    }
    if "Semester" in t.columns {
      TextColumnSummary(t, Semester);
    }
  }

  lemma StudentCount(t: Table)
    requires "StudentID" in t.columns
    ensures TextCount(t, StudentId) == |set r | r in t.rows :: r.studentId|
  {
    TextColumnSummary(t, StudentId);
    assert (set r | r in t.rows :: r.studentId) == (set r | r in t.rows :: Tables.Cell(r, StudentId));
  }

  lemma CourseCount(t: Table)
    requires "CourseCode" in t.columns
    ensures TextCount(t, CourseCode) == |set r | r in t.rows :: r.courseCode|
  {
    TextColumnSummary(t, CourseCode);
    assert (set r | r in t.rows :: r.courseCode) == (set r | r in t.rows :: Tables.Cell(r, CourseCode));
  }

  lemma ValueIn(rows: seq<Row>, c: TextColumn, v: string)
    ensures v in Values(rows, c) <==> exists r :: r in rows && Tables.Cell(r, c) == v
  {
    if exists r :: r in rows && Tables.Cell(r, c) == v {
      var r :| r in rows && Tables.Cell(r, c) == v;
      var i :| 0 <= i < |rows| && rows[i] == r;
      assert Values(rows, c)[i] == v;
    }
  }

  lemma ValuesAsSet(rows: seq<Row>, c: TextColumn)
    ensures (set x | x in Values(rows, c)) == (set r | r in rows :: Tables.Cell(r, c))
  {
    forall v ensures v in Values(rows, c) <==> v in (set r | r in rows :: Tables.Cell(r, c)) {
      ValueIn(rows, c, v);
    }
  }

  /** With rows, the mark range holds the true smallest and largest marks and
      the mean mark lies between them. */
  lemma SummaryMarks(t: Table)
    requires |t.rows| > 0 && MARKS in t.columns
    ensures var m := GetDataSummary(t).marksRange;
            && m.min.Value? && m.max.Value? && m.mean.Value?
            && m.min.value <= m.mean.value <= m.max.value
            && (forall r :: r in t.rows ==> m.min.value <= r.marks <= m.max.value)
            && (exists r :: r in t.rows && r.marks == m.min.value)
            && (exists r :: r in t.rows && r.marks == m.max.value)
  {
    var marks := MarksOf(t.rows);
    var lo, hi := MinReal(marks), MaxReal(marks);
    assert MarksRangeOf(t) == MarksRange(Value(lo), Value(hi), Value(Mean(marks)));
    MeanBounds(marks, lo, hi);
    forall r | r in t.rows ensures lo <= r.marks <= hi {
      var i :| 0 <= i < |t.rows| && t.rows[i] == r;
      assert marks[i] == r.marks;
    }
    var i :| 0 <= i < |marks| && marks[i] == lo;
    assert t.rows[i] in t.rows;
    var j :| 0 <= j < |marks| && marks[j] == hi;
    assert t.rows[j] in t.rows;
  }

  /** With rows, the credit total lies between the row count times the smallest
      and times the largest credit value. */
  lemma SummaryCredits(t: Table)
    requires |t.rows| > 0 && CREDIT_HOURS in t.columns
    ensures var c := CreditsRangeOf(t);
            && c.min.Value? && c.max.Value? && c.total.Some?
            && c.min.value * |t.rows| as real <= c.total.value <= c.max.value * |t.rows| as real
  {
    CreditsRangeBounds(t);
    var c := CreditsRangeOf(t);
    CreditTotalBounds(CreditsOf(t.rows), |t.rows| as real, c.min.value, c.max.value, c.total.value);
  }

  lemma CreditsRangeBounds(t: Table)
    requires |t.rows| > 0 && CREDIT_HOURS in t.columns
    ensures var c := CreditsRangeOf(t);
            && c.min.Value? && c.max.Value? && c.total == Some(Sum(CreditsOf(t.rows)))
            && forall i :: 0 <= i < |t.rows| ==> c.min.value <= CreditsOf(t.rows)[i] <= c.max.value
  {
    var credits := CreditsOf(t.rows);
    assert CreditsRangeOf(t) == CreditsRange(Value(MinReal(credits)), Value(MaxReal(credits)), Some(Sum(credits)));
  }

  lemma CreditTotalBounds(xs: seq<real>, n: real, lo: real, hi: real, total: real)
    requires n == |xs| as real && total == Sum(xs)
    requires forall i :: 0 <= i < |xs| ==> lo <= xs[i] <= hi
    ensures lo * n <= total <= hi * n
  {
    SumBounds(xs, lo, hi);
  }

  /** With rows, the earliest and latest semesters bound every semester in
      string order, and the earliest is not after the latest. */
  lemma SummarySemesters(t: Table)
    requires |t.rows| > 0 && "Semester" in t.columns
    ensures var d := GetDataSummary(t).dateRange;
            && d.earliest.Value? && d.latest.Value?
            && (forall r :: r in t.rows ==> !LexLess(r.semester, d.earliest.value)
                                            && !LexLess(d.latest.value, r.semester))
            && !LexLess(d.latest.value, d.earliest.value)
  {
    var sems := Values(t.rows, Semester);
    var lo, hi := MinText(sems), MaxText(sems);
    assert DateRangeOf(t) == DateRange(Value(lo), Value(hi));
    MinTextLeast(sems);
    MaxTextGreatest(sems);
    forall r | r in t.rows ensures !LexLess(r.semester, lo) && !LexLess(hi, r.semester) {
      var i :| 0 <= i < |t.rows| && t.rows[i] == r;
      assert sems[i] == r.semester;
    }
    assert hi in sems;
  }

  /** An empty table: zero counts, empty lists, no value for any range, and a
      credit total of 0 when the column is present. */
  lemma SummaryOfEmpty(t: Table)
    requires |t.rows| == 0
    ensures var s := GetDataSummary(t);
            && s.totalRecords == 0 && s.uniqueStudents == 0 && s.uniqueCourses == 0
            && s.departments == [] && s.semesters == []
            && !s.dateRange.earliest.Value? && !s.dateRange.latest.Value?
            && !s.marksRange.min.Value? && !s.marksRange.max.Value? && !s.marksRange.mean.Value?
            && !s.creditsRange.min.Value? && !s.creditsRange.max.Value?
            && (CREDIT_HOURS in t.columns <==> s.creditsRange.total == Some(0.0))
  {
  }
}
