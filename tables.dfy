/** The in-memory table the analyzer works on (a pandas DataFrame after
    loading): one row per student-course pairing, with the set of column
    names present. A row's value for a column that is not present is never
    read by the model. Also the pandas idioms the analyzer uses on it:
    `Series.unique()` (distinct values in first-appearance order),
    `nunique()`, boolean selection `df[df[col] == v]`, `sum()` and `mean()`. */
module Tables {

  datatype Row = Row(
    index: int,              // the row's pandas index label
    studentId: string,
    name: string,
    department: string,
    semester: string,
    courseCode: string,
    courseName: string,
    creditHours: real,
    marks: real)

  datatype Table = Table(columns: set<string>, rows: seq<Row>)

  /** `df.empty`: no rows or no columns. */
  predicate IsEmpty(t: Table) {
    |t.rows| == 0 || t.columns == {}
  }

  /** The text-valued columns of the schema. */
  datatype TextColumn = StudentId | Name | Department | Semester | CourseCode | CourseName

  function ColumnName(c: TextColumn): string {
    match c
    case StudentId => "StudentID"
    case Name => "Name"
    case Department => "Department"
    case Semester => "Semester"
    case CourseCode => "CourseCode"
    case CourseName => "CourseName"
  }

  /** The `KeyError` pandas raises when a needed column is absent. */
  datatype ColumnError = MissingColumn(column: string)

  const CREDIT_HOURS: string := "CreditHours"
  const MARKS: string := "Marks"

  function Cell(r: Row, c: TextColumn): string {
    match c
    case StudentId => r.studentId
    case Name => r.name
    case Department => r.department
    case Semester => r.semester
    case CourseCode => r.courseCode
    case CourseName => r.courseName
  }

  /** `df[c]` as a sequence of values. */
  function Values(rows: seq<Row>, c: TextColumn): (vs: seq<string>)
    ensures |vs| == |rows| && forall i :: 0 <= i < |rows| ==> vs[i] == Cell(rows[i], c)
  {
    seq(|rows|, i requires 0 <= i < |rows| => Cell(rows[i], c))
  }

  predicate NoDuplicates<T(==)>(xs: seq<T>) {
    forall i, j :: 0 <= i < j < |xs| ==> xs[i] != xs[j]
  }

  /** `Series.unique()`: each distinct value once, in order of first appearance. */
  /** A list without duplicates holds each value at most once. */
  lemma {:induction false} NoDuplicatesCount<T>(xs: seq<T>, x: T)
    requires NoDuplicates(xs)
    ensures multiset(xs)[x] <= 1
  {
    if |xs| > 0 {
      var init, last := xs[..|xs| - 1], xs[|xs| - 1];
      assert xs == init + [last];
      NoDuplicatesCount(init, x);
      if last == x {
        assert x !in init by {
          forall i | 0 <= i < |init| ensures init[i] != x {
            assert init[i] == xs[i];
          }
        }
      }
    }
  }

  /** A value at two positions of a list is held at least twice. */
  lemma RepeatCount<T>(xs: seq<T>, i: nat, j: nat)
    requires i < j < |xs| && xs[i] == xs[j]
    ensures multiset(xs)[xs[i]] >= 2
  {
    var x := xs[i];
    assert xs == xs[..j] + [xs[j]] + xs[j + 1..];
    assert xs[..j][i] == x;
    assert multiset(xs) == multiset(xs[..j]) + multiset{x} + multiset(xs[j + 1..]);
  }

  /** A rearrangement of a list without duplicates has none either. */
  lemma PermutationNoDuplicates<T>(xs: seq<T>, ys: seq<T>)
    requires multiset(xs) == multiset(ys) && NoDuplicates(xs)
    ensures NoDuplicates(ys)
  {
    forall i, j | 0 <= i < j < |ys| ensures ys[i] != ys[j] {
      if ys[i] == ys[j] {
        RepeatCount(ys, i, j);
        NoDuplicatesCount(xs, ys[i]);
      }
    }
  }

  function Unique(xs: seq<string>): (u: seq<string>)
    ensures forall x :: x in u <==> x in xs
    ensures NoDuplicates(u)
    ensures |u| <= |xs|
  {
    if |xs| == 0 then []
    else
      var init := xs[..|xs| - 1];
      var u := Unique(init);
      assert xs == init + [xs[|xs| - 1]];
      if xs[|xs| - 1] in u then u else u + [xs[|xs| - 1]]
  }

  /** The values `Unique` lists appear in the order of their first occurrence. */
  lemma {:induction false} UniqueKeepsFirstAppearanceOrder(xs: seq<string>, i: nat, j: nat)
    requires i < j < |Unique(xs)|
    ensures exists p :: 0 <= p < |xs| && xs[p] == Unique(xs)[i]
              && forall q :: 0 <= q <= p ==> xs[q] != Unique(xs)[j]
  {
    var init := xs[..|xs| - 1];
    assert xs == init + [xs[|xs| - 1]];
    if j < |Unique(init)| {
      UniqueKeepsFirstAppearanceOrder(init, i, j);
      var p :| 0 <= p < |init| && init[p] == Unique(init)[i]
               && forall q :: 0 <= q <= p ==> init[q] != Unique(init)[j];
      assert xs[p] == Unique(xs)[i];
    } else {
      assert Unique(xs)[j] == xs[|xs| - 1] && Unique(xs)[j] !in init;
      var x := Unique(xs)[i];
      assert x in init;
      var p :| 0 <= p < |init| && init[p] == x;
      assert xs[p] == x;
    }
  }

  lemma {:induction false} DistinctCount(xs: seq<string>)
    requires NoDuplicates(xs)
    ensures |set x | x in xs| == |xs|
  {
    if |xs| > 0 {
      var init := xs[..|xs| - 1];
      DistinctCount(init);
      assert (set x | x in xs) == (set x | x in init) + {xs[|xs| - 1]};
      assert xs[|xs| - 1] !in init;
    }
  }

  /** `nunique()` counts the distinct values. */
  lemma UniqueCountIsDistinctCount(xs: seq<string>)
    ensures |Unique(xs)| == |set x | x in xs|
  {
    DistinctCount(Unique(xs));
    assert (set x | x in Unique(xs)) == (set x | x in xs);
  }

  /** `df[df[c] == v]`: the rows whose column `c` equals `v`, in their order. */
  function Select(rows: seq<Row>, c: TextColumn, v: string): (s: seq<Row>)
    ensures |s| <= |rows|
    ensures forall r :: r in s ==> r in rows && Cell(r, c) == v
    ensures forall r :: r in rows && Cell(r, c) == v ==> r in s
  {
    if |rows| == 0 then []
    else
      var init := rows[..|rows| - 1];
      var last := rows[|rows| - 1];
      assert rows == init + [last];
      Select(init, c, v) + (if Cell(last, c) == v then [last] else [])
  }

  /** Selection keeps each matching row as often as it occurs and drops every other row. */
  lemma {:induction false} SelectCounts(rows: seq<Row>, c: TextColumn, v: string)
    ensures forall r :: multiset(Select(rows, c, v))[r] == if Cell(r, c) == v then multiset(rows)[r] else 0
  {
    if |rows| > 0 {
      var init, last := rows[..|rows| - 1], rows[|rows| - 1];
      assert rows == init + [last];
      SelectCounts(init, c, v);
    }
  }

  lemma SnocSplit<T>(a: seq<T>, b: seq<T>)
    requires |b| > 0
    ensures b == b[..|b| - 1] + [b[|b| - 1]]
    ensures a + b == (a + b[..|b| - 1]) + [b[|b| - 1]]
  {
  }

  lemma AppendAssociative<T>(x: seq<T>, y: seq<T>, z: seq<T>)
    ensures (x + y) + z == x + (y + z)
  {
  }

  lemma SelectSnoc(rows: seq<Row>, last: Row, c: TextColumn, v: string)
    ensures Select(rows + [last], c, v) == Select(rows, c, v) + (if Cell(last, c) == v then [last] else [])
  {
    assert (rows + [last])[..|rows|] == rows;
  }

  /** Selection keeps the rows' order: selecting from `a + b` selects from `a`, then from `b`. */
  lemma {:induction false} SelectAppend(a: seq<Row>, b: seq<Row>, c: TextColumn, v: string)
    ensures Select(a + b, c, v) == Select(a, c, v) + Select(b, c, v)
    decreases |b|
  {
    if |b| == 0 {
      assert a + b == a;
    } else {
      var init, last := b[..|b| - 1], b[|b| - 1];
      SnocSplit(a, b);
      SelectSnoc(a + init, last, c, v);
      SelectSnoc(init, last, c, v);
      SelectAppend(a, init, c, v);
      AppendAssociative(Select(a, c, v), Select(init, c, v), if Cell(last, c) == v then [last] else []);
    }
  }

  /** A value taken from the column selects at least one row. */
  lemma SelectPresentValue(rows: seq<Row>, c: TextColumn, v: string)
    requires v in Values(rows, c)
    ensures |Select(rows, c, v)| > 0
  {
    var i :| 0 <= i < |rows| && Values(rows, c)[i] == v;
    assert rows[i] in Select(rows, c, v);
  }

  function Sum(xs: seq<real>): real {
    if |xs| == 0 then 0.0 else Sum(xs[..|xs| - 1]) + xs[|xs| - 1]
  }

  /** `np.mean` / `Series.mean()` over a non-empty sequence; 0 for none (never read there). */
  function Mean(xs: seq<real>): real {
    if |xs| == 0 then 0.0 else Sum(xs) / |xs| as real
  }

  lemma {:induction false} SumBounds(xs: seq<real>, lo: real, hi: real)
    requires forall i :: 0 <= i < |xs| ==> lo <= xs[i] <= hi
    ensures lo * |xs| as real <= Sum(xs) <= hi * |xs| as real
  {
    if |xs| > 0 {
      SumBounds(xs[..|xs| - 1], lo, hi);
    }
  }

  /** A mean lies between any lower and upper bound of its values. */
  lemma MeanBounds(xs: seq<real>, lo: real, hi: real)
    requires |xs| > 0
    requires forall i :: 0 <= i < |xs| ==> lo <= xs[i] <= hi
    ensures lo <= Mean(xs) <= hi
  {
    SumBounds(xs, lo, hi);
    var n := |xs| as real;
    assert Mean(xs) * n == Sum(xs);
  }

  function MarksOf(rows: seq<Row>): (ms: seq<real>)
    ensures |ms| == |rows| && forall i :: 0 <= i < |rows| ==> ms[i] == rows[i].marks
  {
    seq(|rows|, i requires 0 <= i < |rows| => rows[i].marks)
  }

  function CreditsOf(rows: seq<Row>): (cs: seq<real>)
    ensures |cs| == |rows| && forall i :: 0 <= i < |rows| ==> cs[i] == rows[i].creditHours
  {
    seq(|rows|, i requires 0 <= i < |rows| => rows[i].creditHours)
  }

  /** The number of values at or above a threshold. */
  function CountAtLeast(xs: seq<real>, threshold: real): (n: nat)
    ensures n <= |xs|
  {
    if |xs| == 0 then 0
    else CountAtLeast(xs[..|xs| - 1], threshold) + (if xs[|xs| - 1] >= threshold then 1 else 0)
  }

  /** `passing / total * 100 if total > 0 else 0` */
  function Percent(part: nat, total: nat): real {
    if total > 0 then part as real / total as real * 100.0 else 0.0
  }

  lemma PercentBounds(part: nat, total: nat)
    requires part <= total
    ensures 0.0 <= Percent(part, total) <= 100.0
  {
    if total > 0 {
      assert part as real / total as real <= 1.0;
    }
  }
}
