/** Grade conversion, the credit-weighted GPA and grade-scale management
    (src/grading.py). `Scale` is the value of a `GradeScale`'s four fields and
    carries the specification of its conversions; the class `GradeScale`
    holds those fields, and its methods are proved against `Scale`. */
module Grading {
  import opened Wrappers
  import opened Config
  import opened Tables

  /** A mark as `marks_to_grade` receives it: a number, or NaN / a value that is not a number. */
  datatype Mark = Number(value: real) | NotANumber

  /** The first range, in table order, that contains the mark; "F" when no range does
      or the mark is not a number. */
  function GradeOf(bs: seq<Boundary>, m: Mark): string
    decreases |bs|
  {
    match m
    case NotANumber => "F"
    case Number(x) =>
      if |bs| == 0 then "F"
      else if InRange(bs[0], x) then bs[0].grade
      else GradeOf(bs[1..], m)
  }

  /** `i` is the first range of `bs` that contains `x`. */
  predicate FirstMatch(bs: seq<Boundary>, x: real, i: int) {
    0 <= i < |bs| && InRange(bs[i], x) && forall j :: 0 <= j < i ==> !InRange(bs[j], x)
  }

  predicate NoMatch(bs: seq<Boundary>, x: real) {
    forall j :: 0 <= j < |bs| ==> !InRange(bs[j], x)
  }

  lemma {:induction false} GradeOfIsFirstMatch(bs: seq<Boundary>, x: real)
    ensures NoMatch(bs, x) ==> GradeOf(bs, Number(x)) == "F"
    ensures forall i :: FirstMatch(bs, x, i) ==> GradeOf(bs, Number(x)) == bs[i].grade
    ensures NoMatch(bs, x) || exists i :: FirstMatch(bs, x, i)
  {
    if |bs| > 0 && !InRange(bs[0], x) {
      GradeOfIsFirstMatch(bs[1..], x);
      forall i | FirstMatch(bs, x, i) ensures GradeOf(bs, Number(x)) == bs[i].grade {
        assert FirstMatch(bs[1..], x, i - 1);
      }
      if !NoMatch(bs[1..], x) {
        var i :| FirstMatch(bs[1..], x, i);
        assert FirstMatch(bs, x, i + 1);
      }
    } else if |bs| > 0 {
      assert FirstMatch(bs, x, 0);
    }
  }

  /** The points of grade `g` in `ms`, 0.0 when `g` is not a key. */
  function LookupPoints(ms: PointsTable, g: string): (p: real)
    ensures g !in PointGrades(ms) ==> p == 0.0
    ensures forall i :: 0 <= i < |ms| && ms[i].grade == g ==> p == ms[i].points
  {
    if |ms| == 0 then 0.0
    else if ms[0].grade == g then ms[0].points
    else LookupPoints(ms[1..], g)
  }

  /** `grade_to_points`: the mapped points of a non-empty known grade, 0.0 otherwise. */
  function PointsOf(ms: PointsTable, g: string): (p: real)
    ensures g == "" || g !in PointGrades(ms) ==> p == 0.0
    ensures g != "" ==> forall i :: 0 <= i < |ms| && ms[i].grade == g ==> p == ms[i].points
  {
    if g == "" then 0.0 else LookupPoints(ms, g)
  }

  /** The position of the range `GradeOf` picks: the first that contains the mark, `|bs|` for none. */
  function RankOf(bs: seq<Boundary>, x: real): (k: nat)
    ensures k <= |bs|
    ensures k < |bs| ==> GradeOf(bs, Number(x)) == bs[k].grade && FirstMatch(bs, x, k)
    ensures k == |bs| ==> GradeOf(bs, Number(x)) == "F" && NoMatch(bs, x)
    decreases |bs|
  {
    if |bs| == 0 then 0
    else if InRange(bs[0], x) then 0
    else
      var k := RankOf(bs[1..], x);
      assert k < |bs| - 1 ==> FirstMatch(bs, x, k + 1) by {
        if k < |bs| - 1 {
          assert FirstMatch(bs[1..], x, k);
        }
      }
      k + 1
  }

  /** The mark lies above every range of the table. */
  predicate AboveAll(bs: seq<Boundary>, x: real) {
    forall i :: 0 <= i < |bs| ==> bs[i].hi < x
  }

  /** The mark lies below every range of the table. */
  predicate BelowAll(bs: seq<Boundary>, x: real) {
    forall i :: 0 <= i < |bs| ==> x < bs[i].lo
  }

  /** The evidently intended reading of the boundary table: a mark above every range is
      an "F", as in the code; any other mark earns the first range, in table order, whose
      lower bound it reaches, so the ranges leave no gaps. */
  function ClosedGradeOf(bs: seq<Boundary>, m: Mark): string {
    match m
    case NotANumber => "F"
    case Number(x) => if AboveAll(bs, x) then "F" else ReachedGrade(bs, x)
  }

  /** The grade of the first range whose lower bound `x` reaches, "F" for none. */
  function ReachedGrade(bs: seq<Boundary>, x: real): string
    decreases |bs|
  {
    if |bs| == 0 then "F"
    else if bs[0].lo <= x then bs[0].grade
    else ReachedGrade(bs[1..], x)
  }

  /** The position of the first range whose lower bound `x` reaches, `|bs|` for none. */
  function ReachedRank(bs: seq<Boundary>, x: real): (k: nat)
    ensures k <= |bs|
    ensures k < |bs| ==> ReachedGrade(bs, x) == bs[k].grade && bs[k].lo <= x
    ensures k == |bs| ==> ReachedGrade(bs, x) == "F"
    ensures forall j :: 0 <= j < k ==> x < bs[j].lo
    decreases |bs|
  {
    if |bs| == 0 then 0
    else if bs[0].lo <= x then 0
    else
      var k := ReachedRank(bs[1..], x);
      assert forall j :: 1 <= j < k + 1 ==> bs[j] == bs[1..][j - 1];
      k + 1
  }

  /** The position of the range `ClosedGradeOf` picks, `|bs|` for none: none above the
      table, otherwise the first range whose lower bound the mark reaches. */
  function ClosedRankOf(bs: seq<Boundary>, x: real): (k: nat)
    ensures k <= |bs|
    ensures k < |bs| ==> ClosedGradeOf(bs, Number(x)) == bs[k].grade && bs[k].lo <= x && !AboveAll(bs, x)
    ensures k == |bs| ==> ClosedGradeOf(bs, Number(x)) == "F"
    ensures AboveAll(bs, x) ==> k == |bs|
    ensures !AboveAll(bs, x) ==> forall j :: 0 <= j < k ==> x < bs[j].lo
  {
    if AboveAll(bs, x) then |bs| else ReachedRank(bs, x)
  }

  lemma ReachedRankMonotone(bs: seq<Boundary>, x: real, y: real)
    requires x <= y
    ensures ReachedRank(bs, y) <= ReachedRank(bs, x)
  {
  }

  /** With the intended reading a higher mark never earns a range further down the table,
      unless it lies above the whole table, where it is an "F" as in the code. */
  lemma ClosedRankMonotone(bs: seq<Boundary>, x: real, y: real)
    requires x <= y
    ensures ClosedRankOf(bs, y) <= ClosedRankOf(bs, x) || AboveAll(bs, y)
  {
    if !AboveAll(bs, y) {
      var i :| 0 <= i < |bs| && y <= bs[i].hi;
      assert !AboveAll(bs, x);
      ReachedRankMonotone(bs, x, y);
    }
  }

  /** On a descending table the intended reading agrees with the code whenever the mark lies in a range. */
  lemma ClosedGradeAgreesInsideRanges(bs: seq<Boundary>, x: real)
    requires Descending(bs)
    requires !NoMatch(bs, x)
    ensures ClosedGradeOf(bs, Number(x)) == GradeOf(bs, Number(x))
  {
    var k := RankOf(bs, x);
    assert !AboveAll(bs, x) by { assert InRange(bs[k], x); }
    assert k == ReachedRank(bs, x);
  }

  /** On a descending table the two readings differ only in the gaps between ranges: they
      agree on every mark inside a range, above the table or below it. */
  lemma ClosedGradeAgreesOutsideGaps(bs: seq<Boundary>, x: real)
    requires Descending(bs)
    requires !NoMatch(bs, x) || AboveAll(bs, x) || BelowAll(bs, x)
    ensures ClosedGradeOf(bs, Number(x)) == GradeOf(bs, Number(x))
  {
    if !NoMatch(bs, x) {
      ClosedGradeAgreesInsideRanges(bs, x);
    } else {
      GradeOfIsFirstMatch(bs, x);
      if !AboveAll(bs, x) {
        assert ReachedRank(bs, x) == |bs|;
      }
    }
  }

  /** On both preset tables a mark below 0 or above 100 is an "F" in both readings. */
  lemma ClosedGradeAgreesOffScale(scaleType: string, x: real)
    requires x < 0.0 || 100.0 < x
    ensures ClosedGradeOf(GetGradeBoundaries(scaleType), Number(x)) == "F"
    ensures GradeOf(GetGradeBoundaries(scaleType), Number(x)) == "F"
  {
    var bs := GetGradeBoundaries(scaleType);
    PresetRangesWithinScale();
    FourPointBoundariesDescending();
    HundredPointBoundariesDescending();
    if x < 0.0 {
      assert BelowAll(bs, x);
    } else {
      assert AboveAll(bs, x);
    }
    ClosedGradeAgreesOutsideGaps(bs, x);
    GradeOfIsFirstMatch(bs, x);
  }

  /** So on both preset tables the two readings agree on every whole mark from 0 to 100. */
  lemma ClosedGradeAgreesOnWholeMarks(scaleType: string, m: int)
    requires 0 <= m <= 100
    ensures ClosedGradeOf(GetGradeBoundaries(scaleType), Number(m as real))
         == GradeOf(GetGradeBoundaries(scaleType), Number(m as real))
  {
    var bs := GetGradeBoundaries(scaleType);
    FourPointBoundariesDescending();
    HundredPointBoundariesDescending();
    FourPointBoundariesCoverIntegers();
    HundredPointBoundariesCoverIntegers();
    assert InExactlyOneRange(bs, m);
    ClosedGradeAgreesInsideRanges(bs, m as real);
  }

  /** As written, a mark between two ranges of the 4.0 table is an "F": 96 is an "A" but
      96.5 is an "F", a higher mark with a lower grade; the intended reading gives "A". */
  lemma FractionalMarkFallsInGap()
    ensures GradeOf(FOUR_POINT_BOUNDARIES, Number(96.0)) == "A"
    ensures GradeOf(FOUR_POINT_BOUNDARIES, Number(96.5)) == "F"
    ensures ClosedGradeOf(FOUR_POINT_BOUNDARIES, Number(96.5)) == "A"
  {
    var bs := FOUR_POINT_BOUNDARIES;
    assert FirstMatch(bs, 96.0, 1);
    assert NoMatch(bs, 96.5);
    GradeOfIsFirstMatch(bs, 96.0);
    GradeOfIsFirstMatch(bs, 96.5);
    assert !AboveAll(bs, 96.5) by { assert bs[0].hi == 100.0; }
    var k := ReachedRank(bs, 96.5);
    assert bs[0].lo == 97.0 && bs[1].lo == 93.0;
  }

  /** The value of a `GradeScale`: its four fields. */
  datatype Scale = Scale(
    scaleType: string,
    gradeMappings: PointsTable,
    gradeBoundaries: BoundaryTable,
    passingGrade: string)
  {
    function MarksToGrade(m: Mark): string {
      GradeOf(gradeBoundaries, m)
    }

    function GradeToPoints(g: string): real {
      PointsOf(gradeMappings, g)
    }

    function MarksToPoints(m: Mark): real {
      GradeToPoints(MarksToGrade(m))
    }

    /** `grade_to_points(passing_grade)`, the threshold the analytics compare GPAs with. */
    function PassingPoints(): real {
      GradeToPoints(passingGrade)
    }

    predicate IsPassingGrade(g: string) {
      if g == "" then false
      else if passingGrade in BoundaryGrades(gradeBoundaries) then GradeToPoints(g) >= PassingPoints()
      else g != "F"
    }

    /** Every points value lies in [lo, hi]; unknown grades score 0.0, so 0.0 must too. */
    predicate PointsWithin(lo: real, hi: real) {
      lo <= 0.0 <= hi && forall i :: 0 <= i < |gradeMappings| ==> lo <= gradeMappings[i].points <= hi
    }
  }

  lemma MarksToPointsWithin(s: Scale, m: Mark, lo: real, hi: real)
    requires s.PointsWithin(lo, hi)
    ensures lo <= s.MarksToPoints(m) <= hi
  {
    var g := s.MarksToGrade(m);
    if g != "" && g in PointGrades(s.gradeMappings) {
      var i :| 0 <= i < |s.gradeMappings| && PointGrades(s.gradeMappings)[i] == g;
    }
  }

  /** A preset scale as the constructor first builds it: the tables for the type, passing grade "D". */
  function Preset(scaleType: string): Scale {
    Scale(scaleType, GetGradeMapping(scaleType), GetGradeBoundaries(scaleType), "D")
  }

  /** A configuration dictionary: each of the keys the scale reads may be absent. */
  datatype ConfigDict = ConfigDict(
    scaleType: Option<string>,
    gradeMappings: Option<PointsTable>,
    gradeBoundaries: Option<BoundaryTable>,
    passingGrade: Option<string>)

  /** `_apply_custom_config`: each field present in the configuration replaces that field
      (the scale type is never taken from it). */
  function ApplyConfig(s: Scale, c: ConfigDict): (r: Scale)
    ensures r.scaleType == s.scaleType
    ensures r.gradeMappings == (if c.gradeMappings.Some? then c.gradeMappings.value else s.gradeMappings)
    ensures r.gradeBoundaries == (if c.gradeBoundaries.Some? then c.gradeBoundaries.value else s.gradeBoundaries)
    ensures r.passingGrade == (if c.passingGrade.Some? then c.passingGrade.value else s.passingGrade)
  {
    Scale(s.scaleType, c.gradeMappings.GetOr(s.gradeMappings),
          c.gradeBoundaries.GetOr(s.gradeBoundaries), c.passingGrade.GetOr(s.passingGrade))
  }

  /** The dictionary `export_config` writes. */
  function Export(s: Scale): ConfigDict {
    ConfigDict(Some(s.scaleType), Some(s.gradeMappings), Some(s.gradeBoundaries), Some(s.passingGrade))
  }

  /** The scale `from_yaml` builds from a loaded dictionary. */
  function FromConfig(c: ConfigDict): Scale {
    ApplyConfig(Preset(c.scaleType.GetOr("4.0")), c)
  }

  /** Loading an exported configuration restores all four fields. */
  lemma ExportRoundTrip(s: Scale)
    ensures FromConfig(Export(s)) == s
  {
  }

  /** A configuration with none of the keys leaves the preset as it is. */
  lemma EmptyConfigKeepsPreset(scaleType: string)
    ensures ApplyConfig(Preset(scaleType), ConfigDict(None, None, None, None)) == Preset(scaleType)
  {
  }

  class GradeScale {
    var scaleType: string
    var gradeMappings: PointsTable
    var gradeBoundaries: BoundaryTable
    var passingGrade: string

    function View(): Scale
      reads this
    {
      Scale(scaleType, gradeMappings, gradeBoundaries, passingGrade)
    }

    /** `GradeScale(scale_type, custom_config)`: the preset for the type, then the
        fields present in the configuration. */
    constructor (scaleType: string, customConfig: Option<ConfigDict>)
      ensures customConfig.None? ==> View() == Preset(scaleType)
      ensures customConfig.Some? ==> View() == ApplyConfig(Preset(scaleType), customConfig.value)
    {
      this.scaleType := scaleType;
      gradeMappings := GetGradeMapping(scaleType);
      gradeBoundaries := GetGradeBoundaries(scaleType);
      passingGrade := "D";
      new;
      if customConfig.Some? {
        ApplyCustomConfig(customConfig.value);
      }
    }

    method ApplyCustomConfig(config: ConfigDict)
      modifies this
      ensures View() == ApplyConfig(old(View()), config)
    {
      if config.gradeMappings.Some? {
        gradeMappings := config.gradeMappings.value;
      }
      if config.gradeBoundaries.Some? {
        gradeBoundaries := config.gradeBoundaries.value;
      }
      if config.passingGrade.Some? {
        passingGrade := config.passingGrade.value;
      }
    }

    /** `marks_to_grade`: the grade of the first range in table order that contains the
        mark; "F" for a mark that is not a number or lies in no range. */
    method MarksToGrade(marks: Mark) returns (grade: string)
      ensures grade == View().MarksToGrade(marks)
      ensures marks.NotANumber? ==> grade == "F"
      ensures marks.Number? ==>
        (NoMatch(gradeBoundaries, marks.value) && grade == "F")
        || exists i :: FirstMatch(gradeBoundaries, marks.value, i) && grade == gradeBoundaries[i].grade
    {
      if marks.NotANumber? {
        return "F";
      }
      var x := marks.value;
      var i := 0;
      while i < |gradeBoundaries|
        invariant 0 <= i <= |gradeBoundaries|
        invariant forall j :: 0 <= j < i ==> !InRange(gradeBoundaries[j], x)
        invariant GradeOf(gradeBoundaries, marks) == GradeOf(gradeBoundaries[i..], marks)
      {
        var b := gradeBoundaries[i];
        if b.lo <= x <= b.hi {
          assert FirstMatch(gradeBoundaries, x, i);
          return b.grade;
        }
        assert gradeBoundaries[i..][1..] == gradeBoundaries[i + 1..];
        i := i + 1;
      }
      return "F";
    }

    /** `grade_to_points`: the mapped points of a known grade; 0.0 for "" or an unknown grade. */
    method GradeToPoints(grade: string) returns (points: real)
      ensures points == View().GradeToPoints(grade)
      ensures grade == "" || grade !in PointGrades(gradeMappings) ==> points == 0.0
      ensures grade != "" ==>
        forall i :: 0 <= i < |gradeMappings| && gradeMappings[i].grade == grade ==> points == gradeMappings[i].points
    {
      if grade == "" || grade !in PointGrades(gradeMappings) {
        return 0.0;
      }
      points := LookupPoints(gradeMappings, grade);
    }

    /** `marks_to_points` is `grade_to_points` after `marks_to_grade`. */
    method MarksToPoints(marks: Mark) returns (points: real)
      ensures points == View().GradeToPoints(View().MarksToGrade(marks))
    {
      var grade := MarksToGrade(marks);
      points := GradeToPoints(grade);
    }

    /** `is_passing_grade`: false for ""; when the passing grade has a boundary, compares
        points with the passing grade's; otherwise any grade but "F" passes. */
    method IsPassingGrade(grade: string) returns (passing: bool)
      ensures passing == View().IsPassingGrade(grade)
      ensures grade == "" ==> !passing
      ensures grade != "" && passingGrade in BoundaryGrades(gradeBoundaries) ==>
        (passing <==> View().GradeToPoints(grade) >= View().GradeToPoints(passingGrade))
      ensures passingGrade !in BoundaryGrades(gradeBoundaries) ==> (passing <==> grade != "" && grade != "F")
    {
      if grade == "" {
        return false;
      }
      if passingGrade in BoundaryGrades(gradeBoundaries) {
        var gradePoints := GradeToPoints(grade);
        var passingPoints := GradeToPoints(passingGrade);
        return gradePoints >= passingPoints;
      }
      return grade != "F";
    }

    /** `get_grade_distribution`: how many marks fall on each grade; the counts add up
        to the number of marks. */
    method GetGradeDistribution(marks: seq<Mark>) returns (distribution: multiset<string>)
      ensures distribution == multiset(GradesOf(View(), marks))
      ensures |distribution| == |marks|
    {
      distribution := multiset{};
      for i := 0 to |marks|
        invariant distribution == multiset(GradesOf(View(), marks[..i]))
      {
        var grade := MarksToGrade(marks[i]);
        assert GradesOf(View(), marks[..i + 1]) == GradesOf(View(), marks[..i]) + [grade];
        distribution := distribution + multiset{grade};
      }
      assert marks[..|marks|] == marks;
    }

    /** `export_config`, without the file: the four fields as a configuration. */
    function ExportConfig(): (config: ConfigDict)
      reads this
      ensures FromConfig(config) == View()
    {
      Export(View())
    }

    /** `from_yaml`, without the file: a scale of the configured type, then the configured fields. */
    static method FromYaml(config: ConfigDict) returns (scale: GradeScale)
      ensures fresh(scale)
      ensures scale.View() == FromConfig(config)
    {
      scale := new GradeScale(config.scaleType.GetOr("4.0"), Some(config));
    }
  }

  function GradesOf(s: Scale, marks: seq<Mark>): (grades: seq<string>)
    ensures |grades| == |marks| && forall i :: 0 <= i < |marks| ==> grades[i] == s.MarksToGrade(marks[i])
  {
    seq(|marks|, i requires 0 <= i < |marks| => s.MarksToGrade(marks[i]))
  }

  /** Reloading an exported scale gives a new scale with the same four fields. */
  method ReloadExported(scale: GradeScale) returns (copy: GradeScale)
    ensures fresh(copy)
    ensures copy.View() == scale.View()
  {
    copy := GradeScale.FromYaml(scale.ExportConfig());
  }

  /** `create_custom_grade_scale`: a "custom" scale with exactly the given tables and
      passing grade (the scale name is not stored). */
  method CreateCustomGradeScale(scaleName: string, gradeMappings: PointsTable,
                                gradeBoundaries: BoundaryTable, passingGrade: string)
    returns (scale: GradeScale)
    ensures fresh(scale)
    ensures scale.View() == Scale("custom", gradeMappings, gradeBoundaries, passingGrade)
  {
    var config := ConfigDict(None, Some(gradeMappings), Some(gradeBoundaries), Some(passingGrade));
    scale := new GradeScale("custom", Some(config));
  }

  // ---------------------------------------------------------------------------
  // The credit-weighted GPA

  /** A course as the GPA sees it: its mark and its credit hours. */
  datatype Course = Course(mark: Mark, credits: real)

  /** What one course adds to the weighted points: points × credits, when its credits are positive. */
  function Contribution(s: Scale, c: Course): real {
    if c.credits > 0.0 then s.MarksToPoints(c.mark) * c.credits else 0.0
  }

  function WeightedPoints(s: Scale, cs: seq<Course>): real {
    if |cs| == 0 then 0.0 else WeightedPoints(s, cs[..|cs| - 1]) + Contribution(s, cs[|cs| - 1])
  }

  /** The credits of the courses with positive credits. */
  function CountedCredits(cs: seq<Course>): real {
    if |cs| == 0 then 0.0
    else CountedCredits(cs[..|cs| - 1]) + (if cs[|cs| - 1].credits > 0.0 then cs[|cs| - 1].credits else 0.0)
  }

  /** The GPA of a student's courses: weighted points over counted credits, 0.0 when no
      course has positive credits (rounding to 3 places is not modelled). */
  function Gpa(s: Scale, cs: seq<Course>): real {
    var credits := CountedCredits(cs);
    if credits == 0.0 then 0.0 else WeightedPoints(s, cs) / credits
  }

  /** The counted credits are never negative, and are zero exactly when no course has positive credits. */
  lemma {:induction false} CountedCreditsZero(cs: seq<Course>)
    ensures CountedCredits(cs) >= 0.0
    ensures CountedCredits(cs) == 0.0 <==> forall i :: 0 <= i < |cs| ==> cs[i].credits <= 0.0
  {
    if |cs| > 0 {
      var init := cs[..|cs| - 1];
      CountedCreditsZero(init);
      assert forall i :: 0 <= i < |init| ==> init[i] == cs[i];
    }
  }

  lemma ScaleBetween(lo: real, p: real, hi: real, c: real)
    requires c > 0.0 && lo <= p <= hi
    ensures lo * c <= p * c <= hi * c
  {
  }

  lemma StepBetween(lo: real, hi: real, w: real, c: real, p: real, x: real, w': real, c': real)
    requires WeightedWithin(lo, hi, w, c)
    requires x > 0.0 && lo <= p <= hi
    requires w' == w + p * x && c' == c + x
    ensures WeightedWithin(lo, hi, w', c')
  {
    ScaleBetween(lo, p, hi, x);
    assert lo * (c + x) == lo * c + lo * x;
    assert hi * (c + x) == hi * c + hi * x;
  }

  lemma DivideCancels(p: real, x: real)
    requires x > 0.0
    ensures (0.0 + p * x) / (0.0 + x) == p
  {
  }

  lemma DivideBetween(lo: real, w: real, hi: real, c: real)
    requires c > 0.0 && WeightedWithin(lo, hi, w, c)
    ensures lo <= w / c <= hi
  {
    var q := w / c;
    assert q * c == w;
    if q < lo {
      ScaleBetween(q, q, lo, c);
    }
    if q > hi {
      ScaleBetween(hi, hi, q, c);
    }
  }

  /** The definitions of `WeightedPoints` and `CountedCredits` one course at a time. */
  lemma PeelLastCourse(s: Scale, cs: seq<Course>)
    requires |cs| > 0
    ensures var init, c := cs[..|cs| - 1], cs[|cs| - 1];
      && WeightedPoints(s, cs) == WeightedPoints(s, init) + (if c.credits > 0.0 then s.MarksToPoints(c.mark) * c.credits else 0.0)
      && CountedCredits(cs) == CountedCredits(init) + (if c.credits > 0.0 then c.credits else 0.0)
  {
  }

  /** `w` is a weighted sum of values in [lo, hi] with total weight `c`. */
  predicate WeightedWithin(lo: real, hi: real, w: real, c: real) {
    lo * c <= w <= hi * c
  }

  lemma {:induction false} WeightedPointsBetween(s: Scale, cs: seq<Course>, lo: real, hi: real)
    requires s.PointsWithin(lo, hi)
    ensures WeightedWithin(lo, hi, WeightedPoints(s, cs), CountedCredits(cs))
  {
    if |cs| > 0 {
      var init, c := cs[..|cs| - 1], cs[|cs| - 1];
      WeightedPointsBetween(s, init, lo, hi);
      PeelLastCourse(s, cs);
      if c.credits > 0.0 {
        MarksToPointsWithin(s, c.mark, lo, hi);
        StepBetween(lo, hi, WeightedPoints(s, init), CountedCredits(init), s.MarksToPoints(c.mark), c.credits,
                    WeightedPoints(s, cs), CountedCredits(cs));
      } else {
        assert WeightedPoints(s, cs) == WeightedPoints(s, init) && CountedCredits(cs) == CountedCredits(init);
      }
    }
  }

  /** A GPA lies within any bounds of the scale's points. */
  lemma GpaWithin(s: Scale, cs: seq<Course>, lo: real, hi: real)
    requires s.PointsWithin(lo, hi)
    ensures lo <= Gpa(s, cs) <= hi
  {
    WeightedPointsBetween(s, cs, lo, hi);
    CountedCreditsZero(cs);
    if CountedCredits(cs) != 0.0 {
      DivideBetween(lo, WeightedPoints(s, cs), hi, CountedCredits(cs));
    }
  }

  /** On the preset 4.0 scale every GPA lies in [MIN_GPA, MAX_GPA]. */
  lemma FourPointGpaBounded(scaleType: string, cs: seq<Course>)
    requires scaleType != "100"
    ensures MIN_GPA <= Gpa(Preset(scaleType), cs) <= MAX_GPA
  {
    FourPointValuesBounded();
    GpaWithin(Preset(scaleType), cs, MIN_GPA, MAX_GPA);
  }

  /** Without a course of positive credits the GPA is 0.0. */
  lemma GpaWithoutCreditsIsZero(s: Scale, cs: seq<Course>)
    requires forall i :: 0 <= i < |cs| ==> cs[i].credits <= 0.0
    ensures Gpa(s, cs) == 0.0
  {
    CountedCreditsZero(cs);
  }

  /** One credited course: the GPA is that course's points. */
  lemma GpaOfSingleCourse(s: Scale, c: Course)
    requires c.credits > 0.0
    ensures Gpa(s, [c]) == s.MarksToPoints(c.mark)
  {
    assert [c][..0] == [];
    var p := s.MarksToPoints(c.mark);
    assert WeightedPoints(s, [c]) == 0.0 + p * c.credits;
    assert CountedCredits([c]) == 0.0 + c.credits;
    DivideCancels(p, c.credits);
  }

  /** A course without positive credits does not change the GPA. */
  lemma GpaIgnoresUncredited(s: Scale, cs: seq<Course>, c: Course)
    requires c.credits <= 0.0
    ensures Gpa(s, cs + [c]) == Gpa(s, cs)
  {
    assert (cs + [c])[..|cs|] == cs;
  }

  /** A course record: `Marks` and `CreditHours` may be missing from the dictionary. */
  datatype CourseRecord = CourseRecord(marks: Option<Mark>, creditHours: Option<real>)

  /** `record.get(..., 0)`: a missing value reads as 0. */
  function CourseOf(r: CourseRecord): Course {
    Course(r.marks.GetOr(Number(0.0)), r.creditHours.GetOr(0.0))
  }

  function CoursesOf(rs: seq<CourseRecord>): (cs: seq<Course>)
    ensures |cs| == |rs| && forall i :: 0 <= i < |rs| ==> cs[i] == CourseOf(rs[i])
  {
    seq(|rs|, i requires 0 <= i < |rs| => CourseOf(rs[i]))
  }

  lemma CoursesOfAppend(rs: seq<CourseRecord>, i: nat)
    requires i < |rs|
    ensures CoursesOf(rs[..i + 1]) == CoursesOf(rs[..i]) + [CourseOf(rs[i])]
  {
    assert CoursesOf(rs[..i + 1])[..i] == CoursesOf(rs[..i]);
  }

  /** `WeightedPoints` and `CountedCredits` after one more course record. */
  lemma AccumulateRecord(s: Scale, rs: seq<CourseRecord>, i: nat)
    requires i < |rs|
    ensures var c := CourseOf(rs[i]);
      && WeightedPoints(s, CoursesOf(rs[..i + 1]))
         == WeightedPoints(s, CoursesOf(rs[..i])) + (if c.credits > 0.0 then s.MarksToPoints(c.mark) * c.credits else 0.0)
      && CountedCredits(CoursesOf(rs[..i + 1]))
         == CountedCredits(CoursesOf(rs[..i])) + (if c.credits > 0.0 then c.credits else 0.0)
  {
    CoursesOfAppend(rs, i);
    PeelLastCourse(s, CoursesOf(rs[..i + 1]));
  }

  /** `compute_student_gpa`: accumulates points × credits and credits over the records with
      positive credits; 0.0 when there are none. */
  method ComputeStudentGpa(studentRecords: seq<CourseRecord>, scale: GradeScale) returns (gpa: real)
    ensures gpa == Gpa(scale.View(), CoursesOf(studentRecords))
  {
    ghost var view := scale.View();
    if |studentRecords| == 0 {
      return 0.0;
    }
    var totalPoints := 0.0;
    var totalCredits := 0.0;
    for i := 0 to |studentRecords|
      invariant totalPoints == WeightedPoints(view, CoursesOf(studentRecords[..i]))
      invariant totalCredits == CountedCredits(CoursesOf(studentRecords[..i]))
    {
      var marks := studentRecords[i].marks.GetOr(Number(0.0));
      var credits := studentRecords[i].creditHours.GetOr(0.0);
      AccumulateRecord(view, studentRecords, i);
      if credits > 0.0 {
        var points := scale.MarksToPoints(marks);
        totalPoints := totalPoints + points * credits;
        totalCredits := totalCredits + credits;
      }
    }
    assert studentRecords[..|studentRecords|] == studentRecords;
    if totalCredits == 0.0 {
      return 0.0;
    }
    gpa := totalPoints / totalCredits;
  }

  // ---------------------------------------------------------------------------
  // compute_gpa over a table

  function RowCourse(r: Row): Course {
    Course(Number(r.marks), r.creditHours)
  }

  function RowCourses(rows: seq<Row>): (cs: seq<Course>)
    ensures |cs| == |rows| && forall i :: 0 <= i < |rows| ==> cs[i] == RowCourse(rows[i])
  {
    seq(|rows|, i requires 0 <= i < |rows| => RowCourse(rows[i]))
  }

  /** `np.average`'s numerator: points × credits over every course. */
  function AllWeightedPoints(s: Scale, cs: seq<Course>): real {
    if |cs| == 0 then 0.0
    else AllWeightedPoints(s, cs[..|cs| - 1]) + s.MarksToPoints(cs[|cs| - 1].mark) * cs[|cs| - 1].credits
  }

  /** `np.average`'s denominator: the sum of all credits. */
  function AllCredits(cs: seq<Course>): real {
    if |cs| == 0 then 0.0 else AllCredits(cs[..|cs| - 1]) + cs[|cs| - 1].credits
  }

  /** With no negative credits, the table-wide average and the per-student GPA sum the same terms. */
  lemma {:induction false} AllTermsAgree(s: Scale, cs: seq<Course>)
    requires forall i :: 0 <= i < |cs| ==> cs[i].credits >= 0.0
    ensures AllWeightedPoints(s, cs) == WeightedPoints(s, cs)
    ensures AllCredits(cs) == CountedCredits(cs)
  {
    if |cs| > 0 {
      AllTermsAgree(s, cs[..|cs| - 1]);
    }
  }

  datatype GpaError = MissingColumns(columns: seq<string>) | WeightsSumToZero

  /** The required columns of `compute_gpa` that the table lacks, in the order it checks them. */
  function MissingGpaColumns(columns: set<string>): (missing: seq<string>)
    ensures forall c :: c in missing <==> c in [ColumnName(StudentId), MARKS, CREDIT_HOURS] && c !in columns
  {
    (if ColumnName(StudentId) in columns then [] else [ColumnName(StudentId)])
    + (if MARKS in columns then [] else [MARKS])
    + (if CREDIT_HOURS in columns then [] else [CREDIT_HOURS])
  }

  /** The rows of one student, as courses. */
  function StudentCourses(rows: seq<Row>, id: string): seq<Course> {
    RowCourses(Select(rows, StudentId, id))
  }

  /** `compute_gpa`: for each student the credit-weighted average of the points of all their
      rows; an error when a required column is absent or a student's credits sum to zero. */
  function ComputeGpa(t: Table, s: Scale): Result<map<string, real>, GpaError> {
    var missing := MissingGpaColumns(t.columns);
    if missing != [] then Err(MissingColumns(missing))
    else
      var ids := Values(t.rows, StudentId);
      if exists id :: id in ids && AllCredits(StudentCourses(t.rows, id)) == 0.0 then Err(WeightsSumToZero)
      else Ok(map id | id in ids :: AllWeightedPoints(s, StudentCourses(t.rows, id)) / AllCredits(StudentCourses(t.rows, id)))
  }

  /** `compute_gpa` fails on a missing column exactly when one of the three is absent, and
      otherwise has one entry per student, which with non-negative credits is that student's `Gpa`. */
  lemma ComputeGpaAgreesWithGpa(t: Table, s: Scale)
    requires forall i :: 0 <= i < |t.rows| ==> t.rows[i].creditHours >= 0.0
    ensures ComputeGpa(t, s).Err? && ComputeGpa(t, s).error.MissingColumns? <==>
      !({ColumnName(StudentId), MARKS, CREDIT_HOURS} <= t.columns)
    ensures ComputeGpa(t, s).Ok? ==>
      && (forall id :: id in ComputeGpa(t, s).value <==> id in Values(t.rows, StudentId))
      && (forall id :: id in ComputeGpa(t, s).value ==>
            ComputeGpa(t, s).value[id] == Gpa(s, StudentCourses(t.rows, id)))
  {
    var missing := MissingGpaColumns(t.columns);
    if !({ColumnName(StudentId), MARKS, CREDIT_HOURS} <= t.columns) {
      var c :| c in {ColumnName(StudentId), MARKS, CREDIT_HOURS} && c !in t.columns;
      assert c in missing;
    }
    if ComputeGpa(t, s).Ok? {
      forall id | id in ComputeGpa(t, s).value
        ensures ComputeGpa(t, s).value[id] == Gpa(s, StudentCourses(t.rows, id))
      {
        var cs := StudentCourses(t.rows, id);
        forall i | 0 <= i < |cs| ensures cs[i].credits >= 0.0 {
          var sel := Select(t.rows, StudentId, id);
          assert sel[i] in sel;
        }
        AllTermsAgree(s, cs);
      }
    }
  }

  // ---------------------------------------------------------------------------
  // get_grade_statistics

  /** The number of grades the scale counts as passing. */
  function PassingCount(s: Scale, grades: seq<string>): (n: nat)
    ensures n <= |grades|
  {
    if |grades| == 0 then 0
    else PassingCount(s, grades[..|grades| - 1]) + (if s.IsPassingGrade(grades[|grades| - 1]) then 1 else 0)
  }

  function RowPoints(s: Scale, rows: seq<Row>): (ps: seq<real>)
    ensures |ps| == |rows| && forall i :: 0 <= i < |rows| ==> ps[i] == s.MarksToPoints(Number(rows[i].marks))
  {
    seq(|rows|, i requires 0 <= i < |rows| => s.MarksToPoints(Number(rows[i].marks)))
  }

  function RowMarks(rows: seq<Row>): (ms: seq<Mark>)
    ensures |ms| == |rows| && forall i :: 0 <= i < |rows| ==> ms[i] == Number(rows[i].marks)
  {
    seq(|rows|, i requires 0 <= i < |rows| => Number(rows[i].marks))
  }

  datatype DepartmentGradeStats = DepartmentGradeStats(totalStudents: nat, averagePoints: real, passRate: real)

  datatype GradeStatistics = GradeStatistics(
    gradeDistribution: multiset<string>,
    passRate: real,
    passingCount: nat,
    failingCount: int,
    departmentStatistics: map<string, DepartmentGradeStats>,
    totalRecords: nat)

  /** One department's row of the statistics: distinct students, mean points, and the share of
      rows whose points reach the passing grade's points. */
  function DepartmentStats(s: Scale, rows: seq<Row>): DepartmentGradeStats {
    var points := RowPoints(s, rows);
    DepartmentGradeStats(|Unique(Values(rows, StudentId))|, Mean(points),
                         Percent(CountAtLeast(points, s.PassingPoints()), |rows|))
  }

  /** `get_grade_statistics` (the mean, median, spread and range of the points are not modelled):
      fails without `Marks`, and without `StudentID` when departments are to be summarised. */
  function GetGradeStatistics(t: Table, s: Scale): Result<GradeStatistics, ColumnError> {
    if MARKS !in t.columns then Err(MissingColumn(MARKS))
    else if ColumnName(Department) in t.columns && |t.rows| > 0 && ColumnName(StudentId) !in t.columns then
      Err(MissingColumn(ColumnName(StudentId)))
    else
      var grades := GradesOf(s, RowMarks(t.rows));
      var passing := PassingCount(s, grades);
      var total := |t.rows|;
      var depts := if ColumnName(Department) in t.columns then Values(t.rows, Department) else [];
      Ok(GradeStatistics(
        multiset(grades), Percent(passing, total), passing, total - passing,
        map d | d in depts :: DepartmentStats(s, Select(t.rows, Department, d)),
        total))
  }

  /** Passing and failing counts add up to the records, the distribution counts every record,
      the rates are percentages, and each department with rows has between one and that many students. */
  lemma GradeStatisticsConsistent(t: Table, s: Scale)
    requires GetGradeStatistics(t, s).Ok?
    ensures var st := GetGradeStatistics(t, s).value;
      && st.totalRecords == |t.rows|
      && |st.gradeDistribution| == st.totalRecords
      && 0 <= st.failingCount
      && st.passingCount + st.failingCount == st.totalRecords
      && 0.0 <= st.passRate <= 100.0
      && (forall d :: d in st.departmentStatistics <==> ColumnName(Department) in t.columns && d in Values(t.rows, Department))
      && (forall d :: d in st.departmentStatistics ==>
            && 0.0 <= st.departmentStatistics[d].passRate <= 100.0
            && 1 <= st.departmentStatistics[d].totalStudents <= |Select(t.rows, Department, d)|)
  {
    var st := GetGradeStatistics(t, s).value;
    PercentBounds(st.passingCount, |t.rows|);
    forall d | d in st.departmentStatistics
      ensures 0.0 <= st.departmentStatistics[d].passRate <= 100.0
      ensures 1 <= st.departmentStatistics[d].totalStudents <= |Select(t.rows, Department, d)|
    {
      var rows := Select(t.rows, Department, d);
      SelectPresentValue(t.rows, Department, d);
      PercentBounds(CountAtLeast(RowPoints(s, rows), s.PassingPoints()), |rows|);
      var ids := Values(rows, StudentId);
      assert ids[0] in Unique(ids);
    }
  }

  // ---------------------------------------------------------------------------
  // validate_grade_scale

  function BoundaryMessage(g: string): string {
    "Grade '" + g + "' in boundaries but not in mappings"
  }

  function MappingMessage(g: string): string {
    "Grade '" + g + "' in mappings but not in boundaries"
  }

  const OVERLAP_MESSAGE: string := "Overlapping grade boundaries detected"

  function PassingMessage(g: string): string {
    "Passing grade '" + g + "' not found in mappings"
  }

  /** One message per boundary grade, in order, that has no mapping. */
  function UnmappedBoundaryErrors(bs: seq<Boundary>, ms: PointsTable): seq<string> {
    if |bs| == 0 then []
    else
      var g := bs[|bs| - 1].grade;
      UnmappedBoundaryErrors(bs[..|bs| - 1], ms) + (if g in PointGrades(ms) then [] else [BoundaryMessage(g)])
  }

  /** One message per mapped grade, in order, that has no boundary. */
  function UnboundedMappingErrors(ms: seq<GradePoints>, bs: BoundaryTable): seq<string> {
    if |ms| == 0 then []
    else
      var g := ms[|ms| - 1].grade;
      UnboundedMappingErrors(ms[..|ms| - 1], bs) + (if g in BoundaryGrades(bs) then [] else [MappingMessage(g)])
  }

  /** Range `i` shares a mark with some other range. */
  predicate OverlapsAnother(bs: seq<Boundary>, i: int)
    requires 0 <= i < |bs|
  {
    exists j :: 0 <= j < |bs| && i != j && Intersect(bs[i], bs[j])
  }

  /** One overlap message for each of the first `n` ranges that overlaps another. */
  function OverlapErrors(bs: seq<Boundary>, n: nat): seq<string>
    requires n <= |bs|
  {
    if n == 0 then [] else OverlapErrors(bs, n - 1) + (if OverlapsAnother(bs, n - 1) then [OVERLAP_MESSAGE] else [])
  }

  /** The messages of `validate_grade_scale`, in the order it produces them. */
  function ValidationErrors(s: Scale): seq<string> {
    UnmappedBoundaryErrors(s.gradeBoundaries, s.gradeMappings)
    + UnboundedMappingErrors(s.gradeMappings, s.gradeBoundaries)
    + OverlapErrors(s.gradeBoundaries, |s.gradeBoundaries|)
    + (if s.passingGrade in PointGrades(s.gradeMappings) then [] else [PassingMessage(s.passingGrade)])
  }

  /** A scale `validate_grade_scale` accepts: the two tables have the same grades, no two
      ranges share a mark, and the passing grade has points. */
  predicate WellFormed(s: Scale) {
    && (forall i :: 0 <= i < |s.gradeBoundaries| ==> s.gradeBoundaries[i].grade in PointGrades(s.gradeMappings))
    && (forall i :: 0 <= i < |s.gradeMappings| ==> s.gradeMappings[i].grade in BoundaryGrades(s.gradeBoundaries))
    && PairwiseDisjoint(s.gradeBoundaries)
    && s.passingGrade in PointGrades(s.gradeMappings)
  }

  lemma {:induction false} UnmappedBoundaryErrorsEmpty(bs: seq<Boundary>, ms: PointsTable)
    ensures UnmappedBoundaryErrors(bs, ms) == [] <==> forall i :: 0 <= i < |bs| ==> bs[i].grade in PointGrades(ms)
  {
    if |bs| > 0 {
      var init := bs[..|bs| - 1];
      UnmappedBoundaryErrorsEmpty(init, ms);
      assert forall i :: 0 <= i < |init| ==> init[i] == bs[i];
    }
  }

  lemma {:induction false} UnboundedMappingErrorsEmpty(ms: seq<GradePoints>, bs: BoundaryTable)
    ensures UnboundedMappingErrors(ms, bs) == [] <==> forall i :: 0 <= i < |ms| ==> ms[i].grade in BoundaryGrades(bs)
  {
    if |ms| > 0 {
      var init := ms[..|ms| - 1];
      UnboundedMappingErrorsEmpty(init, bs);
      assert forall i :: 0 <= i < |init| ==> init[i] == ms[i];
    }
  }

  lemma {:induction false} OverlapErrorsEmpty(bs: seq<Boundary>, n: nat)
    requires n <= |bs|
    ensures OverlapErrors(bs, n) == [] <==> forall i :: 0 <= i < n ==> !OverlapsAnother(bs, i)
  {
    if n > 0 {
      OverlapErrorsEmpty(bs, n - 1);
    }
  }

  /** `validate_grade_scale` returns no message exactly for a well-formed scale. */
  lemma ValidationErrorsEmptyIffWellFormed(s: Scale)
    ensures ValidationErrors(s) == [] <==> WellFormed(s)
  {
    var bs := s.gradeBoundaries;
    UnmappedBoundaryErrorsEmpty(bs, s.gradeMappings);
    UnboundedMappingErrorsEmpty(s.gradeMappings, bs);
    OverlapErrorsEmpty(bs, |bs|);
    if PairwiseDisjoint(bs) {
      forall i | 0 <= i < |bs| ensures !OverlapsAnother(bs, i) {
      }
    }
    if forall i :: 0 <= i < |bs| ==> !OverlapsAnother(bs, i) {
      forall i, j | 0 <= i < |bs| && 0 <= j < |bs| && i != j ensures !Intersect(bs[i], bs[j]) {
        assert !OverlapsAnother(bs, i);
      }
    }
  }

  /** Both preset scales pass validation. */
  lemma PresetScalesValid(scaleType: string)
    ensures ValidationErrors(Preset(scaleType)) == []
  {
    FourPointBoundariesDescending();
    HundredPointBoundariesDescending();
    PresetKeysAgree();
    ValidationErrorsEmptyIffWellFormed(Preset(scaleType));
  }

  /** The first check of `validate_grade_scale`: boundary grades without points. */
  method CheckBoundaryGrades(bs: BoundaryTable, ms: PointsTable) returns (errors: seq<string>)
    ensures errors == UnmappedBoundaryErrors(bs, ms)
  {
    errors := [];
    for k := 0 to |bs|
      invariant errors == UnmappedBoundaryErrors(bs[..k], ms)
    {
      if bs[k].grade !in PointGrades(ms) {
        errors := errors + [BoundaryMessage(bs[k].grade)];
      }
      assert bs[..k + 1][..k] == bs[..k];
    }
    assert bs[..|bs|] == bs;
  }

  /** The second check of `validate_grade_scale`: mapped grades without a range. */
  method CheckMappedGrades(ms: PointsTable, bs: BoundaryTable) returns (errors: seq<string>)
    ensures errors == UnboundedMappingErrors(ms, bs)
  {
    errors := [];
    for k := 0 to |ms|
      invariant errors == UnboundedMappingErrors(ms[..k], bs)
    {
      if ms[k].grade !in BoundaryGrades(bs) {
        errors := errors + [MappingMessage(ms[k].grade)];
      }
      assert ms[..k + 1][..k] == ms[..k];
    }
    assert ms[..|ms|] == ms;
  }

  /** The inner loop of the overlap check: does range `i` share a mark with another range? */
  method RangeOverlaps(bs: seq<Boundary>, i: nat) returns (overlaps: bool)
    requires i < |bs|
    ensures overlaps == OverlapsAnother(bs, i)
  {
    var j := 0;
    while j < |bs|
      invariant 0 <= j <= |bs|
      invariant forall j' :: 0 <= j' < j ==> !(i != j' && Intersect(bs[i], bs[j']))
    {
      if i != j && !(bs[i].hi < bs[j].lo || bs[j].hi < bs[i].lo) {
        return true;
      }
      j := j + 1;
    }
    return false;
  }

  /** `validate_grade_scale`: the unmapped boundary grades, the unbounded mapped grades, one
      message per range overlapping another, and a missing passing grade, in that order. */
  method ValidateGradeScale(scale: GradeScale) returns (errors: seq<string>)
    ensures errors == ValidationErrors(scale.View())
  {
    var bs := scale.gradeBoundaries;
    var ms := scale.gradeMappings;
    var unmapped := CheckBoundaryGrades(bs, ms);
    var unbounded := CheckMappedGrades(ms, bs);
    errors := unmapped + unbounded;
    ghost var prefix := errors;
    for i := 0 to |bs|
      invariant errors == prefix + OverlapErrors(bs, i)
    {
      var overlaps := RangeOverlaps(bs, i);
      if overlaps {
        errors := errors + [OVERLAP_MESSAGE];
      }
    }
    if scale.passingGrade !in PointGrades(ms) {
      errors := errors + [PassingMessage(scale.passingGrade)];
    }
  }
}
