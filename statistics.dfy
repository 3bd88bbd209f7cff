/** The statistics handler of app.py: roster size, average, highest and
    lowest stored percentage, and the grade histogram. */
module Statistics {
  import opened Sequences
  import opened Students

  /** The reply of statistics. Percentages are in hundredths of a percent, as
      in Combined; the average is the exact mean of the stored percentages. */
  datatype Stats = Stats(
    totalStudents: nat,
    averagePercentage: real,
    highestPercentage: int,
    lowestPercentage: int,
    gradesDistribution: map<char, nat>)

  function RecordPercentage(c: Combined): int { c.percentage }

  function RecordGrade(c: Combined): char { c.grade }

  /** `[s['percentage'] for s in combined_data]`. */
  function Percentages(cs: seq<Combined>): (ps: seq<int>)
    ensures |ps| == |cs|
    ensures forall i :: 0 <= i < |cs| ==> ps[i] == cs[i].percentage
  {
    MapSeq(RecordPercentage, cs)
  }

  /** `sum(xs)`. */
  function Sum(xs: seq<int>): int {
    if xs == [] then 0 else xs[0] + Sum(xs[1..])
  }

  /** `max(xs)`: an element no other element exceeds. */
  function Maximum(xs: seq<int>): (m: int)
    requires |xs| > 0
    ensures m in xs
    ensures forall x :: x in xs ==> x <= m
  {
    if |xs| == 1 then xs[0]
    else
      var rest := Maximum(xs[1..]);
      assert forall x :: x in xs ==> x == xs[0] || x in xs[1..];
      if xs[0] >= rest then xs[0] else rest
  }

  /** `min(xs)`: an element that exceeds no other element. */
  function Minimum(xs: seq<int>): (m: int)
    requires |xs| > 0
    ensures m in xs
    ensures forall x :: x in xs ==> m <= x
  {
    if |xs| == 1 then xs[0]
    else
      var rest := Minimum(xs[1..]);
      assert forall x :: x in xs ==> x == xs[0] || x in xs[1..];
      if xs[0] <= rest then xs[0] else rest
  }

  /** One multiplication step, kept apart so that the solver meets it
      outside the context of the induction. */
  lemma Distribute(n: int, x: int)
    ensures (n + 1) * x == n * x + x
  {
  }

  /** Bounds on the elements bound the sum. */
  lemma {:induction false} SumBounds(xs: seq<int>, lo: int, hi: int)
    requires forall x :: x in xs ==> lo <= x <= hi
    ensures |xs| * lo <= Sum(xs) <= |xs| * hi
  {
    if xs != [] {
      var n := |xs| - 1;
      assert xs[0] in xs;
      assert forall x :: x in xs[1..] ==> x in xs;
      SumBounds(xs[1..], lo, hi);
      Distribute(n, lo);
      Distribute(n, hi);
    }
  }

  /** Dividing `n * lo <= s <= n * hi` by a positive `n`. */
  lemma QuotientBounds(s: int, n: int, lo: int, hi: int)
    requires n > 0 && n * lo <= s <= n * hi
    ensures lo as real <= s as real / n as real <= hi as real
  {
    var q := s as real / n as real;
    assert q * n as real == s as real;
    ScaleBack(lo as real, q, n as real);
    ScaleBack(q, hi as real, n as real);
  }

  /** A positive factor can be cancelled from both sides of `<=`. */
  lemma ScaleBack(x: real, y: real, n: real)
    requires n > 0.0 && x * n <= y * n
    ensures x <= y
  {
    assert (y - x) * n >= 0.0;
  }

  /** The mean lies between the lowest and the highest value. */
  lemma MeanBetween(xs: seq<int>)
    requires |xs| > 0
    ensures Minimum(xs) as real <= Mean(xs) <= Maximum(xs) as real
  {
    var lo, hi := Minimum(xs), Maximum(xs);
    SumBounds(xs, lo, hi);
    QuotientBounds(Sum(xs), |xs|, lo, hi);
  }

  /** How many of the records have grade `g`. */
  function GradeCount(cs: seq<Combined>, g: char): nat {
    |Filter(cs, HasKey(RecordGrade, g))|
  }

  /** A grade has a positive count exactly when some record has it. */
  lemma GradeCountPositive(cs: seq<Combined>, g: char)
    ensures GradeCount(cs, g) > 0 <==> exists c :: c in cs && c.grade == g
  {
    var r := Filter(cs, HasKey(RecordGrade, g));
    if GradeCount(cs, g) > 0 {
      assert r[0] in r && RecordGrade(r[0]) == r[0].grade;
    }
    if c :| c in cs && c.grade == g {
      assert RecordGrade(c) == g;
      assert c in r;
    }
  }

  /** The count of grade `g` grows by one for each record with grade `g`. */
  lemma GradeCountStep(cs: seq<Combined>, i: nat, g: char)
    requires i < |cs|
    ensures GradeCount(cs[..i + 1], g) == GradeCount(cs[..i], g) + (if cs[i].grade == g then 1 else 0)
  {
    FilterSnoc(cs, i, HasKey(RecordGrade, g));
    assert RecordGrade(cs[i]) == cs[i].grade;
  }

  /** The histogram loop of statistics: for each record,
      `grades_count[grade] = grades_count.get(grade, 0) + 1`. The keys are
      the grades that occur, each mapped to the number of records with it. */
  method CountGrades(combined: seq<Combined>) returns (gradesCount: map<char, nat>)
    ensures forall g :: g in gradesCount <==> exists c :: c in combined && c.grade == g
    ensures forall g :: g in gradesCount ==> gradesCount[g] == GradeCount(combined, g)
  {
    gradesCount := map[];
    var i := 0;
    while i < |combined|
      invariant 0 <= i <= |combined|
      invariant forall g :: g in gradesCount ==> gradesCount[g] > 0
      invariant forall g :: (if g in gradesCount then gradesCount[g] else 0) == GradeCount(combined[..i], g)
    {
      var grade := combined[i].grade;
      gradesCount := gradesCount[grade := (if grade in gradesCount then gradesCount[grade] else 0) + 1];
      forall g ensures GradeCount(combined[..i + 1], g) == GradeCount(combined[..i], g) + (if grade == g then 1 else 0) {
        GradeCountStep(combined, i, g);
      }
      i := i + 1;
    }
    assert combined[..i] == combined;
    forall g ensures g in gradesCount <==> exists c :: c in combined && c.grade == g {
      GradeCountPositive(combined, g);
    }
  }

  /** `sum(percentages) / len(percentages)`, exactly. */
  function Mean(xs: seq<int>): (m: real)
    requires |xs| > 0
    ensures m * |xs| as real == Sum(xs) as real
  {
    Sum(xs) as real / |xs| as real
  }

  /** statistics: the roster size, the mean, largest and smallest stored
      percentage, and the grade histogram. */
  method ComputeStatistics(roster: seq<Student>) returns (stats: Stats)
    requires |roster| > 0
    ensures stats.totalStudents == |roster|
    ensures stats.highestPercentage == Maximum(Percentages(CombinedData(roster)))
    ensures stats.lowestPercentage == Minimum(Percentages(CombinedData(roster)))
    ensures stats.averagePercentage == Mean(Percentages(CombinedData(roster)))
    ensures forall g :: g in stats.gradesDistribution <==> exists c :: c in CombinedData(roster) && c.grade == g
    ensures forall g :: g in stats.gradesDistribution ==>
      stats.gradesDistribution[g] == GradeCount(CombinedData(roster), g)
  {
    var combined := GetCombinedData(roster);
    var percentages := Percentages(combined);
    var average := Mean(percentages);
    var gradesCount := CountGrades(combined);
    stats := Stats(|roster|, average, Maximum(percentages), Minimum(percentages), gradesCount);
  }

  /** The histogram's counts add up to the number of students, and only the
      six grade letters occur in it. */
  lemma DistributionTotals(roster: seq<Student>, dist: map<char, nat>)
    requires forall g :: g in dist <==> exists c :: c in CombinedData(roster) && c.grade == g
    requires forall g :: g in dist ==> dist[g] == GradeCount(CombinedData(roster), g)
    ensures dist.Keys <= set g | g in Grades
    ensures SumOver(dist, Grades) == |roster|
  {
    var cs := CombinedData(roster);
    forall c | c in cs ensures RecordGrade(c) in Grades {
      var i :| 0 <= i < |cs| && cs[i] == c;
      CombinedGrade(roster, i);
    }
    forall g | g in dist ensures g in Grades {
      var c :| c in cs && c.grade == g;
      assert RecordGrade(c) == g;
    }
    assert NoDuplicates(Grades);
    GroupSizesTotal(cs, RecordGrade, Grades);
    forall g | g in Grades
      ensures (if g in dist then dist[g] else 0) == |Filter(cs, HasKey(RecordGrade, g))|
    {
      GradeCountPositive(cs, g);
    }
    SumOverGroupSizes(dist, cs, RecordGrade, Grades);
  }

  /** The summary figures are consistent: the lowest is at most the average,
      which is at most the highest, and each is some student's percentage. */
  lemma StatisticsConsistent(roster: seq<Student>)
    requires |roster| > 0
    ensures var ps := Percentages(CombinedData(roster));
      Minimum(ps) as real <= Mean(ps) <= Maximum(ps) as real
      && (exists c :: c in CombinedData(roster) && c.percentage == Maximum(ps))
      && (exists c :: c in CombinedData(roster) && c.percentage == Minimum(ps))
  {
    var cs := CombinedData(roster);
    var ps := Percentages(cs);
    MeanBetween(ps);
    var i :| 0 <= i < |ps| && ps[i] == Maximum(ps);
    assert cs[i] in cs;
    var j :| 0 <= j < |ps| && ps[j] == Minimum(ps);
    assert cs[j] in cs;
  }
}
