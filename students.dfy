/** The student records of app.py and the per-student metrics derived from
    them: total marks, percentage and grade (calculate_grade, augment_data,
    get_combined_data). */
module Students {
  import opened Sequences

  /** A roster entry: roll number, name, branch code and three subject marks. */
  datatype Student = Student(roll: int, name: string, branch: string, marks: (int, int, int))

  /** One entry of augment_data's result. `percentage` is the stored, rounded
      percentage, counted in hundredths of a percent (85.0 is 8500, 82.67 is 8267). */
  datatype Metrics = Metrics(totalMarks: int, percentage: int, grade: char)

  /** One entry of get_combined_data's result: the roster fields followed by the metrics. */
  datatype Combined = Combined(
    roll: int, name: string, branch: string, marks: (int, int, int),
    totalMarks: int, percentage: int, grade: char)

  /** The six grade letters, highest band first. */
  const Grades: seq<char> := ['O', 'A', 'B', 'C', 'P', 'F']

  /** calculate_grade: the bands [90, inf), [80, 90), [70, 80), [60, 70),
      [50, 60) and (-inf, 50) give O, A, B, C, P and F. */
  function CalculateGrade(percentage: real): (g: char)
    ensures g in Grades
    ensures g == 'O' <==> 90.0 <= percentage
    ensures g == 'A' <==> 80.0 <= percentage < 90.0
    ensures g == 'B' <==> 70.0 <= percentage < 80.0
    ensures g == 'C' <==> 60.0 <= percentage < 70.0
    ensures g == 'P' <==> 50.0 <= percentage < 60.0
    ensures g == 'F' <==> percentage < 50.0
  {
    if percentage >= 90.0 then 'O'
    else if percentage >= 80.0 then 'A'
    else if percentage >= 70.0 then 'B'
    else if percentage >= 60.0 then 'C'
    else if percentage >= 50.0 then 'P'
    else 'F'
  }

  /** Position of a grade in the band order: F is 0, O is 5. */
  function Rank(g: char): int {
    if g == 'O' then 5 else if g == 'A' then 4 else if g == 'B' then 3
    else if g == 'C' then 2 else if g == 'P' then 1 else 0
  }

  /** A higher percentage never earns a lower grade. */
  lemma GradeMonotone(p: real, q: real)
    requires p <= q
    ensures Rank(CalculateGrade(p)) <= Rank(CalculateGrade(q))
  {
  }

  /** The grade as a table on the integer total out of 300. */
  function GradeOfTotal(total: int): char {
    if total >= 270 then 'O'
    else if total >= 240 then 'A'
    else if total >= 210 then 'B'
    else if total >= 180 then 'C'
    else if total >= 150 then 'P'
    else 'F'
  }

  /** `(total / 300) * 100`, before rounding. */
  function ExactPercentage(total: int): (p: real)
    ensures 3.0 * p == total as real
  {
    (total as real / 300.0) * 100.0
  }

  /** `round((total / 300) * 100, 2)`, in hundredths: the integer nearest to
      100 * total / 3, which is never half-way between two integers. */
  function RoundedPercentage(total: int): (h: int)
    ensures -1 <= 3 * h - 100 * total <= 1
  {
    (100 * total + 1) / 3
  }

  /** The rounding is the nearest hundredth: no other integer is as close. */
  lemma RoundedPercentageUnique(total: int, h: int)
    requires -1 <= 3 * h - 100 * total <= 1
    ensures h == RoundedPercentage(total)
  {
  }

  /** Rounding keeps totals apart and in order: comparing stored percentages
      is comparing totals. */
  lemma RoundedPercentageOrder(t1: int, t2: int)
    ensures t1 < t2 <==> RoundedPercentage(t1) < RoundedPercentage(t2)
    ensures t1 == t2 <==> RoundedPercentage(t1) == RoundedPercentage(t2)
  {
  }

  /** The grade computed from the exact percentage is the table on the total. */
  lemma GradeFromTotal(total: int)
    ensures CalculateGrade(ExactPercentage(total)) == GradeOfTotal(total)
  {
    var p := ExactPercentage(total);
    assert p == total as real / 3.0;
    assert p >= 90.0 <==> total >= 270;
    assert p >= 80.0 <==> total >= 240;
    assert p >= 70.0 <==> total >= 210;
    assert p >= 60.0 <==> total >= 180;
    assert p >= 50.0 <==> total >= 150;
  }

  /** The grade is computed before rounding, but computing it from the stored,
      rounded percentage would give the same letter. */
  lemma GradeSurvivesRounding(total: int)
    ensures CalculateGrade(RoundedPercentage(total) as real / 100.0)
         == CalculateGrade(ExactPercentage(total))
  {
    GradeFromTotal(total);
    var h := RoundedPercentage(total);
    var p := h as real / 100.0;
    assert p >= 90.0 <==> h >= 9000;
    assert p >= 80.0 <==> h >= 8000;
    assert p >= 70.0 <==> h >= 7000;
    assert p >= 60.0 <==> h >= 6000;
    assert p >= 50.0 <==> h >= 5000;
  }

  /** augment_data's computation for one student. */
  function Augment(s: Student): (m: Metrics)
    ensures m.totalMarks == s.marks.0 + s.marks.1 + s.marks.2
    ensures -1 <= 3 * m.percentage - 100 * m.totalMarks <= 1
    ensures m.grade == GradeOfTotal(m.totalMarks)
  {
    var total := s.marks.0 + s.marks.1 + s.marks.2;
    GradeFromTotal(total);
    Metrics(total, RoundedPercentage(total), CalculateGrade(ExactPercentage(total)))
  }

  /** augment_data: one metrics entry per student, in roster order. */
  method AugmentData(students: seq<Student>) returns (augmented: seq<Metrics>)
    ensures |augmented| == |students|
    ensures forall i :: 0 <= i < |students| ==> augmented[i] == Augment(students[i])
  {
    augmented := [];
    var i := 0;
    while i < |students|
      invariant 0 <= i <= |students|
      invariant |augmented| == i
      invariant forall k :: 0 <= k < i ==> augmented[k] == Augment(students[k])
    {
      var student := students[i];
      var total := student.marks.0 + student.marks.1 + student.marks.2;
      var percentage := ExactPercentage(total);
      var grade := CalculateGrade(percentage);
      augmented := augmented + [Metrics(total, RoundedPercentage(total), grade)];
      i := i + 1;
    }
  }

  /** The roster fields of a combined record. */
  function StudentOf(c: Combined): Student {
    Student(c.roll, c.name, c.branch, c.marks)
  }

  /** The metrics fields of a combined record. */
  function MetricsOf(c: Combined): Metrics {
    Metrics(c.totalMarks, c.percentage, c.grade)
  }

  function Combine(s: Student, m: Metrics): Combined {
    Combined(s.roll, s.name, s.branch, s.marks, m.totalMarks, m.percentage, m.grade)
  }

  /** get_combined_data as a value: record i carries roster entry i unchanged
      together with that entry's metrics. */
  function CombinedData(roster: seq<Student>): (r: seq<Combined>)
    ensures |r| == |roster|
    ensures forall i :: 0 <= i < |roster| ==>
      StudentOf(r[i]) == roster[i] && MetricsOf(r[i]) == Augment(roster[i])
  {
    seq(|roster|, i requires 0 <= i < |roster| => Combine(roster[i], Augment(roster[i])))
  }

  /** get_combined_data: enumerates the roster and pairs entry i with the i-th
      metrics entry. */
  method GetCombinedData(roster: seq<Student>) returns (combined: seq<Combined>)
    ensures combined == CombinedData(roster)
  {
    var augmented := AugmentData(roster);
    combined := [];
    var i := 0;
    while i < |roster|
      invariant 0 <= i <= |roster|
      invariant combined == CombinedData(roster)[..i]
    {
      var student := roster[i];
      combined := combined + [Combined(student.roll, student.name, student.branch, student.marks,
                                       augmented[i].totalMarks, augmented[i].percentage, augmented[i].grade)];
      i := i + 1;
    }
  }

  /** Every combined record's grade is one of the six letters, and agrees
      with its stored percentage as well as with its total. */
  lemma CombinedGrade(roster: seq<Student>, i: int)
    requires 0 <= i < |roster|
    ensures CombinedData(roster)[i].grade in Grades
    ensures CombinedData(roster)[i].grade == CalculateGrade(CombinedData(roster)[i].percentage as real / 100.0)
  {
    var total := CombinedData(roster)[i].totalMarks;
    GradeFromTotal(total);
    GradeSurvivesRounding(total);
  }
}
