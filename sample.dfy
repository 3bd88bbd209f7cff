/** The twelve-student roster that app.py serves, and what the model says
    about it. */
module SampleRoster {
  import opened Students
  import opened Ranking

  /** The `students` list of app.py, in its order. Its roll numbers increase
      strictly, so no two students share one and a lookup by roll finds at
      most one. */
  function Roster(): (r: seq<Student>)
    ensures |r| == 12
    ensures forall i, j :: 0 <= i < j < |r| ==> r[i].roll < r[j].roll
  {
    var r := [
    Student(101, "Rohan", "CSE", (78, 67, 89)),
    Student(102, "Riyaa", "CSE", (88, 91, 76)),
    Student(103, "Suman", "ECE", (92, 81, 74)),
    Student(104, "Priya", "EEE", (65, 69, 72)),
    Student(105, "Kunal", "CSE", (91, 73, 84)),
    Student(106, "Meera", "ME", (58, 82, 55)),
    Student(107, "Ameet", "CSE", (78, 67, 89)),
    Student(108, "Diyaa", "EEE", (85, 81, 76)),
    Student(109, "Rohan", "ECE", (37, 87, 70)),
    Student(110, "Sriya", "EEE", (65, 66, 72)),
    Student(111, "Kusal", "ME", (88, 73, 84)),
    Student(112, "Manoj", "ME", (78, 73, 65))
    ];
    assert forall i :: 0 <= i < |r| ==> r[i].roll == 101 + i;
    r
  }

  /** Roll 102 totals 255 of 300, stored as 85.00 percent, grade A; roll 109
      totals 194, stored as 64.67 percent, grade C. */
  lemma SampleMetrics()
    ensures CombinedData(Roster())[1].totalMarks == 255
    ensures CombinedData(Roster())[1].percentage == 8500
    ensures CombinedData(Roster())[1].grade == 'A'
    ensures CombinedData(Roster())[8].percentage == 6467
    ensures CombinedData(Roster())[8].grade == 'C'
  {
    var cs := CombinedData(Roster());
    assert MetricsOf(cs[1]) == Augment(Roster()[1]);
    assert MetricsOf(cs[8]) == Augment(Roster()[8]);
  }

  /** Every student but Riyaa totals less than her 255. */
  lemma SampleBelowRiyaa(i: nat)
    requires i < |Roster()| && i != 1
    ensures CombinedData(Roster())[i].percentage < 8500
  {
    var cs := CombinedData(Roster());
    assert MetricsOf(cs[i]) == Augment(Roster()[i]);
    assert cs[i].totalMarks < 255;
    RoundedPercentageOrder(cs[i].totalMarks, 255);
  }

  /** Riyaa, with 85.00 percent, is the overall topper: every other student
      has a lower total, hence a lower stored percentage. */
  lemma SampleOverallTopper()
    ensures Topper(CombinedData(Roster())).name == "Riyaa"
  {
    var cs := CombinedData(Roster());
    SampleMetrics();
    var k := TopperIndex(cs);
    assert cs[1] in cs;
    if k != 1 {
      SampleBelowRiyaa(k);
      assert false;
    }
  }
}
