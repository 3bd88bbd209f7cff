/** The lookup and filter handlers of app.py: student_by_roll,
    students_by_grade and students_above_percentage. Each recomputes the
    combined records from the roster, as the handlers call get_combined_data. */
module Queries {
  import opened Sequences
  import opened Students

  /** The result of student_by_roll: the record, or the 404 "Student not found" reply. */
  datatype Lookup = Found(student: Combined) | NotFound

  /** student_by_roll: an early-exit linear search over the combined records. */
  method StudentByRoll(roster: seq<Student>, roll: int) returns (r: Lookup)
    ensures r.NotFound? <==> forall i :: 0 <= i < |roster| ==> roster[i].roll != roll
    ensures r.Found? ==>
      exists i :: 0 <= i < |roster| && roster[i].roll == roll
        && (forall j :: 0 <= j < i ==> roster[j].roll != roll)
        && r.student == CombinedData(roster)[i]
  {
    var combined := GetCombinedData(roster);
    var i := 0;
    while i < |combined|
      invariant 0 <= i <= |combined|
      invariant forall j :: 0 <= j < i ==> roster[j].roll != roll
    {
      assert StudentOf(combined[i]) == roster[i];
      if combined[i].roll == roll {
        return Found(combined[i]);
      }
      i := i + 1;
    }
    return NotFound;
  }

  /** Python's str.upper on one character, for the ASCII letters. */
  function UpperChar(ch: char): char {
    if 'a' <= ch <= 'z' then (ch as int - 'a' as int + 'A' as int) as char else ch
  }

  /** `s.upper()`. */
  function Upper(s: string): (r: string)
    ensures |r| == |s|
    ensures forall i :: 0 <= i < |s| ==> r[i] == UpperChar(s[i])
  {
    MapSeq(UpperChar, s)
  }

  /** The predicate `s['grade'] == u`, the record's one-letter grade compared as a string. */
  function HasGrade(u: string): (p: Combined -> bool)
    ensures forall c :: p(c) <==> |u| == 1 && u[0] == c.grade
  {
    (c: Combined) => [c.grade] == u
  }

  /** students_by_grade: the records whose grade equals `grade.upper()`, in roster order. */
  function StudentsByGrade(roster: seq<Student>, grade: string): (r: seq<Combined>)
    ensures forall i :: 0 <= i < |r| ==> r[i] in CombinedData(roster) && [r[i].grade] == Upper(grade)
    ensures forall c :: c in CombinedData(roster) && [c.grade] == Upper(grade) ==> c in r
  {
    var cs, u := CombinedData(roster), Upper(grade);
    var r := Filter(cs, HasGrade(u));
    forall i | 0 <= i < |r| ensures r[i] in cs && [r[i].grade] == u {
      assert r[i] in r;
    }
    forall c | c in cs && [c.grade] == u ensures c in r {
      assert HasGrade(u)(c);
    }
    r
  }

  /** The predicate `s['percentage'] >= cutoff` on the stored percentage. */
  function AtLeast(cutoff: real): (p: Combined -> bool)
    ensures forall c :: p(c) <==> c.percentage as real >= 100.0 * cutoff
    ensures forall c: Combined, d: Combined :: p(c) && c.percentage <= d.percentage ==> p(d)
  {
    (c: Combined) => c.percentage as real / 100.0 >= cutoff
  }

  /** students_above_percentage: the records whose stored percentage is at
      least `cutoff` (the bound is inclusive), in roster order. */
  function StudentsAbovePercentage(roster: seq<Student>, cutoff: real): (r: seq<Combined>)
    ensures forall i :: 0 <= i < |r| ==> r[i] in CombinedData(roster) && r[i].percentage as real / 100.0 >= cutoff
    ensures forall c :: c in CombinedData(roster) && c.percentage as real / 100.0 >= cutoff ==> c in r
  {
    var cs := CombinedData(roster);
    var r := Filter(cs, AtLeast(cutoff));
    forall i | 0 <= i < |r| ensures r[i] in cs && r[i].percentage as real / 100.0 >= cutoff {
      assert r[i] in r;
    }
    forall c | c in cs && c.percentage as real / 100.0 >= cutoff ensures c in r {
      assert AtLeast(cutoff)(c);
    }
    r
  }

  /** Combining two rosters combines their records in the same order. */
  lemma CombinedDataConcat(a: seq<Student>, b: seq<Student>)
    ensures CombinedData(a + b) == CombinedData(a) + CombinedData(b)
  {
    assert forall i :: 0 <= i < |a| ==> (a + b)[i] == a[i];
    assert forall i :: |a| <= i < |a| + |b| ==> (a + b)[i] == b[i - |a|];
  }

  /** Both filters keep roster order: filtering a roster made of two parts
      gives the first part's matches followed by the second part's. */
  lemma FiltersKeepOrder(a: seq<Student>, b: seq<Student>, grade: string, cutoff: real)
    ensures StudentsByGrade(a + b, grade) == StudentsByGrade(a, grade) + StudentsByGrade(b, grade)
    ensures StudentsAbovePercentage(a + b, cutoff)
         == StudentsAbovePercentage(a, cutoff) + StudentsAbovePercentage(b, cutoff)
  {
    CombinedDataConcat(a, b);
    FilterConcat(CombinedData(a), CombinedData(b), HasGrade(Upper(grade)));
    FilterConcat(CombinedData(a), CombinedData(b), AtLeast(cutoff));
  }

  lemma UpperIdempotent(s: string)
    ensures Upper(Upper(s)) == Upper(s)
  {
  }

  /** The grade match ignores case: "a" selects what "A" selects. */
  lemma ByGradeIgnoresCase(roster: seq<Student>, grade: string)
    ensures StudentsByGrade(roster, grade) == StudentsByGrade(roster, Upper(grade))
  {
    UpperIdempotent(grade);
  }

  /** A query that is not one of the six grade letters (in either case)
      selects nothing; the reply is an empty list, not an error. */
  lemma ByGradeUnknownIsEmpty(roster: seq<Student>, grade: string)
    requires forall k :: 0 <= k < |Grades| ==> Upper(grade) != [Grades[k]]
    ensures StudentsByGrade(roster, grade) == []
  {
    var cs := CombinedData(roster);
    forall c | c in cs
      ensures !HasGrade(Upper(grade))(c)
    {
      var i :| 0 <= i < |cs| && cs[i] == c;
      CombinedGrade(roster, i);
    }
    FilterNone(cs, HasGrade(Upper(grade)));
  }

  /** Raising the cutoff only drops records: the result for the higher cutoff
      is the result for the lower one, filtered again. */
  lemma AboveCutoffNarrows(roster: seq<Student>, low: real, high: real)
    requires low <= high
    ensures StudentsAbovePercentage(roster, high)
         == Filter(StudentsAbovePercentage(roster, low), AtLeast(high))
  {
    FilterNarrowing(CombinedData(roster), AtLeast(low), AtLeast(high));
  }

  /** Grade O and "at least 90 percent" select the same records, although the
      grade uses the unrounded percentage and the cutoff the rounded one. */
  lemma GradeOIsNinetyPercent(roster: seq<Student>, grade: string)
    requires Upper(grade) == "O"
    ensures StudentsByGrade(roster, grade) == StudentsAbovePercentage(roster, 90.0)
  {
    var cs := CombinedData(roster);
    forall c | c in cs
      ensures HasGrade(Upper(grade))(c) == AtLeast(90.0)(c)
    {
      var i :| 0 <= i < |cs| && cs[i] == c;
      CombinedGrade(roster, i);
    }
    FilterCongruent(cs, HasGrade(Upper(grade)), AtLeast(90.0));
  }
}
