/** The report handler of app.py: the roster size, the branch codes, and the
    names of the overall topper and of each branch's topper. */
module Report {
  import opened Sequences
  import opened Students
  import opened Branches
  import opened Ranking

  /** The reply of generate_report. `toppers` maps "overall" and each branch
      code to a student's name. */
  datatype Report = Report(totalStudents: nat, branches: seq<string>, toppers: map<string, string>)

  /** The key of the overall topper in the report's toppers map. */
  const Overall: string := "overall"

  /** generate_report. The branch loop visits each branch once, in the order
      the set is iterated, which is also the order of `list(branches)`. The
      toppers map is `{"overall": ..., **branch_toppers}`: the branch entries
      are merged last, so a branch named "overall" would replace the overall
      entry. */
  method GenerateReport(roster: seq<Student>) returns (report: Report)
    requires |roster| > 0
    ensures report.totalStudents == |roster|
    ensures NoDuplicates(report.branches)
    ensures forall b :: b in report.branches <==> b in BranchSet(roster)
    ensures forall b :: b in report.toppers ==> b in BranchSet(roster) || b == Overall
    ensures forall b :: b in BranchSet(roster) ==>
      b in report.toppers && report.toppers[b] == Topper(BranchRecords(roster, b)).name
    ensures Overall in report.toppers
    ensures Overall !in BranchSet(roster) ==> report.toppers[Overall] == Topper(CombinedData(roster)).name
  {
    var combined := GetCombinedData(roster);
    var overall := Topper(combined);
    var order, branchToppers := BranchTopperNames(roster, combined);
    report := Report(|roster|, order, Merge(overall.name, branchToppers));
  }

  /** The branch loop of generate_report: every branch code once, and the
      name of each branch's topper. */
  method BranchTopperNames(roster: seq<Student>, combined: seq<Combined>)
    returns (order: seq<string>, branchToppers: map<string, string>)
    requires combined == CombinedData(roster)
    ensures NoDuplicates(order)
    ensures forall b :: b in order <==> b in BranchSet(roster)
    ensures forall b :: b in branchToppers <==> b in BranchSet(roster)
    ensures forall b :: b in branchToppers ==> branchToppers[b] == Topper(BranchRecords(roster, b)).name
  {
    var remaining := BranchSet(roster);
    order := [];
    branchToppers := map[];
    while remaining != {}
      invariant remaining <= BranchSet(roster)
      invariant NoDuplicates(order)
      invariant forall b :: b in order <==> b in BranchSet(roster) && b !in remaining
      invariant forall b :: b in branchToppers <==> b in BranchSet(roster) && b !in remaining
      invariant forall b :: b in branchToppers ==> branchToppers[b] == Topper(BranchRecords(roster, b)).name
      decreases remaining
    {
      var branch :| branch in remaining;
      var branchStudents := Filter(combined, HasKey(RecordBranch, branch));
      assert branchStudents == BranchRecords(roster, branch);
      if |branchStudents| > 0 {
        assert branch in BranchSet(roster);
        branchToppers := branchToppers[branch := Topper(branchStudents).name];
      }
      order := order + [branch];
      remaining := remaining - {branch};
    }
  }

  /** `{"overall": name, **branchToppers}`: every branch entry is kept, and
      "overall" is added, keeping `name` unless a branch already has that key. */
  function Merge(name: string, branchToppers: map<string, string>): (m: map<string, string>)
    ensures m.Keys == branchToppers.Keys + {Overall}
    ensures forall b :: b in branchToppers ==> m[b] == branchToppers[b]
    ensures Overall !in branchToppers ==> m[Overall] == name
  {
    map[Overall := name] + branchToppers
  }

  /** Unless a branch is itself called "overall", the report names the
      overall topper again as the topper of that student's branch. */
  lemma ReportToppersAgree(roster: seq<Student>, report: Report)
    requires |roster| > 0
    requires forall b :: b in BranchSet(roster) ==>
      b in report.toppers && report.toppers[b] == Topper(BranchRecords(roster, b)).name
    requires Overall in report.toppers
    requires Overall !in BranchSet(roster) ==> report.toppers[Overall] == Topper(CombinedData(roster)).name
    ensures Topper(CombinedData(roster)).branch in report.toppers
    ensures Overall !in BranchSet(roster) ==>
      report.toppers[Topper(CombinedData(roster)).branch] == report.toppers[Overall]
  {
    OverallTopperTopsItsBranch(roster);
  }
}
