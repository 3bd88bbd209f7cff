/** The branch grouping handlers of app.py: unique_branches (branch codes
    and how many students each has) and branch_wise_students (branch code
    to the roll numbers in it). Both group the roster itself. */
module Branches {
  import opened Sequences
  import opened Students

  function StudentBranch(s: Student): string { s.branch }

  function StudentRoll(s: Student): int { s.roll }

  /** `set(s['branch'] for s in students)`. */
  function BranchSet(roster: seq<Student>): (bs: set<string>)
    ensures forall i :: 0 <= i < |roster| ==> roster[i].branch in bs
    ensures |roster| > 0 ==> |bs| > 0
  {
    var bs := set s | s in roster :: s.branch;
    assert forall i :: 0 <= i < |roster| ==> roster[i] in roster;
    assert |roster| > 0 ==> roster[0].branch in bs;
    bs
  }

  /** `sum(1 for s in students if s['branch'] == branch)`; positive exactly
      for the branches present in the roster. */
  function CountInBranch(roster: seq<Student>, branch: string): (n: nat)
    ensures n > 0 <==> branch in BranchSet(roster)
  {
    var members := Filter(roster, HasKey(StudentBranch, branch));
    assert branch in BranchSet(roster) ==> |members| > 0 by {
      if branch in BranchSet(roster) {
        var i :| 0 <= i < |roster| && roster[i].branch == branch;
        assert StudentBranch(roster[i]) == branch;
      }
    }
    assert |members| > 0 ==> members[0] in roster && StudentBranch(members[0]) == members[0].branch;
    |members|
  }

  /** `[s['roll'] for s in students if s['branch'] == branch]`: the rolls of
      that branch's students, in roster order. */
  function RollsInBranch(roster: seq<Student>, branch: string): (r: seq<int>)
    ensures |r| == CountInBranch(roster, branch)
    ensures forall k :: 0 <= k < |r| ==> exists s :: s in roster && s.branch == branch && s.roll == r[k]
    ensures forall s :: s in roster && s.branch == branch ==> s.roll in r
  {
    var members := Filter(roster, HasKey(StudentBranch, branch));
    var r := MapSeq(StudentRoll, members);
    forall s | s in roster && s.branch == branch ensures s.roll in r {
      assert StudentBranch(s) == branch;
      assert s in members;
      var j :| 0 <= j < |members| && members[j] == s;
      assert r[j] == s.roll;
    }
    forall k | 0 <= k < |r| ensures exists s :: s in roster && s.branch == branch && s.roll == r[k] {
      assert members[k] in members;
      assert StudentBranch(members[k]) == members[k].branch;
    }
    r
  }

  /** unique_branches: the branch codes (in the order the set is iterated,
      each once) and the count of students in each. The counts add up to the
      roster's length. */
  method UniqueBranches(roster: seq<Student>) returns (branches: seq<string>, branchCount: map<string, nat>)
    ensures NoDuplicates(branches)
    ensures forall b :: b in branches <==> b in BranchSet(roster)
    ensures branchCount.Keys == BranchSet(roster)
    ensures forall b :: b in branchCount ==> branchCount[b] == CountInBranch(roster, b) && branchCount[b] > 0
    ensures SumOver(branchCount, branches) == |roster|
  {
    var remaining := BranchSet(roster);
    branches := [];
    branchCount := map[];
    while remaining != {}
      invariant remaining <= BranchSet(roster)
      invariant NoDuplicates(branches)
      invariant forall b :: b in branches <==> b in BranchSet(roster) && b !in remaining
      invariant forall b :: b in branchCount <==> b in BranchSet(roster) && b !in remaining
      invariant forall b :: b in branchCount ==> branchCount[b] == CountInBranch(roster, b)
      decreases remaining
    {
      var branch :| branch in remaining;
      var count := CountInBranch(roster, branch);
      branchCount := branchCount[branch := count];
      branches := branches + [branch];
      remaining := remaining - {branch};
    }
    CountsAddUp(roster, branches, branchCount);
  }

  /** Over any listing of the branches, each once, the per-branch counts add
      up to the number of students. */
  lemma CountsAddUp(roster: seq<Student>, branches: seq<string>, branchCount: map<string, nat>)
    requires NoDuplicates(branches)
    requires forall b :: b in branches <==> b in BranchSet(roster)
    requires forall b :: b in branchCount ==> branchCount[b] == CountInBranch(roster, b)
    requires branchCount.Keys == BranchSet(roster)
    ensures SumOver(branchCount, branches) == |roster|
  {
    forall s | s in roster ensures StudentBranch(s) in branches {
      assert s.branch in BranchSet(roster);
    }
    GroupSizesTotal(roster, StudentBranch, branches);
    forall b | b in branches
      ensures (if b in branchCount then branchCount[b] else 0) == |Filter(roster, HasKey(StudentBranch, b))|
    {
    }
    SumOverGroupSizes(branchCount, roster, StudentBranch, branches);
  }

  /** branch_wise_students: each branch code present maps to the rolls of its
      students, in roster order. */
  method BranchWiseStudents(roster: seq<Student>) returns (branchWise: map<string, seq<int>>)
    ensures branchWise.Keys == BranchSet(roster)
    ensures forall b :: b in branchWise ==> branchWise[b] == RollsInBranch(roster, b)
  {
    var remaining := BranchSet(roster);
    branchWise := map[];
    while remaining != {}
      invariant remaining <= BranchSet(roster)
      invariant forall b :: b in branchWise <==> b in BranchSet(roster) && b !in remaining
      invariant forall b :: b in branchWise ==> branchWise[b] == RollsInBranch(roster, b)
      decreases remaining
    {
      var branch :| branch in remaining;
      var rollNums := RollsInBranch(roster, branch);
      branchWise := branchWise[branch := rollNums];
      remaining := remaining - {branch};
    }
  }

  /** The roll lists partition the roster's rolls: over any listing of the
      branches, each once, the union of the roll lists is the multiset of all
      rolls, so every roster entry's roll is in exactly one list. */
  lemma RollListsPartitionRolls(roster: seq<Student>, branches: seq<string>)
    requires NoDuplicates(branches)
    requires forall b :: b in branches <==> b in BranchSet(roster)
    ensures GroupUnion(roster, StudentBranch, StudentRoll, branches) == multiset(MapSeq(StudentRoll, roster))
  {
    assert forall s :: s in roster ==> StudentBranch(s) in branches;
    GroupsPartition(roster, StudentBranch, StudentRoll, branches);
  }
}
