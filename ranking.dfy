/** The ranking handlers of app.py: toppers (overall and per branch, by
    Python's `max` with the percentage as key) and top_students (Python's
    `sorted(..., reverse=True)` by percentage, then a slice). */
module Ranking {
  import opened Sequences
  import opened Students
  import opened Branches

  /** No record of `cs` has a higher percentage than `c`. */
  predicate Bounds(cs: seq<Combined>, c: Combined) {
    forall x :: x in cs ==> x.percentage <= c.percentage
  }

  /** Every record of `cs` has a lower percentage than `c`. */
  predicate Below(cs: seq<Combined>, c: Combined) {
    forall x :: x in cs ==> x.percentage < c.percentage
  }

  /** `c` is the first record of `cs` with the highest percentage: the record
      Python's `max(cs, key=percentage)` returns. */
  ghost predicate IsFirstMaximum(cs: seq<Combined>, c: Combined) {
    exists k :: 0 <= k < |cs| && cs[k] == c && Bounds(cs, c) && Below(cs[..k], c)
  }

  /** At most one record is the first maximum. */
  lemma FirstMaximumUnique(cs: seq<Combined>, c1: Combined, c2: Combined)
    requires IsFirstMaximum(cs, c1) && IsFirstMaximum(cs, c2)
    ensures c1 == c2
  {
    var k1 :| 0 <= k1 < |cs| && cs[k1] == c1 && Bounds(cs, c1) && Below(cs[..k1], c1);
    var k2 :| 0 <= k2 < |cs| && cs[k2] == c2 && Bounds(cs, c2) && Below(cs[..k2], c2);
  }

  /** Python's max: scan left to right, replacing the candidate only when a
      later record's percentage is strictly greater. */
  function TopperIndex(cs: seq<Combined>): (k: nat)
    requires |cs| > 0
    ensures k < |cs|
    ensures Bounds(cs, cs[k]) && Below(cs[..k], cs[k])
  {
    if |cs| == 1 then
      assert cs[..0] == [];
      0
    else
      var init, last := cs[..|cs| - 1], cs[|cs| - 1];
      var k := TopperIndex(init);
      assert cs == init + [last];
      assert init[k] == cs[k] && init[..k] == cs[..k];
      if last.percentage > cs[k].percentage then
        assert Below(cs[..|cs| - 1], last);
        |cs| - 1
      else
        k
  }

  /** `max(cs, key=lambda x: x['percentage'])`. */
  function Topper(cs: seq<Combined>): (c: Combined)
    requires |cs| > 0
    ensures IsFirstMaximum(cs, c)
  {
    var k := TopperIndex(cs);
    cs[k]
  }

  function RecordBranch(c: Combined): string { c.branch }

  /** `[s for s in combined_data if s['branch'] == branch]`: non-empty
      exactly for the branches of the roster. */
  function BranchRecords(roster: seq<Student>, branch: string): (r: seq<Combined>)
    ensures |r| > 0 <==> branch in BranchSet(roster)
    ensures forall i :: 0 <= i < |r| ==> r[i] in CombinedData(roster) && r[i].branch == branch
    ensures forall c :: c in CombinedData(roster) && c.branch == branch ==> c in r
  {
    var cs := CombinedData(roster);
    var p := HasKey(RecordBranch, branch);
    var r := Filter(cs, p);
    forall i | 0 <= i < |r| ensures r[i] in cs && r[i].branch == branch {
      assert r[i] in r;
      assert RecordBranch(r[i]) == r[i].branch;
    }
    forall c | c in cs && c.branch == branch ensures c in r {
      assert RecordBranch(c) == branch;
    }
    assert branch in BranchSet(roster) ==> |r| > 0 by {
      if branch in BranchSet(roster) {
        var i :| 0 <= i < |roster| && roster[i].branch == branch;
        assert StudentOf(cs[i]) == roster[i];
        assert cs[i] in r;
      }
    }
    assert |r| > 0 ==> branch in BranchSet(roster) by {
      if |r| > 0 {
        var i :| 0 <= i < |cs| && cs[i] == r[0];
        assert StudentOf(cs[i]) == roster[i];
      }
    }
    r
  }

  /** toppers: the overall topper, and for each branch of the roster the
      topper among that branch's records. */
  method Toppers(roster: seq<Student>) returns (overall: Combined, branchToppers: map<string, Combined>)
    requires |roster| > 0
    ensures overall == Topper(CombinedData(roster))
    ensures branchToppers.Keys == BranchSet(roster)
    ensures forall b :: b in branchToppers ==> branchToppers[b] == Topper(BranchRecords(roster, b))
  {
    var combined := GetCombinedData(roster);
    overall := Topper(combined);
    var remaining := BranchSet(roster);
    branchToppers := map[];
    while remaining != {}
      invariant remaining <= BranchSet(roster)
      invariant forall b :: b in branchToppers <==> b in BranchSet(roster) && b !in remaining
      invariant forall b :: b in branchToppers ==> branchToppers[b] == Topper(BranchRecords(roster, b))
      decreases remaining
    {
      var branch :| branch in remaining;
      var branchStudents := Filter(combined, HasKey(RecordBranch, branch));
      assert branchStudents == BranchRecords(roster, branch);
      if |branchStudents| > 0 {
        branchToppers := branchToppers[branch := Topper(branchStudents)];
      }
      remaining := remaining - {branch};
    }
  }

  /** Each branch's topper belongs to the branch and no record of the branch
      has a higher percentage. */
  lemma BranchTopper(roster: seq<Student>, b: string)
    requires b in BranchSet(roster)
    ensures Topper(BranchRecords(roster, b)).branch == b
    ensures Topper(BranchRecords(roster, b)) in CombinedData(roster)
    ensures forall c :: c in CombinedData(roster) && c.branch == b ==>
      c.percentage <= Topper(BranchRecords(roster, b)).percentage
  {
    var members := BranchRecords(roster, b);
    var k := TopperIndex(members);
    assert members[k] == Topper(members);
  }

  /** Filtering keeps a first maximum that the filter selects as the first
      maximum of what remains. */
  lemma FirstMaximumSurvivesFilter(cs: seq<Combined>, k: nat, p: Combined -> bool)
    requires k < |cs| && Bounds(cs, cs[k]) && Below(cs[..k], cs[k]) && p(cs[k])
    ensures IsFirstMaximum(Filter(cs, p), cs[k])
  {
    var t, before, r := cs[k], Filter(cs[..k], p), Filter(cs, p);
    FilterPosition(cs, k, p);
    assert Below(before, t);
    assert Bounds(r, t);
  }

  /** The overall topper is also the topper of its own branch. */
  lemma OverallTopperTopsItsBranch(roster: seq<Student>)
    requires |roster| > 0
    ensures Topper(CombinedData(roster)).branch in BranchSet(roster)
    ensures Topper(BranchRecords(roster, Topper(CombinedData(roster)).branch)) == Topper(CombinedData(roster))
  {
    var cs := CombinedData(roster);
    var k := TopperIndex(cs);
    var t := cs[k];
    assert StudentOf(t) == roster[k];
    var p := HasKey(RecordBranch, t.branch);
    assert RecordBranch(t) == t.branch;
    FirstMaximumSurvivesFilter(cs, k, p);
    var members := BranchRecords(roster, t.branch);
    assert members == Filter(cs, p);
    FirstMaximumUnique(members, t, Topper(members));
  }

  /** The records are in non-increasing order of percentage. */
  predicate SortedDescending(cs: seq<Combined>) {
    forall i, j :: 0 <= i < j < |cs| ==> cs[i].percentage >= cs[j].percentage
  }

  /** The head of a descending sequence bounds all of it. */
  lemma HeadBounds(cs: seq<Combined>)
    requires cs != [] && SortedDescending(cs)
    ensures Bounds(cs, cs[0])
  {
    forall x | x in cs ensures x.percentage <= cs[0].percentage {
      var i :| 0 <= i < |cs| && cs[i] == x;
    }
  }

  /** A record that bounds a descending sequence can head it. */
  lemma ConsSorted(h: Combined, s: seq<Combined>)
    requires SortedDescending(s) && Bounds(s, h)
    ensures SortedDescending([h] + s)
  {
    var r := [h] + s;
    forall i, j | 0 <= i < j < |r| ensures r[i].percentage >= r[j].percentage {
      assert r[j] == s[j - 1];
      if i > 0 { assert r[i] == s[i - 1]; } else { assert s[j - 1] in s; }
    }
  }

  /** Places `c` before the first record whose percentage is not greater. */
  function InsertDescending(c: Combined, sorted: seq<Combined>): seq<Combined> {
    if sorted == [] || c.percentage >= sorted[0].percentage then [c] + sorted
    else [sorted[0]] + InsertDescending(c, sorted[1..])
  }

  /** Insertion adds exactly the one record. */
  lemma {:induction false} InsertPermutes(c: Combined, sorted: seq<Combined>)
    ensures multiset(InsertDescending(c, sorted)) == multiset(sorted) + multiset{c}
  {
    if sorted != [] && c.percentage < sorted[0].percentage {
      assert sorted == [sorted[0]] + sorted[1..];
      InsertPermutes(c, sorted[1..]);
    }
  }

  /** A bound on the sequence and on the new record bounds the insertion. */
  lemma InsertBounds(c: Combined, s: seq<Combined>, h: Combined)
    requires Bounds(s, h) && c.percentage <= h.percentage
    ensures Bounds(InsertDescending(c, s), h)
  {
    InsertPermutes(c, s);
    forall x | x in InsertDescending(c, s) ensures x.percentage <= h.percentage {
      assert x in multiset(InsertDescending(c, s));
    }
  }

  /** Insertion into a descending sequence keeps it descending. */
  lemma {:induction false} InsertSorted(c: Combined, sorted: seq<Combined>)
    requires SortedDescending(sorted)
    ensures SortedDescending(InsertDescending(c, sorted))
  {
    if sorted == [] {
      ConsSorted(c, sorted);
    } else if c.percentage >= sorted[0].percentage {
      HeadBounds(sorted);
      ConsSorted(c, sorted);
    } else {
      var head, tail := sorted[0], sorted[1..];
      assert SortedDescending(tail);
      InsertSorted(c, tail);
      HeadBounds(sorted);
      assert Bounds(tail, head) by {
        forall x | x in tail ensures x.percentage <= head.percentage { assert x in sorted; }
      }
      InsertBounds(c, tail, head);
      ConsSorted(head, InsertDescending(c, tail));
    }
  }

  /** `sorted(cs, key=lambda x: x['percentage'], reverse=True)`, as an insertion sort. */
  function SortDescending(cs: seq<Combined>): (r: seq<Combined>)
    ensures SortedDescending(r)
    ensures multiset(r) == multiset(cs)
  {
    if cs == [] then []
    else
      var rest := SortDescending(cs[1..]);
      InsertSorted(cs[0], rest);
      InsertPermutes(cs[0], rest);
      assert cs == [cs[0]] + cs[1..];
      InsertDescending(cs[0], rest)
  }

  /** The predicate "has this stored percentage". */
  function HasPercentage(v: int): Combined -> bool {
    (c: Combined) => c.percentage == v
  }

  /** Among the records of any one percentage, insertion puts `c` first, as
      if it had been placed at the head. */
  lemma {:induction false} InsertKeepsTies(c: Combined, sorted: seq<Combined>, v: int)
    ensures Filter(InsertDescending(c, sorted), HasPercentage(v)) == Filter([c] + sorted, HasPercentage(v))
  {
    if sorted != [] && c.percentage < sorted[0].percentage {
      var p := HasPercentage(v);
      var head, rest := sorted[0], sorted[1..];
      assert sorted == [head] + rest;
      var ph, pc := if p(head) then [head] else [], if p(c) then [c] else [];
      assert ph == [] || pc == [];
      calc {
        Filter(InsertDescending(c, sorted), p);
        Filter([head] + InsertDescending(c, rest), p);
        { FilterCons(head, InsertDescending(c, rest), p); }
        ph + Filter(InsertDescending(c, rest), p);
        { InsertKeepsTies(c, rest, v); }
        ph + Filter([c] + rest, p);
        { FilterCons(c, rest, p); }
        ph + (pc + Filter(rest, p));
        pc + (ph + Filter(rest, p));
        { FilterCons(head, rest, p); }
        pc + Filter(sorted, p);
        { FilterCons(c, sorted, p); }
        Filter([c] + sorted, p);
      }
    }
  }

  /** The sort is stable: for every percentage, the records with that
      percentage come out in the order they went in. */
  lemma {:induction false} SortIsStable(cs: seq<Combined>, v: int)
    ensures Filter(SortDescending(cs), HasPercentage(v)) == Filter(cs, HasPercentage(v))
  {
    if cs != [] {
      var p := HasPercentage(v);
      var head, rest := cs[0], cs[1..];
      assert cs == [head] + rest;
      InsertKeepsTies(head, SortDescending(rest), v);
      SortIsStable(rest, v);
      FilterCons(head, SortDescending(rest), p);
      FilterCons(head, rest, p);
    }
  }

  /** A record of `u` with the same percentage as the head of `t` exists, so
      the head of a descending `u` is at least as high. */
  lemma HeadDominates(t: seq<Combined>, u: seq<Combined>)
    requires t != [] && SortedDescending(u)
    requires Filter(t, HasPercentage(t[0].percentage)) == Filter(u, HasPercentage(t[0].percentage))
    ensures u != [] && u[0].percentage >= t[0].percentage
  {
    var p := HasPercentage(t[0].percentage);
    assert t[0] in t && p(t[0]);
    assert t[0] in Filter(u, p);
    HeadBounds(u);
  }

  /** Two descending sequences that agree on the records of every percentage
      have the same head. */
  lemma HeadsAgree(t: seq<Combined>, u: seq<Combined>)
    requires t != [] && u != [] && SortedDescending(t) && SortedDescending(u)
    requires forall v :: Filter(t, HasPercentage(v)) == Filter(u, HasPercentage(v))
    ensures t[0] == u[0]
  {
    HeadDominates(t, u);
    HeadDominates(u, t);
    var p := HasPercentage(t[0].percentage);
    assert p(t[0]) && p(u[0]);
    assert Filter(t, p)[0] == t[0];
    assert Filter(u, p)[0] == u[0];
  }

  /** Removing the same head from two sequences keeps their filters equal. */
  lemma FilterTailsAgree(t: seq<Combined>, u: seq<Combined>, v: int)
    requires t != [] && u != [] && t[0] == u[0]
    requires Filter(t, HasPercentage(v)) == Filter(u, HasPercentage(v))
    ensures Filter(t[1..], HasPercentage(v)) == Filter(u[1..], HasPercentage(v))
  {
    var p := HasPercentage(v);
    var head := if p(t[0]) then [t[0]] else [];
    assert Filter(t, p) == head + Filter(t[1..], p);
    assert Filter(u, p) == head + Filter(u[1..], p);
    assert Filter(t[1..], p) == (head + Filter(t[1..], p))[|head|..];
    assert Filter(u[1..], p) == (head + Filter(u[1..], p))[|head|..];
  }

  /** Sortedness and stability pin the result down: two descending sequences
      that agree, for every percentage, on the records with that percentage
      are equal. So any stable descending sort of the records gives the same
      list as SortDescending. */
  lemma {:induction false} StableSortUnique(t: seq<Combined>, u: seq<Combined>)
    requires SortedDescending(t) && SortedDescending(u)
    requires forall v :: Filter(t, HasPercentage(v)) == Filter(u, HasPercentage(v))
    ensures t == u
  {
    if t != [] {
      HeadDominates(t, u);
    }
    if u != [] {
      HeadDominates(u, t);
    }
    if t != [] {
      HeadsAgree(t, u);
      forall v
        ensures Filter(t[1..], HasPercentage(v)) == Filter(u[1..], HasPercentage(v))
      {
        FilterTailsAgree(t, u, v);
      }
      StableSortUnique(t[1..], u[1..]);
      SameHeadAndTail(t, u);
    }
  }

  /** Sequences with the same head and the same tail are equal. */
  lemma SameHeadAndTail(t: seq<Combined>, u: seq<Combined>)
    requires t != [] && u != [] && t[0] == u[0] && t[1..] == u[1..]
    ensures t == u
  {
    assert t == [t[0]] + t[1..];
    assert u == [u[0]] + u[1..];
  }

  /** A descending sequence cut at `n`: nothing after the cut is higher than
      anything before it. */
  lemma CutSorted(cs: seq<Combined>, n: nat)
    requires n <= |cs| && SortedDescending(cs)
    ensures forall c, d :: c in cs[n..] && d in cs[..n] ==> c.percentage <= d.percentage
  {
    forall c, d | c in cs[n..] && d in cs[..n] ensures c.percentage <= d.percentage {
      var i :| 0 <= i < n && cs[..n][i] == d;
      var j :| 0 <= j < |cs| - n && cs[n..][j] == c;
      assert cs[i] == d && cs[n + j] == c;
    }
  }

  /** top_students: the first `count` records of the descending sort, or all
      of them when `count` exceeds the roster. No record left out has a
      higher percentage than a record kept. */
  function TopStudents(roster: seq<Student>, count: nat): (r: seq<Combined>)
    ensures |r| == if count < |roster| then count else |roster|
    ensures SortedDescending(r)
    ensures multiset(r) <= multiset(CombinedData(roster))
    ensures forall c, d :: c in multiset(CombinedData(roster)) - multiset(r) && d in r ==>
      c.percentage <= d.percentage
  {
    var sorted := SortDescending(CombinedData(roster));
    var n := if count < |sorted| then count else |sorted|;
    MultisetSplit(sorted, n);
    CutSorted(sorted, n);
    assert forall c :: c in multiset(sorted) - multiset(sorted[..n]) ==> c in sorted[n..];
    sorted[..n]
  }

  /** Among the records kept by top_students, equal percentages keep roster
      order: for each percentage, the kept records with it are a prefix of the
      roster's records with it. */
  lemma TopStudentsKeepTies(roster: seq<Student>, count: nat, v: int)
    ensures Filter(TopStudents(roster, count), HasPercentage(v)) <= Filter(CombinedData(roster), HasPercentage(v))
  {
    var sorted := SortDescending(CombinedData(roster));
    var n := if count < |sorted| then count else |sorted|;
    assert TopStudents(roster, count) == sorted[..n];
    FilterPrefix(sorted, n, HasPercentage(v));
    SortIsStable(CombinedData(roster), v);
  }
}
