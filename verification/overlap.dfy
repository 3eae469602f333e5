/** The overlap of two employees' projects: for every project both worked on,
    the inclusive length of the intersection of their spans, and the first
    project with the strictly longest positive overlap. */
module Overlaps {

  import opened Records
  import FirstMax

  /** The days both spans cover: from the later start to the earlier end.
      The result starts after its end when the spans are disjoint. */
  function Intersect(a: Project, b: Project): (r: Project)
    ensures r.start >= a.start && r.start >= b.start && (r.start == a.start || r.start == b.start)
    ensures r.end <= a.end && r.end <= b.end && (r.end == a.end || r.end == b.end)
  {
    Project(if a.start > b.start then a.start else b.start,
            if a.end < b.end then a.end else b.end)
  }

  /** Length of the intersection counting both boundary days; zero or
      negative for disjoint spans. */
  function OverlapDays(a: Project, b: Project): (n: int)
    ensures n <= a.end - a.start + 1 && n <= b.end - b.start + 1
  {
    var i := Intersect(a, b);
    i.end - i.start + 1
  }

  /** The days from `lo` to `hi`, both included. */
  ghost function DaysIn(lo: int, hi: int): set<int>
    decreases hi - lo
  {
    if lo > hi then {} else DaysIn(lo, hi - 1) + {hi}
  }

  /** The days on which both spans are active. */
  ghost function CommonDays(a: Project, b: Project): set<int> {
    set d | d in DaysIn(a.start, a.end) && d in DaysIn(b.start, b.end)
  }

  lemma {:induction false} DaysInMembers(lo: int, hi: int, d: int)
    ensures d in DaysIn(lo, hi) <==> lo <= d <= hi
    decreases hi - lo
  {
    if lo <= hi {
      DaysInMembers(lo, hi - 1, d);
    }
  }

  lemma {:induction false} DaysInCount(lo: int, hi: int)
    ensures |DaysIn(lo, hi)| == if lo <= hi then hi - lo + 1 else 0
    decreases hi - lo
  {
    if lo <= hi {
      DaysInMembers(lo, hi - 1, hi);
      DaysInCount(lo, hi - 1);
    }
  }

  /** The inclusive length is exactly the number of shared days when it is
      positive, and there is no shared day otherwise: two spans meeting on a
      single day overlap by one day, disjoint spans by none. */
  lemma OverlapDaysCountsCommonDays(a: Project, b: Project)
    ensures |CommonDays(a, b)| == if OverlapDays(a, b) > 0 then OverlapDays(a, b) else 0
  {
    var i := Intersect(a, b);
    forall d ensures d in CommonDays(a, b) <==> d in DaysIn(i.start, i.end) {
      DaysInMembers(a.start, a.end, d);
      DaysInMembers(b.start, b.end, d);
      DaysInMembers(i.start, i.end, d);
    }
    assert CommonDays(a, b) == DaysIn(i.start, i.end);
    DaysInCount(i.start, i.end);
  }

  /** The overlap on project `k`, or zero when only one side has it (such a
      project is never chosen, since only a positive overlap beats the start). */
  function KeyDays(p1: Projects, p2: Projects, k: ProjectId): int {
    if k in p1 && k in p2 then OverlapDays(p1[k], p2[k]) else 0
  }

  /** The overlap of every project in iteration order. */
  function KeyScores(p1: Projects, p2: Projects, keys: seq<ProjectId>): (s: seq<int>)
    ensures |s| == |keys|
    ensures forall i :: 0 <= i < |keys| ==> s[i] == KeyDays(p1, p2, keys[i])
  {
    seq(|keys|, i requires 0 <= i < |keys| => KeyDays(p1, p2, keys[i]))
  }

  /** The longest overlap of two employees' projects.  `keys` is the order in
      which the first employee's project ids are enumerated; the scan keeps
      the first project whose overlap is strictly longer than every earlier
      one, starting from a zero-day placeholder. */
  function GetOverlap(p1: Projects, p2: Projects, keys: seq<ProjectId>): (r: Overlap)
    ensures r.days >= 0
    ensures r.empId == None && r.otherEmpId == None
    ensures r.days > 0 <==> r.projectId.Some?
    ensures r.projectId.Some? ==>
              var k := r.projectId.value;
              k in keys && k in p1 && k in p2 && r.days == OverlapDays(p1[k], p2[k])
    ensures forall k :: k in keys && k in p1 && k in p2 ==> OverlapDays(p1[k], p2[k]) <= r.days
    ensures r.projectId.Some? ==>
              exists i :: 0 <= i < |keys| && keys[i] == r.projectId.value &&
                forall j :: 0 <= j < i ==> KeyDays(p1, p2, keys[j]) < r.days
  {
    var scores := KeyScores(p1, p2, keys);
    match FirstMax.Scan(scores)
    case None => NoOverlap
    case Some(i) => Overlap(scores[i], None, None, Some(keys[i]))
  }

  /** The length found is the best score of the scan. */
  lemma GetOverlapDaysIsBest(p1: Projects, p2: Projects, keys: seq<ProjectId>)
    ensures GetOverlap(p1, p2, keys).days == FirstMax.Best(KeyScores(p1, p2, keys))
  {
  }

  /** Two scans find the same length when they see the same shared projects
      with the same overlaps, each in an order that lists every one of them. */
  lemma GetOverlapDaysAgree(p1: Projects, p2: Projects, keys1: seq<ProjectId>,
                            q1: Projects, q2: Projects, keys2: seq<ProjectId>)
    requires forall k :: k in p1 && k in p2 <==> k in q1 && k in q2
    requires forall k :: k in p1 && k in p2 ==> OverlapDays(p1[k], p2[k]) == OverlapDays(q1[k], q2[k])
    requires forall k :: k in p1 && k in p2 ==> k in keys1 && k in keys2
    ensures GetOverlap(p1, p2, keys1).days == GetOverlap(q1, q2, keys2).days
  {
    var s1, s2 := KeyScores(p1, p2, keys1), KeyScores(q1, q2, keys2);
    forall i | 0 <= i < |s1| && s1[i] > 0 ensures s1[i] in s2 {
      var k := keys1[i];
      var j :| 0 <= j < |keys2| && keys2[j] == k;
      assert s2[j] == s1[i];
    }
    forall j | 0 <= j < |s2| && s2[j] > 0 ensures s2[j] in s1 {
      var k := keys2[j];
      var i :| 0 <= i < |keys1| && keys1[i] == k;
      assert s1[i] == s2[j];
    }
    FirstMax.BestDependsOnlyOnValues(s1, s2);
    GetOverlapDaysIsBest(p1, p2, keys1);
    GetOverlapDaysIsBest(q1, q2, keys2);
  }

  /** Swapping the two employees does not change the length found, whatever
      order either employee's projects are enumerated in. */
  lemma GetOverlapDaysSymmetric(p1: Projects, p2: Projects, keys1: seq<ProjectId>, keys2: seq<ProjectId>)
    requires Enumerates(keys1, p1) && Enumerates(keys2, p2)
    ensures GetOverlap(p1, p2, keys1).days == GetOverlap(p2, p1, keys2).days
  {
    GetOverlapDaysAgree(p1, p2, keys1, p2, p1, keys2);
  }

  /** The length found does not depend on the order the first employee's
      projects are enumerated in (only the project chosen among equally long
      overlaps does). */
  lemma GetOverlapDaysOrderFree(p1: Projects, p2: Projects, keys: seq<ProjectId>, keys': seq<ProjectId>)
    requires Enumerates(keys, p1) && Enumerates(keys', p1)
    ensures GetOverlap(p1, p2, keys).days == GetOverlap(p1, p2, keys').days
  {
    GetOverlapDaysAgree(p1, p2, keys, p1, p2, keys');
  }
}
