/** The search for the pair of employees with the longest overlap: every
    unordered pair of distinct employees is evaluated once, from the employee
    met first, and the first strictly longest overlap wins. */
module TopPairs {

  import opened Records
  import FirstMax
  import Overlaps

  /** One employee as the loops meet them: their id, the order their project
      ids are enumerated in, and their projects. */
  datatype Employee = Employee(id: EmpId, keys: seq<ProjectId>, projects: Projects)

  /** `emps` lists the employees of `res` in iteration order: every employee
      exactly once, with their own projects and an enumeration of their ids. */
  ghost predicate Lists(emps: seq<Employee>, res: Results) {
    && (forall i :: 0 <= i < |emps| ==>
          emps[i].id in res && emps[i].projects == res[emps[i].id] && Enumerates(emps[i].keys, emps[i].projects))
    && (forall e :: e in res ==> exists i :: 0 <= i < |emps| && emps[i].id == e)
    && (forall i, j :: 0 <= i < j < |emps| ==> emps[i].id != emps[j].id)
  }

  /** Positions of the outer and the inner employee. */
  type Pair = (nat, nat)

  /** `p` comes before `q` when the outer loop reaches it first, or the inner
      loop does within the same outer employee. */
  predicate Before(p: Pair, q: Pair) {
    p.0 < q.0 || (p.0 == q.0 && p.1 < q.1)
  }

  /** The pairs the inner loop evaluates for outer employee `i`, from inner
      position `j` on: later employees only, never one with the same id. */
  function RowFrom(emps: seq<Employee>, i: nat, j: nat): (ps: seq<Pair>)
    requires i < |emps|
    decreases |emps| - j
    ensures forall p :: p in ps <==> p.0 == i && j <= p.1 < |emps| && emps[i].id != emps[p.1].id
    ensures forall a, b :: 0 <= a < b < |ps| ==> Before(ps[a], ps[b])
  {
    if j >= |emps| then []
    else (if emps[i].id != emps[j].id then [(i, j)] else []) + RowFrom(emps, i, j + 1)
  }

  /** The pairs evaluated once the outer loop has reached position `i`. */
  function PairsFrom(emps: seq<Employee>, i: nat): (ps: seq<Pair>)
    decreases |emps| - i
    ensures forall p :: p in ps <==> i <= p.0 < p.1 < |emps| && emps[p.0].id != emps[p.1].id
    ensures forall a, b :: 0 <= a < b < |ps| ==> Before(ps[a], ps[b])
  {
    if i >= |emps| then []
    else
      var row, rest := RowFrom(emps, i, i + 1), PairsFrom(emps, i + 1);
      assert forall a, b :: 0 <= a < |row| <= b < |row + rest| ==> Before((row + rest)[a], (row + rest)[b]) by {
        forall a, b | 0 <= a < |row| <= b < |row + rest|
          ensures Before((row + rest)[a], (row + rest)[b])
        {
          assert row[a] in row;
          assert rest[b - |row|] in rest;
        }
      }
      row + rest
  }

  /** Every pair of positions `i < j` holding distinct ids, each once, in the
      order the nested loops meet them. */
  function Pairs(emps: seq<Employee>): (ps: seq<Pair>)
    ensures forall p :: p in ps <==> p.0 < p.1 < |emps| && emps[p.0].id != emps[p.1].id
    ensures forall a, b :: 0 <= a < b < |ps| ==> Before(ps[a], ps[b])
    ensures forall a, b :: 0 <= a < b < |ps| ==> ps[a] != ps[b]
  {
    PairsFrom(emps, 0)
  }

  /** In a sequence ordered by `Before`, a pair that comes before another also
      sits at an earlier position. */
  lemma OrderedPositions(ps: seq<Pair>, a: nat, b: nat)
    requires forall x, y :: 0 <= x < y < |ps| ==> Before(ps[x], ps[y])
    requires a < |ps| && b < |ps| && Before(ps[a], ps[b])
    ensures a < b
  {
  }

  /** Every pair points into `emps`. */
  predicate InRange(emps: seq<Employee>, ps: seq<Pair>) {
    forall k :: 0 <= k < |ps| ==> ps[k].0 < |emps| && ps[k].1 < |emps|
  }

  /** The longest overlap of the pair's projects, enumerating the outer
      employee's project ids. */
  function PairDays(emps: seq<Employee>, p: Pair): int
    requires p.0 < |emps| && p.1 < |emps|
  {
    Overlaps.GetOverlap(emps[p.0].projects, emps[p.1].projects, emps[p.0].keys).days
  }

  /** The overlap of a pair, tagged with the outer and the inner employee. */
  function Tagged(emps: seq<Employee>, p: Pair): Overlap
    requires p.0 < |emps| && p.1 < |emps|
  {
    var o := Overlaps.GetOverlap(emps[p.0].projects, emps[p.1].projects, emps[p.0].keys);
    Overlap(o.days, Some(emps[p.0].id), Some(emps[p.1].id), o.projectId)
  }

  function PairScores(emps: seq<Employee>, ps: seq<Pair>): (s: seq<int>)
    requires InRange(emps, ps)
    ensures |s| == |ps|
    ensures forall k :: 0 <= k < |ps| ==> s[k] == PairDays(emps, ps[k])
  {
    seq(|ps|, k requires 0 <= k < |ps| && InRange(emps, ps) => PairDays(emps, ps[k]))
  }

  /** Evaluates the pairs in order, starting from the zero-day placeholder and
      replacing the current best only by a strictly longer overlap. */
  function Pick(emps: seq<Employee>, ps: seq<Pair>): (r: Overlap)
    requires InRange(emps, ps)
    ensures r.days >= 0
    ensures r.empId.None? ==> r == NoOverlap
    ensures r.days > 0 <==> r.empId.Some?
    ensures forall k :: 0 <= k < |ps| ==> PairDays(emps, ps[k]) <= r.days
    ensures r.empId.Some? ==>
              exists k :: 0 <= k < |ps| && r == Tagged(emps, ps[k]) &&
                forall k' :: 0 <= k' < k ==> PairDays(emps, ps[k']) < r.days
  {
    match FirstMax.Scan(PairScores(emps, ps))
    case None => NoOverlap
    case Some(k) => Tagged(emps, ps[k])
  }

  lemma PairsInRange(emps: seq<Employee>)
    ensures InRange(emps, Pairs(emps))
  {
    var ps := Pairs(emps);
    forall k | 0 <= k < |ps| ensures ps[k].0 < |emps| && ps[k].1 < |emps| {
      assert ps[k] in ps;
    }
  }

  /** The winner of the search over the enumerated pairs is a pair of
      positions `i < j` holding distinct ids. */
  lemma PickOverPairsWinner(emps: seq<Employee>)
    ensures InRange(emps, Pairs(emps))
    ensures var r := Pick(emps, Pairs(emps));
      r.empId.Some? ==> exists i, j :: 0 <= i < j < |emps| && emps[i].id != emps[j].id && r == Tagged(emps, (i, j))
  {
    PairsInRange(emps);
    var ps := Pairs(emps);
    var r := Pick(emps, ps);
    if r.empId.Some? {
      var k :| 0 <= k < |ps| && r == Tagged(emps, ps[k]);
      var i, j := ps[k].0, ps[k].1;
      assert ps[k] == (i, j);
      assert ps[k] in ps;
      assert 0 <= i < j < |emps| && emps[i].id != emps[j].id && r == Tagged(emps, (i, j));
    }
  }

  /** The search over the enumerated pairs ends with at least the overlap of
      every pair of positions `i < j` holding distinct ids. */
  lemma PickOverPairsBound(emps: seq<Employee>)
    ensures InRange(emps, Pairs(emps))
    ensures var r := Pick(emps, Pairs(emps));
      forall i, j :: 0 <= i < j < |emps| && emps[i].id != emps[j].id ==> PairDays(emps, (i, j)) <= r.days
  {
    PairsInRange(emps);
    var ps := Pairs(emps);
    var r := Pick(emps, ps);
    forall i, j | 0 <= i < j < |emps| && emps[i].id != emps[j].id ensures PairDays(emps, (i, j)) <= r.days {
      assert (i, j) in ps;
      var k :| 0 <= k < |ps| && ps[k] == (i, j);
    }
  }

  /** The pair search: the first pair, in loop order, with the strictly
      longest positive overlap, or the placeholder when no pair overlaps. */
  function TopPair(emps: seq<Employee>): (r: Overlap)
    ensures r.days >= 0
    ensures r.days > 0 <==> r.empId.Some?
    ensures r.empId.None? ==> r == NoOverlap
    ensures r.empId.Some? ==>
              exists i, j :: 0 <= i < j < |emps| && emps[i].id != emps[j].id && r == Tagged(emps, (i, j))
    ensures r.empId.Some? ==> r.otherEmpId.Some? && r.empId != r.otherEmpId
    ensures forall i, j :: 0 <= i < j < |emps| && emps[i].id != emps[j].id ==> PairDays(emps, (i, j)) <= r.days
  {
    PickOverPairsWinner(emps);
    PickOverPairsBound(emps);
    Pick(emps, Pairs(emps))
  }

  /** The position in the pair enumeration of the pair the search reports,
      when it reports one; every pair enumerated before it overlaps strictly
      less. */
  lemma PickOverPairsFirst(emps: seq<Employee>) returns (k: nat)
    ensures InRange(emps, Pairs(emps))
    ensures var ps, r := Pairs(emps), Pick(emps, Pairs(emps));
      r.empId.Some? ==> k < |ps| && r == Tagged(emps, ps[k]) && forall k' :: 0 <= k' < k ==> PairDays(emps, ps[k']) < r.days
  {
    k := 0;
    PairsInRange(emps);
    var ps := Pairs(emps);
    var r := Pick(emps, ps);
    if r.empId.Some? {
      k :| 0 <= k < |ps| && r == Tagged(emps, ps[k]) && forall k' :: 0 <= k' < k ==> PairDays(emps, ps[k']) < r.days;
    }
  }

  /** Every pair of positions holding distinct ids that the loops meet before
      `(i, j)` overlaps by less than `d` days. */
  ghost predicate EarlierPairsBelow(emps: seq<Employee>, i: nat, j: nat, d: int) {
    forall i', j' :: 0 <= i' < j' < |emps| && emps[i'].id != emps[j'].id && Before((i', j'), (i, j)) ==>
      PairDays(emps, (i', j')) < d
  }

  /** When every pair enumerated before position `k` overlaps by less than
      `d`, so does every pair the loops meet before the pair at `k`. */
  lemma EarlierPairsShorter(emps: seq<Employee>, k: nat, d: int)
    requires InRange(emps, Pairs(emps)) && k < |Pairs(emps)|
    requires forall k' :: 0 <= k' < k ==> PairDays(emps, Pairs(emps)[k']) < d
    ensures EarlierPairsBelow(emps, Pairs(emps)[k].0, Pairs(emps)[k].1, d)
  {
    var ps := Pairs(emps);
    forall i', j' | 0 <= i' < j' < |emps| && emps[i'].id != emps[j'].id && Before((i', j'), ps[k])
      ensures PairDays(emps, (i', j')) < d
    {
      assert (i', j') in ps;
      var k' :| 0 <= k' < |ps| && ps[k'] == (i', j');
      OrderedPositions(ps, k', k);
    }
  }

  /** The positions of the pair the search reports, when it reports one: the
      first pair in loop order with the longest overlap, since every pair the
      loops meet earlier overlaps strictly less. */
  lemma TopPairWinner(emps: seq<Employee>) returns (i: nat, j: nat)
    ensures TopPair(emps).empId.Some? ==>
              i < j < |emps| && emps[i].id != emps[j].id && TopPair(emps) == Tagged(emps, (i, j))
    ensures TopPair(emps).empId.Some? ==> EarlierPairsBelow(emps, i, j, TopPair(emps).days)
  {
    i, j := 0, 0;
    var k := PickOverPairsFirst(emps);
    var ps := Pairs(emps);
    var r := Pick(emps, ps);
    if r.empId.Some? {
      assert ps[k] in ps;
      i, j := ps[k].0, ps[k].1;
      EarlierPairsShorter(emps, k, r.days);
    }
  }

  /** A pair whose overlap is positive and strictly longer than every other
      pair's is the one reported. */
  lemma UniqueLongestPairWins(emps: seq<Employee>, i: nat, j: nat)
    requires i < j < |emps| && emps[i].id != emps[j].id && PairDays(emps, (i, j)) > 0
    requires forall i', j' :: 0 <= i' < j' < |emps| && (i', j') != (i, j) ==> PairDays(emps, (i', j')) < PairDays(emps, (i, j))
    ensures TopPair(emps) == Tagged(emps, (i, j))
  {
    var r := TopPair(emps);
    assert PairDays(emps, (i, j)) <= r.days;
    var i', j' := TopPairWinner(emps);
    assert r.days == PairDays(emps, (i', j'));
    assert !(PairDays(emps, (i', j')) < PairDays(emps, (i, j)));
  }

  /** A pair with the longest positive overlap is the one reported when every
      pair the loops meet before it overlaps strictly less: among equally long
      pairs the first in loop order wins. */
  lemma FirstLongestPairWins(emps: seq<Employee>, i: nat, j: nat)
    requires i < j < |emps| && emps[i].id != emps[j].id && PairDays(emps, (i, j)) > 0
    requires forall i', j' :: 0 <= i' < j' < |emps| && emps[i'].id != emps[j'].id ==> PairDays(emps, (i', j')) <= PairDays(emps, (i, j))
    requires EarlierPairsBelow(emps, i, j, PairDays(emps, (i, j)))
    ensures TopPair(emps) == Tagged(emps, (i, j))
  {
    var r := TopPair(emps);
    assert PairDays(emps, (i, j)) <= r.days;
    var a, b := TopPairWinner(emps);
    assert r.days == PairDays(emps, (a, b));
    assert !Before((i, j), (a, b));
    assert !Before((a, b), (i, j));
  }

  /** The length the search ends with is the best of the pairs' scores. */
  lemma TopPairDaysIsBest(emps: seq<Employee>)
    ensures InRange(emps, Pairs(emps))
    ensures TopPair(emps).days == FirstMax.Best(PairScores(emps, Pairs(emps)))
  {
    var ps := Pairs(emps);
    forall k | 0 <= k < |ps| ensures ps[k].0 < |emps| && ps[k].1 < |emps| {
      assert ps[k] in ps;
    }
  }

  lemma PairScoreListed(emps: seq<Employee>, p: Pair)
    requires InRange(emps, Pairs(emps)) && p in Pairs(emps)
    ensures PairDays(emps, p) in PairScores(emps, Pairs(emps))
  {
    var ps := Pairs(emps);
    var k :| 0 <= k < |ps| && ps[k] == p;
    assert PairScores(emps, ps)[k] == PairDays(emps, p);
  }

  /** The same two employees, met in the same or in the opposite order,
      overlap by the same number of days. */
  lemma PairDaysAgree(e1: Employee, f1: Employee, e2: Employee, f2: Employee)
    requires Enumerates(e1.keys, e1.projects) && Enumerates(e2.keys, e2.projects) && Enumerates(f2.keys, f2.projects)
    requires e1.projects == e2.projects && f1.projects == f2.projects
    ensures Overlaps.GetOverlap(e1.projects, f1.projects, e1.keys).days
         == Overlaps.GetOverlap(e2.projects, f2.projects, e2.keys).days
    ensures Overlaps.GetOverlap(e1.projects, f1.projects, e1.keys).days
         == Overlaps.GetOverlap(f2.projects, e2.projects, f2.keys).days
  {
    Overlaps.GetOverlapDaysOrderFree(e1.projects, f1.projects, e1.keys, e2.keys);
    Overlaps.GetOverlapDaysSymmetric(e1.projects, f1.projects, e1.keys, f2.keys);
  }

  /** The position of employee `e` in a listing of the table. */
  lemma PositionOf(emps: seq<Employee>, res: Results, e: EmpId) returns (i: nat)
    requires Lists(emps, res) && e in res
    ensures i < |emps| && emps[i].id == e
    ensures emps[i].projects == res[e] && Enumerates(emps[i].keys, emps[i].projects)
  {
    i :| 0 <= i < |emps| && emps[i].id == e;
  }

  /** The score of pair `k` of one listing of the table is the score of some
      pair of the other listing: the same two employees, possibly swapped. */
  lemma ScoreCovered(res: Results, emps1: seq<Employee>, emps2: seq<Employee>, k: nat)
    requires Lists(emps1, res) && Lists(emps2, res)
    requires InRange(emps1, Pairs(emps1)) && InRange(emps2, Pairs(emps2))
    requires k < |Pairs(emps1)|
    ensures PairDays(emps1, Pairs(emps1)[k]) in PairScores(emps2, Pairs(emps2))
  {
    var ps1 := Pairs(emps1);
    var i, j := ps1[k].0, ps1[k].1;
    assert ps1[k] in ps1;
    assert i < j < |emps1| && emps1[i].id != emps1[j].id;
    var i2 := PositionOf(emps2, res, emps1[i].id);
    var j2 := PositionOf(emps2, res, emps1[j].id);
    PairDaysAgree(emps1[i], emps1[j], emps2[i2], emps2[j2]);
    if i2 < j2 {
      PairScoreListed(emps2, (i2, j2));
    } else {
      PairScoreListed(emps2, (j2, i2));
    }
  }

  lemma ScoresCovered(res: Results, emps1: seq<Employee>, emps2: seq<Employee>)
    requires Lists(emps1, res) && Lists(emps2, res)
    requires InRange(emps1, Pairs(emps1)) && InRange(emps2, Pairs(emps2))
    ensures var s1, s2 := PairScores(emps1, Pairs(emps1)), PairScores(emps2, Pairs(emps2));
      forall k :: 0 <= k < |s1| ==> s1[k] in s2
  {
    forall k | 0 <= k < |Pairs(emps1)| ensures PairDays(emps1, Pairs(emps1)[k]) in PairScores(emps2, Pairs(emps2)) {
      ScoreCovered(res, emps1, emps2, k);
    }
  }

  /** The longest overlap found depends only on the table, not on the order
      the employees or their projects are enumerated in; only which of several
      equally long pairs is reported does. */
  lemma TopPairDaysIndependentOfOrder(res: Results, emps1: seq<Employee>, emps2: seq<Employee>)
    requires Lists(emps1, res) && Lists(emps2, res)
    ensures TopPair(emps1).days == TopPair(emps2).days
  {
    TopPairDaysIsBest(emps1);
    TopPairDaysIsBest(emps2);
    ScoresCovered(res, emps1, emps2);
    ScoresCovered(res, emps2, emps1);
    FirstMax.BestDependsOnlyOnValues(PairScores(emps1, Pairs(emps1)), PairScores(emps2, Pairs(emps2)));
  }

  // The loops as written mark an employee visited by setting a `visited`
  // property on their project table, and skip inner employees carrying one.

  /** The name of the property that marks an employee visited. */
  const VisitedKey: ProjectId := "visited"

  /** The inner loop's guard as written: employee `j` is skipped when it is
      employee `i` itself or looks visited, either because it was already an
      outer employee (`j < i`) or because its table has a `visited` entry,
      which a project of that name provides. */
  predicate EvaluatedAsWritten(emps: seq<Employee>, i: nat, j: nat)
    requires i < |emps| && j < |emps|
  {
    emps[i].id != emps[j].id && !(j < i || VisitedKey in emps[j].projects)
  }

  /** The guard as written only ever lets a later employee with a different id
      through; it lets every such employee through unless their table has a
      `visited` entry, and none that has one. */
  lemma GuardAsWritten(emps: seq<Employee>, i: nat, j: nat)
    requires i < |emps| && j < |emps|
    ensures EvaluatedAsWritten(emps, i, j) ==> i < j && emps[i].id != emps[j].id
    ensures VisitedKey in emps[j].projects ==> !EvaluatedAsWritten(emps, i, j)
    ensures VisitedKey !in emps[j].projects ==> (EvaluatedAsWritten(emps, i, j) <==> i < j && emps[i].id != emps[j].id)
  {
  }

  /** The pairs the inner loop evaluates for outer employee `i`, from inner
      position `j` on, as written. */
  function GridRow(emps: seq<Employee>, i: nat, j: nat): (ps: seq<Pair>)
    requires i < |emps|
    decreases |emps| - j
    ensures forall p :: p in ps <==> p.0 == i && j <= p.1 < |emps| && EvaluatedAsWritten(emps, i, p.1)
  {
    if j >= |emps| then []
    else (if EvaluatedAsWritten(emps, i, j) then [(i, j)] else []) + GridRow(emps, i, j + 1)
  }

  /** The pairs the loops as written evaluate once the outer loop has reached
      position `i`. */
  function GridFrom(emps: seq<Employee>, i: nat): (ps: seq<Pair>)
    decreases |emps| - i
    ensures InRange(emps, ps)
    ensures forall p :: p in ps <==> i <= p.0 < |emps| && p.1 < |emps| && EvaluatedAsWritten(emps, p.0, p.1)
  {
    if i >= |emps| then []
    else
      var row, rest := GridRow(emps, i, 0), GridFrom(emps, i + 1);
      assert InRange(emps, row) by {
        forall k | 0 <= k < |row| ensures row[k].0 < |emps| && row[k].1 < |emps| {
          assert row[k] in row;
        }
      }
      row + rest
  }

  /** The search over the pairs the loops as written evaluate ends with at
      least each of their overlaps. */
  lemma PickOverGridBound(emps: seq<Employee>)
    ensures InRange(emps, GridFrom(emps, 0))
    ensures var r := Pick(emps, GridFrom(emps, 0));
      forall i, j :: 0 <= i < |emps| && 0 <= j < |emps| && EvaluatedAsWritten(emps, i, j) ==> PairDays(emps, (i, j)) <= r.days
  {
    var ps := GridFrom(emps, 0);
    forall i, j | 0 <= i < |emps| && 0 <= j < |emps| && EvaluatedAsWritten(emps, i, j)
      ensures PairDays(emps, (i, j)) <= Pick(emps, ps).days
    {
      assert (i, j) in ps;
      var k :| 0 <= k < |ps| && ps[k] == (i, j);
    }
  }

  /** A positive result of the search as written is the overlap of a pair the
      guard lets through. */
  lemma PickOverGridWinner(emps: seq<Employee>)
    ensures InRange(emps, GridFrom(emps, 0))
    ensures var r := Pick(emps, GridFrom(emps, 0));
      r.empId.Some? ==> exists i, j :: 0 <= i < |emps| && 0 <= j < |emps| && EvaluatedAsWritten(emps, i, j) && r == Tagged(emps, (i, j))
  {
    var ps := GridFrom(emps, 0);
    var r := Pick(emps, ps);
    if r.empId.Some? {
      var k :| 0 <= k < |ps| && r == Tagged(emps, ps[k]);
      assert ps[k] in ps;
      assert EvaluatedAsWritten(emps, ps[k].0, ps[k].1) && r == Tagged(emps, (ps[k].0, ps[k].1));
    }
  }

  /** The pair search exactly as written, `visited` guard included: the
      longest overlap among the pairs the guard lets through, or the
      placeholder when none of them overlaps. */
  function TopPairAsWritten(emps: seq<Employee>): (r: Overlap)
    ensures r.days >= 0
    ensures r.days > 0 <==> r.empId.Some?
    ensures r.empId.None? ==> r == NoOverlap
    ensures forall i, j :: 0 <= i < |emps| && 0 <= j < |emps| && EvaluatedAsWritten(emps, i, j) ==> PairDays(emps, (i, j)) <= r.days
    ensures r.empId.Some? ==>
              exists i, j :: 0 <= i < |emps| && 0 <= j < |emps| && EvaluatedAsWritten(emps, i, j) && r == Tagged(emps, (i, j))
  {
    PickOverGridBound(emps);
    PickOverGridWinner(emps);
    Pick(emps, GridFrom(emps, 0))
  }

  lemma {:induction false} GridRowMatchesRow(emps: seq<Employee>, i: nat, j: nat)
    requires i < |emps|
    requires forall n :: 0 <= n < |emps| ==> VisitedKey !in emps[n].projects
    ensures GridRow(emps, i, j) == RowFrom(emps, i, if j <= i then i + 1 else j)
    decreases |emps| - j
  {
    if j < |emps| {
      GridRowMatchesRow(emps, i, j + 1);
      if j <= i {
        assert !EvaluatedAsWritten(emps, i, j);
        assert GridRow(emps, i, j) == [] + GridRow(emps, i, j + 1);
      } else {
        assert EvaluatedAsWritten(emps, i, j) == (emps[i].id != emps[j].id);
      }
    }
  }

  lemma {:induction false} GridFromMatchesPairsFrom(emps: seq<Employee>, i: nat)
    requires forall n :: 0 <= n < |emps| ==> VisitedKey !in emps[n].projects
    ensures GridFrom(emps, i) == PairsFrom(emps, i)
    decreases |emps| - i
  {
    if i < |emps| {
      GridRowMatchesRow(emps, i, 0);
      GridFromMatchesPairsFrom(emps, i + 1);
    }
  }

  /** Unless some employee has a project called `visited`, the guard as
      written evaluates exactly the pairs `i < j`, so the search as written
      and the pair enumeration agree. */
  lemma AsWrittenAgreesWithoutVisitedProject(emps: seq<Employee>)
    requires forall n :: 0 <= n < |emps| ==> VisitedKey !in emps[n].projects
    ensures GridFrom(emps, 0) == Pairs(emps)
    ensures TopPairAsWritten(emps) == TopPair(emps)
  {
    GridFromMatchesPairsFrom(emps, 0);
  }

  /** Two employees on the same ten days of project `P1`; the second also has
      a project called `visited`. */
  function HiddenPairExample(): seq<Employee> {
    [Employee("1", ["P1"], map["P1" := Project(1, 10)]),
     Employee("2", ["P1", VisitedKey], map["P1" := Project(1, 10), VisitedKey := Project(1, 10)])]
  }

  /** As written the second employee of the example looks visited from the
      start, so the pair is never evaluated and the search reports no overlap. */
  lemma VisitedProjectHidesPair()
    ensures TopPairAsWritten(HiddenPairExample()) == NoOverlap
  {
    var emps := HiddenPairExample();
    assert emps[0].id != emps[1].id;
    assert VisitedKey in emps[1].projects;
    assert GridRow(emps, 0, 2) == [] && GridRow(emps, 1, 2) == [];
    assert !EvaluatedAsWritten(emps, 0, 1) && !EvaluatedAsWritten(emps, 0, 0);
    assert GridRow(emps, 0, 1) == [] && GridRow(emps, 0, 0) == [];
    assert !EvaluatedAsWritten(emps, 1, 1) && !EvaluatedAsWritten(emps, 1, 0);
    assert GridRow(emps, 1, 1) == [] && GridRow(emps, 1, 0) == [];
    assert GridFrom(emps, 2) == [] && GridFrom(emps, 1) == [];
    assert GridFrom(emps, 0) == [];
    assert PairScores(emps, []) == [];
  }

  /** The example's two employees share the ten days of `P1`. */
  lemma HiddenPairOverlap()
    ensures PairDays(HiddenPairExample(), (0, 1)) == 10
    ensures Tagged(HiddenPairExample(), (0, 1)) == Overlap(10, Some("1"), Some("2"), Some("P1"))
  {
    var emps := HiddenPairExample();
    var p1, p2 := emps[0].projects, emps[1].projects;
    assert Overlaps.KeyScores(p1, p2, ["P1"]) == [10];
    assert FirstMax.Scan([10]) == Some(0);
  }

  /** The pair enumeration evaluates the example's only pair and finds the
      ten shared days on `P1`. */
  lemma EnumerationFindsHiddenPair()
    ensures TopPair(HiddenPairExample()) == Overlap(10, Some("1"), Some("2"), Some("P1"))
  {
    var emps := HiddenPairExample();
    HiddenPairOverlap();
    assert |emps| == 2 && emps[0].id != emps[1].id;
    UniqueLongestPairWins(emps, 0, 1);
  }
}
