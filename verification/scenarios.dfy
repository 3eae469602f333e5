/** Worked examples, with dates of 2020 written as day-of-year numbers
    (January 1 is day 1, February 1 is day 32, March 1 is day 61). */
module Scenarios {

  import opened Records
  import Aggregation
  import Overlaps
  import TopPairs
  import FirstMax

  /** The documented example: three projects each, two of them shared.  Project
      1 overlaps from January 15 to 31 (17 days), project 2 from February 1 to
      15 (15 days), so project 1 wins with 17 days and no employee ids. */
  lemma DocumentedExample()
    ensures var p1 := map["1" := Project(1, 31), "2" := Project(32, 59), "3" := Project(61, 91)];
            var p2 := map["1" := Project(15, 31), "2" := Project(32, 46), "4" := Project(61, 91)];
      Overlaps.GetOverlap(p1, p2, ["1", "2", "3"]) == Overlap(17, None, None, Some("1"))
  {
    var p1 := map["1" := Project(1, 31), "2" := Project(32, 59), "3" := Project(61, 91)];
    var p2 := map["1" := Project(15, 31), "2" := Project(32, 46), "4" := Project(61, 91)];
    assert "3" !in p2;
    assert Overlaps.KeyScores(p1, p2, ["1", "2", "3"]) == [17, 15, 0];
    assert FirstMax.Scan([17]) == Some(0);
    assert [17, 15, 0][..2] == [17, 15] && [17, 15][..1] == [17];
    assert FirstMax.Scan([17, 15, 0]) == Some(0);
  }

  /** Spans that share only their boundary day overlap by one day; spans that
      do not touch overlap by none. */
  lemma BoundaryDayCounts(a: Project, b: Project)
    requires a.start <= a.end == b.start <= b.end
    ensures Overlaps.OverlapDays(a, b) == 1
    ensures Overlaps.OverlapDays(a, Project(b.start + 1, b.end + 1)) <= 0
  {
  }

  /** Two rows for the same employee and project, February 1 to 10 and
      February 5 to 20, merge into February 1 to 20. */
  lemma DuplicateRowsMerge(now: Day)
    ensures Aggregation.Aggregate([Row("A", "P1", 32, Some(41)), Row("A", "P1", 36, Some(51))], now)
         == map["A" := map["P1" := Project(32, 51)]]
  {
    var rows := [Row("A", "P1", 32, Some(41)), Row("A", "P1", 36, Some(51))];
    assert rows[..1] == [Row("A", "P1", 32, Some(41))];
    assert [Row("A", "P1", 32, Some(41))][..0] == [];
    var first := Aggregation.Aggregate(rows[..1], now);
    assert first == map["A" := map["P1" := Project(32, 41)]];
    assert Aggregation.Widen(Project(32, 41), 36, 51) == Project(32, 51);
    var r := Aggregation.AddRow(first, rows[1], now);
    assert Aggregation.Aggregate(rows, now) == r;
    assert r.Keys == {"A"} && r["A"].Keys == {"P1"} && r["A"]["P1"] == Project(32, 51);
    assert r["A"] == map["P1" := Project(32, 51)];
  }

  /** A row with an empty end field runs until `now`. */
  lemma OpenRowRunsUntilNow(now: Day)
    ensures Aggregation.Aggregate([Row("A", "P1", 1, None)], now) == map["A" := map["P1" := Project(1, now)]]
  {
    assert [Row("A", "P1", 1, None)][..0] == [];
  }

  /** Three employees: A and B share five days of P1, A and C ten days of P2. */
  function ThreeEmployees(): seq<TopPairs.Employee> {
    [TopPairs.Employee("A", ["P1", "P2"], map["P1" := Project(1, 10), "P2" := Project(1, 10)]),
     TopPairs.Employee("B", ["P1"], map["P1" := Project(6, 10)]),
     TopPairs.Employee("C", ["P2"], map["P2" := Project(1, 10)])]
  }

  lemma ThreeEmployeesOverlaps()
    ensures var emps := ThreeEmployees();
      && TopPairs.PairDays(emps, (0, 1)) == 5
      && TopPairs.PairDays(emps, (0, 2)) == 10
      && TopPairs.PairDays(emps, (1, 2)) == 0
      && TopPairs.Tagged(emps, (0, 2)) == Overlap(10, Some("A"), Some("C"), Some("P2"))
  {
    var emps := ThreeEmployees();
    var a, b, c := emps[0], emps[1], emps[2];
    assert "P2" !in b.projects && "P1" !in c.projects;
    assert Overlaps.KeyScores(a.projects, b.projects, a.keys) == [5, 0];
    assert Overlaps.KeyScores(a.projects, c.projects, a.keys) == [0, 10];
    assert [0, 10][..1] == [0];
    assert FirstMax.Scan([0]) == None;
    assert FirstMax.Scan([0, 10]) == Some(1);
    assert Overlaps.KeyScores(b.projects, c.projects, b.keys) == [0];
  }

  /** The search reports A and C on P2 with ten days: no pair beats it, and
      the only pair reaching ten days is A with C. */
  lemma ThreeEmployeesTopPair()
    ensures TopPairs.TopPair(ThreeEmployees()) == Overlap(10, Some("A"), Some("C"), Some("P2"))
  {
    var emps := ThreeEmployees();
    ThreeEmployeesOverlaps();
    assert emps[0].id != emps[2].id;
    forall i', j' | 0 <= i' < j' < |emps| && (i', j') != (0, 2)
      ensures TopPairs.PairDays(emps, (i', j')) < TopPairs.PairDays(emps, (0, 2))
    {
      assert (i', j') == (0, 1) || (i', j') == (1, 2);
    }
    TopPairs.UniqueLongestPairWins(emps, 0, 2);
  }

  /** Three employees on the same ten days of P1: every pair ties. */
  function TiedEmployees(): seq<TopPairs.Employee> {
    [TopPairs.Employee("A", ["P1"], map["P1" := Project(1, 10)]),
     TopPairs.Employee("B", ["P1"], map["P1" := Project(1, 10)]),
     TopPairs.Employee("C", ["P1"], map["P1" := Project(1, 10)])]
  }

  lemma TiedEmployeesOverlap()
    ensures var emps := TiedEmployees();
      && TopPairs.PairDays(emps, (0, 1)) == 10
      && TopPairs.PairDays(emps, (0, 2)) == 10
      && TopPairs.PairDays(emps, (1, 2)) == 10
      && TopPairs.Tagged(emps, (0, 1)) == Overlap(10, Some("A"), Some("B"), Some("P1"))
  {
    var emps := TiedEmployees();
    assert emps[0].projects == emps[1].projects == emps[2].projects;
    assert Overlaps.KeyScores(emps[0].projects, emps[1].projects, ["P1"]) == [10];
    assert FirstMax.Scan([10]) == Some(0);
  }

  /** On a three-way tie the search keeps the pair the loops meet first, A
      with B, since only a strictly longer overlap replaces it. */
  lemma TiedPairsKeepFirst()
    ensures TopPairs.TopPair(TiedEmployees()) == Overlap(10, Some("A"), Some("B"), Some("P1"))
  {
    var emps := TiedEmployees();
    TiedEmployeesOverlap();
    forall i', j' | 0 <= i' < j' < |emps|
      ensures TopPairs.PairDays(emps, (i', j')) <= TopPairs.PairDays(emps, (0, 1))
    {
      assert (i', j') == (0, 1) || (i', j') == (0, 2) || (i', j') == (1, 2);
    }
    assert emps[0].id != emps[1].id;
    TopPairs.FirstLongestPairWins(emps, 0, 1);
  }
}
