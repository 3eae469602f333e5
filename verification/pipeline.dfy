/** The whole run: rows are aggregated into a table, the table is listed in
    iteration order, and the pair search runs over the listing. */
module Pipeline {

  import opened Records
  import Aggregation
  import TopPairs

  /** However the rows are ordered, and whatever order the table's employees
      and projects are then enumerated in, the longest overlap found is the
      same. */
  lemma LongestOverlapIndependentOfOrder(rows1: seq<Row>, rows2: seq<Row>, now: Day,
                                         emps1: seq<TopPairs.Employee>, emps2: seq<TopPairs.Employee>)
    requires multiset(rows1) == multiset(rows2)
    requires TopPairs.Lists(emps1, Aggregation.Aggregate(rows1, now))
    requires TopPairs.Lists(emps2, Aggregation.Aggregate(rows2, now))
    ensures TopPairs.TopPair(emps1).days == TopPairs.TopPair(emps2).days
  {
    Aggregation.AggregateIgnoresRowOrder(rows1, rows2, now);
    TopPairs.TopPairDaysIndependentOfOrder(Aggregation.Aggregate(rows1, now), emps1, emps2);
  }
}
