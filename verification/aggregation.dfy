/** The fold that turns the input rows into one span per (employee, project):
    the first row for a pair creates its span, every later row widens it to the
    smallest span enclosing both. */
module Aggregation {

  import opened Records

  /** The last day of a row: its own end, or `now` when the field was empty. */
  function EndOf(row: Row, now: Day): (d: Day)
    ensures row.end == Some(d) || (row.end == None && d == now)
  {
    if row.end.Some? then row.end.value else now
  }

  /** `outer` contains every day of `inner`. */
  predicate Encloses(outer: Project, inner: Project) {
    outer.start <= inner.start && inner.end <= outer.end
  }

  /** The span a later row leaves behind: the smallest one enclosing both the
      existing span and `[start, end]`. */
  function Widen(p: Project, start: Day, end: Day): (r: Project)
    ensures Encloses(r, p) && Encloses(r, Project(start, end))
    ensures r.start == p.start || r.start == start
    ensures r.end == p.end || r.end == end
  {
    Project(if start < p.start then start else p.start,
            if end > p.end then end else p.end)
  }

  /** Folds one row into the table.  Only the entry for the row's
      (employee, project) changes; a new pair gets the row's own span, a known
      one is widened. */
  function AddRow(res: Results, row: Row, now: Day): (r: Results)
    ensures r.Keys == res.Keys + {row.empId}
    ensures forall e :: e in res && e != row.empId ==> r[e] == res[e]
    ensures r[row.empId].Keys == (if row.empId in res then res[row.empId].Keys else {}) + {row.projectId}
    ensures row.empId in res ==>
              forall p :: p in res[row.empId] && p != row.projectId ==> r[row.empId][p] == res[row.empId][p]
    ensures row.empId !in res || row.projectId !in res[row.empId] ==>
              r[row.empId][row.projectId] == Project(row.start, EndOf(row, now))
    ensures row.empId in res && row.projectId in res[row.empId] ==>
              r[row.empId][row.projectId] == Widen(res[row.empId][row.projectId], row.start, EndOf(row, now))
  {
    var projects := if row.empId in res then res[row.empId] else map[];
    var span := if row.projectId in projects
                then Widen(projects[row.projectId], row.start, EndOf(row, now))
                else Project(row.start, EndOf(row, now));
    res[row.empId := projects[row.projectId := span]]
  }

  /** The table after folding every row in order into an empty one. */
  /** Some row is about employee `e` and project `p`. */
  ghost predicate HasPair(rows: seq<Row>, e: EmpId, p: ProjectId) {
    exists row :: row in rows && row.empId == e && row.projectId == p
  }

  /** The table after folding every row in order into an empty one: every
      (employee, project) pair a row names is listed (`AggregateEntry` gives
      the converse and the spans). */
  function Aggregate(rows: seq<Row>, now: Day): (r: Results)
    decreases |rows|
    ensures forall row :: row in rows ==> row.empId in r && row.projectId in r[row.empId]
  {
    if |rows| == 0 then map[]
    else
      var init, last := rows[..|rows| - 1], rows[|rows| - 1];
      assert rows == init + [last];
      AddRow(Aggregate(init, now), last, now)
  }

  /** `r` is what folding `rows` must give for employee `e` and project `p`:
      the employee is present iff some row names them, the project iff some
      row names the pair, and its span runs from the least start to the
      greatest resolved end of those rows, both attained. */
  ghost predicate Describes(r: Results, rows: seq<Row>, now: Day, e: EmpId, p: ProjectId) {
    && (e in r <==> exists row :: row in rows && row.empId == e)
    && (e in r && p in r[e] <==> HasPair(rows, e, p))
    && (e in r && p in r[e] ==>
          && (forall row :: row in rows && row.empId == e && row.projectId == p ==>
                r[e][p].start <= row.start && EndOf(row, now) <= r[e][p].end)
          && (exists row :: row in rows && row.empId == e && row.projectId == p && row.start == r[e][p].start)
          && (exists row :: row in rows && row.empId == e && row.projectId == p && EndOf(row, now) == r[e][p].end))
  }

  /** Folding one more row into a table that describes `init` gives one that
      describes `init + [last]`. */
  lemma DescribesStep(prev: Results, init: seq<Row>, last: Row, now: Day, e: EmpId, p: ProjectId)
    requires Describes(prev, init, now, e, p)
    ensures Describes(AddRow(prev, last, now), init + [last], now, e, p)
  {
    var rows := init + [last];
    var r: Results := AddRow(prev, last, now);
    assert forall row :: row in rows <==> row in init || row == last;
    if e in r && p in r[e] {
      if last.empId == e && last.projectId == p {
        if e in prev && p in prev[e] {
          var lo :| lo in init && lo.empId == e && lo.projectId == p && lo.start == prev[e][p].start;
          var hi :| hi in init && hi.empId == e && hi.projectId == p && EndOf(hi, now) == prev[e][p].end;
          if r[e][p].start != lo.start {
            assert last.start == r[e][p].start;
          }
          if r[e][p].end != EndOf(hi, now) {
            assert EndOf(last, now) == r[e][p].end;
          }
        } else {
          assert forall row :: row in init ==> !(row.empId == e && row.projectId == p);
        }
      } else {
        assert e in prev && p in prev[e];
        assert r[e][p] == prev[e][p];
      }
    }
  }

  /** What the fold computes, independently of how: an employee is present iff
      some row names them, a project iff some row names the pair, and its span
      runs from the least start to the greatest (resolved) end of those rows. */
  lemma {:induction false} AggregateEntry(rows: seq<Row>, now: Day, e: EmpId, p: ProjectId)
    ensures var r := Aggregate(rows, now);
      && (e in r <==> exists row :: row in rows && row.empId == e)
      && (e in r && p in r[e] <==> HasPair(rows, e, p))
    ensures var r := Aggregate(rows, now);
      e in r && p in r[e] ==>
        && (forall row :: row in rows && row.empId == e && row.projectId == p ==>
              r[e][p].start <= row.start && EndOf(row, now) <= r[e][p].end)
        && (exists row :: row in rows && row.empId == e && row.projectId == p && row.start == r[e][p].start)
        && (exists row :: row in rows && row.empId == e && row.projectId == p && EndOf(row, now) == r[e][p].end)
    decreases |rows|
  {
    if |rows| > 0 {
      var init, last := rows[..|rows| - 1], rows[|rows| - 1];
      assert rows == init + [last];
      AggregateEntry(init, now, e, p);
      DescribesStep(Aggregate(init, now), init, last, now, e, p);
    }
    assert Describes(Aggregate(rows, now), rows, now, e, p);
  }

  /** Two row sequences with the same rows give an employee the same span on
      a project: the least start and the greatest end of the same rows. */
  lemma SameRowsSameSpan(rows1: seq<Row>, rows2: seq<Row>, now: Day, e: EmpId, p: ProjectId)
    requires forall row :: row in rows1 <==> row in rows2
    requires e in Aggregate(rows1, now) && p in Aggregate(rows1, now)[e]
    ensures e in Aggregate(rows2, now) && p in Aggregate(rows2, now)[e]
    ensures Aggregate(rows1, now)[e][p] == Aggregate(rows2, now)[e][p]
  {
    var a: Results, b: Results := Aggregate(rows1, now), Aggregate(rows2, now);
    AggregateEntry(rows1, now, e, p);
    AggregateEntry(rows2, now, e, p);
    var lo1 :| lo1 in rows1 && lo1.empId == e && lo1.projectId == p && lo1.start == a[e][p].start;
    var lo2 :| lo2 in rows2 && lo2.empId == e && lo2.projectId == p && lo2.start == b[e][p].start;
    var hi1 :| hi1 in rows1 && hi1.empId == e && hi1.projectId == p && EndOf(hi1, now) == a[e][p].end;
    var hi2 :| hi2 in rows2 && hi2.empId == e && hi2.projectId == p && EndOf(hi2, now) == b[e][p].end;
    assert lo1 in rows2 && hi1 in rows2 && lo2 in rows1 && hi2 in rows1;
  }

  /** The table depends only on which rows occur, not on their order or
      repetition: min and max are commutative, associative and idempotent. */
  lemma AggregateDependsOnlyOnRowSet(rows1: seq<Row>, rows2: seq<Row>, now: Day)
    requires forall row :: row in rows1 <==> row in rows2
    ensures Aggregate(rows1, now) == Aggregate(rows2, now)
  {
    var a: Results, b: Results := Aggregate(rows1, now), Aggregate(rows2, now);
    forall e ensures e in a <==> e in b {
      AggregateEntry(rows1, now, e, "");
      AggregateEntry(rows2, now, e, "");
    }
    forall e | e in a ensures a[e] == b[e] {
      forall p ensures p in a[e] <==> p in b[e] {
        AggregateEntry(rows1, now, e, p);
        AggregateEntry(rows2, now, e, p);
      }
      forall p | p in a[e] ensures a[e][p] == b[e][p] {
        SameRowsSameSpan(rows1, rows2, now, e, p);
      }
    }
  }

  /** Reordering the rows leaves the table unchanged. */
  lemma AggregateIgnoresRowOrder(rows1: seq<Row>, rows2: seq<Row>, now: Day)
    requires multiset(rows1) == multiset(rows2)
    ensures Aggregate(rows1, now) == Aggregate(rows2, now)
  {
    forall row ensures row in rows1 <==> row in rows2 {
      assert row in rows1 <==> row in multiset(rows1);
      assert row in rows2 <==> row in multiset(rows2);
    }
    AggregateDependsOnlyOnRowSet(rows1, rows2, now);
  }

  /** Every span starts no later than it ends. */
  ghost predicate WellFormed(res: Results) {
    forall e, p :: e in res && p in res[e] ==> res[e][p].start <= res[e][p].end
  }

  /** Every entry of `res` is still present in `res'` and enclosed by it there. */
  ghost predicate GrownInto(res: Results, res': Results) {
    forall e, p :: e in res && p in res[e] ==> e in res' && p in res'[e] && Encloses(res'[e][p], res[e][p])
  }

  /** When every row starts no later than it ends, so does every span. */
  lemma {:induction false} AggregateWellFormed(rows: seq<Row>, now: Day)
    requires forall row :: row in rows ==> row.start <= EndOf(row, now)
    ensures WellFormed(Aggregate(rows, now))
    decreases |rows|
  {
    if |rows| > 0 {
      var init, last := rows[..|rows| - 1], rows[|rows| - 1];
      assert rows == init + [last];
      AggregateWellFormed(init, now);
      var prev: Results, r: Results := Aggregate(init, now), Aggregate(rows, now);
      assert r == AddRow(prev, last, now);
      forall e, p | e in r && p in r[e] ensures r[e][p].start <= r[e][p].end {
        if e != last.empId || p != last.projectId {
          assert r[e][p] == prev[e][p];
        } else if e in prev && p in prev[e] {
          assert prev[e][p].start <= prev[e][p].end;
        } else {
          assert last in rows;
        }
      }
    }
  }

  /** Folding one row never removes an entry or shrinks a span. */
  lemma AddRowWidens(res: Results, row: Row, now: Day)
    ensures GrownInto(res, AddRow(res, row, now))
  {
  }

  lemma GrownIntoTransitive(a: Results, b: Results, c: Results)
    requires GrownInto(a, b) && GrownInto(b, c)
    ensures GrownInto(a, c)
  {
  }

  /** Further rows never shrink a span: every entry of the table built from
      `rows` is enclosed by the same entry after `more` are folded in. */
  lemma {:induction false} AggregateOnlyWidens(rows: seq<Row>, more: seq<Row>, now: Day)
    ensures GrownInto(Aggregate(rows, now), Aggregate(rows + more, now))
    decreases |more|
  {
    if |more| == 0 {
      assert rows + more == rows;
    } else {
      var init, last := more[..|more| - 1], more[|more| - 1];
      assert (rows + more)[..|rows + more| - 1] == rows + init;
      AggregateOnlyWidens(rows, init, now);
      var mid: Results := Aggregate(rows + init, now);
      assert Aggregate(rows + more, now) == AddRow(mid, last, now);
      AddRowWidens(mid, last, now);
      GrownIntoTransitive(Aggregate(rows, now), mid, Aggregate(rows + more, now));
    }
  }
}
