# Longest shared working time between two employees

A Dafny model of the date-interval core of a small browser tool. The tool
reads rows `employeeId, projectId, startDate, endDate` and reports the pair
of employees who worked together longest on one common project. The model
covers three steps, each as a pure function over immutable values:

- **Aggregation** (`aggregation.dfy`, module `Aggregation`). The rows are folded
  into a table `employee -> (project -> Project{start, end})`. An empty end
  field becomes a caller-supplied `now`. A repeated (employee, project) pair
  widens its span to the least start and the greatest end.
- **getOverlap** (`overlap.dfy`, module `Overlaps`). For two employees' project
  maps, each project both have is intersected: from the later start to the
  earlier end. The length counts both boundary days (`end - start + 1`). The
  first project with the strictly longest positive overlap is kept.
- **Pair search** (`top_pair.dfy`, module `TopPairs`). `getOverlap` runs over
  every unordered pair of distinct employees, evaluated once from the employee
  met first. The strictly longest result wins and is tagged with both ids.

Both searches share one first-wins running maximum (`first_max.dfy`, module
`FirstMax`). It starts from a zero-day placeholder and replaces the current
best only by a strictly larger value. `records.dfy` holds the shared records.
`pipeline.dfy` composes the steps. `scenarios.dfy` holds worked examples.

Dates are whole day numbers. Identifiers are strings, as the CSV fields are.
The JavaScript `for…in` enumeration order is an explicit input, because it
decides which result wins a tie:

- `getOverlap` takes the first employee's project ids as a sequence `keys`.
- The pair search takes the employees as a sequence of `Employee(id, keys, projects)`.
- `TopPairs.Lists` says when such a sequence lists a table.

The lemmas show that the winning *length* does not depend on either order;
only the choice among equally long results does.

Points about the code's behaviour that the model makes explicit:

- The `visited` marker (main.js:214, main.js:226) does not suppress valid
  pairs: an employee is marked only after their own inner loop, so the guard
  evaluates exactly the pairs `i < j`
  (`TopPairs.AsWrittenAgreesWithoutVisitedProject`). The one exception is a
  project literally named `visited`; see Findings.
- The code does not validate rows: a malformed row is folded like any other.
  Row parsing is outside the model.
- Overlap lengths are whole days here. The code divides milliseconds and rounds
  only for display.

## Model

| member | source | states |
|---|---|---|
| `Aggregation.Widen` | main.js:192-199 | a repeated row leaves the smallest span enclosing both the old span and the row's span: it encloses both, and each end comes from one of them |
| `Aggregation.EndOf` | main.js:183 | a row's last day is its own end date when the field is present, and `now` exactly when it is empty |
| `Aggregation.AddRow` | main.js:185-200 | folding a row changes only the entry of its own (employee, project). A first occurrence gets the row's span, with an empty end taken as `now`. A repeat gets the widened span. Every other employee and project entry is left as it was |
| `Aggregation.Aggregate` | main.js:180-201 | after the fold, every employee and every (employee, project) pair some row names is in the table |
| `Aggregation.AggregateEntry` | main.js:180-201 | an employee is in the table iff some row names them. A project is listed for them iff some row names the pair. Its span starts at the least start and ends at the greatest resolved end of those rows, and both bounds are attained by a row |
| `Aggregation.AggregateDependsOnlyOnRowSet` | main.js:180-201 | two row sequences with the same rows, in any order and with any repetition, give the same table |
| `Aggregation.AggregateIgnoresRowOrder` | main.js:180-201 | any permutation of the rows gives the same table |
| `Aggregation.AggregateWellFormed` | main.js:189-200 | if every row starts no later than its resolved end, every span of the table does too |
| `Aggregation.AggregateOnlyWidens` | main.js:189-200 | folding further rows never removes an entry or shrinks a span |
| `Overlaps.Intersect` | main.js:75-82 | the overlap interval starts at the larger of the two starts and ends at the smaller of the two ends |
| `Overlaps.OverlapDays` | main.js:83 | the inclusive length of the shared part is never longer than either span's own inclusive length |
| `Overlaps.OverlapDaysCountsCommonDays` | main.js:75-83 | a positive inclusive length `end - start + 1` equals the number of days both spans cover. A non-positive one means the spans share no day |
| `Overlaps.GetOverlap` | main.js:70-92 | the result is never negative and carries no employee ids. It names a project iff its length is positive, and that project is one both maps have. Its length is at least every shared project's overlap. Every project listed before the winner overlaps strictly less, so a tie keeps the first |
| `Overlaps.GetOverlapDaysAgree` | main.js:73-87 | two scans that see the same shared projects with the same overlaps find the same length, whatever order each enumerates them in |
| `Overlaps.GetOverlapDaysSymmetric` | main.js:70-92 | swapping the two employees leaves the length unchanged |
| `Overlaps.GetOverlapDaysOrderFree` | main.js:73-87 | the enumeration order of the first employee's projects does not change the length |
| `FirstMax.Scan` | main.js:85-87 | the scan ends on none iff no score is positive. Otherwise it ends on a position whose score is positive and at least every other score, and every earlier position scores strictly less |
| `FirstMax.Best` | main.js:85-87 | the value kept is zero or one of the scores, is non-negative, and is at least every score |
| `FirstMax.ScanIsFirstMaximum` | main.js:85-87 | the first position holding the largest positive score is exactly the one the scan returns |
| `FirstMax.BestDependsOnlyOnValues` | main.js:85-87 | the value kept depends only on which positive scores occur, not on where they occur |
| `TopPairs.RowFrom` | main.js:213-214 | for one outer employee the inner loop evaluates the later employees with a different id, each once, in increasing position |
| `TopPairs.PairsFrom` | main.js:212-214 | from outer position `i` on, the evaluated pairs are exactly the positions `i <= a < b` holding distinct ids, in loop order |
| `TopPairs.Pairs` | main.js:212-214 | the evaluated pairs are exactly the positions `a < b` holding distinct ids, in nested-loop order (outer position first, then inner), and none is evaluated twice |
| `TopPairs.Pick` | main.js:215-221 | the search result is at least every evaluated pair's overlap and is never negative. A positive result is the overlap of an evaluated pair, tagged with its two ids, and every earlier pair overlaps strictly less. Otherwise it is the zero placeholder |
| `TopPairs.TopPair` | main.js:203-223 | the reported pair never repeats an employee, and the first id is the employee met first. The result is at least the overlap of every pair of distinct employees. It reports a pair iff some overlap is positive |
| `TopPairs.TopPairWinner` | main.js:212-221 | a reported result is the tagged overlap of two positions `i < j` holding distinct ids, and every pair of distinct ids the loops meet before `(i, j)` overlaps strictly less: among equally long pairs the first in loop order wins |
| `TopPairs.FirstLongestPairWins` | main.js:212-221 | a pair with the longest positive overlap, such that every pair met before it overlaps strictly less, is the one reported |
| `TopPairs.UniqueLongestPairWins` | main.js:217-221 | a pair whose positive overlap is strictly longer than every other pair's is the one reported |
| `TopPairs.TopPairDaysIndependentOfOrder` | main.js:212-223 | any two listings of the same table give the same longest overlap, however the employees and their projects are ordered |
| `TopPairs.GuardAsWritten` | main.js:214 | the guard as written lets through only a later employee with a different id; it lets every such employee through unless their table has a `visited` entry, and never one that has |
| `TopPairs.GridRow` | main.js:213-214 | for one outer employee, the inner loop as written evaluates exactly the positions from `j` on that pass the guard |
| `TopPairs.GridFrom` | main.js:212-214 | once the outer loop has reached position `i`, the loops as written evaluate exactly the pairs from outer position `i` on that pass the guard |
| `TopPairs.TopPairAsWritten` | main.js:212-226 | the search as written is never negative and reports a pair iff its length is positive. It is at least the overlap of every pair the guard lets through, and a reported result is the tagged overlap of such a pair |
| `TopPairs.AsWrittenAgreesWithoutVisitedProject` | main.js:212-226 | unless some employee has a project named `visited`, the `visited` guard evaluates exactly the pairs `i < j`. The search as written then equals the pair search |
| `TopPairs.VisitedProjectHidesPair` | main.js:212-226 | in the example, the second employee also has a project named `visited`. The guard as written never evaluates the pair, so the search reports the zero placeholder |
| `TopPairs.EnumerationFindsHiddenPair` | main.js:203-223 | on the same example the pair search reports the ten shared days of `P1` for employees `1` and `2` |
| `Pipeline.LongestOverlapIndependentOfOrder` | main.js:180-223 | any permutation of the input rows, with any listing of the resulting tables, gives the same longest overlap |
| `Scenarios.DocumentedExample` | main.js:54-68 | January 1-31 against January 15-31 on project 1 gives 17 days on project 1, ahead of the 15 days of project 2 |
| `Scenarios.BoundaryDayCounts` | main.js:75-83 | spans meeting on one boundary day overlap by one day. Shifting one span a day later gives no overlap |
| `Scenarios.DuplicateRowsMerge` | main.js:189-200 | rows for February 1-10 and February 5-20 on the same pair merge into February 1-20 |
| `Scenarios.OpenRowRunsUntilNow` | main.js:183-190 | a row with an empty end field spans from its start to `now` |
| `Scenarios.ThreeEmployeesOverlaps` | main.js:70-92 | in the three-employee example, A and B overlap 5 days, A and C 10 days on P2, and B and C not at all |
| `Scenarios.ThreeEmployeesTopPair` | main.js:203-223 | in the three-employee example the search reports A and C on P2 with 10 days |
| `Scenarios.TiedEmployeesOverlap` | main.js:70-92 | three employees on the same ten days of P1 overlap by 10 days in every pair |
| `Scenarios.TiedPairsKeepFirst` | main.js:212-221 | on that three-way tie the search reports A and B, the pair the loops meet first |

## Left out

- `updateDataGrid` and every DOM access are left out: rendering rows, skipping an already-rendered row (main.js:108-142), and showing the running best after each outer employee (main.js:229-234). This is presentation.
- The file input, `FileReader` and button wiring (main.js:148-173) are left out. This is browser I/O.
- CSV splitting, the skipped header line, and `new Date(...)` parsing (main.js:173, main.js:181-183) are left out. Rows arrive parsed, with integer day numbers and an optional end. Malformed or invalid dates are not modelled.
- `new Date()` is read once per row in the code. The model uses one `now` per run, because the clock is outside the model.
- The millisecond division and `Math.round` (main.js:83, main.js:233) are left out. Lengths are whole days. In the code a length can be fractional, mainly because an open end is `new Date()` (main.js:183), which carries the current time of day: a span starting the day after `now` still overlaps by a fraction of a day (0 < days < 1), and that fraction can win. Daylight-saving shifts add smaller fractions. Here `now` is a whole day number, so such spans do not overlap.
- The module-level `results` object (main.js:145) persists across submissions, so a second file still sees the earlier `visited` marks. Each aggregation here starts from an empty table.
- The concrete JavaScript `for…in` order is not modelled: integer-like keys come first in ascending order, then the rest in insertion order. The order is an input, and the lengths are proved independent of it.
- Identifiers that name inherited object properties, such as `toString` or `__proto__`, behave differently under JavaScript's `in` and property assignment. Ids are plain strings here.
- The placeholder ids of the code (`0`, or `undefined` for the project of the outer placeholder) are both `None`.
- The code keeps a single best result, and so does the model; no ranked list of all overlaps is modelled.

## Findings

| source | as written | input that shows it | evidently intended | confidence | as-written member | corrected member |
|---|---|---|---|---|---|---|
| main.js:214 | the inner loop skips an employee whose project table has a truthy `visited` property, and a project named `visited` is such a property | rows `1,P1,2020-01-01,2020-01-10`, `2,P1,2020-01-01,2020-01-10`, `2,visited,2020-01-01,2020-01-10`: the pair 1-2 is never evaluated, and the result is 0 days | every pair `i < j` is evaluated, giving 10 days for 1 and 2 on P1 (`TopPairs.EnumerationFindsHiddenPair`) | medium, not executed | `TopPairs.VisitedProjectHidesPair` | `TopPairs.TopPair` |
