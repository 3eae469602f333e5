/** The records shared by the aggregation and the overlap search: identifiers,
    day numbers, one input row, a project span and an overlap result. */
module Records {

  /** Conventional optional value; `None` stands for the placeholder id (`0`
      or `undefined`) an overlap carries before any pair or project is chosen. */
  datatype Option<+T> = None | Some(value: T)

  /** Employee and project ids are the raw text of their CSV fields. */
  type EmpId = string
  type ProjectId = string

  /** A calendar date, as a number of whole days from some fixed epoch. */
  type Day = int

  /** One parsed input line: employee, project, first day and, unless the
      field was empty, last day. */
  datatype Row = Row(empId: EmpId, projectId: ProjectId, start: Day, end: Option<Day>)

  /** The days one employee spent on one project, both ends included. */
  datatype Project = Project(start: Day, end: Day)

  /** The longest overlap found so far: its length in days, the two employees
      and the project it was found on. */
  datatype Overlap = Overlap(days: int, empId: Option<EmpId>, otherEmpId: Option<EmpId>, projectId: Option<ProjectId>)

  /** The overlap every search starts from: zero days, no employees, no project. */
  const NoOverlap := Overlap(0, None, None, None)

  /** The projects of one employee, by project id. */
  type Projects = map<ProjectId, Project>

  /** The aggregated table: for every employee, their projects. */
  type Results = map<EmpId, Projects>

  /** `keys` lists every key of `m` (in some iteration order, possibly with repeats). */
  ghost predicate Enumerates(keys: seq<ProjectId>, m: Projects) {
    forall k :: k in m <==> k in keys
  }
}
