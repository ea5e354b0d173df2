/**
 * The plain records of src/lib/types.ts: shifts and breaks as entered (day plus clock
 * texts), employees, manager windows and the two kinds of planned meeting.
 */
module Types {
  import opened Wrappers
  import opened Time

  datatype BreakKind = Break1 | Break2 | Lunch

  datatype Break = Break(kind: BreakKind, start: Clock, end: Clock)

  /** A shift as entered; `breaks` is absent (`undefined`) or a list. */
  datatype Shift = Shift(day: Day, start: Clock, end: Clock, breaks: Option<seq<Break>>)

  datatype Employee = Employee(id: string, name: string, shifts: seq<Shift>)

  datatype ManagerWindow = ManagerWindow(day: Day, start: Clock, end: Clock)

  /** `Planned`: a one-on-one with one employee, or a team session with a list of attendees. */
  datatype Meeting =
    | OneOnOne(id: string, title: string, startMin: nat, endMin: nat, employeeId: string)
    | TeamSession(id: string, title: string, startMin: nat, endMin: nat, attendeeIds: seq<string>)

  /** An absolute shift tagged with its employee (`ShiftAbs`). */
  datatype ShiftAbs = ShiftAbs(span: Interval, employeeId: string)

  /** The names of the days, Sunday first (`DAY_NAMES`). */
  const DayNames: seq<string> := ["Sun", "Mon", "Tue", "Wed", "Thu", "Fri", "Sat"]

  function Span(m: Meeting): Interval {
    Interval(m.startMin, m.endMin)
  }

  /** The sort key of every plan sort: `(a, b) => a.startMin - b.startMin`. */
  function StartKey(m: Meeting): int { m.startMin }

  function Ids(employees: seq<Employee>): set<string> {
    set i | 0 <= i < |employees| :: employees[i].id
  }
}
