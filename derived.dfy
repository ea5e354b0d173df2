/**
 * The views derived from a plan and from availability (src/lib/planner/derived.ts): meetings
 * cut into per-day pieces, per-day availability of employees and of the manager, the calendar
 * columns, and the summary counters.
 */
module Derived {
  import opened Wrappers
  import opened Time
  import opened Types
  import opened Sorting
  import Normalize
  import Availability
  import ScarcityScheduler

  // ---------------------------------------------------------------- per-day slicing

  /** A part of a span inside one day: the day of the week and minutes within that day. */
  datatype DayPiece = DayPiece(day: Day, start: nat, end: nat)

  /** The day of the week an absolute minute falls on, wrapping past Saturday. */
  function DayOf(a: nat): Day { (a / MinutesInDay) % 7 }

  /** The minute within its day of an absolute minute. */
  function MinuteOf(a: nat): nat { a % MinutesInDay }

  /** Where the piece starting at `s` ends: at `e`, or at the next midnight if that is sooner. */
  function CutAfter(s: nat, e: nat): nat {
    var dayEnd := (s / MinutesInDay + 1) * MinutesInDay;
    if e < dayEnd then e else dayEnd
  }

  /** The piece starting at `s`; its end at midnight reads 1440, not 0. */
  function Piece(s: nat, e: nat): DayPiece {
    var cut := CutAfter(s, e);
    DayPiece(DayOf(s), MinuteOf(s), if cut % MinutesInDay == 0 then MinutesInDay else cut % MinutesInDay)
  }

  /** The pieces of `[s, e)`, one per day it touches, in order; none when `s >= e`. */
  function Pieces(s: nat, e: nat): seq<DayPiece>
    decreases e - s
  {
    if s >= e then [] else [Piece(s, e)] + Pieces(CutAfter(s, e), e)
  }

  /** The first piece of `[s, e)`, measured from the midnight `q * 1440` before `s`. */
  lemma PieceShape(s: nat, e: nat)
    requires s < e
    ensures var q, c := s / MinutesInDay, CutAfter(s, e);
      && q * MinutesInDay <= s < c <= (q + 1) * MinutesInDay && c <= e
      && (c < e ==> c == (q + 1) * MinutesInDay)
      && Piece(s, e) == DayPiece(q % 7, s - q * MinutesInDay, c - q * MinutesInDay)
  {
    var q, c := s / MinutesInDay, CutAfter(s, e);
    if c == (q + 1) * MinutesInDay {
      DivModUnique(c, MinutesInDay, q + 1, 0);
    } else {
      DivModUnique(c, MinutesInDay, q, c - q * MinutesInDay);
    }
  }

  predicate InDay(ps: seq<DayPiece>) {
    forall i :: 0 <= i < |ps| ==> ps[i].start < ps[i].end <= MinutesInDay
  }

  /** Every piece but the last runs to midnight, and the next starts at 0 on the following day. */
  ghost predicate Contiguous(ps: seq<DayPiece>) {
    forall i, j :: 0 <= i < j < |ps| && j == i + 1 ==> Follows(ps[i], ps[j])
  }

  predicate Follows(p: DayPiece, q: DayPiece) {
    p.end == MinutesInDay && q.start == 0 && q.day == (p.day + 1) % 7
  }

  lemma ConsPieces(p: DayPiece, rest: seq<DayPiece>)
    requires p.start < p.end <= MinutesInDay && InDay(rest) && Contiguous(rest)
    requires rest != [] ==> Follows(p, rest[0])
    ensures InDay([p] + rest) && Contiguous([p] + rest)
  {
    var ps := [p] + rest;
    forall i, j | 0 <= i < j < |ps| && j == i + 1 ensures Follows(ps[i], ps[j]) {
      if i > 0 {
        assert ps[i] == rest[i - 1] && ps[j] == rest[j - 1];
      }
    }
  }

  /** The pieces of `[s, e)` are non-empty, lie within a day and follow one another across midnights. */
  lemma {:induction false} PiecesInDay(s: nat, e: nat)
    ensures (Pieces(s, e) == [] <==> s >= e) && InDay(Pieces(s, e)) && Contiguous(Pieces(s, e))
    decreases e - s
  {
    if s < e {
      var c := CutAfter(s, e);
      PieceShape(s, e);
      PiecesInDay(c, e);
      var p, rest := Piece(s, e), Pieces(c, e);
      if c < e {
        PieceFollows(s, e);
        assert rest[0] == Piece(c, e);
      }
      ConsPieces(p, rest);
    }
  }

  /** A piece cut at midnight is followed by the next day's piece starting at 0. */
  lemma PieceFollows(s: nat, e: nat)
    requires s < e && CutAfter(s, e) < e
    ensures Follows(Piece(s, e), Piece(CutAfter(s, e), e))
  {
    var q, c := s / MinutesInDay, CutAfter(s, e);
    PieceShape(s, e);
    DivModUnique(c, MinutesInDay, q + 1, 0);
    assert Piece(s, e).day == q % 7 && Piece(s, e).end == MinutesInDay;
    assert Piece(c, e).day == (q + 1) % 7 && Piece(c, e).start == 0;
    NextWeekday(q);
  }

  lemma NextWeekday(q: nat)
    ensures (q % 7 + 1) % 7 == (q + 1) % 7
  {
  }

  /** The pieces start where `s` falls and end where `e` falls, 1440 for a midnight end. */
  lemma {:induction false} PiecesEnds(s: nat, e: nat)
    requires s < e
    ensures var ps := Pieces(s, e);
      && ps != [] && ps[0].day == DayOf(s) && ps[0].start == MinuteOf(s)
      && ps[|ps| - 1].end == if e % MinutesInDay == 0 then MinutesInDay else e % MinutesInDay
    decreases e - s
  {
    var q, c := s / MinutesInDay, CutAfter(s, e);
    PieceShape(s, e);
    if c < e {
      PiecesEnds(c, e);
    } else if e == (q + 1) * MinutesInDay {
      DivModUnique(e, MinutesInDay, q + 1, 0);
    } else {
      DivModUnique(e, MinutesInDay, q, e - q * MinutesInDay);
    }
  }

  /** Some piece of `ps` falls on day `d` and holds minute `x` of that day. */
  predicate CoversAt(ps: seq<DayPiece>, d: Day, x: int) {
    exists i :: 0 <= i < |ps| && ps[i].day == d && ps[i].start <= x < ps[i].end
  }

  /** Some absolute minute of `[s, e)` falls on day `d` at minute `x` of that day. */
  predicate AbsCovers(s: nat, e: nat, d: Day, x: int) {
    exists a: nat :: s <= a < e && DayOf(a) == d && MinuteOf(a) == x
  }

  lemma AbsCoversSplit(s: nat, c: nat, e: nat, d: Day, x: int)
    requires s <= c <= e
    ensures AbsCovers(s, e, d, x) <==> AbsCovers(s, c, d, x) || AbsCovers(c, e, d, x)
  {
  }

  lemma FirstPieceCovers(s: nat, e: nat, d: Day, x: int)
    requires s < e
    ensures var p := Piece(s, e);
      (p.day == d && p.start <= x < p.end) <==> AbsCovers(s, CutAfter(s, e), d, x)
  {
    var q, c, p := s / MinutesInDay, CutAfter(s, e), Piece(s, e);
    PieceShape(s, e);
    if p.day == d && p.start <= x < p.end {
      var a: nat := q * MinutesInDay + x;
      DivModUnique(a, MinutesInDay, q, x);
      assert s <= a < c && DayOf(a) == d && MinuteOf(a) == x;
    }
    if AbsCovers(s, c, d, x) {
      var a: nat :| s <= a < c && DayOf(a) == d && MinuteOf(a) == x;
      DivModUnique(a, MinutesInDay, q, a - q * MinutesInDay);
    }
  }

  /** `sliceByDay` covers exactly `[s, e)`: a day and minute is in a piece iff some minute of the span falls there. */
  lemma {:induction false} PiecesCover(s: nat, e: nat, d: Day, x: int)
    ensures CoversAt(Pieces(s, e), d, x) <==> AbsCovers(s, e, d, x)
    decreases e - s
  {
    if s < e {
      var c := CutAfter(s, e);
      PieceShape(s, e);
      PiecesCover(c, e, d, x);
      FirstPieceCovers(s, e, d, x);
      AbsCoversSplit(s, c, e, d, x);
      CoversAtCons(Piece(s, e), Pieces(c, e), d, x);
    }
  }

  /** A list of pieces covers a day and minute iff its first piece or the rest does. */
  lemma CoversAtCons(p: DayPiece, rest: seq<DayPiece>, d: Day, x: int)
    ensures CoversAt([p] + rest, d, x) <==> (p.day == d && p.start <= x < p.end) || CoversAt(rest, d, x)
  {
    var ps := [p] + rest;
    if CoversAt(rest, d, x) {
      var i :| 0 <= i < |rest| && rest[i].day == d && rest[i].start <= x < rest[i].end;
      assert ps[i + 1] == rest[i];
    }
    if CoversAt(ps, d, x) {
      var i :| 0 <= i < |ps| && ps[i].day == d && ps[i].start <= x < ps[i].end;
      if i > 0 {
        assert rest[i - 1] == ps[i];
      }
    }
    if p.day == d && p.start <= x < p.end {
      assert ps[0] == p;
    }
  }

  /** The slicing loop shared by `sliceByDay` and `buildManagerAvailByDay`. */
  method SliceSpan(startMin: nat, endMin: nat) returns (out: seq<DayPiece>)
    ensures out == Pieces(startMin, endMin)
  {
    out := [];
    var s, e := startMin, endMin;
    while s < e
      invariant out + Pieces(s, e) == Pieces(startMin, e)
      decreases e - s
    {
      var dayIndexAbs := s / MinutesInDay;
      var dayEndAbs := (dayIndexAbs + 1) * MinutesInDay;
      var sliceEnd := if e < dayEndAbs then e else dayEndAbs;
      var day := dayIndexAbs % 7;
      var startInDay := s % MinutesInDay;
      var endInDay := if sliceEnd % MinutesInDay != 0 then sliceEnd % MinutesInDay else MinutesInDay;
      assert sliceEnd == CutAfter(s, e) && DayPiece(day, startInDay, endInDay) == Piece(s, e);
      ConcatAssoc(out, [Piece(s, e)], Pieces(sliceEnd, e));
      out := out + [DayPiece(day, startInDay, endInDay)];
      s := sliceEnd;
    }
  }

  /** `sliceByDay(p)`: the pieces of the meeting's span; each piece stands for `p` itself. */
  method SliceByDay(p: Meeting) returns (out: seq<DayPiece>)
    ensures out == Pieces(p.startMin, p.endMin)
  {
    out := SliceSpan(p.startMin, p.endMin);
  }

  // ---------------------------------------------------------------- per-day columns

  /** An entry destined for one day's column. */
  datatype Tagged<T> = Tagged(day: Day, item: T)

  /** The items of `xs` tagged with day `d`, in order: what pushing each into `days[day]` leaves in column `d`. */
  function OnDay<T>(xs: seq<Tagged<T>>, d: Day): (r: seq<T>)
    ensures |r| <= |xs|
  {
    if xs == [] then []
    else OnDay(xs[..|xs| - 1], d) + (if xs[|xs| - 1].day == d then [xs[|xs| - 1].item] else [])
  }

  /** Column `d` holds exactly the items tagged with `d`. */
  lemma {:induction false} OnDayMembers<T>(xs: seq<Tagged<T>>, d: Day, x: T)
    ensures x in OnDay(xs, d) <==> Tagged(d, x) in xs
  {
    if xs != [] {
      var init := xs[..|xs| - 1];
      OnDayMembers(init, d, x);
      assert xs == init + [xs[|xs| - 1]];
    }
  }

  lemma {:induction false} OnDayConcat<T>(a: seq<Tagged<T>>, b: seq<Tagged<T>>, d: Day)
    ensures OnDay(a + b, d) == OnDay(a, d) + OnDay(b, d)
  {
    if b != [] {
      var init := b[..|b| - 1];
      OnDayConcat(a, init, d);
      assert (a + b)[..|a + b| - 1] == a + init;
    } else {
      assert a + b == a;
    }
  }

  /** Seven columns, column `d` holding the items of `xs` tagged with `d`. */
  ghost predicate Columns<T>(days: seq<seq<T>>, xs: seq<Tagged<T>>) {
    |days| == 7 && forall d :: 0 <= d < 7 ==> days[d] == OnDay(xs, d)
  }

  /** `days[t.day].push(t.item)` keeps the columns in step with the tagged list. */
  lemma PushColumn<T>(days: seq<seq<T>>, xs: seq<Tagged<T>>, t: Tagged<T>)
    requires Columns(days, xs)
    ensures Columns(days[t.day := days[t.day] + [t.item]], xs + [t])
  {
    assert (xs + [t])[..|xs|] == xs;
  }

  /** Pushes a list of tagged entries into their columns, one by one. */
  method PushAll<T>(days0: seq<seq<T>>, ghost xs: seq<Tagged<T>>, ts: seq<Tagged<T>>) returns (days: seq<seq<T>>)
    requires Columns(days0, xs)
    ensures Columns(days, xs + ts)
  {
    days := days0;
    assert xs + ts[..0] == xs;
    for i := 0 to |ts|
      invariant Columns(days, xs + ts[..i])
    {
      PushColumn(days, xs + ts[..i], ts[i]);
      assert xs + ts[..i] + [ts[i]] == xs + ts[..i + 1];
      days := days[ts[i].day := days[ts[i].day] + [ts[i].item]];
    }
    assert ts[..|ts|] == ts;
  }

  lemma EmptyColumns<T>()
    ensures Columns<T>([[], [], [], [], [], [], []], [])
  {
  }

  // ---------------------------------------------------------------- employee availability by day

  /**
   * Where a shift lands in the day view, read from its clock texts without reduction
   * ("24:00" is 1440): on its own day when start <= end, otherwise from start to midnight on
   * its day and from 0 to end on the next.
   */
  function ShiftSegments(sh: Shift): (r: seq<Tagged<Interval>>)
    ensures var start, end := Normalize.ToMin(sh.start), Normalize.ToMin(sh.end);
      && (start <= end <==> |r| == 1)
      && (forall i :: 0 <= i < |r| ==> r[i].day == sh.day || (start > end && r[i].day == (sh.day + 1) % 7))
  {
    var start, end := Normalize.ToMin(sh.start), Normalize.ToMin(sh.end);
    if start <= end then [Tagged(sh.day, Interval(start, end))]
    else [Tagged(sh.day, Interval(start, MinutesInDay)), Tagged((sh.day as int + 1) % 7, Interval(0, end))]
  }

  function AllSegments(shifts: seq<Shift>): seq<Tagged<Interval>> {
    if shifts == [] then [] else AllSegments(shifts[..|shifts| - 1]) + ShiftSegments(shifts[|shifts| - 1])
  }

  /** A tagged segment belongs to the whole list exactly when it belongs to one of its shifts. */
  lemma {:induction false} AllSegmentsMembers(shifts: seq<Shift>, t: Tagged<Interval>)
    ensures t in AllSegments(shifts) <==> exists k :: 0 <= k < |shifts| && t in ShiftSegments(shifts[k])
  {
    if shifts != [] {
      var init := shifts[..|shifts| - 1];
      AllSegmentsMembers(init, t);
      if exists k :: 0 <= k < |shifts| && t in ShiftSegments(shifts[k]) {
        SegmentOfSplit(shifts, t);
      }
      if t in AllSegments(init) {
        SegmentOfFromInit(shifts, init, t);
      }
    }
  }

  /** A segment of one of the shifts is one of an earlier shift or of the last. */
  lemma SegmentOfSplit(shifts: seq<Shift>, t: Tagged<Interval>)
    requires shifts != [] && exists k :: 0 <= k < |shifts| && t in ShiftSegments(shifts[k])
    ensures var init := shifts[..|shifts| - 1];
      (exists k :: 0 <= k < |init| && t in ShiftSegments(init[k])) || t in ShiftSegments(shifts[|shifts| - 1])
  {
    var init := shifts[..|shifts| - 1];
    var k :| 0 <= k < |shifts| && t in ShiftSegments(shifts[k]);
    if k < |init| {
      assert init[k] == shifts[k];
    }
  }

  /** A segment of an earlier shift is one of a shift of the whole list. */
  lemma SegmentOfFromInit(shifts: seq<Shift>, init: seq<Shift>, t: Tagged<Interval>)
    requires shifts != [] && init == shifts[..|shifts| - 1]
    requires exists k :: 0 <= k < |init| && t in ShiftSegments(init[k])
    ensures exists k :: 0 <= k < |shifts| && t in ShiftSegments(shifts[k])
  {
    var k :| 0 <= k < |init| && t in ShiftSegments(init[k]);
    assert init[k] == shifts[k];
  }

  /** One employee's seven day lists. */
  function EmployeeDays(shifts: seq<Shift>): (r: seq<seq<Interval>>)
    ensures |r| == 7
  {
    seq(7, d requires 0 <= d < 7 => OnDay(AllSegments(shifts), d))
  }

  /**
   * A segment appears in an employee's list for day `d` exactly when one of their shifts
   * lands it there.
   */
  lemma EmployeeDaysPlacement(shifts: seq<Shift>, d: Day, iv: Interval)
    ensures iv in EmployeeDays(shifts)[d] <==>
      exists k :: 0 <= k < |shifts| && Tagged(d, iv) in ShiftSegments(shifts[k])
  {
    OnDayMembers(AllSegments(shifts), d, iv);
    AllSegmentsMembers(shifts, Tagged(d, iv));
  }

  /** A shift within one day keeps its own day and both its times. */
  lemma SameDayShiftLands(shifts: seq<Shift>, k: nat)
    requires k < |shifts| && Normalize.ToMin(shifts[k].start) <= Normalize.ToMin(shifts[k].end)
    ensures Interval(Normalize.ToMin(shifts[k].start), Normalize.ToMin(shifts[k].end)) in EmployeeDays(shifts)[shifts[k].day]
  {
    var sh := shifts[k];
    var iv := Interval(Normalize.ToMin(sh.start), Normalize.ToMin(sh.end));
    assert Tagged(sh.day, iv) in ShiftSegments(sh);
    EmployeeDaysPlacement(shifts, sh.day, iv);
  }

  /** An overnight shift shows as start..1440 on its day and 0..end on the next day. */
  lemma OvernightShiftLands(shifts: seq<Shift>, k: nat)
    requires k < |shifts| && Normalize.ToMin(shifts[k].start) > Normalize.ToMin(shifts[k].end)
    ensures Interval(Normalize.ToMin(shifts[k].start), MinutesInDay) in EmployeeDays(shifts)[shifts[k].day]
    ensures Interval(0, Normalize.ToMin(shifts[k].end)) in EmployeeDays(shifts)[(shifts[k].day + 1) % 7]
  {
    var sh := shifts[k];
    var a := Interval(Normalize.ToMin(sh.start), MinutesInDay);
    var b := Interval(0, Normalize.ToMin(sh.end));
    assert Tagged(sh.day, a) in ShiftSegments(sh) && Tagged((sh.day + 1) % 7, b) in ShiftSegments(sh);
    EmployeeDaysPlacement(shifts, sh.day, a);
    EmployeeDaysPlacement(shifts, (sh.day + 1) % 7, b);
  }

  /** `buildEmployeeAvailByDay` as a fold over the employees: each one's id gets its day lists. */
  function EmployeeAvailByDay(employees: seq<Employee>): map<string, seq<seq<Interval>>> {
    if employees == [] then map[]
    else
      var e := employees[|employees| - 1];
      EmployeeAvailByDay(employees[..|employees| - 1])[e.id := EmployeeDays(e.shifts)]
  }

  /**
   * One entry per employee id, each of seven lists, holding the day lists of the last employee
   * listed with that id (a later entry overwrites an earlier one).
   */
  lemma {:induction false} EmployeeAvailByDayFacts(employees: seq<Employee>, i: nat)
    requires Availability.LastWithId(employees, i)
    ensures EmployeeAvailByDay(employees).Keys == Ids(employees)
    ensures forall id :: id in EmployeeAvailByDay(employees) ==> |EmployeeAvailByDay(employees)[id]| == 7
    ensures EmployeeAvailByDay(employees)[employees[i].id] == EmployeeDays(employees[i].shifts)
  {
    EmployeeAvailByDayKeys(employees);
    var init := employees[..|employees| - 1];
    if i < |init| {
      assert employees[i] == init[i];
      assert Availability.LastWithId(init, i);
      EmployeeAvailByDayFacts(init, i);
    }
  }

  lemma {:induction false} EmployeeAvailByDayKeys(employees: seq<Employee>)
    ensures EmployeeAvailByDay(employees).Keys == Ids(employees)
    ensures forall id :: id in EmployeeAvailByDay(employees) ==> |EmployeeAvailByDay(employees)[id]| == 7
  {
    if employees != [] {
      EmployeeAvailByDayKeys(employees[..|employees| - 1]);
      Availability.IdsInit(employees);
    }
  }

  /** The inner loop of `buildEmployeeAvailByDay`: one employee's shifts pushed into seven lists. */
  method ShiftsByDay(shifts: seq<Shift>) returns (perDay: seq<seq<Interval>>)
    ensures perDay == EmployeeDays(shifts)
  {
    perDay := [[], [], [], [], [], [], []];
    EmptyColumns<Interval>();
    for i := 0 to |shifts|
      invariant Columns(perDay, AllSegments(shifts[..i]))
    {
      assert shifts[..i + 1][..i] == shifts[..i] && shifts[..i + 1][i] == shifts[i];
      perDay := PushShift(perDay, AllSegments(shifts[..i]), shifts[i]);
    }
    assert shifts[..|shifts|] == shifts;
  }

  /** The loop body: a shift's one or two segments pushed onto their days. */
  method PushShift(perDay0: seq<seq<Interval>>, ghost before: seq<Tagged<Interval>>, s: Shift) returns (perDay: seq<seq<Interval>>)
    requires Columns(perDay0, before)
    ensures Columns(perDay, before + ShiftSegments(s))
  {
    var start := s.start.h * 60 + s.start.m;
    var end := s.end.h * 60 + s.end.m;
    var d, next: Day := s.day, (s.day as int + 1) % 7;
    if start <= end {
      PushColumn(perDay0, before, Tagged(d, Interval(start, end)));
      perDay := perDay0[d := perDay0[d] + [Interval(start, end)]];
    } else {
      var first, second := Tagged(d, Interval(start, 24 * 60)), Tagged(next, Interval(0, end));
      PushColumn(perDay0, before, first);
      perDay := perDay0[d := perDay0[d] + [Interval(start, 24 * 60)]];
      PushColumn(perDay, before + [first], second);
      perDay := perDay[next := perDay[next] + [Interval(0, end)]];
      assert before + [first] + [second] == before + ShiftSegments(s);
    }
  }

  /** `buildEmployeeAvailByDay`. */
  method BuildEmployeeAvailByDay(employees: seq<Employee>) returns (byEmp: map<string, seq<seq<Interval>>>)
    ensures byEmp == EmployeeAvailByDay(employees)
  {
    byEmp := map[];
    for i := 0 to |employees|
      invariant byEmp == EmployeeAvailByDay(employees[..i])
    {
      var e := employees[i];
      assert employees[..i + 1][..i] == employees[..i] && employees[..i + 1][i] == e;
      var perDay := ShiftsByDay(e.shifts);
      byEmp := byEmp[e.id := perDay];
    }
    assert employees[..|employees|] == employees;
  }

  // ---------------------------------------------------------------- manager availability by day

  /** Day pieces as entries for their day's column. */
  function AsSegments(ps: seq<DayPiece>): seq<Tagged<Interval>> {
    seq(|ps|, i requires 0 <= i < |ps| => Tagged(ps[i].day, Interval(ps[i].start, ps[i].end)))
  }

  /** Every window cut into day pieces, window after window. */
  function WindowSegments(absWins: seq<Interval>): seq<Tagged<Interval>> {
    if absWins == [] then []
    else
      var w := absWins[|absWins| - 1];
      WindowSegments(absWins[..|absWins| - 1]) + AsSegments(Pieces(w.startMin, w.endMin))
  }

  /** `buildManagerAvailByDay`: each day's pieces of every window, sorted by start and merged. */
  function ManagerAvailByDay(absWins: seq<Interval>): (r: seq<seq<Interval>>)
    ensures |r| == 7
  {
    seq(7, d requires 0 <= d < 7 => Merge(OnDay(WindowSegments(absWins), d)))
  }

  /** Some entry of `ts` for day `d` holds minute `x`. */
  predicate SegCovers(ts: seq<Tagged<Interval>>, d: Day, x: int) {
    exists i :: 0 <= i < |ts| && ts[i].day == d && In(x, ts[i].item)
  }

  predicate ItemsNonEmpty(ts: seq<Tagged<Interval>>) {
    forall i :: 0 <= i < |ts| ==> NonEmpty(ts[i].item)
  }

  lemma {:induction false} OnDayCovers(ts: seq<Tagged<Interval>>, d: Day, x: int)
    ensures InSome(x, OnDay(ts, d)) <==> SegCovers(ts, d, x)
    ensures ItemsNonEmpty(ts) ==> AllNonEmpty(OnDay(ts, d))
  {
    if ts != [] {
      var init, t := ts[..|ts| - 1], ts[|ts| - 1];
      OnDayCovers(init, d, x);
      var tail := if t.day == d then [t.item] else [];
      InSomeConcat(OnDay(init, d), tail, x);
      if SegCovers(init, d, x) {
        var i :| 0 <= i < |init| && init[i].day == d && In(x, init[i].item);
        assert ts[i] == init[i];
      }
      if SegCovers(ts, d, x) && !(t.day == d && In(x, t.item)) {
        var i :| 0 <= i < |ts| && ts[i].day == d && In(x, ts[i].item);
        assert init[i] == ts[i];
      }
      if t.day == d && In(x, t.item) {
        assert InSome(x, tail) by { assert In(x, tail[0]); }
      }
    }
  }

  lemma SegCoversConcat(a: seq<Tagged<Interval>>, b: seq<Tagged<Interval>>, d: Day, x: int)
    ensures SegCovers(a + b, d, x) <==> SegCovers(a, d, x) || SegCovers(b, d, x)
  {
    if SegCovers(a + b, d, x) {
      var i :| 0 <= i < |a + b| && (a + b)[i].day == d && In(x, (a + b)[i].item);
      if i >= |a| {
        assert b[i - |a|] == (a + b)[i];
      }
    }
    if SegCovers(a, d, x) {
      var i :| 0 <= i < |a| && a[i].day == d && In(x, a[i].item);
      assert (a + b)[i] == a[i];
    }
    if SegCovers(b, d, x) {
      var i :| 0 <= i < |b| && b[i].day == d && In(x, b[i].item);
      assert (a + b)[|a| + i] == b[i];
    }
  }

  /** Some window's span holds an absolute minute falling on day `d` at minute `x`. */
  predicate WindowsCover(absWins: seq<Interval>, d: Day, x: int) {
    exists k :: 0 <= k < |absWins| && AbsCovers(absWins[k].startMin, absWins[k].endMin, d, x)
  }

  lemma AsSegmentsCovers(ps: seq<DayPiece>, d: Day, x: int)
    ensures SegCovers(AsSegments(ps), d, x) <==> CoversAt(ps, d, x)
    ensures InDay(ps) ==> ItemsNonEmpty(AsSegments(ps))
  {
    if CoversAt(ps, d, x) {
      var i :| 0 <= i < |ps| && ps[i].day == d && ps[i].start <= x < ps[i].end;
      assert AsSegments(ps)[i].day == d && In(x, AsSegments(ps)[i].item);
    }
  }

  lemma {:induction false} WindowSegmentsCover(absWins: seq<Interval>, d: Day, x: int)
    ensures SegCovers(WindowSegments(absWins), d, x) <==> WindowsCover(absWins, d, x)
  {
    if absWins != [] {
      var init, w := absWins[..|absWins| - 1], absWins[|absWins| - 1];
      var ps := Pieces(w.startMin, w.endMin);
      WindowSegmentsCover(init, d, x);
      SegCoversConcat(WindowSegments(init), AsSegments(ps), d, x);
      PiecesCover(w.startMin, w.endMin, d, x);
      AsSegmentsCovers(ps, d, x);
      if WindowsCover(absWins, d, x) {
        var k :| 0 <= k < |absWins| && AbsCovers(absWins[k].startMin, absWins[k].endMin, d, x);
        if k < |init| {
          assert init[k] == absWins[k];
        }
      }
      if WindowsCover(init, d, x) {
        var k :| 0 <= k < |init| && AbsCovers(init[k].startMin, init[k].endMin, d, x);
        assert absWins[k] == init[k];
      }
    }
  }

  lemma {:induction false} WindowSegmentsNonEmpty(absWins: seq<Interval>)
    ensures ItemsNonEmpty(WindowSegments(absWins))
  {
    if absWins != [] {
      var init, w := absWins[..|absWins| - 1], absWins[|absWins| - 1];
      var ps := Pieces(w.startMin, w.endMin);
      WindowSegmentsNonEmpty(init);
      PiecesInDay(w.startMin, w.endMin);
      AsSegmentsCovers(ps, 0, 0);
      var a: seq<Tagged<Interval>>, b: seq<Tagged<Interval>> := WindowSegments(init), AsSegments(ps);
      forall i | 0 <= i < |a + b| ensures NonEmpty((a + b)[i].item) {
        if i >= |a| {
          assert (a + b)[i] == b[i - |a|];
        }
      }
    }
  }

  /**
   * Each day's list is sorted by start, its segments are non-empty and separated (touching
   * ones coalesce), and it holds exactly the minutes of that day that some manager window
   * covers.
   */
  lemma ManagerAvailByDayFacts(absWins: seq<Interval>, d: Day)
    ensures var col := ManagerAvailByDay(absWins)[d];
      && StartsSorted(col) && Separated(col) && AllNonEmpty(col)
      && forall x :: InSome(x, col) <==> WindowsCover(absWins, d, x)
  {
    var raw := OnDay(WindowSegments(absWins), d);
    forall x ensures InSome(x, raw) <==> WindowsCover(absWins, d, x) {
      OnDayCovers(WindowSegments(absWins), d, x);
      WindowSegmentsCover(absWins, d, x);
    }
    OnDayCovers(WindowSegments(absWins), d, 0);
    WindowSegmentsNonEmpty(absWins);
  }

  /** `buildManagerAvailByDay`: pushes every window's day pieces, then merges each day. */
  method BuildManagerAvailByDay(absWins: seq<Interval>) returns (days: seq<seq<Interval>>)
    ensures days == ManagerAvailByDay(absWins)
  {
    days := [[], [], [], [], [], [], []];
    EmptyColumns<Interval>();
    for i := 0 to |absWins|
      invariant Columns(days, WindowSegments(absWins[..i]))
    {
      var iv := absWins[i];
      assert absWins[..i + 1][..i] == absWins[..i] && absWins[..i + 1][i] == iv;
      var pieces := SliceSpan(iv.startMin, iv.endMin);
      days := PushAll(days, WindowSegments(absWins[..i]), AsSegments(pieces));
    }
    assert absWins[..|absWins|] == absWins;
    ghost var raw := days;
    for d := 0 to 7
      invariant |days| == 7
      invariant forall e :: 0 <= e < d ==> days[e] == Merge(raw[e])
      invariant forall e :: d <= e < 7 ==> days[e] == raw[e]
    {
      var merged := MergeIntervals(days[d]);
      days := days[d := merged];
    }
  }

  // ---------------------------------------------------------------- calendar blocks

  /** A calendar block: a day piece of a meeting with the meeting's id and its kind's details. */
  datatype Block =
    | OneBlock(id: string, start: nat, end: nat, empId: string)
    | TeamBlock(id: string, start: nat, end: nat, attendees: seq<string>)

  function BlockOf(p: Meeting, piece: DayPiece): Tagged<Block> {
    Tagged(piece.day,
      if p.OneOnOne? then OneBlock(p.id, piece.start, piece.end, p.employeeId)
      else TeamBlock(p.id, piece.start, piece.end, p.attendeeIds))
  }

  function MeetingBlocks(p: Meeting): seq<Tagged<Block>> {
    var ps := Pieces(p.startMin, p.endMin);
    seq(|ps|, i requires 0 <= i < |ps| => BlockOf(p, ps[i]))
  }

  function PlanBlocks(plan: seq<Meeting>): seq<Tagged<Block>> {
    if plan == [] then [] else PlanBlocks(plan[..|plan| - 1]) + MeetingBlocks(plan[|plan| - 1])
  }

  function BlockStart(b: Block): int { b.start }

  /** `buildManagerBlocksByDay`: each day's blocks, sorted (stably) by start. */
  function ManagerBlocksByDay(plan: seq<Meeting>): (r: seq<seq<Block>>)
    ensures |r| == 7
  {
    seq(7, d requires 0 <= d < 7 => SortBy(OnDay(PlanBlocks(plan), d), BlockStart))
  }

  /** Meeting `k` of the plan has a day piece on day `d` from which block `b` is made. */
  predicate BlockFrom(plan: seq<Meeting>, d: Day, b: Block, k: int) {
    0 <= k < |plan| &&
    exists i :: 0 <= i < |Pieces(plan[k].startMin, plan[k].endMin)| &&
      BlockOf(plan[k], Pieces(plan[k].startMin, plan[k].endMin)[i]) == Tagged(d, b)
  }

  lemma {:induction false} PlanBlocksMembers(plan: seq<Meeting>, d: Day, b: Block)
    ensures Tagged(d, b) in PlanBlocks(plan) <==> exists k :: BlockFrom(plan, d, b, k)
  {
    if plan != [] {
      var init, p := plan[..|plan| - 1], plan[|plan| - 1];
      PlanBlocksMembers(init, d, b);
      var t := Tagged(d, b);
      assert PlanBlocks(plan) == PlanBlocks(init) + MeetingBlocks(p);
      if t in MeetingBlocks(p) {
        BlockFromMeeting(plan, d, b, |plan| - 1);
      } else if t in PlanBlocks(init) {
        var k :| BlockFrom(init, d, b, k);
        BlockFromInit(plan, d, b, k);
      }
      if exists k :: BlockFrom(plan, d, b, k) {
        var k :| BlockFrom(plan, d, b, k);
        if k < |init| {
          BlockFromInit(plan, d, b, k);
        } else {
          BlockFromMeeting(plan, d, b, k);
        }
      }
    }
  }

  /** A block from an earlier meeting is one from the same meeting of the whole plan. */
  lemma BlockFromInit(plan: seq<Meeting>, d: Day, b: Block, k: int)
    requires plan != [] && 0 <= k < |plan| - 1
    ensures BlockFrom(plan[..|plan| - 1], d, b, k) <==> BlockFrom(plan, d, b, k)
  {
    assert plan[..|plan| - 1][k] == plan[k];
  }

  /** A block comes from meeting `k` exactly when it is among that meeting's blocks. */
  lemma BlockFromMeeting(plan: seq<Meeting>, d: Day, b: Block, k: int)
    requires 0 <= k < |plan|
    ensures BlockFrom(plan, d, b, k) <==> Tagged(d, b) in MeetingBlocks(plan[k])
  {
    var m := plan[k];
    var ps, bs := Pieces(m.startMin, m.endMin), MeetingBlocks(m);
    if BlockFrom(plan, d, b, k) {
      var i :| 0 <= i < |ps| && BlockOf(m, ps[i]) == Tagged(d, b);
      assert bs[i] == Tagged(d, b);
    }
    if Tagged(d, b) in bs {
      var i :| 0 <= i < |bs| && bs[i] == Tagged(d, b);
      assert BlockOf(m, ps[i]) == Tagged(d, b);
    }
  }

  /**
   * Each column is sorted by start and holds exactly the blocks cut from the plan's meetings
   * on that day, each carrying its meeting's id and kind.
   */
  lemma ManagerBlocksByDayFacts(plan: seq<Meeting>, d: Day, b: Block)
    ensures SortedBy(ManagerBlocksByDay(plan)[d], BlockStart)
    ensures multiset(ManagerBlocksByDay(plan)[d]) == multiset(OnDay(PlanBlocks(plan), d))
    ensures b in ManagerBlocksByDay(plan)[d] <==> exists k :: BlockFrom(plan, d, b, k)
    ensures b in ManagerBlocksByDay(plan)[d] ==>
      exists k :: 0 <= k < |plan| && plan[k].id == b.id && (plan[k].OneOnOne? <==> b.OneBlock?)
  {
    var raw := OnDay(PlanBlocks(plan), d);
    assert b in ManagerBlocksByDay(plan)[d] <==> b in raw by {
      assert b in multiset(ManagerBlocksByDay(plan)[d]) <==> b in multiset(raw);
    }
    OnDayMembers(PlanBlocks(plan), d, b);
    PlanBlocksMembers(plan, d, b);
    if b in raw {
      var k :| BlockFrom(plan, d, b, k);
      assert plan[k].id == b.id && (plan[k].OneOnOne? <==> b.OneBlock?);
    }
  }

  /** `buildManagerBlocksByDay`: pushes a block per day piece of each meeting, then sorts each column. */
  method BuildManagerBlocksByDay(plan: seq<Meeting>) returns (days: seq<seq<Block>>)
    ensures days == ManagerBlocksByDay(plan)
  {
    days := [[], [], [], [], [], [], []];
    EmptyColumns<Block>();
    for i := 0 to |plan|
      invariant Columns(days, PlanBlocks(plan[..i]))
    {
      var p := plan[i];
      assert plan[..i + 1][..i] == plan[..i] && plan[..i + 1][i] == p;
      var slices := SliceByDay(p);
      var blocks := seq(|slices|, k requires 0 <= k < |slices| => BlockOf(p, slices[k]));
      days := PushAll(days, PlanBlocks(plan[..i]), blocks);
    }
    assert plan[..|plan|] == plan;
    ghost var raw := days;
    for d := 0 to 7
      invariant |days| == 7
      invariant forall e :: 0 <= e < d ==> days[e] == SortBy(raw[e], BlockStart)
      invariant forall e :: d <= e < 7 ==> days[e] == raw[e]
    {
      days := days[d := SortBy(days[d], BlockStart)];
    }
  }

  // ---------------------------------------------------------------- summary counters

  /** `plan.filter(p => p.type === "1on1")`. */
  function OneOnOnes(plan: seq<Meeting>): (r: seq<Meeting>)
    ensures |r| <= |plan|
    ensures forall m :: m in r <==> m in plan && m.OneOnOne?
  {
    if plan == [] then []
    else
      var init, p := plan[..|plan| - 1], plan[|plan| - 1];
      assert forall m :: m in plan <==> m in init || m == p;
      OneOnOnes(init) + (if p.OneOnOne? then [p] else [])
  }

  /** `plan.filter(p => p.type === "team")`. */
  function Teams(plan: seq<Meeting>): (r: seq<Meeting>)
    ensures |r| <= |plan|
    ensures forall m :: m in r <==> m in plan && m.TeamSession?
  {
    if plan == [] then []
    else
      var init, p := plan[..|plan| - 1], plan[|plan| - 1];
      assert forall m :: m in plan <==> m in init || m == p;
      Teams(init) + (if p.TeamSession? then [p] else [])
  }

  /** Every meeting is one kind or the other, so the two filters split the plan. */
  lemma {:induction false} FiltersSplit(plan: seq<Meeting>)
    ensures |OneOnOnes(plan)| + |Teams(plan)| == |plan|
  {
    if plan != [] {
      FiltersSplit(plan[..|plan| - 1]);
    }
  }

  /** The total number of attendee places over the plan's team sessions. */
  function Headcount(plan: seq<Meeting>): nat {
    if plan == [] then 0
    else
      var p := plan[|plan| - 1];
      Headcount(plan[..|plan| - 1]) + (if p.TeamSession? then |p.attendeeIds| else 0)
  }

  /** Filtering out the one-on-ones loses no attendee. */
  lemma {:induction false} HeadcountOfTeams(plan: seq<Meeting>)
    ensures Headcount(Teams(plan)) == Headcount(plan)
  {
    if plan != [] {
      var init, p := plan[..|plan| - 1], plan[|plan| - 1];
      HeadcountOfTeams(init);
      var t := Teams(init);
      if p.TeamSession? {
        assert (t + [p])[..|t + [p]| - 1] == t;
      } else {
        assert Teams(plan) == t;
      }
    }
  }

  /** A list of n texts holds at most n distinct texts. */
  lemma {:induction false} DistinctAtMost(s: seq<string>)
    ensures |set x | x in s| <= |s|
  {
    if s != [] {
      var init := s[..|s| - 1];
      DistinctAtMost(init);
      assert (set x | x in s) == (set x | x in init) + {s[|s| - 1]} by {
        assert s == init + [s[|s| - 1]];
      }
    }
  }

  /** The employees who have at least one one-on-one. */
  function OneOnOneEmployees(plan: seq<Meeting>): set<string> {
    set m | m in plan && m.OneOnOne? :: m.employeeId
  }

  datatype Stats = Stats(oneOnOneCount: nat, teamCount: nat, totalHeadcount: nat, unique1on1Employees: nat)

  /**
   * `computeStats`: the one-on-one and team counts add up to the plan's length, the headcount
   * is every attendee place of every team session, and the distinct one-on-one employees are
   * no more than the one-on-ones.
   */
  function ComputeStats(plan: seq<Meeting>): (r: Stats)
    ensures r.oneOnOneCount + r.teamCount == |plan|
    ensures r.totalHeadcount == Headcount(plan)
    ensures r.unique1on1Employees == |OneOnOneEmployees(plan)| <= r.oneOnOneCount
  {
    var ones, team := OneOnOnes(plan), Teams(plan);
    FiltersSplit(plan);
    HeadcountOfTeams(plan);
    var empIds := OneOnOneIdList(plan);
    OneOnOneIdSet(plan);
    DistinctAtMost(empIds);
    Stats(|ones|, |team|, Headcount(team), |set x | x in empIds|)
  }

  /** The employee ids of the one-on-ones, in plan order, repeats included. */
  function OneOnOneIdList(plan: seq<Meeting>): (r: seq<string>)
    ensures |r| == |OneOnOnes(plan)|
  {
    var ones := OneOnOnes(plan);
    seq(|ones|, i requires 0 <= i < |ones| => ones[i].employeeId)
  }

  /** Without repeats, the ids of the one-on-ones are the employees having one. */
  lemma OneOnOneIdSet(plan: seq<Meeting>)
    ensures (set x | x in OneOnOneIdList(plan)) == OneOnOneEmployees(plan)
  {
    var ones, empIds := OneOnOnes(plan), OneOnOneIdList(plan);
    forall x | x in OneOnOneEmployees(plan) ensures x in empIds {
      var m :| m in plan && m.OneOnOne? && m.employeeId == x;
      var i :| 0 <= i < |ones| && ones[i] == m;
      assert empIds[i] == x;
    }
  }

  /** What a meeting adds to its day's counter: 1 for a one-on-one, its attendees for a team session. */
  function Convos(p: Meeting): nat {
    if p.OneOnOne? then 1 else |p.attendeeIds|
  }

  /** `computeDayConvos` as a fold: each meeting adds to the counter of the day it starts on. */
  function DayConvos(plan: seq<Meeting>): (r: seq<nat>)
    ensures |r| == 7
  {
    if plan == [] then [0, 0, 0, 0, 0, 0, 0]
    else
      var c, p := DayConvos(plan[..|plan| - 1]), plan[|plan| - 1];
      c[DayOf(p.startMin) := c[DayOf(p.startMin)] + Convos(p)]
  }

  function Sum(xs: seq<nat>): nat {
    if xs == [] then 0 else Sum(xs[..|xs| - 1]) + xs[|xs| - 1]
  }

  lemma {:induction false} SumBump(xs: seq<nat>, d: nat, v: nat)
    requires d < |xs|
    ensures Sum(xs[d := xs[d] + v]) == Sum(xs) + v
  {
    var ys := xs[d := xs[d] + v];
    if d < |xs| - 1 {
      SumBump(xs[..|xs| - 1], d, v);
      assert ys[..|ys| - 1] == xs[..|xs| - 1][d := xs[d] + v];
    } else {
      assert ys[..|ys| - 1] == xs[..|xs| - 1];
    }
  }

  lemma {:induction false} ZeroSum(xs: seq<nat>)
    requires forall i :: 0 <= i < |xs| ==> xs[i] == 0
    ensures Sum(xs) == 0
  {
    if xs != [] {
      ZeroSum(xs[..|xs| - 1]);
    }
  }

  /** The seven counters add up to the one-on-ones plus every team attendee place. */
  lemma {:induction false} DayConvosTotal(plan: seq<Meeting>)
    ensures Sum(DayConvos(plan)) == |OneOnOnes(plan)| + Headcount(plan)
  {
    if plan == [] {
      ZeroSum(DayConvos(plan));
    } else {
      var init, p := plan[..|plan| - 1], plan[|plan| - 1];
      DayConvosTotal(init);
      SumBump(DayConvos(init), DayOf(p.startMin), Convos(p));
    }
  }

  /** `computeDayConvos`: seven counters, bumped meeting by meeting. */
  method ComputeDayConvos(plan: seq<Meeting>) returns (counts: array<nat>)
    ensures fresh(counts) && counts[..] == DayConvos(plan)
  {
    counts := new nat[7](_ => 0);
    assert counts[..] == [0, 0, 0, 0, 0, 0, 0];
    for i := 0 to |plan|
      invariant counts.Length == 7 && counts[..] == DayConvos(plan[..i])
    {
      var p := plan[i];
      assert plan[..i + 1][..i] == plan[..i] && plan[..i + 1][i] == p;
      var day := (p.startMin / MinutesInDay) % 7;
      if p.OneOnOne? {
        counts[day] := counts[day] + 1;
      } else {
        counts[day] := counts[day] + |p.attendeeIds|;
      }
    }
    assert plan[..|plan|] == plan;
  }

  // ---------------------------------------------------------------- coverage

  /** The number of team sessions `eid` attends. */
  function TeamCount(plan: seq<Meeting>, eid: string): nat {
    if plan == [] then 0
    else
      var p := plan[|plan| - 1];
      TeamCount(plan[..|plan| - 1], eid) + (if p.TeamSession? && eid in p.attendeeIds then 1 else 0)
  }

  datatype CoverageRow = CoverageRow(id: string, name: string, oneCount: nat, teamCount: nat, conversations: nat)

  /**
   * `computeCoverage`: one row per employee, in order, counting their one-on-ones and the team
   * sessions they attend; conversations is the sum of the two.
   */
  function ComputeCoverage(employees: seq<Employee>, plan: seq<Meeting>): (r: seq<CoverageRow>)
    ensures |r| == |employees|
    ensures forall i :: 0 <= i < |r| ==>
      && r[i].id == employees[i].id && r[i].name == employees[i].name
      && r[i].oneCount == ScarcityScheduler.WeekCount(plan, employees[i].id)
      && r[i].teamCount == TeamCount(plan, employees[i].id)
      && r[i].conversations == r[i].oneCount + r[i].teamCount
  {
    seq(|employees|, i requires 0 <= i < |employees| =>
      var e := employees[i];
      var oneCount := ScarcityScheduler.WeekCount(plan, e.id);
      var teamCount := TeamCount(plan, e.id);
      CoverageRow(e.id, e.name, oneCount, teamCount, oneCount + teamCount))
  }

  /** An employee's one-on-one count is positive exactly when they have a one-on-one. */
  lemma {:induction false} OneCountPositive(plan: seq<Meeting>, eid: string)
    ensures ScarcityScheduler.WeekCount(plan, eid) > 0 <==> eid in OneOnOneEmployees(plan)
  {
    if plan != [] {
      var init, p := plan[..|plan| - 1], plan[|plan| - 1];
      OneCountPositive(init, eid);
      assert plan == init + [p];
      CountKeySnoc(init, p, ScarcityScheduler.Owner, Some(eid));
      assert OneOnOneEmployees(plan) == OneOnOneEmployees(init) + (if p.OneOnOne? then {p.employeeId} else {});
    }
  }

  function OneCountSum(rows: seq<CoverageRow>): nat {
    if rows == [] then 0 else OneCountSum(rows[..|rows| - 1]) + rows[|rows| - 1].oneCount
  }

  /** How many of the employees own meeting `m` (a one-on-one with their id). */
  function Owners(employees: seq<Employee>, m: Meeting): nat {
    if employees == [] then 0
    else Owners(employees[..|employees| - 1], m) + (if ScarcityScheduler.Owner(m) == Some(employees[|employees| - 1].id) then 1 else 0)
  }

  predicate DistinctIds(employees: seq<Employee>) {
    forall i, j :: 0 <= i < j < |employees| ==> employees[i].id != employees[j].id
  }

  /** With distinct ids, a one-on-one of a listed employee has exactly one owner, a team session none. */
  lemma {:induction false} OwnersOfListed(employees: seq<Employee>, m: Meeting)
    requires DistinctIds(employees)
    ensures Owners(employees, m) == if m.OneOnOne? && m.employeeId in Ids(employees) then 1 else 0
  {
    if employees != [] {
      var init, e := employees[..|employees| - 1], employees[|employees| - 1];
      OwnersOfListed(init, m);
      Availability.IdsInit(employees);
      if m.OneOnOne? && m.employeeId == e.id {
        assert e.id !in Ids(init);
      }
    }
  }

  /** Adding a meeting to the plan raises the rows' one-on-one total by the meeting's owners. */
  lemma {:induction false} OneCountSumSnoc(employees: seq<Employee>, plan: seq<Meeting>, m: Meeting)
    ensures OneCountSum(ComputeCoverage(employees, plan + [m]))
      == OneCountSum(ComputeCoverage(employees, plan)) + Owners(employees, m)
  {
    if employees != [] {
      var init := employees[..|employees| - 1];
      OneCountSumSnoc(init, plan, m);
      CoverageInit(employees, plan + [m]);
      CoverageInit(employees, plan);
      CountKeySnoc(plan, m, ScarcityScheduler.Owner, Some(employees[|employees| - 1].id));
    }
  }

  /** The rows of all employees but the last are the rows of the shorter list. */
  lemma CoverageInit(employees: seq<Employee>, plan: seq<Meeting>)
    requires employees != []
    ensures ComputeCoverage(employees, plan)[..|employees| - 1] == ComputeCoverage(employees[..|employees| - 1], plan)
  {
    var a, c := ComputeCoverage(employees, plan)[..|employees| - 1], ComputeCoverage(employees[..|employees| - 1], plan);
    assert |a| == |c|;
    forall i | 0 <= i < |c| ensures a[i] == c[i] {
      assert employees[..|employees| - 1][i] == employees[i];
    }
  }

  /**
   * The coverage rows agree with the stats: when employee ids are distinct and every
   * one-on-one belongs to a listed employee, the rows' one-on-one counts add up to the plan's
   * one-on-one count.
   */
  lemma {:induction false} CoverageMatchesStats(employees: seq<Employee>, plan: seq<Meeting>)
    requires DistinctIds(employees)
    requires forall m :: m in plan && m.OneOnOne? ==> m.employeeId in Ids(employees)
    ensures OneCountSum(ComputeCoverage(employees, plan)) == ComputeStats(plan).oneOnOneCount
  {
    if plan == [] {
      ZeroRows(employees);
    } else {
      var init, p := plan[..|plan| - 1], plan[|plan| - 1];
      assert plan == init + [p];
      CoverageMatchesStats(employees, init);
      OneCountSumSnoc(employees, init, p);
      OwnersOfListed(employees, p);
    }
  }

  lemma {:induction false} ZeroRows(employees: seq<Employee>)
    ensures OneCountSum(ComputeCoverage(employees, [])) == 0
  {
    if employees != [] {
      var init := employees[..|employees| - 1];
      ZeroRows(init);
      assert ComputeCoverage(employees, [])[..|employees| - 1] == ComputeCoverage(init, []);
    }
  }
}
