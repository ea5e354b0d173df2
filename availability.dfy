/**
 * Availability resolution (src/lib/availability.ts): shifts and breaks as absolute spans,
 * shifts minus breaks, intersection with the manager's windows, merged per employee, and the
 * buffer and overlap tests the schedulers apply to a candidate slot.
 */
module Availability {
  import opened Wrappers
  import opened Time
  import opened Types
  import opened Sorting

  // ---------------------------------------------------------------- absolute shifts and windows

  /** A shift as an absolute span: it ends on the next day when its end time is not after its start. */
  function ShiftSpan(s: Shift): Interval {
    SpanInterval(s.day, s.start, s.end)
  }

  function ShiftsOf(e: Employee): (r: seq<ShiftAbs>)
    ensures |r| == |e.shifts|
    ensures forall j :: 0 <= j < |r| ==> r[j] == ShiftAbs(ShiftSpan(e.shifts[j]), e.id)
  {
    seq(|e.shifts|, j requires 0 <= j < |e.shifts| => ShiftAbs(ShiftSpan(e.shifts[j]), e.id))
  }

  /** The list `expandShiftsAbs` pushes: every shift of every employee, employee by employee. */
  function ExpandShifts(employees: seq<Employee>): seq<ShiftAbs> {
    if employees == [] then []
    else ExpandShifts(employees[..|employees| - 1]) + ShiftsOf(employees[|employees| - 1])
  }

  /**
   * The expanded list holds exactly one tagged span per shift of every employee, each of them
   * non-empty.
   */
  lemma {:induction false} ExpandShiftsMembers(employees: seq<Employee>)
    ensures var r := ExpandShifts(employees);
      && (forall k :: 0 <= k < |r| ==>
            (NonEmpty(r[k].span)
             && exists i, j :: 0 <= i < |employees| && 0 <= j < |employees[i].shifts|
                  && r[k] == ShiftAbs(ShiftSpan(employees[i].shifts[j]), employees[i].id)))
      && (forall i, j :: 0 <= i < |employees| && 0 <= j < |employees[i].shifts| ==>
            ShiftAbs(ShiftSpan(employees[i].shifts[j]), employees[i].id) in r)
  {
    if employees != [] {
      var init, e := employees[..|employees| - 1], employees[|employees| - 1];
      ExpandShiftsMembers(init);
      var a, b := ExpandShifts(init), ShiftsOf(e);
      var r := a + b;
      forall k | 0 <= k < |r|
        ensures NonEmpty(r[k].span)
          && exists i, j :: 0 <= i < |employees| && 0 <= j < |employees[i].shifts|
               && r[k] == ShiftAbs(ShiftSpan(employees[i].shifts[j]), employees[i].id)
      {
        if k < |a| {
          assert r[k] == a[k];
          var i, j :| 0 <= i < |init| && 0 <= j < |init[i].shifts|
            && a[k] == ShiftAbs(ShiftSpan(init[i].shifts[j]), init[i].id);
          assert employees[i] == init[i];
        } else {
          assert r[k] == b[k - |a|];
          assert employees[|employees| - 1] == e;
        }
      }
      forall i, j | 0 <= i < |employees| && 0 <= j < |employees[i].shifts|
        ensures ShiftAbs(ShiftSpan(employees[i].shifts[j]), employees[i].id) in r
      {
        if i < |init| {
          assert employees[i] == init[i];
        } else {
          assert b[j] == r[|a| + j];
        }
      }
    }
  }

  /** `expandShiftsAbs`: the nested `forEach` pushing one tagged span per shift. */
  method ExpandShiftsAbs(employees: seq<Employee>) returns (out: seq<ShiftAbs>)
    ensures out == ExpandShifts(employees)
  {
    out := [];
    for i := 0 to |employees|
      invariant out == ExpandShifts(employees[..i])
    {
      var e := employees[i];
      for j := 0 to |e.shifts|
        invariant out == ExpandShifts(employees[..i]) + ShiftsOf(e)[..j]
      {
        var s := e.shifts[j];
        var endDay: Day := if HhmmToMins(s.end) <= HhmmToMins(s.start) then (s.day + 1) % 7 else s.day;
        var iv := ToAbsInterval(s.day, s.start, endDay, s.end);
        assert ShiftsOf(e)[..j + 1] == ShiftsOf(e)[..j] + [ShiftAbs(iv, e.id)];
        out := out + [ShiftAbs(iv, e.id)];
      }
      assert employees[..i + 1][..i] == employees[..i];
      assert ShiftsOf(e)[..|e.shifts|] == ShiftsOf(e);
    }
    assert employees[..|employees|] == employees;
  }

  /** The breaks of a shift as absolute spans from the shift's day (`breaks ?? []`). */
  function BreakSpans(day: Day, breaks: Option<seq<Break>>): (r: seq<Interval>)
    ensures AllNonEmpty(r)
    ensures |r| == if breaks.Some? then |breaks.value| else 0
    ensures forall i :: 0 <= i < |r| ==> r[i] == SpanInterval(day, breaks.value[i].start, breaks.value[i].end)
  {
    match breaks
    case None => []
    case Some(bs) => seq(|bs|, i requires 0 <= i < |bs| => SpanInterval(day, bs[i].start, bs[i].end))
  }

  /** Minute `x` is worked in shift `s`: inside the shift and inside none of its breaks. */
  predicate FreeIn(x: int, s: Shift) {
    In(x, ShiftSpan(s)) && !InSome(x, BreakSpans(s.day, s.breaks))
  }

  /** Minute `x` is worked in one of the shifts. */
  predicate FreeInSome(x: int, shifts: seq<Shift>) {
    exists k :: 0 <= k < |shifts| && FreeIn(x, shifts[k])
  }

  lemma FreeInSomeInit(shifts: seq<Shift>, x: int)
    requires shifts != []
    ensures FreeInSome(x, shifts) <==> FreeInSome(x, shifts[..|shifts| - 1]) || FreeIn(x, shifts[|shifts| - 1])
  {
    if FreeInSome(x, shifts) {
      FreeInSomeSplit(shifts, x);
    }
    if FreeInSome(x, shifts[..|shifts| - 1]) {
      FreeInSomeFromInit(shifts, x);
    }
  }

  lemma FreeInSomeSplit(shifts: seq<Shift>, x: int)
    requires shifts != [] && FreeInSome(x, shifts)
    ensures FreeInSome(x, shifts[..|shifts| - 1]) || FreeIn(x, shifts[|shifts| - 1])
  {
    var init := shifts[..|shifts| - 1];
    var k :| 0 <= k < |shifts| && FreeIn(x, shifts[k]);
    if k < |init| {
      assert init[k] == shifts[k];
    }
  }

  lemma FreeInSomeFromInit(shifts: seq<Shift>, x: int)
    requires shifts != [] && FreeInSome(x, shifts[..|shifts| - 1])
    ensures FreeInSome(x, shifts)
  {
    var k :| 0 <= k < |shifts| - 1 && FreeIn(x, shifts[..|shifts| - 1][k]);
    assert shifts[..|shifts| - 1][k] == shifts[k];
  }

  /**
   * `shiftMinusBreaks`: the shift with its breaks cut out. Every piece lies inside the shift
   * and overlaps no break, and the pieces cover exactly the minutes worked.
   */
  function ShiftMinusBreaks(day: Day, start: Clock, end: Clock, breaks: Option<seq<Break>>): (r: seq<Interval>)
    ensures AllNonEmpty(r)
    ensures forall i :: 0 <= i < |r| ==> Within(r[i], SpanInterval(day, start, end))
    ensures forall i, j :: 0 <= i < |r| && 0 <= j < |BreakSpans(day, breaks)| ==>
      !Overlaps(r[i], BreakSpans(day, breaks)[j])
    ensures forall x :: InSome(x, r) <==> In(x, SpanInterval(day, start, end)) && !InSome(x, BreakSpans(day, breaks))
  {
    var shift, holes := SpanInterval(day, start, end), BreakSpans(day, breaks);
    SubtractFromSpan(shift, holes);
    SubtractMany([shift], holes)
  }

  function WindowSpan(w: ManagerWindow): Interval {
    SpanInterval(w.day, w.start, w.end)
  }

  function WindowSpans(wins: seq<ManagerWindow>): seq<Interval> {
    seq(|wins|, i requires 0 <= i < |wins| => WindowSpan(wins[i]))
  }

  /**
   * `expandManagerWindowsAbs`: one span per window, in input order, starting at the window's
   * day and time and ending at its end time, on the next day when the end is not after the start.
   */
  method ExpandManagerWindowsAbs(wins: seq<ManagerWindow>) returns (out: seq<Interval>)
    ensures out == WindowSpans(wins)
    ensures |out| == |wins| && AllNonEmpty(out)
    ensures forall i :: 0 <= i < |out| ==>
      var s, e := HhmmToMins(wins[i].start), HhmmToMins(wins[i].end);
      && out[i].startMin == DayTimeToAbs(wins[i].day, wins[i].start)
      && out[i].endMin == out[i].startMin + (if s < e then e - s else e - s + MinutesInDay)
  {
    out := [];
    for i := 0 to |wins|
      invariant out == WindowSpans(wins)[..i]
    {
      var w := wins[i];
      var endDay: Day := if HhmmToMins(w.end) <= HhmmToMins(w.start) then (w.day + 1) % 7 else w.day;
      out := out + [ToAbsInterval(w.day, w.start, endDay, w.end)];
    }
    assert WindowSpans(wins)[..|wins|] == WindowSpans(wins);
    forall i | 0 <= i < |out|
      ensures var s, e := HhmmToMins(wins[i].start), HhmmToMins(wins[i].end);
        out[i].endMin == out[i].startMin + (if s < e then e - s else e - s + MinutesInDay)
    {
      SpanIntervalLength(wins[i].day, wins[i].start, wins[i].end);
    }
  }

  // ---------------------------------------------------------------- per-day counts

  /** The meetings whose start falls on day index `d` (no reduction modulo 7). */
  function OnDay(ms: seq<Meeting>, d: nat): (r: seq<Meeting>)
    ensures |r| <= |ms|
    ensures forall i :: 0 <= i < |r| ==> SameDay(Span(r[i])) == d && r[i] in ms
    ensures forall i :: 0 <= i < |ms| && SameDay(Span(ms[i])) == d ==> ms[i] in r
  {
    if ms == [] then []
    else
      var init, last := ms[..|ms| - 1], ms[|ms| - 1];
      var r := OnDay(init, d) + (if SameDay(Span(last)) == d then [last] else []);
      assert ms == init + [last];
      assert forall i :: 0 <= i < |ms| - 1 ==> ms[i] == init[i];
      r
  }

  function CountOnDay(ms: seq<Meeting>, d: nat): nat {
    |OnDay(ms, d)|
  }

  /** `countDayMeetings`: how many meetings start on the candidate's day index. */
  function CountDayMeetings(existing: seq<Meeting>, cand: Interval): nat {
    CountOnDay(existing, SameDay(cand))
  }

  /** Counting per day adds up over concatenation, and a meeting counts on its own day only. */
  lemma {:induction false} CountOnDayConcat(a: seq<Meeting>, b: seq<Meeting>, d: nat)
    ensures CountOnDay(a + b, d) == CountOnDay(a, d) + CountOnDay(b, d)
    decreases |b|
  {
    if b == [] {
      assert a + b == a;
    } else {
      var init, last := b[..|b| - 1], b[|b| - 1];
      assert (a + b)[..|a + b| - 1] == a + init;
      assert (a + b)[|a + b| - 1] == last;
      CountOnDayConcat(a, init, d);
    }
  }

  lemma CountOnDaySingle(m: Meeting, d: nat)
    ensures CountOnDay([m], d) == if SameDay(Span(m)) == d then 1 else 0
  {
    assert [m][..0] == [];
  }

  // ---------------------------------------------------------------- crossing two span lists

  /** The non-empty intersections of each span of `xs` with `y`, in the order of `xs`. */
  function Column(xs: seq<Interval>, y: Interval): (r: seq<Interval>)
    ensures AllNonEmpty(r)
    ensures forall x :: InSome(x, r) <==> InSome(x, xs) && In(x, y)
    ensures r == [] <==> forall k :: 0 <= k < |xs| ==> Intersect(xs[k], y).None?
  {
    if xs == [] then []
    else
      var init, last := xs[..|xs| - 1], xs[|xs| - 1];
      var head := Column(init, y);
      var tail := match Intersect(last, y) case Some(iv) => [iv] case None => [];
      forall x ensures InSome(x, head + tail) <==> InSome(x, xs) && In(x, y) {
        InSomeInit(xs, x);
        InSomeConcat(head, tail, x);
        if tail != [] { assert InSome(x, tail) <==> In(x, tail[0]); }
      }
      assert forall k :: 0 <= k < |xs| - 1 ==> xs[k] == init[k];
      head + tail
  }

  /**
   * The intersections of every span of `xs` with every span of `ys`: outer loop over `ys`,
   * inner loop over `xs`, the order in which the source's nested loops push them.
   */
  function Crossing(xs: seq<Interval>, ys: seq<Interval>): (r: seq<Interval>)
    ensures AllNonEmpty(r)
    ensures forall x :: InSome(x, r) <==> InSome(x, xs) && InSome(x, ys)
    ensures r == [] <==> forall k, j :: 0 <= k < |xs| && 0 <= j < |ys| ==> Intersect(xs[k], ys[j]).None?
  {
    if ys == [] then []
    else
      var init, last := ys[..|ys| - 1], ys[|ys| - 1];
      var head, tail := Crossing(xs, init), Column(xs, last);
      forall x ensures InSome(x, head + tail) <==> InSome(x, xs) && InSome(x, ys) {
        InSomeInit(ys, x);
        InSomeConcat(head, tail, x);
      }
      assert forall j :: 0 <= j < |ys| - 1 ==> ys[j] == init[j];
      head + tail
  }

  /** The nested hit-collecting loops of `availabilityByEmployee`. */
  method CollectHits(base: seq<Interval>, wins: seq<Interval>) returns (hits: seq<Interval>)
    ensures hits == Crossing(base, wins)
  {
    hits := [];
    for i := 0 to |wins|
      invariant hits == Crossing(base, wins[..i])
    {
      CrossingSnoc(base, wins, i);
      hits := CollectColumn(hits, base, wins[i]);
    }
    assert wins[..|wins|] == wins;
  }

  /** The inner loop: the hits of every worked span with one window, appended in order. */
  method CollectColumn(hits0: seq<Interval>, base: seq<Interval>, m: Interval) returns (hits: seq<Interval>)
    ensures hits == hits0 + Column(base, m)
  {
    hits := hits0;
    assert base[..0] == [];
    for j := 0 to |base|
      invariant hits == hits0 + Column(base[..j], m)
    {
      ColumnSnoc(base, m, j);
      var hit := Intersect(base[j], m);
      if hit.Some? {
        ConcatAssoc(hits0, Column(base[..j], m), [hit.value]);
        hits := hits + [hit.value];
      }
    }
    assert base[..|base|] == base;
  }

  lemma ColumnSnoc(base: seq<Interval>, m: Interval, j: nat)
    requires j < |base|
    ensures Column(base[..j + 1], m) == Column(base[..j], m) + match Intersect(base[j], m) case Some(iv) => [iv] case None => []
  {
    assert base[..j + 1][..j] == base[..j] && base[..j + 1][j] == base[j];
  }

  lemma CrossingSnoc(base: seq<Interval>, wins: seq<Interval>, i: nat)
    requires i < |wins|
    ensures Crossing(base, wins[..i + 1]) == Crossing(base, wins[..i]) + Column(base, wins[i])
  {
    assert wins[..i + 1][..i] == wins[..i] && wins[..i + 1][i] == wins[i];
  }

  // ---------------------------------------------------------------- intersectEmployeeWithManager

  /** All hits of one employee's shifts with the windows, in the order the loops push them. */
  function EmpHits(shifts: seq<ShiftAbs>, wins: seq<Interval>, eid: string): (r: seq<Interval>)
    ensures AllNonEmpty(r)
    ensures forall x :: InSome(x, r) <==>
      InSome(x, wins) && exists i :: 0 <= i < |shifts| && shifts[i].employeeId == eid && In(x, shifts[i].span)
    ensures r == [] <==> forall i, j :: 0 <= i < |shifts| && 0 <= j < |wins| && shifts[i].employeeId == eid ==>
      Intersect(shifts[i].span, wins[j]).None?
  {
    if shifts == [] then []
    else
      var init, s := shifts[..|shifts| - 1], shifts[|shifts| - 1];
      var head := EmpHits(init, wins, eid);
      var tail := if s.employeeId == eid then Crossing([s.span], wins) else [];
      assert forall i :: 0 <= i < |shifts| - 1 ==> shifts[i] == init[i];
      forall x ensures InSome(x, head + tail) <==>
        InSome(x, wins) && exists i :: 0 <= i < |shifts| && shifts[i].employeeId == eid && In(x, shifts[i].span)
      {
        InSomeConcat(head, tail, x);
        assert InSome(x, [s.span]) <==> In(x, s.span) by { assert [s.span][0] == s.span; }
        if exists i :: 0 <= i < |shifts| && shifts[i].employeeId == eid && In(x, shifts[i].span) {
          var i :| 0 <= i < |shifts| && shifts[i].employeeId == eid && In(x, shifts[i].span);
          if i < |init| { assert init[i] == shifts[i]; }
        }
      }
      assert tail == [] <==> s.employeeId != eid || forall j :: 0 <= j < |wins| ==> Intersect(s.span, wins[j]).None? by {
        if s.employeeId == eid {
          assert [s.span][0] == s.span;
        }
      }
      head + tail
  }

  /** The employee ids of a list of tagged shifts. */
  function EmployeeIdsOf(shifts: seq<ShiftAbs>): set<string> {
    set i | 0 <= i < |shifts| :: shifts[i].employeeId
  }

  /** What `intersectEmployeeWithManager` returns: an entry per employee with a hit, merged. */
  function EmployeeOverlaps(shifts: seq<ShiftAbs>, wins: seq<Interval>): map<string, seq<Interval>> {
    map eid | eid in EmployeeIdsOf(shifts) && EmpHits(shifts, wins, eid) != [] :: Merge(EmpHits(shifts, wins, eid))
  }

  /**
   * An employee has an entry exactly when one of their shifts intersects a window; the entry
   * is sorted, with each span ending strictly before the next starts (touching pieces merged),
   * and covers exactly the minutes of the employee's shifts inside some window.
   */
  lemma EmployeeOverlapsFacts(shifts: seq<ShiftAbs>, wins: seq<Interval>, eid: string)
    ensures var r := EmployeeOverlaps(shifts, wins);
      && (eid in r <==> exists i, j :: 0 <= i < |shifts| && 0 <= j < |wins| && shifts[i].employeeId == eid
                                       && Intersect(shifts[i].span, wins[j]).Some?)
      && (eid in r ==> StartsSorted(r[eid]) && Separated(r[eid]) && AllNonEmpty(r[eid]))
      && (eid in r ==> forall x :: InSome(x, r[eid]) <==>
            InSome(x, wins) && exists i :: 0 <= i < |shifts| && shifts[i].employeeId == eid && In(x, shifts[i].span))
  {
    var h := EmpHits(shifts, wins, eid);
    if h != [] {
      var i, j :| 0 <= i < |shifts| && 0 <= j < |wins| && shifts[i].employeeId == eid
        && Intersect(shifts[i].span, wins[j]).Some?;
      assert eid in EmployeeIdsOf(shifts);
    }
  }

  /** The raw record holds exactly the hits of every shift before `i`. */
  ghost predicate RawDone(raw: map<string, seq<Interval>>, shifts: seq<ShiftAbs>, wins: seq<Interval>, i: nat)
    requires i <= |shifts|
  {
    && raw.Keys <= EmployeeIdsOf(shifts)
    && forall eid :: (eid in raw <==> EmpHits(shifts[..i], wins, eid) != [])
                     && (eid in raw ==> raw[eid] == EmpHits(shifts[..i], wins, eid))
  }

  /** Hits gathered so far: all shifts before `i`, and the first `j` windows for shift `i`. */
  function PartialHits(shifts: seq<ShiftAbs>, wins: seq<Interval>, eid: string, i: nat, j: nat): seq<Interval>
    requires i < |shifts| && j <= |wins|
  {
    EmpHits(shifts[..i], wins, eid) + (if shifts[i].employeeId == eid then Crossing([shifts[i].span], wins[..j]) else [])
  }

  /** The raw record in the middle of the inner loop. */
  ghost predicate RawPartial(raw: map<string, seq<Interval>>, shifts: seq<ShiftAbs>, wins: seq<Interval>, i: nat, j: nat)
    requires i < |shifts| && j <= |wins|
  {
    && raw.Keys <= EmployeeIdsOf(shifts)
    && forall eid :: (eid in raw <==> PartialHits(shifts, wins, eid, i, j) != [])
                     && (eid in raw ==> raw[eid] == PartialHits(shifts, wins, eid, i, j))
  }

  /** Pushing `hit` under the shift's employee, as the inner loop does. */
  function Push(raw: map<string, seq<Interval>>, eid: string, hit: Option<Interval>): map<string, seq<Interval>> {
    match hit
    case None => raw
    case Some(iv) => raw[eid := (if eid in raw then raw[eid] else []) + [iv]]
  }

  lemma RawStart(raw: map<string, seq<Interval>>, shifts: seq<ShiftAbs>, wins: seq<Interval>, i: nat)
    requires i < |shifts| && RawDone(raw, shifts, wins, i)
    ensures RawPartial(raw, shifts, wins, i, 0)
  {
    assert wins[..0] == [];
  }

  lemma RawStep(raw: map<string, seq<Interval>>, shifts: seq<ShiftAbs>, wins: seq<Interval>, i: nat, j: nat)
    requires i < |shifts| && j < |wins| && RawPartial(raw, shifts, wins, i, j)
    ensures RawPartial(Push(raw, shifts[i].employeeId, Intersect(shifts[i].span, wins[j])), shifts, wins, i, j + 1)
  {
    var s := shifts[i];
    var hit := Intersect(s.span, wins[j]);
    var raw' := Push(raw, s.employeeId, hit);
    forall eid ensures (eid in raw' <==> PartialHits(shifts, wins, eid, i, j + 1) != [])
      && (eid in raw' ==> raw'[eid] == PartialHits(shifts, wins, eid, i, j + 1))
    {
      RawStepAt(raw, shifts, wins, i, j, eid);
    }
    assert s.employeeId in EmployeeIdsOf(shifts);
  }

  /** The step of `RawStep` for one employee id. */
  lemma RawStepAt(raw: map<string, seq<Interval>>, shifts: seq<ShiftAbs>, wins: seq<Interval>, i: nat, j: nat, eid: string)
    requires i < |shifts| && j < |wins| && RawPartial(raw, shifts, wins, i, j)
    ensures var raw' := Push(raw, shifts[i].employeeId, Intersect(shifts[i].span, wins[j]));
      && (eid in raw' <==> PartialHits(shifts, wins, eid, i, j + 1) != [])
      && (eid in raw' ==> raw'[eid] == PartialHits(shifts, wins, eid, i, j + 1))
  {
    PartialNext(shifts, wins, eid, i, j);
  }

  /** One more window: the shift's employee gains the intersection, if any; nobody else changes. */
  lemma PartialNext(shifts: seq<ShiftAbs>, wins: seq<Interval>, eid: string, i: nat, j: nat)
    requires i < |shifts| && j < |wins|
    ensures var hit := Intersect(shifts[i].span, wins[j]);
      PartialHits(shifts, wins, eid, i, j + 1)
        == PartialHits(shifts, wins, eid, i, j) + (if shifts[i].employeeId == eid && hit.Some? then [hit.value] else [])
  {
    if shifts[i].employeeId == eid {
      var hit := Intersect(shifts[i].span, wins[j]);
      CrossingNext(shifts[i].span, wins, j);
      ConcatAssoc(EmpHits(shifts[..i], wins, eid), Crossing([shifts[i].span], wins[..j]), if hit.Some? then [hit.value] else []);
    }
  }

  lemma CrossingNext(span: Interval, wins: seq<Interval>, j: nat)
    requires j < |wins|
    ensures var hit := Intersect(span, wins[j]);
      Crossing([span], wins[..j + 1]) == Crossing([span], wins[..j]) + (if hit.Some? then [hit.value] else [])
  {
    assert wins[..j + 1][..j] == wins[..j] && wins[..j + 1][j] == wins[j];
    assert [span][..0] == [];
  }

  lemma RawFinish(raw: map<string, seq<Interval>>, shifts: seq<ShiftAbs>, wins: seq<Interval>, i: nat)
    requires i < |shifts| && RawPartial(raw, shifts, wins, i, |wins|)
    ensures RawDone(raw, shifts, wins, i + 1)
  {
    assert wins[..|wins|] == wins;
    assert shifts[..i + 1][..i] == shifts[..i] && shifts[..i + 1][i] == shifts[i];
  }

  /**
   * `intersectEmployeeWithManager`: nested loops pushing each non-empty intersection under
   * its employee's id, then each employee's list sorted and merged with `<=`, so touching
   * pieces coalesce.
   */
  method IntersectEmployeeWithManager(shifts: seq<ShiftAbs>, wins: seq<Interval>) returns (byEmp: map<string, seq<Interval>>)
    ensures byEmp == EmployeeOverlaps(shifts, wins)
  {
    var raw: map<string, seq<Interval>> := map[];
    for i := 0 to |shifts|
      invariant RawDone(raw, shifts, wins, i)
    {
      var s := shifts[i];
      RawStart(raw, shifts, wins, i);
      for j := 0 to |wins|
        invariant RawPartial(raw, shifts, wins, i, j)
      {
        RawStep(raw, shifts, wins, i, j);
        var hit := Intersect(s.span, wins[j]);
        if hit.Some? {
          var prev := if s.employeeId in raw then raw[s.employeeId] else [];
          raw := raw[s.employeeId := prev + [hit.value]];
        }
      }
      RawFinish(raw, shifts, wins, i);
    }
    RawMerged(raw, shifts, wins);
    byEmp := map eid | eid in raw :: Merge(raw[eid]);
  }

  /** Once every shift is in, merging each list gives the overlaps. */
  lemma RawMerged(raw: map<string, seq<Interval>>, shifts: seq<ShiftAbs>, wins: seq<Interval>)
    requires RawDone(raw, shifts, wins, |shifts|)
    ensures (map eid | eid in raw :: Merge(raw[eid])) == EmployeeOverlaps(shifts, wins)
  {
    assert shifts[..|shifts|] == shifts;
  }

  // ---------------------------------------------------------------- availabilityByEmployee

  /** `e.shifts.flatMap(shiftMinusBreaks)`: the worked minutes of all the employee's shifts. */
  function WorkedSpans(shifts: seq<Shift>): (r: seq<Interval>)
    ensures AllNonEmpty(r)
    ensures forall x :: InSome(x, r) <==> FreeInSome(x, shifts)
  {
    if shifts == [] then []
    else
      var init, s := shifts[..|shifts| - 1], shifts[|shifts| - 1];
      var head, tail := WorkedSpans(init), ShiftMinusBreaks(s.day, s.start, s.end, s.breaks);
      forall x ensures InSome(x, head + tail) <==> FreeInSome(x, shifts) {
        InSomeConcat(head, tail, x);
        FreeInSomeInit(shifts, x);
      }
      head + tail
  }

  /**
   * One employee's availability: worked minutes inside some manager window, merged. It is
   * sorted, each span ends strictly before the next starts, and it covers exactly the minutes
   * that lie in a window and are worked; it is empty exactly when no such minute exists, in
   * particular when the employee has no shifts.
   */
  function EmployeeAvail(e: Employee, wins: seq<Interval>): (r: seq<Interval>)
    ensures StartsSorted(r) && Separated(r) && AllNonEmpty(r)
    ensures forall x :: InSome(x, r) <==> InSome(x, wins) && FreeInSome(x, e.shifts)
    ensures r == [] <==> forall x :: !(InSome(x, wins) && FreeInSome(x, e.shifts))
    ensures e.shifts == [] ==> r == []
  {
    var r := Merge(Crossing(WorkedSpans(e.shifts), wins));
    assert r != [] ==> InSome(r[0].startMin, r) by {
      if r != [] { assert In(r[0].startMin, r[0]); }
    }
    r
  }

  /** One entry `f(e)` per employee `e`, a later id overwriting an earlier. */
  function Tabulate(employees: seq<Employee>, f: Employee -> seq<Interval>): map<string, seq<Interval>> {
    if employees == [] then map[]
    else
      var e := employees[|employees| - 1];
      Tabulate(employees[..|employees| - 1], f)[e.id := f(e)]
  }

  /** The record `availabilityByEmployee` builds: one entry per employee, a later id overwriting an earlier. */
  function ByEmployee(employees: seq<Employee>, wins: seq<Interval>): map<string, seq<Interval>> {
    Tabulate(employees, e => EmployeeAvail(e, wins))
  }

  /** `employees[i]` is the last employee with its id. */
  predicate LastWithId(employees: seq<Employee>, i: int) {
    0 <= i < |employees| && forall j :: i < j < |employees| ==> employees[j].id != employees[i].id
  }

  lemma IdsInit(employees: seq<Employee>)
    requires employees != []
    ensures Ids(employees) == Ids(employees[..|employees| - 1]) + {employees[|employees| - 1].id}
  {
    var init := employees[..|employees| - 1];
    forall id | id in Ids(employees) ensures id in Ids(init) + {employees[|employees| - 1].id} {
      var i :| 0 <= i < |employees| && employees[i].id == id;
      if i < |init| { assert init[i] == employees[i]; }
    }
    forall id | id in Ids(init) ensures id in Ids(employees) {
      var i :| 0 <= i < |init| && init[i].id == id;
      assert employees[i] == init[i];
    }
  }

  lemma {:induction false} TabulateKeys(employees: seq<Employee>, f: Employee -> seq<Interval>)
    ensures Tabulate(employees, f).Keys == Ids(employees)
  {
    if employees != [] {
      TabulateKeys(employees[..|employees| - 1], f);
      IdsInit(employees);
    }
  }

  lemma ByEmployeeKeys(employees: seq<Employee>, wins: seq<Interval>)
    ensures ByEmployee(employees, wins).Keys == Ids(employees)
  {
    TabulateKeys(employees, e => EmployeeAvail(e, wins));
  }

  /**
   * Every employee has an entry and nothing else does; the entry of an id is the availability
   * of the last employee carrying it (the only one when ids are distinct).
   */
  lemma ByEmployeeFacts(employees: seq<Employee>, wins: seq<Interval>, i: nat)
    requires LastWithId(employees, i)
    ensures ByEmployee(employees, wins).Keys == Ids(employees)
    ensures ByEmployee(employees, wins)[employees[i].id] == EmployeeAvail(employees[i], wins)
  {
    ByEmployeeKeys(employees, wins);
    ByEmployeeEntry(employees, wins, i);
  }

  lemma {:induction false} TabulateEntry(employees: seq<Employee>, f: Employee -> seq<Interval>, i: nat)
    requires LastWithId(employees, i)
    ensures employees[i].id in Tabulate(employees, f)
    ensures Tabulate(employees, f)[employees[i].id] == f(employees[i])
  {
    var init, last := employees[..|employees| - 1], employees[|employees| - 1];
    if i < |init| {
      assert employees[i] == init[i] && init[i].id != last.id;
      assert LastWithId(init, i);
      TabulateEntry(init, f, i);
    }
  }

  lemma ByEmployeeEntry(employees: seq<Employee>, wins: seq<Interval>, i: nat)
    requires LastWithId(employees, i)
    ensures employees[i].id in ByEmployee(employees, wins)
    ensures ByEmployee(employees, wins)[employees[i].id] == EmployeeAvail(employees[i], wins)
  {
    TabulateEntry(employees, e => EmployeeAvail(e, wins), i);
  }

  /**
   * `availabilityByEmployee`: for each employee, intersect every worked span with every
   * manager window and merge the hits.
   */
  method AvailabilityByEmployee(employees: seq<Employee>, wins: seq<Interval>) returns (byEmp: map<string, seq<Interval>>)
    ensures byEmp == ByEmployee(employees, wins)
  {
    byEmp := map[];
    for i := 0 to |employees|
      invariant byEmp == ByEmployee(employees[..i], wins)
    {
      var e := employees[i];
      var merged := OneEmployeeAvail(e, wins);
      ByEmployeeNext(employees, wins, i);
      byEmp := byEmp[e.id := merged];
    }
    assert employees[..|employees|] == employees;
  }

  /** The body of the loop: worked spans, their hits with the windows, merged. */
  method OneEmployeeAvail(e: Employee, wins: seq<Interval>) returns (merged: seq<Interval>)
    ensures merged == EmployeeAvail(e, wins)
  {
    var base := WorkedSpans(e.shifts);
    var hits := CollectHits(base, wins);
    merged := MergeIntervals(hits);
  }

  lemma ByEmployeeNext(employees: seq<Employee>, wins: seq<Interval>, i: nat)
    requires i < |employees|
    ensures ByEmployee(employees[..i + 1], wins) == ByEmployee(employees[..i], wins)[employees[i].id := EmployeeAvail(employees[i], wins)]
  {
    TabulateNext(employees, e => EmployeeAvail(e, wins), i);
  }

  lemma TabulateNext(employees: seq<Employee>, f: Employee -> seq<Interval>, i: nat)
    requires i < |employees|
    ensures Tabulate(employees[..i + 1], f) == Tabulate(employees[..i], f)[employees[i].id := f(employees[i])]
  {
    assert employees[..i + 1][..i] == employees[..i] && employees[..i + 1][i] == employees[i];
  }

  // ---------------------------------------------------------------- shiftIntervalsMinusBreaks

  /** Each hole clamped to the shift (`intersect(...) ?? {0, 0}`), empty results dropped. */
  function Clamp(shift: Interval, holes: seq<Interval>): (r: seq<Interval>)
    ensures AllNonEmpty(r)
    ensures forall i :: 0 <= i < |r| ==> Within(r[i], shift)
    ensures forall x :: InSome(x, r) <==> In(x, shift) && InSome(x, holes)
  {
    if holes == [] then []
    else
      var init, h := holes[..|holes| - 1], holes[|holes| - 1];
      var j := match Intersect(shift, h) case Some(iv) => iv case None => Interval(0, 0);
      var head := Clamp(shift, init);
      var tail := if j.endMin > j.startMin then [j] else [];
      forall x ensures InSome(x, head + tail) <==> In(x, shift) && InSome(x, holes) {
        InSomeInit(holes, x);
        InSomeConcat(head, tail, x);
        if tail != [] { assert InSome(x, tail) <==> In(x, tail[0]); }
      }
      head + tail
  }

  /**
   * `shiftIntervalsMinusBreaks`: breaks clamped to the shift, then subtracted. It covers the
   * same minutes as `shiftMinusBreaks`, and every piece lies inside the shift.
   */
  function ShiftIntervalsMinusBreaks(s: Shift): (r: seq<Interval>)
    ensures AllNonEmpty(r)
    ensures forall i :: 0 <= i < |r| ==> Within(r[i], ShiftSpan(s))
    ensures forall x :: InSome(x, r) <==> InSome(x, ShiftMinusBreaks(s.day, s.start, s.end, s.breaks))
  {
    var shift := ShiftSpan(s);
    var holes := Clamp(shift, BreakSpans(s.day, s.breaks));
    SubtractFromSpan(shift, holes);
    SubtractMany([shift], holes)
  }

  // ---------------------------------------------------------------- statistics

  /** `minutesOf`: the summed lengths of the spans. */
  function MinutesOf(ivs: seq<Interval>): (r: int)
    ensures AllNonEmpty(ivs) ==> r >= |ivs|
  {
    if ivs == [] then 0
    else MinutesOf(ivs[..|ivs| - 1]) + (ivs[|ivs| - 1].endMin - ivs[|ivs| - 1].startMin)
  }

  lemma {:induction false} MinutesOfConcat(a: seq<Interval>, b: seq<Interval>)
    ensures MinutesOf(a + b) == MinutesOf(a) + MinutesOf(b)
    decreases |b|
  {
    if b == [] {
      assert a + b == a;
    } else {
      assert (a + b)[..|a + b| - 1] == a + b[..|b| - 1];
      MinutesOfConcat(a, b[..|b| - 1]);
    }
  }

  /** The minutes `a`, `a + 1`, ..., `b - 1`. */
  function MinuteRange(a: int, b: int): (r: set<int>)
    ensures forall x :: x in r <==> a <= x < b
    decreases b - a
  {
    if b <= a then {} else MinuteRange(a, b - 1) + {b - 1}
  }

  lemma {:induction false} MinuteRangeSize(a: int, b: int)
    requires a <= b
    ensures |MinuteRange(a, b)| == b - a
    decreases b - a
  {
    if a < b {
      MinuteRangeSize(a, b - 1);
    }
  }

  /** The set of minutes some span covers. */
  function CoveredMinutes(ivs: seq<Interval>): (r: set<int>)
    ensures forall x :: x in r <==> InSome(x, ivs)
  {
    if ivs == [] then {}
    else
      var init, last := ivs[..|ivs| - 1], ivs[|ivs| - 1];
      assert forall x :: InSome(x, ivs) <==> InSome(x, init) || In(x, last) by {
        forall x | InSome(x, ivs) ensures InSome(x, init) || In(x, last) {
          var i :| 0 <= i < |ivs| && In(x, ivs[i]);
          if i < |init| {
            assert In(x, init[i]);
          }
        }
        forall x | InSome(x, init) ensures InSome(x, ivs) {
          var i :| 0 <= i < |init| && In(x, init[i]);
          assert In(x, ivs[i]);
        }
        assert forall x :: In(x, last) ==> In(x, ivs[|ivs| - 1]);
      }
      CoveredMinutes(init) + MinuteRange(last.startMin, last.endMin)
  }

  /**
   * For non-empty spans that neither overlap nor touch, such as the merged availability,
   * `minutesOf` is the number of distinct minutes the spans cover.
   */
  lemma {:induction false} MinutesOfCountsCovered(ivs: seq<Interval>)
    requires AllNonEmpty(ivs) && Separated(ivs)
    ensures MinutesOf(ivs) == |CoveredMinutes(ivs)|
  {
    if ivs != [] {
      var init, last := ivs[..|ivs| - 1], ivs[|ivs| - 1];
      SeparatedInit(ivs);
      MinutesOfCountsCovered(init);
      MinuteRangeSize(last.startMin, last.endMin);
      var before, here := CoveredMinutes(init), MinuteRange(last.startMin, last.endMin);
      LastCoversNew(ivs);
      assert before * here == {};
      assert |before + here| == |before| + |here|;
    }
  }

  /**
   * An employee's available minutes, as the statistics report them, are the number of minutes
   * that lie in a manager window and in a worked stretch outside breaks.
   */
  lemma EmployeeMinutesCounted(e: Employee, wins: seq<Interval>)
    ensures var avail := EmployeeAvail(e, wins);
      && MinutesOf(avail) == |CoveredMinutes(avail)|
      && forall x :: x in CoveredMinutes(avail) <==> InSome(x, wins) && FreeInSome(x, e.shifts)
  {
    MinutesOfCountsCovered(EmployeeAvail(e, wins));
  }

  lemma SeparatedInit(ivs: seq<Interval>)
    requires ivs != [] && AllNonEmpty(ivs) && Separated(ivs)
    ensures AllNonEmpty(ivs[..|ivs| - 1]) && Separated(ivs[..|ivs| - 1])
    ensures ivs[|ivs| - 1].startMin < ivs[|ivs| - 1].endMin
  {
    assert NonEmpty(ivs[|ivs| - 1]);
  }

  /** The last of separated spans covers no minute an earlier one covers. */
  lemma LastCoversNew(ivs: seq<Interval>)
    requires ivs != [] && Separated(ivs)
    ensures var last := ivs[|ivs| - 1];
      forall x :: x in CoveredMinutes(ivs[..|ivs| - 1]) ==> x !in MinuteRange(last.startMin, last.endMin)
  {
    var init := ivs[..|ivs| - 1];
    forall x | x in CoveredMinutes(init) ensures x < ivs[|ivs| - 1].startMin {
      var i :| 0 <= i < |init| && In(x, init[i]);
      assert ivs[i].endMin < ivs[|ivs| - 1].startMin;
    }
  }

  /** The number of slots of length `len` on the 15-minute grid summed over the spans. */
  function SlotCount(ivs: seq<Interval>, len: nat): (r: nat)
    ensures r == 0 <==> forall i :: 0 <= i < |ivs| ==> AlignUp(ivs[i].startMin, 15) + len > ivs[i].endMin
  {
    if ivs == [] then 0
    else
      var last := ivs[|ivs| - 1];
      SlotsEmptyIff(last, len, 15);
      assert forall i :: 0 <= i < |ivs| - 1 ==> ivs[..|ivs| - 1][i] == ivs[i];
      SlotCount(ivs[..|ivs| - 1], len) + |Slots(last, len, 15)|
  }

  datatype Stats = Stats(minutes: int, slots: nat)

  /**
   * `availabilityStats`: per employee, the available minutes and the number of slots of the
   * given length; an employee with no room for a single slot gets zero slots.
   */
  function AvailabilityStats(byEmp: map<string, seq<Interval>>, slotLen: nat): (r: map<string, Stats>)
    ensures r.Keys == byEmp.Keys
    ensures forall eid :: eid in r ==> AllNonEmpty(byEmp[eid]) ==> r[eid].minutes >= |byEmp[eid]|
    ensures forall eid :: eid in r ==>
      (r[eid].slots == 0 <==> forall i :: 0 <= i < |byEmp[eid]| ==> AlignUp(byEmp[eid][i].startMin, 15) + slotLen > byEmp[eid][i].endMin)
    ensures forall eid :: eid in r ==> r[eid] == Stats(MinutesOf(byEmp[eid]), SlotCount(byEmp[eid], slotLen))
  {
    map eid | eid in byEmp :: Stats(MinutesOf(byEmp[eid]), SlotCount(byEmp[eid], slotLen))
  }

  /**
   * Over the availability table, an employee's minutes count exactly the distinct minutes that
   * lie inside a manager window and inside one of their shifts outside its breaks.
   */
  lemma StatsMinutesCounted(employees: seq<Employee>, wins: seq<Interval>, slotLen: nat, i: nat)
    requires LastWithId(employees, i)
    ensures employees[i].id in AvailabilityStats(ByEmployee(employees, wins), slotLen)
    ensures AvailabilityStats(ByEmployee(employees, wins), slotLen)[employees[i].id].minutes
      == |CoveredMinutes(EmployeeAvail(employees[i], wins))|
    ensures forall x ::
      x in CoveredMinutes(EmployeeAvail(employees[i], wins)) <==> InSome(x, wins) && FreeInSome(x, employees[i].shifts)
  {
    ByEmployeeEntry(employees, wins, i);
    EmployeeMinutesCounted(employees[i], wins);
  }

  // ---------------------------------------------------------------- overlap and buffer

  /** `overlapsAny`: the candidate overlaps some existing meeting; touching is no overlap. */
  predicate OverlapsAnyMeeting(existing: seq<Meeting>, cand: Interval) {
    exists i :: 0 <= i < |existing| && Overlaps(cand, Span(existing[i]))
  }

  /** At least `buffer` minutes lie between the two spans, on one side or the other. */
  predicate Apart(a: Interval, b: Interval, buffer: nat) {
    a.endMin + buffer <= b.startMin || b.endMin + buffer <= a.startMin
  }

  /** `respectsBuffer`: every meeting starting on the candidate's day index is `buffer` away. */
  predicate RespectsBuffer(existing: seq<Meeting>, cand: Interval, buffer: nat) {
    forall i :: 0 <= i < |existing| && SameDay(Span(existing[i])) == SameDay(cand) ==>
      Apart(cand, Span(existing[i]), buffer)
  }

  /** A buffered candidate overlaps no meeting of its own day index. */
  lemma RespectsBufferNoSameDayOverlap(existing: seq<Meeting>, cand: Interval, buffer: nat)
    requires RespectsBuffer(existing, cand, buffer)
    ensures forall i :: 0 <= i < |existing| && SameDay(Span(existing[i])) == SameDay(cand) ==>
      !Overlaps(cand, Span(existing[i]))
  {
  }

  /**
   * The buffer test looks at one day index only: a meeting from 23:50 on day 0 to 00:30 on
   * day 1 does not stop a candidate at 00:00 on day 1, which it overlaps.
   */
  lemma RespectsBufferIgnoresPreviousDay()
    ensures var late := OneOnOne("a", "1:1", 1430, 1470, "e1");
      RespectsBuffer([late], Interval(1440, 1470), 15) && OverlapsAnyMeeting([late], Interval(1440, 1470))
  {
    var late := OneOnOne("a", "1:1", 1430, 1470, "e1");
    assert SameDay(Span(late)) == 0 && SameDay(Interval(1440, 1470)) == 1;
    assert Overlaps(Interval(1440, 1470), Span([late][0]));
  }

  /** The overlap test treats touching meetings as compatible. */
  lemma OverlapsAnyTouching(m: Meeting)
    ensures !OverlapsAnyMeeting([m], Interval(m.endMin, m.endMin + 30))
    ensures m.startMin >= 30 ==> !OverlapsAnyMeeting([m], Interval(m.startMin - 30, m.startMin))
  {
  }
}
