/**
 * Overnight-shift normalisation (src/lib/planner/normalize.ts): a shift whose end time is not
 * after its start time is split into the part up to midnight on its own day and the part from
 * midnight on the next day, and each break goes with one of the two parts.
 */
module Normalize {
  import opened Wrappers
  import opened Time
  import opened Types

  /** The local `toMin`: hours times 60 plus minutes, not reduced modulo a day ("24:00" is 1440). */
  function ToMin(c: Clock): nat {
    c.h * 60 + c.m
  }

  const EndOfDay: Clock := Clock(24, 0)
  const Midnight: Clock := Clock(0, 0)

  predicate CrossesMidnight(s: Shift) {
    ToMin(s.end) <= ToMin(s.start)
  }

  /** A collected break list, or nothing when it is empty (`breaks.length ? breaks : undefined`). */
  function NonEmptyOrNone(bs: seq<Break>): (r: Option<seq<Break>>)
    ensures r.None? <==> bs == []
    ensures r.Some? ==> r.value == bs
  {
    if |bs| > 0 then Some(bs) else None
  }

  function BreaksOf(s: Shift): seq<Break> {
    match s.breaks
    case None => []
    case Some(bs) => bs
  }

  /**
   * The break loop: a break goes to the first part exactly when its start is at or after the
   * shift's start, otherwise to the second; none is lost or duplicated.
   */
  function SplitBreaks(bs: seq<Break>, startMin: nat): (r: (seq<Break>, seq<Break>))
    ensures multiset(r.0) + multiset(r.1) == multiset(bs)
    ensures forall i :: 0 <= i < |r.0| ==> ToMin(r.0[i].start) >= startMin
    ensures forall i :: 0 <= i < |r.1| ==> ToMin(r.1[i].start) < startMin
  {
    if bs == [] then ([], [])
    else
      var init, last := bs[..|bs| - 1], bs[|bs| - 1];
      var (a, b) := SplitBreaks(init, startMin);
      assert bs == init + [last];
      SplitBreaksStep(a, b, last, startMin);
      if ToMin(last.start) >= startMin then (a + [last], b) else (a, b + [last])
  }

  /** Sending one more break to the part its start selects keeps each part on its side. */
  lemma SplitBreaksStep(a: seq<Break>, b: seq<Break>, last: Break, startMin: nat)
    requires forall i :: 0 <= i < |a| ==> ToMin(a[i].start) >= startMin
    requires forall i :: 0 <= i < |b| ==> ToMin(b[i].start) < startMin
    ensures ToMin(last.start) >= startMin ==> forall i :: 0 <= i < |a + [last]| ==> ToMin((a + [last])[i].start) >= startMin
    ensures ToMin(last.start) < startMin ==> forall i :: 0 <= i < |b + [last]| ==> ToMin((b + [last])[i].start) < startMin
  {
  }

  /** The first part of a crossing shift: from its start until "24:00" on its own day. */
  function FirstPart(s: Shift): Shift {
    Shift(s.day, s.start, EndOfDay, NonEmptyOrNone(SplitBreaks(BreaksOf(s), ToMin(s.start)).0))
  }

  /** The second part of a crossing shift: from "00:00" on the next day until its end. */
  function SecondPart(s: Shift): Shift {
    Shift((s.day + 1) % 7, Midnight, s.end, NonEmptyOrNone(SplitBreaks(BreaksOf(s), ToMin(s.start)).1))
  }

  /** What the source does with one shift, including a second part that may be a whole day. */
  function NormalizeShiftAsWritten(s: Shift): (r: seq<Shift>)
    ensures !CrossesMidnight(s) ==> r == [s]
    ensures CrossesMidnight(s) ==> r == [FirstPart(s), SecondPart(s)]
  {
    if !CrossesMidnight(s) then [Shift(s.day, s.start, s.end, s.breaks)]
    else [FirstPart(s), SecondPart(s)]
  }

  /**
   * A shift ending exactly at "00:00" needs no second part: the first part already runs to
   * midnight. Apart from dropping that empty part this is the source's split.
   */
  function NormalizeShift(s: Shift): (r: seq<Shift>)
    ensures !CrossesMidnight(s) ==> r == [s]
    ensures CrossesMidnight(s) && ToMin(s.end) > 0 ==> r == [FirstPart(s), SecondPart(s)]
    ensures CrossesMidnight(s) && ToMin(s.end) == 0 ==> r == [FirstPart(s)]
  {
    if !CrossesMidnight(s) then [Shift(s.day, s.start, s.end, s.breaks)]
    else if ToMin(s.end) == 0 then [FirstPart(s)]
    else [FirstPart(s), SecondPart(s)]
  }

  /** The parts of a crossing shift start on its own day and on the next day, modulo 7. */
  lemma PartsDays(s: Shift)
    requires CrossesMidnight(s)
    ensures FirstPart(s).day == s.day && FirstPart(s).start == s.start && FirstPart(s).end == EndOfDay
    ensures SecondPart(s).day == (s.day + 1) % 7 && SecondPart(s).start == Midnight && SecondPart(s).end == s.end
    ensures multiset(BreaksOf(FirstPart(s))) + multiset(BreaksOf(SecondPart(s))) == multiset(BreaksOf(s))
  {
  }

  function Length(iv: Interval): int {
    iv.endMin - iv.startMin
  }

  function TotalLength(shifts: seq<Shift>): int {
    if shifts == [] then 0
    else TotalLength(shifts[..|shifts| - 1]) + Length(SpanInterval(shifts[|shifts| - 1].day, shifts[|shifts| - 1].start, shifts[|shifts| - 1].end))
  }

  lemma TotalLengthOne(a: Shift)
    ensures TotalLength([a]) == Length(SpanInterval(a.day, a.start, a.end))
  {
    assert [a][..0] == [];
  }

  lemma TotalLengthTwo(a: Shift, b: Shift)
    ensures TotalLength([a, b]) == Length(SpanInterval(a.day, a.start, a.end)) + Length(SpanInterval(b.day, b.start, b.end))
  {
    assert [a, b][..1] == [a];
    TotalLengthOne(a);
  }

  /** The first part runs from the shift's start to midnight. */
  lemma FirstPartLength(s: Shift)
    requires ToMin(s.start) < MinutesInDay
    ensures Length(SpanInterval(s.day, s.start, EndOfDay)) == MinutesInDay - ToMin(s.start)
  {
    MidnightTextIsZero();
    SpanIntervalLength(s.day, s.start, EndOfDay);
  }

  /** The second part runs from midnight to the shift's end, a whole day when that end is "00:00". */
  lemma SecondPartLength(d: Day, end: Clock)
    requires ToMin(end) < MinutesInDay
    ensures Length(SpanInterval(d, Midnight, end)) == if ToMin(end) > 0 then ToMin(end) else MinutesInDay
  {
    MidnightTextIsZero();
    SpanIntervalLength(d, Midnight, end);
  }

  /**
   * The corrected split keeps the worked length of a shift whose times are within one day:
   * the parts add up to the minutes of the unsplit shift.
   */
  lemma NormalizeShiftPreservesLength(s: Shift)
    requires ToMin(s.start) < MinutesInDay && ToMin(s.end) < MinutesInDay
    ensures TotalLength(NormalizeShift(s)) == Length(SpanInterval(s.day, s.start, s.end))
  {
    SpanIntervalLength(s.day, s.start, s.end);
    if CrossesMidnight(s) {
      var a := FirstPart(s);
      FirstPartLength(s);
      if ToMin(s.end) > 0 {
        var b := SecondPart(s);
        SecondPartLength(b.day, s.end);
        TotalLengthTwo(a, b);
      } else {
        TotalLengthOne(a);
      }
    } else {
      TotalLengthOne(s);
    }
  }

  /**
   * As written, a shift from 16:00 to 00:00 gains a second part from "00:00" to "00:00" on the
   * next day, which reads as a whole day: 480 worked minutes become 1920.
   */
  lemma AsWrittenMidnightEndAddsDay()
    ensures var s := Shift(0, Clock(16, 0), Clock(0, 0), None);
      && Length(SpanInterval(s.day, s.start, s.end)) == 480
      && NormalizeShiftAsWritten(s) == [FirstPart(s), SecondPart(s)]
      && TotalLength(NormalizeShiftAsWritten(s)) == 1920
  {
    var s := Shift(0, Clock(16, 0), Clock(0, 0), None);
    assert ToMin(s.start) == 960 && HhmmToMins(s.start) == 960;
    assert CrossesMidnight(s);
    SpanIntervalLength(s.day, s.start, s.end);
    MidnightTextIsZero();
    FirstPartLength(s);
    SecondPartLength(1, s.end);
    TotalLengthTwo(FirstPart(s), SecondPart(s));
  }

  /** An end written "24:00" is not a crossing for `toMin`, so the shift is copied unchanged. */
  lemma EndOfDayTextIsCopied(d: Day, start: Clock)
    requires ToMin(start) < MinutesInDay
    ensures NormalizeShiftAsWritten(Shift(d, start, EndOfDay, None)) == [Shift(d, start, EndOfDay, None)]
    ensures NormalizeShift(Shift(d, start, EndOfDay, None)) == [Shift(d, start, EndOfDay, None)]
  {
  }

  /** All shifts of an employee, each replaced by its parts as the source splits it, in order. */
  function NormalizeShifts(shifts: seq<Shift>): (r: seq<Shift>)
    ensures |shifts| <= |r| <= 2 * |shifts|
  {
    if shifts == [] then []
    else NormalizeShifts(shifts[..|shifts| - 1]) + NormalizeShiftAsWritten(shifts[|shifts| - 1])
  }

  /** The number of shifts that cross midnight. */
  function SplitCount(shifts: seq<Shift>): (r: nat)
    ensures r <= |shifts|
  {
    if shifts == [] then 0
    else SplitCount(shifts[..|shifts| - 1]) + (if CrossesMidnight(shifts[|shifts| - 1]) then 1 else 0)
  }

  /** No shift is split exactly when none crosses midnight. */
  lemma {:induction false} SplitCountZero(shifts: seq<Shift>)
    ensures SplitCount(shifts) == 0 <==> forall k :: 0 <= k < |shifts| ==> !CrossesMidnight(shifts[k])
  {
    if shifts != [] {
      var init := shifts[..|shifts| - 1];
      SplitCountZero(init);
      assert forall k :: 0 <= k < |init| ==> init[k] == shifts[k];
    }
  }

  /** The minutes the source's split adds to one shift: a whole day for a crossing shift ending at "00:00". */
  function AddedMinutes(s: Shift): nat {
    if CrossesMidnight(s) && ToMin(s.end) == 0 then MinutesInDay else 0
  }

  /** The number of shifts that cross midnight and end at exactly "00:00". */
  function MidnightEndCount(shifts: seq<Shift>): nat {
    if shifts == [] then 0
    else
      var s := shifts[|shifts| - 1];
      MidnightEndCount(shifts[..|shifts| - 1]) + (if CrossesMidnight(s) && ToMin(s.end) == 0 then 1 else 0)
  }

  /** One more shift per crossing shift. */
  lemma {:induction false} NormalizeShiftsCount(shifts: seq<Shift>)
    ensures |NormalizeShifts(shifts)| == |shifts| + SplitCount(shifts)
  {
    if shifts != [] {
      NormalizeShiftsCount(shifts[..|shifts| - 1]);
    }
  }

  function NormalizeEmployee(e: Employee): (r: Employee)
    ensures r.id == e.id && r.name == e.name
    ensures |r.shifts| == |e.shifts| + SplitCount(e.shifts)
  {
    NormalizeShiftsCount(e.shifts);
    e.(shifts := NormalizeShifts(e.shifts))
  }

  /** `normalizeEmployeesForOvernights`: every employee with its shifts normalised. */
  function NormalizeEmployees(employees: seq<Employee>): (r: seq<Employee>)
    ensures |r| == |employees|
    ensures forall i :: 0 <= i < |r| ==> r[i].id == employees[i].id && r[i].name == employees[i].name
    ensures forall i :: 0 <= i < |r| ==> |r[i].shifts| == |employees[i].shifts| + SplitCount(employees[i].shifts)
  {
    seq(|employees|, i requires 0 <= i < |employees| => NormalizeEmployee(employees[i]))
  }

  lemma {:induction false} TotalLengthConcat(a: seq<Shift>, b: seq<Shift>)
    ensures TotalLength(a + b) == TotalLength(a) + TotalLength(b)
    decreases |b|
  {
    if b == [] {
      assert a + b == a;
    } else {
      var init := b[..|b| - 1];
      assert (a + b)[..|a + b| - 1] == a + init;
      TotalLengthConcat(a, init);
    }
  }

  /** All times of a shift lie within one day (`toMin` below 1440). */
  predicate WithinDay(s: Shift) {
    ToMin(s.start) < MinutesInDay && ToMin(s.end) < MinutesInDay
  }

  predicate AllWithinDay(shifts: seq<Shift>) {
    forall k :: 0 <= k < |shifts| ==> WithinDay(shifts[k])
  }

  /** As written, the split adds a whole day exactly to a crossing shift ending at "00:00". */
  lemma NormalizeShiftAsWrittenLength(s: Shift)
    requires WithinDay(s)
    ensures TotalLength(NormalizeShiftAsWritten(s)) == Length(SpanInterval(s.day, s.start, s.end)) + AddedMinutes(s)
  {
    NormalizeShiftPreservesLength(s);
    if CrossesMidnight(s) && ToMin(s.end) == 0 {
      TotalLengthOne(FirstPart(s));
      SecondPartLength(SecondPart(s).day, s.end);
      TotalLengthTwo(FirstPart(s), SecondPart(s));
    }
  }

  /** The minutes the source's split adds to a list of shifts. */
  function AddedMinutesAll(shifts: seq<Shift>): nat {
    if shifts == [] then 0 else AddedMinutesAll(shifts[..|shifts| - 1]) + AddedMinutes(shifts[|shifts| - 1])
  }

  /** The added minutes are one day per crossing shift ending at "00:00". */
  lemma {:induction false} AddedMinutesAllDays(shifts: seq<Shift>)
    ensures AddedMinutesAll(shifts) == MidnightEndCount(shifts) * 1440
  {
    if shifts != [] {
      AddedMinutesAllDays(shifts[..|shifts| - 1]);
    }
  }

  /**
   * As written, the normalised list of shifts within one day lasts one day longer per crossing
   * shift ending at "00:00" than the shifts it came from.
   */
  lemma {:induction false} NormalizeShiftsLength(shifts: seq<Shift>)
    requires AllWithinDay(shifts)
    ensures TotalLength(NormalizeShifts(shifts)) == TotalLength(shifts) + AddedMinutesAll(shifts)
  {
    if shifts != [] {
      var init, last := shifts[..|shifts| - 1], shifts[|shifts| - 1];
      AllWithinDayInit(shifts);
      NormalizeShiftsLength(init);
      NormalizeShiftAsWrittenLength(last);
      TotalLengthConcat(NormalizeShifts(init), NormalizeShiftAsWritten(last));
    }
  }

  lemma AllWithinDayInit(shifts: seq<Shift>)
    requires shifts != [] && AllWithinDay(shifts)
    ensures AllWithinDay(shifts[..|shifts| - 1]) && WithinDay(shifts[|shifts| - 1])
  {
    var init := shifts[..|shifts| - 1];
    forall k | 0 <= k < |init| ensures WithinDay(init[k]) {
      assert init[k] == shifts[k];
    }
  }

  /** The list of shifts split with the corrected `NormalizeShift`. */
  function NormalizeShiftsCorrected(shifts: seq<Shift>): (r: seq<Shift>)
    ensures |shifts| <= |r| <= 2 * |shifts|
  {
    if shifts == [] then []
    else NormalizeShiftsCorrected(shifts[..|shifts| - 1]) + NormalizeShift(shifts[|shifts| - 1])
  }

  /** The corrected split of shifts within one day keeps their total length. */
  lemma {:induction false} NormalizeShiftsCorrectedLength(shifts: seq<Shift>)
    requires AllWithinDay(shifts)
    ensures TotalLength(NormalizeShiftsCorrected(shifts)) == TotalLength(shifts)
  {
    if shifts != [] {
      var init, last := shifts[..|shifts| - 1], shifts[|shifts| - 1];
      AllWithinDayInit(shifts);
      NormalizeShiftsCorrectedLength(init);
      NormalizeShiftPreservesLength(last);
      TotalLengthConcat(NormalizeShiftsCorrected(init), NormalizeShift(last));
    }
  }

  /** The corrected split drops exactly the second parts of crossing shifts ending at "00:00". */
  lemma {:induction false} NormalizeShiftsCorrectedCount(shifts: seq<Shift>)
    ensures |NormalizeShiftsCorrected(shifts)| == |shifts| + SplitCount(shifts) - MidnightEndCount(shifts)
  {
    if shifts != [] {
      NormalizeShiftsCorrectedCount(shifts[..|shifts| - 1]);
    }
  }

  /** Every employee with the corrected split applied to their shifts. */
  function NormalizeEmployeesCorrected(employees: seq<Employee>): (r: seq<Employee>)
    ensures |r| == |employees|
    ensures forall i :: 0 <= i < |r| ==> r[i].id == employees[i].id && r[i].name == employees[i].name
    ensures forall i :: 0 <= i < |r| && AllWithinDay(employees[i].shifts) ==> TotalLength(r[i].shifts) == TotalLength(employees[i].shifts)
  {
    forall i | 0 <= i < |employees| && AllWithinDay(employees[i].shifts)
      ensures TotalLength(NormalizeShiftsCorrected(employees[i].shifts)) == TotalLength(employees[i].shifts)
    {
      NormalizeShiftsCorrectedLength(employees[i].shifts);
    }
    seq(|employees|, i requires 0 <= i < |employees| => employees[i].(shifts := NormalizeShiftsCorrected(employees[i].shifts)))
  }

  /** The loop sending each break to the first or the second part. */
  method SplitBreakList(bs: seq<Break>, startMin: nat) returns (breaksA: seq<Break>, breaksB: seq<Break>)
    ensures (breaksA, breaksB) == SplitBreaks(bs, startMin)
  {
    breaksA, breaksB := [], [];
    for k := 0 to |bs|
      invariant (breaksA, breaksB) == SplitBreaks(bs[..k], startMin)
    {
      assert bs[..k + 1][..k] == bs[..k] && bs[..k + 1][k] == bs[k];
      var b := bs[k];
      if ToMin(b.start) >= startMin {
        breaksA := breaksA + [b];
      } else {
        breaksB := breaksB + [b];
      }
    }
    assert bs[..|bs|] == bs;
  }

  /** The split of one shift as the source's loop body performs it, pushing into `out`. */
  method PushParts(out: seq<Shift>, s: Shift) returns (out': seq<Shift>)
    ensures out' == out + NormalizeShiftAsWritten(s)
  {
    var startMin, endMin := ToMin(s.start), ToMin(s.end);
    if !(endMin <= startMin) {
      return out + [Shift(s.day, s.start, s.end, s.breaks)];
    }
    var dayA: Day, dayB: Day := s.day, (s.day + 1) % 7;
    var breaksA, breaksB := SplitBreakList(BreaksOf(s), startMin);
    assert FirstPart(s) == Shift(dayA, s.start, EndOfDay, NonEmptyOrNone(breaksA));
    assert SecondPart(s) == Shift(dayB, Midnight, s.end, NonEmptyOrNone(breaksB));
    out' := out + [Shift(dayA, s.start, EndOfDay, NonEmptyOrNone(breaksA))];
    out' := out' + [Shift(dayB, Midnight, s.end, NonEmptyOrNone(breaksB))];
  }

  /** `normalizeEmployeesForOvernights` as loops: the map over employees, the push loop over shifts. */
  method NormalizeEmployeesForOvernights(employees: seq<Employee>) returns (out: seq<Employee>)
    ensures out == NormalizeEmployees(employees)
  {
    out := [];
    for i := 0 to |employees|
      invariant out == NormalizeEmployees(employees[..i])
    {
      var emp := employees[i];
      var newShifts := NormalizeShiftList(emp.shifts);
      NormalizeEmployeesNext(employees, i);
      out := out + [emp.(shifts := newShifts)];
    }
    assert employees[..|employees|] == employees;
  }

  /** The push loop over one employee's shifts. */
  method NormalizeShiftList(shifts: seq<Shift>) returns (newShifts: seq<Shift>)
    ensures newShifts == NormalizeShifts(shifts)
  {
    newShifts := [];
    for j := 0 to |shifts|
      invariant newShifts == NormalizeShifts(shifts[..j])
    {
      assert shifts[..j + 1][..j] == shifts[..j] && shifts[..j + 1][j] == shifts[j];
      newShifts := PushParts(newShifts, shifts[j]);
    }
    assert shifts[..|shifts|] == shifts;
  }

  lemma NormalizeEmployeesNext(employees: seq<Employee>, i: nat)
    requires i < |employees|
    ensures NormalizeEmployees(employees[..i + 1]) == NormalizeEmployees(employees[..i]) + [NormalizeEmployee(employees[i])]
  {
    var l, r := NormalizeEmployees(employees[..i + 1]), NormalizeEmployees(employees[..i]) + [NormalizeEmployee(employees[i])];
    assert |l| == |r|;
    forall k | 0 <= k < |l| ensures l[k] == r[k] {
      assert employees[..i + 1][k] == employees[k];
    }
  }
}
