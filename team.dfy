/**
 * `optimizeTeamWeekWeighted` (src/lib/optimize.ts): team sessions chosen greedily among
 * 15-minute-aligned windows inside the manager's windows. A window is scored by the scarcity
 * weights of the employees it would reach who have no session yet; the best window becomes a
 * session, its attendees count as scheduled, and the search repeats.
 */
module TeamScheduler {
  import opened Wrappers
  import opened Time
  import opened Types
  import opened Sorting
  import opened Availability

  // ---------------------------------------------------------------- scarcity weights

  /** `maxMin` is the largest `minutes` over the record's entries, or 0 when there is none. */
  ghost predicate IsMaxMinutes(byEmp: map<string, seq<Interval>>, maxMin: int) {
    && maxMin >= 0
    && (forall eid :: eid in byEmp ==> MinutesOf(byEmp[eid]) <= maxMin)
    && (maxMin == 0 || exists eid :: eid in byEmp && MinutesOf(byEmp[eid]) == maxMin)
  }

  /** Two values meeting `IsMaxMinutes` are equal: the loop's result does not depend on key order. */
  lemma MaxMinutesUnique(byEmp: map<string, seq<Interval>>, a: int, b: int)
    requires IsMaxMinutes(byEmp, a) && IsMaxMinutes(byEmp, b)
    ensures a == b
  {
    if a != 0 {
      var e :| e in byEmp && MinutesOf(byEmp[e]) == a;
      assert a <= b;
    }
    if b != 0 {
      var e :| e in byEmp && MinutesOf(byEmp[e]) == b;
      assert b <= a;
    }
  }

  /** The loop over `Object.entries(byEmp)` that fills `minsMap` and raises `maxMin`. */
  method MinutesTable(byEmp: map<string, seq<Interval>>) returns (minsMap: map<string, int>, maxMin: int)
    ensures minsMap.Keys == byEmp.Keys
    ensures forall eid :: eid in minsMap ==> minsMap[eid] == MinutesOf(byEmp[eid])
    ensures IsMaxMinutes(byEmp, maxMin)
  {
    minsMap, maxMin := map[], 0;
    var rest := byEmp.Keys;
    while rest != {}
      invariant rest <= byEmp.Keys
      invariant minsMap.Keys == byEmp.Keys - rest
      invariant forall eid :: eid in minsMap ==> minsMap[eid] == MinutesOf(byEmp[eid])
      invariant maxMin >= 0 && forall eid :: eid in minsMap ==> MinutesOf(byEmp[eid]) <= maxMin
      invariant maxMin == 0 || exists eid :: eid in minsMap && MinutesOf(byEmp[eid]) == maxMin
      decreases rest
    {
      var eid :| eid in rest;
      var m := MinutesOf(byEmp[eid]);
      minsMap := minsMap[eid := m];
      maxMin := Max(maxMin, m);
      rest := rest - {eid};
    }
  }

  /** `1 + scarcity`, where scarcity is `(maxMin - m) / maxMin`, or 1 when `maxMin` is 0. */
  function Weight(maxMin: int, m: int): (w: real)
    ensures maxMin == 0 ==> w == 2.0
  {
    1.0 + (if maxMin != 0 then (maxMin - m) as real / maxMin as real else 1.0)
  }

  /**
   * A weight lies between 1 (the employee with the most available minutes) and 2 (an employee
   * with none), and fewer available minutes never give a smaller weight.
   */
  lemma WeightBounds(maxMin: int, m: int)
    requires 0 <= m <= maxMin || maxMin == 0
    ensures 1.0 <= Weight(maxMin, m) <= 2.0
    ensures maxMin > 0 && m == maxMin ==> Weight(maxMin, m) == 1.0
    ensures m == 0 ==> Weight(maxMin, m) == 2.0
  {
    if maxMin != 0 {
      RatioBounds((maxMin - m) as real, maxMin as real);
    }
  }

  /** A ratio `a / x` with `0 <= a <= x` lies in [0, 1], at the ends exactly when `a` does. */
  lemma RatioBounds(a: real, x: real)
    requires 0.0 <= a <= x && x > 0.0
    ensures 0.0 <= a / x <= 1.0
    ensures a == 0.0 ==> a / x == 0.0
    ensures a == x ==> a / x == 1.0
  {
    var q := a / x;
    assert q * x == a;
    if q > 1.0 {
      assert q * x > x by { assert (q - 1.0) * x > 0.0; }
    }
  }

  lemma WeightScarcer(maxMin: int, m1: int, m2: int)
    requires maxMin > 0 && m1 <= m2
    ensures Weight(maxMin, m2) <= Weight(maxMin, m1)
  {
    var q1 := (maxMin - m1) as real / maxMin as real;
    var q2 := (maxMin - m2) as real / maxMin as real;
    assert q1 * maxMin as real == (maxMin - m1) as real;
    assert q2 * maxMin as real == (maxMin - m2) as real;
    assert (q1 - q2) * maxMin as real == (m2 - m1) as real;
  }

  /** The weight of employee `eid`: its minutes are `minsMap[e.id] ?? 0`. */
  function WeightOf(byEmp: map<string, seq<Interval>>, maxMin: int, eid: string): real {
    Weight(maxMin, MinutesOf(AvailOf(byEmp, eid)))
  }

  /** `byEmp[eid] ?? []`. */
  function AvailOf(byEmp: map<string, seq<Interval>>, eid: string): seq<Interval> {
    if eid in byEmp then byEmp[eid] else []
  }

  /** The loop over `employees` that fills the `weight` record. */
  method WeightTable(employees: seq<Employee>, minsMap: map<string, int>, maxMin: int, ghost byEmp: map<string, seq<Interval>>)
    returns (weight: map<string, real>)
    requires minsMap.Keys == byEmp.Keys
    requires forall eid :: eid in minsMap ==> minsMap[eid] == MinutesOf(byEmp[eid])
    ensures weight.Keys == Ids(employees)
    ensures forall eid :: eid in weight ==> weight[eid] == WeightOf(byEmp, maxMin, eid)
  {
    weight := map[];
    for k := 0 to |employees|
      invariant weight.Keys == Ids(employees[..k])
      invariant forall eid :: eid in weight ==> weight[eid] == WeightOf(byEmp, maxMin, eid)
    {
      var e := employees[k];
      var w := WeightEntry(minsMap, maxMin, e.id, byEmp);
      WeightStep(employees, k, weight, byEmp, maxMin);
      weight := weight[e.id := w];
    }
    assert employees[..|employees|] == employees;
  }

  /** The weight of one employee, read from `minsMap` (0 minutes when absent). */
  method WeightEntry(minsMap: map<string, int>, maxMin: int, eid: string, ghost byEmp: map<string, seq<Interval>>)
    returns (w: real)
    requires minsMap.Keys == byEmp.Keys
    requires forall id :: id in minsMap ==> minsMap[id] == MinutesOf(byEmp[id])
    ensures w == WeightOf(byEmp, maxMin, eid)
  {
    var m := if eid in minsMap then minsMap[eid] else 0;
    assert m == MinutesOf(AvailOf(byEmp, eid));
    var scarcity := if maxMin != 0 then (maxMin - m) as real / maxMin as real else 1.0;
    w := 1.0 + scarcity;
  }

  /** One turn of the `weight` loop: the table grows by the next employee's weight. */
  lemma WeightStep(employees: seq<Employee>, k: int, weight: map<string, real>, byEmp: map<string, seq<Interval>>, maxMin: int)
    requires 0 <= k < |employees| && weight.Keys == Ids(employees[..k])
    requires forall eid :: eid in weight ==> weight[eid] == WeightOf(byEmp, maxMin, eid)
    ensures var w := weight[employees[k].id := WeightOf(byEmp, maxMin, employees[k].id)];
      && w.Keys == Ids(employees[..k + 1])
      && forall eid :: eid in w ==> w[eid] == WeightOf(byEmp, maxMin, eid)
  {
    IdsInit(employees[..k + 1]);
    assert employees[..k + 1][..k] == employees[..k] && employees[..k + 1][k] == employees[k];
  }

  /** Every entry of `availabilityByEmployee` consists of non-empty spans. */
  lemma ByEmployeeNonEmpty(employees: seq<Employee>, wins: seq<Interval>)
    ensures forall eid :: eid in ByEmployee(employees, wins) ==> AllNonEmpty(ByEmployee(employees, wins)[eid])
  {
    TabulateNonEmpty(employees, e => EmployeeAvail(e, wins));
  }

  lemma {:induction false} TabulateNonEmpty(employees: seq<Employee>, f: Employee -> seq<Interval>)
    requires forall e :: AllNonEmpty(f(e))
    ensures forall eid :: eid in Tabulate(employees, f) ==> AllNonEmpty(Tabulate(employees, f)[eid])
  {
    if employees != [] {
      TabulateNonEmpty(employees[..|employees| - 1], f);
    }
  }

  /** With the real record and its maximum, every employee's weight is between 1 and 2. */
  lemma WeightsInRange(employees: seq<Employee>, wins: seq<Interval>, maxMin: int, eid: string)
    requires IsMaxMinutes(ByEmployee(employees, wins), maxMin)
    ensures 1.0 <= WeightOf(ByEmployee(employees, wins), maxMin, eid) <= 2.0
  {
    var byEmp := ByEmployee(employees, wins);
    ByEmployeeNonEmpty(employees, wins);
    WeightBounds(maxMin, MinutesOf(AvailOf(byEmp, eid)));
  }

  // ---------------------------------------------------------------- candidate windows

  /** A candidate: a window and the ids of the employees whose availability touches it. */
  datatype Cand = Cand(interval: Interval, attendees: seq<string>)

  /** Some span of `ivs` partly overlaps `win` (containment is not needed). */
  predicate Touches(ivs: seq<Interval>, win: Interval) {
    exists i :: 0 <= i < |ivs| && ivs[i].startMin < win.endMin && ivs[i].endMin > win.startMin
  }

  /** The ids, in employee order, of the employees available at some minute of `win`. */
  function Attendees(employees: seq<Employee>, byEmp: map<string, seq<Interval>>, win: Interval): (r: seq<string>)
    ensures forall id :: id in r <==> exists k :: 0 <= k < |employees| && employees[k].id == id && Touches(AvailOf(byEmp, id), win)
  {
    if employees == [] then []
    else
      var init, e := employees[..|employees| - 1], employees[|employees| - 1];
      var head := Attendees(init, byEmp, win);
      var tail := if Touches(AvailOf(byEmp, e.id), win) then [e.id] else [];
      assert forall k :: 0 <= k < |init| ==> init[k] == employees[k];
      head + tail
  }

  /** The candidates among a window's slots: those touched by at least two employees. */
  function SlotCands(employees: seq<Employee>, byEmp: map<string, seq<Interval>>, slots: seq<Interval>): seq<Cand> {
    if slots == [] then []
    else
      var attendees := Attendees(employees, byEmp, slots[0]);
      (if |attendees| >= 2 then [Cand(slots[0], attendees)] else []) + SlotCands(employees, byEmp, slots[1..])
  }

  /** The candidate list: for each manager window in order, its slots of `sessionMinutes` on the 15-minute grid. */
  function Candidates(employees: seq<Employee>, byEmp: map<string, seq<Interval>>, wins: seq<Interval>, sessionMinutes: nat): seq<Cand> {
    if wins == [] then []
    else
      Candidates(employees, byEmp, wins[..|wins| - 1], sessionMinutes)
        + SlotCands(employees, byEmp, Slots(wins[|wins| - 1], sessionMinutes, 15))
  }

  /** A window of `sessionMinutes` starting on the 15-minute grid inside one of the windows `wins`. */
  predicate SessionWindow(win: Interval, wins: seq<Interval>, sessionMinutes: nat) {
    && win.endMin == win.startMin + sessionMinutes
    && win.startMin % 15 == 0
    && exists j :: 0 <= j < |wins| && Within(win, wins[j])
  }

  /** What makes `c` a candidate for windows `wins`. */
  predicate GoodCand(c: Cand, employees: seq<Employee>, byEmp: map<string, seq<Interval>>, wins: seq<Interval>, sessionMinutes: nat) {
    && SessionWindow(c.interval, wins, sessionMinutes)
    && c.attendees == Attendees(employees, byEmp, c.interval)
    && |c.attendees| >= 2
  }

  lemma {:induction false} SlotCandsFacts(employees: seq<Employee>, byEmp: map<string, seq<Interval>>, slots: seq<Interval>)
    ensures var r := SlotCands(employees, byEmp, slots);
      forall c :: c in r <==> c.interval in slots && c.attendees == Attendees(employees, byEmp, c.interval) && |c.attendees| >= 2
  {
    if slots != [] {
      SlotCandsFacts(employees, byEmp, slots[1..]);
      assert slots == [slots[0]] + slots[1..];
    }
  }

  lemma {:induction false} CandidatesSound(employees: seq<Employee>, byEmp: map<string, seq<Interval>>, wins: seq<Interval>, sessionMinutes: nat, c: Cand)
    requires c in Candidates(employees, byEmp, wins, sessionMinutes)
    ensures GoodCand(c, employees, byEmp, wins, sessionMinutes)
  {
    var init, w := wins[..|wins| - 1], wins[|wins| - 1];
    var slots := Slots(w, sessionMinutes, 15);
    if c in Candidates(employees, byEmp, init, sessionMinutes) {
      CandidatesSound(employees, byEmp, init, sessionMinutes, c);
      var j :| 0 <= j < |init| && Within(c.interval, init[j]);
      assert wins[j] == init[j];
    } else {
      SlotCandsFacts(employees, byEmp, slots);
      SlotsExactly(w, sessionMinutes, 15);
      var k :| 0 <= k < |slots| && slots[k] == c.interval;
      assert Within(c.interval, wins[|wins| - 1]);
    }
  }

  lemma {:induction false} CandidatesComplete(employees: seq<Employee>, byEmp: map<string, seq<Interval>>, wins: seq<Interval>, sessionMinutes: nat, c: Cand)
    requires GoodCand(c, employees, byEmp, wins, sessionMinutes)
    ensures c in Candidates(employees, byEmp, wins, sessionMinutes)
  {
    var init, w := wins[..|wins| - 1], wins[|wins| - 1];
    var rest := SlotCands(employees, byEmp, Slots(w, sessionMinutes, 15));
    assert Candidates(employees, byEmp, wins, sessionMinutes) == Candidates(employees, byEmp, init, sessionMinutes) + rest;
    var j :| 0 <= j < |wins| && Within(c.interval, wins[j]);
    if j < |init| {
      assert init[j] == wins[j];
      assert GoodCand(c, employees, byEmp, init, sessionMinutes);
      CandidatesComplete(employees, byEmp, init, sessionMinutes, c);
    } else {
      WindowCand(employees, byEmp, w, sessionMinutes, c);
    }
  }

  /** A good candidate inside window `w` is among that window's slot candidates. */
  lemma WindowCand(employees: seq<Employee>, byEmp: map<string, seq<Interval>>, w: Interval, sessionMinutes: nat, c: Cand)
    requires c.interval.endMin == c.interval.startMin + sessionMinutes && c.interval.startMin % 15 == 0
    requires Within(c.interval, w)
    requires c.attendees == Attendees(employees, byEmp, c.interval) && |c.attendees| >= 2
    ensures c in SlotCands(employees, byEmp, Slots(w, sessionMinutes, 15))
  {
    var slots, t := Slots(w, sessionMinutes, 15), c.interval.startMin;
    SlotPresent(w, sessionMinutes, 15, t);
    assert c.interval == Interval(t, t + sessionMinutes);
    SlotCandsFacts(employees, byEmp, slots);
  }

  /**
   * The candidates are exactly the windows of `sessionMinutes` on the 15-minute grid inside some
   * manager window that at least two employees can attend, each with all of those employees.
   */
  lemma CandidatesExactly(employees: seq<Employee>, byEmp: map<string, seq<Interval>>, wins: seq<Interval>, sessionMinutes: nat)
    ensures forall c :: c in Candidates(employees, byEmp, wins, sessionMinutes) <==> GoodCand(c, employees, byEmp, wins, sessionMinutes)
  {
    forall c ensures c in Candidates(employees, byEmp, wins, sessionMinutes) <==> GoodCand(c, employees, byEmp, wins, sessionMinutes) {
      if c in Candidates(employees, byEmp, wins, sessionMinutes) {
        CandidatesSound(employees, byEmp, wins, sessionMinutes, c);
      }
      if GoodCand(c, employees, byEmp, wins, sessionMinutes) {
        CandidatesComplete(employees, byEmp, wins, sessionMinutes, c);
      }
    }
  }

  /** One turn of the slicing loop, seen through the candidate filter. */
  lemma SlotCandsStep(employees: seq<Employee>, byEmp: map<string, seq<Interval>>, t: nat, end: nat, len: nat)
    requires t + len <= end
    ensures var win := Interval(t, t + len);
      var attendees := Attendees(employees, byEmp, win);
      SlotCands(employees, byEmp, SlotsFrom(t, end, len, 15))
        == (if |attendees| >= 2 then [Cand(win, attendees)] else []) + SlotCands(employees, byEmp, SlotsFrom(t + 15, end, len, 15))
  {
    var rest := SlotsFrom(t + 15, end, len, 15);
    assert SlotsFrom(t, end, len, 15) == [Interval(t, t + len)] + rest;
    assert ([Interval(t, t + len)] + rest)[1..] == rest;
  }

  /** The inner loop: aligned start times `t` in one manager window, pushing each candidate. */
  method PushWindowCands(cands0: seq<Cand>, employees: seq<Employee>, byEmp: map<string, seq<Interval>>, mw: Interval, sessionMinutes: nat)
    returns (cands: seq<Cand>)
    ensures cands == cands0 + SlotCands(employees, byEmp, Slots(mw, sessionMinutes, 15))
  {
    cands := cands0;
    var step := 15;
    var t := AlignUp(mw.startMin, step);
    while t + sessionMinutes <= mw.endMin
      invariant cands + SlotCands(employees, byEmp, SlotsFrom(t, mw.endMin, sessionMinutes, step))
        == cands0 + SlotCands(employees, byEmp, Slots(mw, sessionMinutes, step))
      decreases mw.endMin + step - t
    {
      var win := Interval(t, t + sessionMinutes);
      var attendees := Attendees(employees, byEmp, win);
      SlotCandsStep(employees, byEmp, t, mw.endMin, sessionMinutes);
      ghost var later := SlotCands(employees, byEmp, SlotsFrom(t + step, mw.endMin, sessionMinutes, step));
      if |attendees| >= 2 {
        ConcatAssoc(cands, [Cand(win, attendees)], later);
        cands := cands + [Cand(win, attendees)];
      } else {
        assert [] + later == later;
      }
      t := t + step;
    }
    assert SlotCands(employees, byEmp, SlotsFrom(t, mw.endMin, sessionMinutes, step)) == [];
  }

  /** The outer loop over the manager windows. */
  method BuildCandidates(employees: seq<Employee>, byEmp: map<string, seq<Interval>>, managerWindowsAbs: seq<Interval>, sessionMinutes: nat)
    returns (cands: seq<Cand>)
    ensures cands == Candidates(employees, byEmp, managerWindowsAbs, sessionMinutes)
  {
    cands := [];
    for k := 0 to |managerWindowsAbs|
      invariant cands == Candidates(employees, byEmp, managerWindowsAbs[..k], sessionMinutes)
    {
      var mw := managerWindowsAbs[k];
      cands := PushWindowCands(cands, employees, byEmp, mw, sessionMinutes);
      assert managerWindowsAbs[..k + 1][..k] == managerWindowsAbs[..k] && managerWindowsAbs[..k + 1][k] == mw;
    }
    assert managerWindowsAbs[..|managerWindowsAbs|] == managerWindowsAbs;
  }

  // ---------------------------------------------------------------- choosing sessions

  /** `c.attendees.filter((id) => !scheduled.has(id))`. */
  function Unscheduled(attendees: seq<string>, scheduled: set<string>): (r: seq<string>)
    ensures forall id :: id in r <==> id in attendees && id !in scheduled
    ensures |r| <= |attendees|
  {
    if attendees == [] then []
    else
      var init, id := attendees[..|attendees| - 1], attendees[|attendees| - 1];
      assert attendees == init + [id];
      Unscheduled(init, scheduled) + (if id !in scheduled then [id] else [])
  }

  /** The fixed inputs of the session search: the employees, their availability, the largest minutes and the candidates. */
  datatype Setup = Setup(employees: seq<Employee>, byEmp: map<string, seq<Interval>>, maxMin: int, cands: seq<Cand>)

  /** `score`: twice the summed weights of `ids`. */
  function Score(st: Setup, ids: seq<string>): real {
    if ids == [] then 0.0
    else Score(st, ids[..|ids| - 1]) + WeightOf(st.byEmp, st.maxMin, ids[|ids| - 1]) * 2.0
  }

  /** With every weight at least 1, a score is at least twice the number of ids. */
  lemma {:induction false} ScoreAtLeast(st: Setup, ids: seq<string>)
    requires forall i :: 0 <= i < |ids| ==> WeightOf(st.byEmp, st.maxMin, ids[i]) >= 1.0
    ensures Score(st, ids) >= 2.0 * |ids| as real
  {
    if ids != [] {
      var init := ids[..|ids| - 1];
      assert forall i :: 0 <= i < |init| ==> init[i] == ids[i];
      ScoreAtLeast(st, init);
    }
  }

  /** The spans of the sessions chosen so far (`sessions.map(...)`). */
  function Spans(ms: seq<Meeting>): (r: seq<Interval>)
    ensures |r| == |ms| && forall i :: 0 <= i < |ms| ==> r[i] == Span(ms[i])
  {
    seq(|ms|, i requires 0 <= i < |ms| => Span(ms[i]))
  }

  /** A candidate the scan considers: no clash with a chosen session and at least two unscheduled attendees. */
  predicate Open(sessions: seq<Meeting>, scheduled: set<string>, c: Cand) {
    !OverlapsAny(Spans(sessions), c.interval) && |Unscheduled(c.attendees, scheduled)| >= 2
  }

  function Gain(st: Setup, scheduled: set<string>, c: Cand): real {
    Score(st, Unscheduled(c.attendees, scheduled))
  }

  /** The state of the scan: `best` and `bestScore`. */
  datatype Pick = Pick(best: Option<Cand>, bestScore: real)

  /** The scan over the candidates, keeping the first one with the strictly highest score. */
  function Scan(st: Setup, sessions: seq<Meeting>, scheduled: set<string>, cs: seq<Cand>): (r: Pick)
    ensures r.best.None? <==> r.bestScore == 0.0
    ensures r.bestScore >= 0.0
    ensures r.best.Some? ==> |r.best.value.attendees| >= 2
  {
    if cs == [] then Pick(None, 0.0)
    else
      var p := Scan(st, sessions, scheduled, cs[..|cs| - 1]);
      var c := cs[|cs| - 1];
      if Open(sessions, scheduled, c) && Gain(st, scheduled, c) > p.bestScore
      then Pick(Some(Cand(c.interval, Unscheduled(c.attendees, scheduled))), Gain(st, scheduled, c))
      else p
  }

  /** The scan picked `cs[k]`: it is open, has the best score, and every earlier open candidate scores strictly less. */
  predicate PickedAt(st: Setup, sessions: seq<Meeting>, scheduled: set<string>, cs: seq<Cand>, k: int, p: Pick) {
    && 0 <= k < |cs|
    && Open(sessions, scheduled, cs[k])
    && p.best == Some(Cand(cs[k].interval, Unscheduled(cs[k].attendees, scheduled)))
    && p.bestScore == Gain(st, scheduled, cs[k]) > 0.0
    && forall j :: 0 <= j < k && Open(sessions, scheduled, cs[j]) ==> Gain(st, scheduled, cs[j]) < p.bestScore
  }

  /**
   * The scan's result: no open candidate scores more than `bestScore`; nothing is picked exactly
   * when no open candidate scores above 0; otherwise the pick is the first open candidate with
   * the highest score, restricted to its unscheduled attendees.
   */
  lemma {:induction false} ScanFacts(st: Setup, sessions: seq<Meeting>, scheduled: set<string>, cs: seq<Cand>)
    ensures var p := Scan(st, sessions, scheduled, cs);
      && p.bestScore >= 0.0
      && (forall k :: 0 <= k < |cs| && Open(sessions, scheduled, cs[k]) ==> Gain(st, scheduled, cs[k]) <= p.bestScore)
      && (p.best.None? ==> p.bestScore == 0.0)
      && (p.best.Some? ==> exists k :: PickedAt(st, sessions, scheduled, cs, k, p))
  {
    if cs != [] {
      var init, c := cs[..|cs| - 1], cs[|cs| - 1];
      assert cs == init + [c];
      var q := Scan(st, sessions, scheduled, init);
      var p := Scan(st, sessions, scheduled, cs);
      ScanFacts(st, sessions, scheduled, init);
      BoundExtends(st, sessions, scheduled, init, c, q.bestScore, p.bestScore);
      if p != q {
        PickedLast(st, sessions, scheduled, init, c, q.bestScore, p);
      } else if p.best.Some? {
        var k :| PickedAt(st, sessions, scheduled, init, k, q);
        PickedExtends(st, sessions, scheduled, init, c, k, p);
      }
    }
  }

  lemma BoundExtends(st: Setup, sessions: seq<Meeting>, scheduled: set<string>, init: seq<Cand>, c: Cand, b: real, b': real)
    requires b <= b' && (Open(sessions, scheduled, c) ==> Gain(st, scheduled, c) <= b')
    requires forall k :: 0 <= k < |init| && Open(sessions, scheduled, init[k]) ==> Gain(st, scheduled, init[k]) <= b
    ensures var cs := init + [c];
      forall k :: 0 <= k < |cs| && Open(sessions, scheduled, cs[k]) ==> Gain(st, scheduled, cs[k]) <= b'
  {
    var cs := init + [c];
    forall k | 0 <= k < |cs| && Open(sessions, scheduled, cs[k]) ensures Gain(st, scheduled, cs[k]) <= b' {
      if k < |init| { assert cs[k] == init[k]; }
    }
  }

  lemma PickedLast(st: Setup, sessions: seq<Meeting>, scheduled: set<string>, init: seq<Cand>, c: Cand, b: real, p: Pick)
    requires b >= 0.0 && Open(sessions, scheduled, c) && Gain(st, scheduled, c) > b
    requires p == Pick(Some(Cand(c.interval, Unscheduled(c.attendees, scheduled))), Gain(st, scheduled, c))
    requires forall k :: 0 <= k < |init| && Open(sessions, scheduled, init[k]) ==> Gain(st, scheduled, init[k]) <= b
    ensures PickedAt(st, sessions, scheduled, init + [c], |init|, p)
  {
    var cs := init + [c];
    assert cs[|init|] == c;
    forall j | 0 <= j < |init| && Open(sessions, scheduled, cs[j]) ensures Gain(st, scheduled, cs[j]) < p.bestScore {
      assert cs[j] == init[j];
    }
  }

  lemma PickedExtends(st: Setup, sessions: seq<Meeting>, scheduled: set<string>, init: seq<Cand>, c: Cand, k: int, p: Pick)
    requires PickedAt(st, sessions, scheduled, init, k, p)
    ensures PickedAt(st, sessions, scheduled, init + [c], k, p)
  {
    var cs := init + [c];
    assert forall j :: 0 <= j < |init| ==> cs[j] == init[j];
  }

  /** When every weight is at least 1, the scan picks something exactly when some candidate is open. */
  lemma ScanFindsOpen(st: Setup, sessions: seq<Meeting>, scheduled: set<string>, cs: seq<Cand>)
    requires forall id :: WeightOf(st.byEmp, st.maxMin, id) >= 1.0
    ensures Scan(st, sessions, scheduled, cs).best.Some? <==> exists k :: 0 <= k < |cs| && Open(sessions, scheduled, cs[k])
  {
    ScanFacts(st, sessions, scheduled, cs);
    var p := Scan(st, sessions, scheduled, cs);
    if k :| 0 <= k < |cs| && Open(sessions, scheduled, cs[k]) {
      ScoreAtLeast(st, Unscheduled(cs[k].attendees, scheduled));
    }
  }

  /** The team session made from a pick. */
  function Session(c: Cand, id: string): Meeting {
    TeamSession(id, "Team Session", c.interval.startMin, c.interval.endMin, c.attendees)
  }

  /** Every candidate's attendees are employees. */
  predicate AttendeesKnown(st: Setup) {
    forall k, id :: 0 <= k < |st.cands| && id in st.cands[k].attendees ==> id in Ids(st.employees)
  }

  /** `set(a)`. */
  function Members(a: seq<string>): set<string> {
    set id | id in a
  }

  lemma FewerLeft(u: set<string>, s: set<string>, a: seq<string>)
    requires a != [] && a[0] in u && a[0] !in s
    ensures |u - (s + Members(a))| < |u - s|
  {
    var x := a[0];
    assert u - (s + Members(a)) <= (u - s) - {x};
    SubsetSize(u - (s + Members(a)), (u - s) - {x});
  }

  lemma {:induction false} SubsetSize(a: set<string>, b: set<string>)
    requires a <= b
    ensures |a| <= |b|
    decreases b
  {
    if a != {} {
      var x :| x in a;
      SubsetSize(a - {x}, b - {x});
    }
  }

  /**
   * The `while` loop: while some employee is unscheduled, scan, stop when nothing is picked,
   * otherwise add the pick as a session and mark its attendees scheduled. It terminates because
   * each pick adds at least one employee id not yet scheduled.
   */
  function Rounds(st: Setup, sessions: seq<Meeting>, scheduled: set<string>, ids: nat -> string, n0: nat): (r: seq<Meeting>)
    requires AttendeesKnown(st) && scheduled <= Ids(st.employees)
    ensures sessions <= r
    decreases |Ids(st.employees) - scheduled|
  {
    if |scheduled| >= |st.employees| then sessions
    else
      var p := Scan(st, sessions, scheduled, st.cands);
      if p.best.None? || p.bestScore <= 0.0 then sessions
      else
        var c := p.best.value;
        ScanFacts(st, sessions, scheduled, st.cands);
        var k :| PickedAt(st, sessions, scheduled, st.cands, k, p);
        assert c.attendees[0] in st.cands[k].attendees;
        FewerLeft(Ids(st.employees), scheduled, c.attendees);
        Rounds(st, sessions + [Session(c, ids(n0 + |sessions|))], scheduled + Members(c.attendees), ids, n0)
  }

  // ---------------------------------------------------------------- what the chosen sessions satisfy

  /** The attendee ids of a team session as a set. */
  function AttendeeSet(m: Meeting): set<string> {
    if m.TeamSession? then Members(m.attendeeIds) else {}
  }

  /** A session's slot is a candidate's window and its attendees are among that candidate's. */
  predicate FromCand(m: Meeting, cands: seq<Cand>) {
    exists k :: 0 <= k < |cands| && cands[k].interval == Span(m) && AttendeeSet(m) <= Members(cands[k].attendees)
  }

  /**
   * What the chosen sessions keep: each is a "Team Session" from a candidate with at least two
   * attendees and the next id of the stream; no two overlap; no employee attends two.
   */
  ghost predicate SessionsOk(st: Setup, sessions: seq<Meeting>, ids: nat -> string, n0: nat) {
    && (forall i :: 0 <= i < |sessions| ==>
          && sessions[i].TeamSession? && sessions[i].title == "Team Session" && sessions[i].id == ids(n0 + i)
          && |sessions[i].attendeeIds| >= 2 && FromCand(sessions[i], st.cands))
    && (forall i, j :: 0 <= i < j < |sessions| ==> !Overlaps(Span(sessions[i]), Span(sessions[j])))
    && (forall i, j :: 0 <= i < j < |sessions| ==> AttendeeSet(sessions[i]) !! AttendeeSet(sessions[j]))
  }

  /** The loop state: sessions as above, and every attendee of a session is in `scheduled`. */
  ghost predicate Planned(st: Setup, sessions: seq<Meeting>, scheduled: set<string>, ids: nat -> string, n0: nat) {
    && SessionsOk(st, sessions, ids, n0)
    && (forall i :: 0 <= i < |sessions| ==> AttendeeSet(sessions[i]) <= scheduled)
  }

  lemma RoundStep(st: Setup, sessions: seq<Meeting>, scheduled: set<string>, ids: nat -> string, n0: nat, k: int, c: Cand)
    requires Planned(st, sessions, scheduled, ids, n0)
    requires 0 <= k < |st.cands| && Open(sessions, scheduled, st.cands[k])
    requires c == Cand(st.cands[k].interval, Unscheduled(st.cands[k].attendees, scheduled))
    ensures Planned(st, sessions + [Session(c, ids(n0 + |sessions|))], scheduled + Members(c.attendees), ids, n0)
  {
    var m := Session(c, ids(n0 + |sessions|));
    var r := sessions + [m];
    var scheduled' := scheduled + Members(c.attendees);
    assert AttendeeSet(m) == Members(c.attendees);
    assert FromCand(m, st.cands);
    forall i | 0 <= i < |sessions| ensures !Overlaps(Span(sessions[i]), Span(m)) && AttendeeSet(sessions[i]) !! AttendeeSet(m) {
      assert Spans(sessions)[i] == Span(sessions[i]);
      assert AttendeeSet(sessions[i]) <= scheduled;
    }
    forall i | 0 <= i < |r|
      ensures && r[i].TeamSession? && r[i].title == "Team Session" && r[i].id == ids(n0 + i)
              && |r[i].attendeeIds| >= 2 && FromCand(r[i], st.cands)
      ensures AttendeeSet(r[i]) <= scheduled'
    {
      if i < |sessions| { assert r[i] == sessions[i]; }
    }
    forall i, j | 0 <= i < j < |r| ensures !Overlaps(Span(r[i]), Span(r[j])) && AttendeeSet(r[i]) !! AttendeeSet(r[j]) {
      assert r[i] == sessions[i];
      if j < |sessions| { assert r[j] == sessions[j]; }
    }
  }

  /** Every session the loop adds keeps `SessionsOk`, and the sessions chosen so far stay a prefix. */
  lemma {:induction false} RoundsFacts(st: Setup, sessions: seq<Meeting>, scheduled: set<string>, ids: nat -> string, n0: nat)
    requires AttendeesKnown(st) && scheduled <= Ids(st.employees)
    requires Planned(st, sessions, scheduled, ids, n0)
    ensures var r := Rounds(st, sessions, scheduled, ids, n0);
      sessions <= r && SessionsOk(st, r, ids, n0)
    decreases |Ids(st.employees) - scheduled|
  {
    if |scheduled| < |st.employees| {
      var p := Scan(st, sessions, scheduled, st.cands);
      if p.best.Some? && p.bestScore > 0.0 {
        var c := p.best.value;
        var sessions', scheduled' := sessions + [Session(c, ids(n0 + |sessions|))], scheduled + Members(c.attendees);
        PickKeepsPlanned(st, sessions, scheduled, ids, n0);
        RoundsFacts(st, sessions', scheduled', ids, n0);
        assert sessions <= sessions';
      }
    }
  }

  /** One round of the loop keeps the loop state and schedules only employees. */
  lemma PickKeepsPlanned(st: Setup, sessions: seq<Meeting>, scheduled: set<string>, ids: nat -> string, n0: nat)
    requires AttendeesKnown(st) && scheduled <= Ids(st.employees)
    requires Planned(st, sessions, scheduled, ids, n0)
    requires Scan(st, sessions, scheduled, st.cands).best.Some?
    ensures var c := Scan(st, sessions, scheduled, st.cands).best.value;
      && scheduled + Members(c.attendees) <= Ids(st.employees)
      && |Ids(st.employees) - (scheduled + Members(c.attendees))| < |Ids(st.employees) - scheduled|
      && Planned(st, sessions + [Session(c, ids(n0 + |sessions|))], scheduled + Members(c.attendees), ids, n0)
  {
    var p := Scan(st, sessions, scheduled, st.cands);
    var c := p.best.value;
    ScanFacts(st, sessions, scheduled, st.cands);
    var k :| PickedAt(st, sessions, scheduled, st.cands, k, p);
    RoundStep(st, sessions, scheduled, ids, n0, k, c);
    assert c.attendees[0] in st.cands[k].attendees;
    FewerLeft(Ids(st.employees), scheduled, c.attendees);
  }

  // ---------------------------------------------------------------- the whole scheduler

  /** The largest `minutes` over the employees' entries, starting from 0. */
  function MaxOver(byEmp: map<string, seq<Interval>>, employees: seq<Employee>): int {
    if employees == [] then 0
    else Max(MaxOver(byEmp, employees[..|employees| - 1]), MinutesOf(AvailOf(byEmp, employees[|employees| - 1].id)))
  }

  lemma {:induction false} MaxOverFacts(byEmp: map<string, seq<Interval>>, employees: seq<Employee>)
    ensures var mx := MaxOver(byEmp, employees);
      && mx >= 0
      && (forall k :: 0 <= k < |employees| ==> MinutesOf(AvailOf(byEmp, employees[k].id)) <= mx)
      && (mx == 0 || exists k :: 0 <= k < |employees| && MinutesOf(AvailOf(byEmp, employees[k].id)) == mx)
  {
    if employees != [] {
      var init := employees[..|employees| - 1];
      MaxOverFacts(byEmp, init);
      assert forall k :: 0 <= k < |init| ==> init[k] == employees[k];
    }
  }

  /** Over the employees' own record, the fold over employees is the maximum the loop over entries finds. */
  lemma MaxOverIsMax(employees: seq<Employee>, wins: seq<Interval>)
    ensures var byEmp := ByEmployee(employees, wins); IsMaxMinutes(byEmp, MaxOver(byEmp, employees))
  {
    var byEmp := ByEmployee(employees, wins);
    var mx := MaxOver(byEmp, employees);
    ByEmployeeKeys(employees, wins);
    MaxOverFacts(byEmp, employees);
    forall eid | eid in byEmp ensures MinutesOf(byEmp[eid]) <= mx {
      var k :| 0 <= k < |employees| && employees[k].id == eid;
    }
    if mx != 0 {
      var k :| 0 <= k < |employees| && MinutesOf(AvailOf(byEmp, employees[k].id)) == mx;
      assert employees[k].id in Ids(employees);
    }
  }

  function TeamSetup(employees: seq<Employee>, wins: seq<Interval>, sessionMinutes: nat): Setup {
    var byEmp := ByEmployee(employees, wins);
    Setup(employees, byEmp, MaxOver(byEmp, employees), Candidates(employees, byEmp, wins, sessionMinutes))
  }

  lemma TeamSetupKnown(employees: seq<Employee>, wins: seq<Interval>, sessionMinutes: nat)
    ensures AttendeesKnown(TeamSetup(employees, wins, sessionMinutes))
  {
    var st := TeamSetup(employees, wins, sessionMinutes);
    forall k, id | 0 <= k < |st.cands| && id in st.cands[k].attendees ensures id in Ids(employees) {
      CandidatesSound(employees, st.byEmp, wins, sessionMinutes, st.cands[k]);
    }
  }

  /** `optimizeTeamWeekWeighted`: the sessions of the loop, sorted by start; the `k`-th session gets id `ids(n0 + k)`. */
  function TeamPlan(employees: seq<Employee>, wins: seq<Interval>, sessionMinutes: nat, ids: nat -> string, n0: nat): (r: seq<Meeting>)
    ensures SortedBy(r, StartKey)
  {
    TeamSetupKnown(employees, wins, sessionMinutes);
    SortBy(Rounds(TeamSetup(employees, wins, sessionMinutes), [], {}, ids, n0), StartKey)
  }

  /** A session taken from a real candidate sits in a session window and reaches only available employees. */
  lemma SessionFromCand(employees: seq<Employee>, wins: seq<Interval>, sessionMinutes: nat, m: Meeting)
    requires m.TeamSession? && FromCand(m, TeamSetup(employees, wins, sessionMinutes).cands)
    ensures SessionWindow(Span(m), wins, sessionMinutes)
    ensures forall id :: id in m.attendeeIds ==> id in Ids(employees) && Touches(AvailOf(ByEmployee(employees, wins), id), Span(m))
  {
    var st := TeamSetup(employees, wins, sessionMinutes);
    var k :| 0 <= k < |st.cands| && st.cands[k].interval == Span(m) && AttendeeSet(m) <= Members(st.cands[k].attendees);
    CandidatesSound(employees, st.byEmp, wins, sessionMinutes, st.cands[k]);
    forall id | id in m.attendeeIds
      ensures id in Ids(employees) && Touches(AvailOf(ByEmployee(employees, wins), id), Span(m))
    {
      assert id in AttendeeSet(m);
    }
  }

  /** Two different sessions of the list never overlap and share no attendee. */
  predicate PairwiseApart(out: seq<Meeting>) {
    forall m1, m2 :: m1 in out && m2 in out && m1 != m2 ==> !Overlaps(Span(m1), Span(m2)) && AttendeeSet(m1) !! AttendeeSet(m2)
  }

  lemma MembersApart(st: Setup, r: seq<Meeting>, ids: nat -> string, n0: nat, m1: Meeting, m2: Meeting)
    requires SessionsOk(st, r, ids, n0) && m1 in r && m2 in r && m1 != m2
    ensures !Overlaps(Span(m1), Span(m2)) && AttendeeSet(m1) !! AttendeeSet(m2)
  {
    var i :| 0 <= i < |r| && r[i] == m1;
    var j :| 0 <= j < |r| && r[j] == m2;
    if j < i {
      OverlapsSymmetric(Span(m1), Span(m2));
    }
  }

  /** Any list drawn from the sessions keeps the pairwise facts: two different members come from two different positions. */
  lemma DrawnApart(st: Setup, r: seq<Meeting>, ids: nat -> string, n0: nat, out: seq<Meeting>)
    requires SessionsOk(st, r, ids, n0)
    requires forall m :: m in out ==> m in r
    ensures PairwiseApart(out)
  {
    forall m1, m2 | m1 in out && m2 in out && m1 != m2
      ensures !Overlaps(Span(m1), Span(m2)) && AttendeeSet(m1) !! AttendeeSet(m2)
    {
      MembersApart(st, r, ids, n0, m1, m2);
    }
  }

  /** Sorting keeps the pairwise facts. */
  lemma SortedSessionsApart(st: Setup, r: seq<Meeting>, ids: nat -> string, n0: nat)
    requires SessionsOk(st, r, ids, n0)
    ensures PairwiseApart(SortBy(r, StartKey))
  {
    forall m | m in SortBy(r, StartKey) ensures m in r {
      SortByMembers(r, StartKey, m);
    }
    DrawnApart(st, r, ids, n0, SortBy(r, StartKey));
  }

  lemma SortedSessionsFromCands(employees: seq<Employee>, wins: seq<Interval>, sessionMinutes: nat, r: seq<Meeting>, ids: nat -> string, n0: nat)
    requires SessionsOk(TeamSetup(employees, wins, sessionMinutes), r, ids, n0)
    ensures forall m :: m in SortBy(r, StartKey) ==>
      && m.TeamSession? && m.title == "Team Session" && |m.attendeeIds| >= 2
      && SessionWindow(Span(m), wins, sessionMinutes)
      && forall id :: id in m.attendeeIds ==> id in Ids(employees) && Touches(AvailOf(ByEmployee(employees, wins), id), Span(m))
  {
    forall m | m in SortBy(r, StartKey)
      ensures m.TeamSession? && m.title == "Team Session" && |m.attendeeIds| >= 2
      ensures SessionWindow(Span(m), wins, sessionMinutes)
      ensures forall id :: id in m.attendeeIds ==> id in Ids(employees) && Touches(AvailOf(ByEmployee(employees, wins), id), Span(m))
    {
      SortByMembers(r, StartKey, m);
      var i :| 0 <= i < |r| && r[i] == m;
      SessionFromCand(employees, wins, sessionMinutes, m);
    }
  }

  /** The loop's sessions before sorting satisfy `SessionsOk`. */
  lemma RoundsOk(employees: seq<Employee>, wins: seq<Interval>, sessionMinutes: nat, ids: nat -> string, n0: nat)
    ensures AttendeesKnown(TeamSetup(employees, wins, sessionMinutes))
    ensures var st := TeamSetup(employees, wins, sessionMinutes);
      && TeamPlan(employees, wins, sessionMinutes, ids, n0) == SortBy(Rounds(st, [], {}, ids, n0), StartKey)
      && SessionsOk(st, Rounds(st, [], {}, ids, n0), ids, n0)
  {
    TeamSetupKnown(employees, wins, sessionMinutes);
    RoundsFacts(TeamSetup(employees, wins, sessionMinutes), [], {}, ids, n0);
  }

  /**
   * The returned sessions are sorted by start; each is a "Team Session" of `sessionMinutes` on
   * the 15-minute grid inside a manager window, with at least two attendees, each an employee
   * available during part of it.
   */
  lemma TeamPlanSessions(employees: seq<Employee>, wins: seq<Interval>, sessionMinutes: nat, ids: nat -> string, n0: nat)
    ensures var out := TeamPlan(employees, wins, sessionMinutes, ids, n0);
      && SortedBy(out, StartKey)
      && forall m :: m in out ==>
            && m.TeamSession? && m.title == "Team Session" && |m.attendeeIds| >= 2
            && SessionWindow(Span(m), wins, sessionMinutes)
            && forall id :: id in m.attendeeIds ==> id in Ids(employees) && Touches(AvailOf(ByEmployee(employees, wins), id), Span(m))
  {
    RoundsOk(employees, wins, sessionMinutes, ids, n0);
    var st := TeamSetup(employees, wins, sessionMinutes);
    SortedSessionsFromCands(employees, wins, sessionMinutes, Rounds(st, [], {}, ids, n0), ids, n0);
  }

  /** Two different returned sessions never overlap and share no attendee. */
  lemma TeamPlanApart(employees: seq<Employee>, wins: seq<Interval>, sessionMinutes: nat, ids: nat -> string, n0: nat)
    ensures PairwiseApart(TeamPlan(employees, wins, sessionMinutes, ids, n0))
  {
    var st := TeamSetup(employees, wins, sessionMinutes);
    TeamSetupKnown(employees, wins, sessionMinutes);
    var r := Rounds(st, [], {}, ids, n0);
    RoundsFacts(st, [], {}, ids, n0);
    SortedSessionsApart(st, r, ids, n0);
    var out := SortBy(r, StartKey);
    assert TeamPlan(employees, wins, sessionMinutes, ids, n0) == out;
  }

  // ---------------------------------------------------------------- the method

  /** The scoring loop: `score += weight[id] * 2` over the unscheduled attendees. */
  method ScoreOf(ghost st: Setup, weight: map<string, real>, un: seq<string>) returns (score: real)
    requires forall id :: id in weight ==> weight[id] == WeightOf(st.byEmp, st.maxMin, id)
    requires forall id :: id in un ==> id in weight
    ensures score == Score(st, un)
  {
    score := 0.0;
    for j := 0 to |un|
      invariant score == Score(st, un[..j])
    {
      assert un[..j + 1][..j] == un[..j] && un[..j + 1][j] == un[j];
      score := score + weight[un[j]] * 2.0;
    }
    assert un[..|un|] == un;
  }

  /** The scan over `cands` for the best candidate (the `for (const c of cands)` loop). */
  method PickBest(ghost st: Setup, cands: seq<Cand>, weight: map<string, real>, sessions: seq<Meeting>, scheduled: set<string>)
    returns (best: Option<Cand>, bestScore: real)
    requires cands == st.cands
    requires forall id :: id in weight ==> weight[id] == WeightOf(st.byEmp, st.maxMin, id)
    requires forall k, id :: 0 <= k < |cands| && id in cands[k].attendees ==> id in weight
    ensures Pick(best, bestScore) == Scan(st, sessions, scheduled, cands)
  {
    best, bestScore := None, 0.0;
    for i := 0 to |cands|
      invariant Pick(best, bestScore) == Scan(st, sessions, scheduled, cands[..i])
    {
      best, bestScore := ScanOne(st, cands, i, weight, sessions, scheduled, best, bestScore);
    }
    assert cands[..|cands|] == cands;
  }

  /** The body of the scan loop: skip a closed candidate, otherwise keep it if it scores strictly higher. */
  method ScanOne(ghost st: Setup, cands: seq<Cand>, i: nat, weight: map<string, real>, sessions: seq<Meeting>, scheduled: set<string>,
                 best0: Option<Cand>, bestScore0: real)
    returns (best: Option<Cand>, bestScore: real)
    requires i < |cands| && Pick(best0, bestScore0) == Scan(st, sessions, scheduled, cands[..i])
    requires forall id :: id in weight ==> weight[id] == WeightOf(st.byEmp, st.maxMin, id)
    requires forall id :: id in cands[i].attendees ==> id in weight
    ensures Pick(best, bestScore) == Scan(st, sessions, scheduled, cands[..i + 1])
  {
    var c := cands[i];
    assert cands[..i + 1][..i] == cands[..i] && cands[..i + 1][i] == c;
    best, bestScore := best0, bestScore0;
    if OverlapsAny(Spans(sessions), c.interval) {
      return;
    }
    var un := Unscheduled(c.attendees, scheduled);
    if |un| < 2 {
      return;
    }
    var score := ScoreOf(st, weight, un);
    if score > bestScore {
      bestScore := score;
      best := Some(Cand(c.interval, un));
    }
  }

  /** `best.attendees.forEach((id) => scheduled.add(id))`. */
  method AddScheduled(scheduled0: set<string>, attendees: seq<string>) returns (scheduled: set<string>)
    ensures scheduled == scheduled0 + Members(attendees)
  {
    scheduled := scheduled0;
    for k := 0 to |attendees|
      invariant scheduled == scheduled0 + Members(attendees[..k])
    {
      assert Members(attendees[..k + 1]) == Members(attendees[..k]) + {attendees[k]} by {
        assert attendees[..k + 1] == attendees[..k] + [attendees[k]];
      }
      scheduled := scheduled + {attendees[k]};
    }
    assert attendees[..|attendees|] == attendees;
  }

  /**
   * `optimizeTeamWeekWeighted`: weights, candidates, then the `while` loop choosing sessions;
   * the `k`-th session created gets id `ids(n0 + k)` (the source draws random ids).
   */
  method OptimizeTeamWeekWeighted(employees: seq<Employee>, managerWindowsAbs: seq<Interval>, sessionMinutes: nat, ids: nat -> string, n0: nat)
    returns (out: seq<Meeting>)
    ensures out == TeamPlan(employees, managerWindowsAbs, sessionMinutes, ids, n0)
  {
    var byEmp := AvailabilityByEmployee(employees, managerWindowsAbs);
    var minsMap, maxMin := MinutesTable(byEmp);
    MaxOverIsMax(employees, managerWindowsAbs);
    MaxMinutesUnique(byEmp, maxMin, MaxOver(byEmp, employees));
    var weight := WeightTable(employees, minsMap, maxMin, byEmp);
    var cands := BuildCandidates(employees, byEmp, managerWindowsAbs, sessionMinutes);
    ghost var st := TeamSetup(employees, managerWindowsAbs, sessionMinutes);
    assert st == Setup(employees, byEmp, maxMin, cands);
    TeamSetupKnown(employees, managerWindowsAbs, sessionMinutes);

    var sessions: seq<Meeting> := [];
    var scheduled: set<string> := {};
    while |scheduled| < |employees|
      invariant scheduled <= Ids(employees)
      invariant Rounds(st, sessions, scheduled, ids, n0) == Rounds(st, [], {}, ids, n0)
      decreases |Ids(employees) - scheduled|
    {
      var best, bestScore := PickBest(st, cands, weight, sessions, scheduled);
      if best.None? || bestScore <= 0.0 {
        assert Rounds(st, sessions, scheduled, ids, n0) == sessions;
        break;
      }
      var c := best.value;
      ScanFacts(st, sessions, scheduled, cands);
      ghost var k :| PickedAt(st, sessions, scheduled, cands, k, Pick(best, bestScore));
      assert c.attendees[0] in cands[k].attendees;
      FewerLeft(Ids(employees), scheduled, c.attendees);
      var session := TeamSession(ids(n0 + |sessions|), "Team Session", c.interval.startMin, c.interval.endMin, c.attendees);
      assert session == Session(c, ids(n0 + |sessions|));
      sessions := sessions + [session];
      scheduled := AddScheduled(scheduled, c.attendees);
    }
    out := SortBy(sessions, StartKey);
  }
}
