/**
 * The plan transforms of the planner hook (src/lib/planner/usePlanner.tsx): what generating,
 * editing and removing do to the plan, and the list of employees still without a one-on-one.
 * The React state around them is not modelled; each transform is the pure function the
 * hook hands to its state setter.
 */
module Planner {
  import opened Wrappers
  import opened Time
  import opened Types
  import opened Sorting
  import Normalize
  import Conflicts
  import ScarcityScheduler
  import TeamScheduler
  import Optimize
  import Derived

  // ---------------------------------------------------------------- removing an employee

  /** Whether a meeting mentions the employee: their one-on-one, or a session they attend. */
  predicate Involves(p: Meeting, eid: string) {
    if p.OneOnOne? then p.employeeId == eid else eid in p.attendeeIds
  }

  /** `attendeeIds.filter(id => id !== eid)`. */
  function Without(ids: seq<string>, eid: string): (r: seq<string>)
    ensures |r| <= |ids|
    ensures forall x :: x in r <==> x in ids && x != eid
    ensures eid !in ids ==> r == ids
  {
    if ids == [] then []
    else
      var init, x := ids[..|ids| - 1], ids[|ids| - 1];
      assert ids == init + [x];
      Without(init, eid) + (if x != eid then [x] else [])
  }

  /** First pass: drop the employee's one-on-ones. */
  function DropOneOnOnes(plan: seq<Meeting>, eid: string): (r: seq<Meeting>)
    ensures |r| <= |plan|
    ensures forall m :: m in r ==> m in plan && !(m.OneOnOne? && m.employeeId == eid)
  {
    if plan == [] then []
    else
      var p := plan[|plan| - 1];
      DropOneOnOnes(plan[..|plan| - 1], eid) + (if p.OneOnOne? && p.employeeId == eid then [] else [p])
  }

  /** Second pass: take the employee out of every team session's attendees. */
  function StripAttendee(plan: seq<Meeting>, eid: string): (r: seq<Meeting>)
    ensures |r| == |plan|
  {
    seq(|plan|, i requires 0 <= i < |plan| =>
      if plan[i].TeamSession? then plan[i].(attendeeIds := Without(plan[i].attendeeIds, eid)) else plan[i])
  }

  /** Third pass: drop team sessions left with no attendee. */
  function DropEmptySessions(plan: seq<Meeting>): (r: seq<Meeting>)
    ensures |r| <= |plan|
    ensures forall m :: m in r ==> m in plan && !(m.TeamSession? && |m.attendeeIds| == 0)
  {
    if plan == [] then []
    else
      var p := plan[|plan| - 1];
      DropEmptySessions(plan[..|plan| - 1]) + (if p.TeamSession? && |p.attendeeIds| == 0 then [] else [p])
  }

  /** The plan update of `removeEmployee`: the three passes in the source's order. */
  function RemoveEmployeeFromPlan(plan: seq<Meeting>, eid: string): (r: seq<Meeting>)
    ensures |r| <= |plan|
    ensures forall m :: m in r && m.TeamSession? ==> |m.attendeeIds| > 0
  {
    DropEmptySessions(StripAttendee(DropOneOnOnes(plan, eid), eid))
  }

  /**
   * What becomes of one meeting: the employee's one-on-one goes, a session loses the
   * employee and goes if nobody is left, anything else stays as it is.
   */
  function CleanOne(p: Meeting, eid: string): seq<Meeting> {
    if p.OneOnOne? then (if p.employeeId == eid then [] else [p])
    else
      var rest := Without(p.attendeeIds, eid);
      if |rest| == 0 then [] else [p.(attendeeIds := rest)]
  }

  /** The meeting-by-meeting reading of the cleanup. */
  function CleanEach(plan: seq<Meeting>, eid: string): seq<Meeting> {
    if plan == [] then [] else CleanEach(plan[..|plan| - 1], eid) + CleanOne(plan[|plan| - 1], eid)
  }

  lemma StripAttendeeSnoc(plan: seq<Meeting>, p: Meeting, eid: string)
    ensures StripAttendee(plan + [p], eid) == StripAttendee(plan, eid) + StripAttendee([p], eid)
  {
  }

  /** The three passes do, meeting by meeting and in order, what `CleanOne` says. */
  lemma {:induction false} RemoveEmployeeIsCleanEach(plan: seq<Meeting>, eid: string)
    ensures RemoveEmployeeFromPlan(plan, eid) == CleanEach(plan, eid)
  {
    if plan != [] {
      var init, p := plan[..|plan| - 1], plan[|plan| - 1];
      RemoveEmployeeIsCleanEach(init, eid);
      var a := DropOneOnOnes(init, eid);
      var tail := if p.OneOnOne? && p.employeeId == eid then [] else [p];
      assert DropOneOnOnes(plan, eid) == a + tail;
      StripAttendeeSnoc(a, p, eid);
      var b := StripAttendee(a, eid);
      if tail == [] {
        assert a + tail == a;
      } else {
        var q := StripAttendee([p], eid)[0];
        assert StripAttendee(a + tail, eid) == b + [q];
        assert (b + [q])[..|b + [q]| - 1] == b;
      }
    }
  }

  /** A meeting that does not mention the employee passes through unchanged. */
  lemma CleanOneKeepsUninvolved(p: Meeting, eid: string)
    requires !Involves(p, eid)
    ensures p.TeamSession? && |p.attendeeIds| == 0 ==> CleanOne(p, eid) == []
    ensures !(p.TeamSession? && |p.attendeeIds| == 0) ==> CleanOne(p, eid) == [p]
  {
  }

  /**
   * After the cleanup no one-on-one belongs to the employee and no session lists them or is
   * empty; every kept meeting comes from a meeting of the old plan with the same id, times
   * and title.
   */
  lemma {:induction false} RemoveEmployeeFacts(plan: seq<Meeting>, eid: string)
    ensures var r := RemoveEmployeeFromPlan(plan, eid);
      && |r| <= |plan|
      && (forall m :: m in r ==> !Involves(m, eid))
      && (forall m :: m in r && m.TeamSession? ==> |m.attendeeIds| > 0)
      && (forall m :: m in r ==> exists p :: p in plan && p.id == m.id && Span(p) == Span(m) && p.title == m.title)
  {
    RemoveEmployeeIsCleanEach(plan, eid);
    CleanEachFacts(plan, eid);
  }

  lemma {:induction false} CleanEachFacts(plan: seq<Meeting>, eid: string)
    ensures var r := CleanEach(plan, eid);
      && |r| <= |plan|
      && (forall m :: m in r ==> !Involves(m, eid))
      && (forall m :: m in r && m.TeamSession? ==> |m.attendeeIds| > 0)
      && (forall m :: m in r ==> exists p :: p in plan && p.id == m.id && Span(p) == Span(m) && p.title == m.title)
  {
    if plan != [] {
      var init, p := plan[..|plan| - 1], plan[|plan| - 1];
      CleanEachFacts(init, eid);
      var a: seq<Meeting>, b: seq<Meeting> := CleanEach(init, eid), CleanOne(p, eid);
      forall m | m in a + b
        ensures exists q :: q in plan && q.id == m.id && Span(q) == Span(m) && q.title == m.title
      {
        if m in a {
          var q :| q in init && q.id == m.id && Span(q) == Span(m) && q.title == m.title;
          assert q in plan;
        } else {
          assert p in plan;
        }
      }
    }
  }

  /** `setEmployees(prev => prev.filter(e => e.id !== eid))`. */
  function RemoveEmployeeFromList(employees: seq<Employee>, eid: string): (r: seq<Employee>)
    ensures |r| <= |employees|
    ensures forall e :: e in r <==> e in employees && e.id != eid
    ensures eid !in Ids(r)
  {
    if employees == [] then []
    else
      var init, e := employees[..|employees| - 1], employees[|employees| - 1];
      assert employees == init + [e];
      var r := RemoveEmployeeFromList(init, eid) + (if e.id != eid then [e] else []);
      assert eid !in Ids(r) by {
        forall i | 0 <= i < |r| ensures r[i].id != eid {
          assert r[i] in r;
        }
      }
      r
  }

  // ---------------------------------------------------------------- removing and editing one meeting

  /** `onRemoveMeeting`: `prev.filter(x => x.id !== id)`. */
  function RemoveMeeting(plan: seq<Meeting>, id: string): (r: seq<Meeting>)
    ensures |r| <= |plan|
    ensures forall m :: m in r <==> m in plan && m.id != id
    ensures id !in Conflicts.MeetingIds(plan) ==> r == plan
  {
    if plan == [] then []
    else
      var init, p := plan[..|plan| - 1], plan[|plan| - 1];
      assert plan == init + [p];
      Conflicts.MeetingIdsSnoc(init, p);
      RemoveMeeting(init, id) + (if p.id != id then [p] else [])
  }

  /** Removing twice is removing once. */
  lemma {:induction false} RemoveMeetingIdempotent(plan: seq<Meeting>, id: string)
    ensures RemoveMeeting(RemoveMeeting(plan, id), id) == RemoveMeeting(plan, id)
  {
    var r := RemoveMeeting(plan, id);
    assert id !in Conflicts.MeetingIds(r) by {
      forall i | 0 <= i < |r| ensures r[i].id != id {
        assert r[i] in r;
      }
    }
  }

  /**
   * The updates the plan editor sends: a new start and end, or a new end only. Spreading them
   * over the meeting replaces exactly the fields present.
   */
  datatype Patch = Patch(startMin: Option<nat>, endMin: Option<nat>)

  function ApplyPatch(p: Meeting, u: Patch): (r: Meeting)
    ensures r.id == p.id && r.title == p.title && r.OneOnOne? == p.OneOnOne?
    ensures r.OneOnOne? ==> r.employeeId == p.employeeId
    ensures r.TeamSession? ==> r.attendeeIds == p.attendeeIds
    ensures r.startMin == (if u.startMin.Some? then u.startMin.value else p.startMin)
    ensures r.endMin == (if u.endMin.Some? then u.endMin.value else p.endMin)
  {
    var p1 := if u.startMin.Some? then p.(startMin := u.startMin.value) else p;
    if u.endMin.Some? then p1.(endMin := u.endMin.value) else p1
  }

  /** `updateMeeting(id, updates)`: patch every meeting with that id; no conflict check. */
  function UpdateMeeting(plan: seq<Meeting>, id: string, u: Patch): (r: seq<Meeting>)
    ensures |r| == |plan|
    ensures forall i :: 0 <= i < |plan| && plan[i].id != id ==> r[i] == plan[i]
    ensures forall i :: 0 <= i < |plan| && plan[i].id == id ==> r[i] == ApplyPatch(plan[i], u)
  {
    seq(|plan|, i requires 0 <= i < |plan| => if plan[i].id == id then ApplyPatch(plan[i], u) else plan[i])
  }

  /** An update can make meetings overlap: nothing re-checks the edited plan. */
  lemma UpdateCanOverlap()
    ensures var plan := [OneOnOne("a", "1:1", 100, 130, "e1"), OneOnOne("b", "1:1", 130, 160, "e2")];
      && Conflicts.OverlapFree(plan)
      && !Conflicts.OverlapFree(UpdateMeeting(plan, "b", Patch(Some(120), Some(150))))
  {
    var plan := [OneOnOne("a", "1:1", 100, 130, "e1"), OneOnOne("b", "1:1", 130, 160, "e2")];
    var r := UpdateMeeting(plan, "b", Patch(Some(120), Some(150)));
    assert r[0] == plan[0] && r[1].startMin == 120 && r[1].endMin == 150;
    assert Conflicts.TimeOverlaps(r[0], r[1]);
  }

  // ---------------------------------------------------------------- generating

  datatype Mode = OneOnOneMode | TeamMode | ScrambleMode

  /** The planner settings `runOptimize` reads. */
  datatype Settings = Settings(
    mode: Mode,
    slotMinutes: nat,
    bufferMinutes: nat,
    maxPerDay: nat,
    targetConversations: nat,
    maxPerEmployeePerDay: nat,
    sessionMinutes: nat,
    appendGenerate: bool)

  /**
   * The `generated` plan of `runOptimize`: employees normalised for overnight shifts, then
   * the scheduler of the mode. The one-on-one scheduler gets the target as its week cap and
   * the per-employee day cap as its day cap; scramble gets the per-employee day cap in the
   * slot it names `maxPerDay`. One-on-one ids come from `oneIds`, team ids from `teamIds`.
   */
  function Generate(s: Settings, employees: seq<Employee>, absWins: seq<Interval>,
                    teamIds: nat -> string, oneIds: nat -> string): (r: seq<Meeting>)
    ensures SortedBy(r, StartKey)
  {
    var normalized := Normalize.NormalizeEmployees(employees);
    match s.mode
    case OneOnOneMode =>
      ScarcityScheduler.Schedule(
        ScarcityScheduler.Rules(s.slotMinutes, s.bufferMinutes, s.maxPerDay, s.targetConversations, s.maxPerEmployeePerDay),
        normalized, absWins, [], oneIds, 0)
    case TeamMode =>
      TeamScheduler.TeamPlan(normalized, absWins, s.sessionMinutes, teamIds, 0)
    case ScrambleMode =>
      Optimize.Scramble(normalized, absWins, s.sessionMinutes, s.slotMinutes, s.bufferMinutes,
                        s.maxPerEmployeePerDay, teamIds, oneIds)
  }

  /** The plan after `runOptimize`: appended to the previous plan, or replacing it. */
  function RunOptimize(s: Settings, prev: seq<Meeting>, employees: seq<Employee>, absWins: seq<Interval>,
                       teamIds: nat -> string, oneIds: nat -> string): (r: seq<Meeting>)
    ensures s.appendGenerate ==> prev <= r
    ensures |r| <= (if s.appendGenerate then |prev| else 0) + |Generate(s, employees, absWins, teamIds, oneIds)|
  {
    var generated := Generate(s, employees, absWins, teamIds, oneIds);
    if s.appendGenerate then Conflicts.MergeFold(prev, generated) else Conflicts.MergeFold([], generated)
  }

  /**
   * Appending keeps the previous plan as a prefix and adds only generated meetings with fresh
   * ids that overlap nothing before them, so an overlap-free plan stays overlap-free;
   * replacing yields an overlap-free plan with distinct ids drawn from the generated one.
   */
  lemma RunOptimizeFacts(s: Settings, prev: seq<Meeting>, employees: seq<Employee>, absWins: seq<Interval>,
                         teamIds: nat -> string, oneIds: nat -> string)
    ensures var r := RunOptimize(s, prev, employees, absWins, teamIds, oneIds);
      var generated := Generate(s, employees, absWins, teamIds, oneIds);
      && (s.appendGenerate ==> prev <= r && Conflicts.FreshIdsFrom(r, |prev|) && Conflicts.NoOverlapFrom(r, |prev|))
      && (s.appendGenerate && Conflicts.OverlapFree(prev) ==> Conflicts.OverlapFree(r))
      && (!s.appendGenerate ==> Conflicts.OverlapFree(r) && Conflicts.FreshIdsFrom(r, 0))
      && (forall m :: m in r ==> m in prev || m in generated)
  {
    var generated := Generate(s, employees, absWins, teamIds, oneIds);
    if s.appendGenerate {
      Conflicts.MergeFoldFacts(prev, generated);
      SelectFrom(prev, generated);
    } else {
      Conflicts.StripFacts(generated);
      SelectFrom([], generated);
    }
  }

  /** Everything in the merge result comes from the existing plan or the candidates. */
  lemma SelectFrom(existing: seq<Meeting>, candidates: seq<Meeting>)
    ensures forall m :: m in Conflicts.MergeFold(existing, candidates) ==> m in existing || m in candidates
  {
    Conflicts.MergeFoldFacts(existing, candidates);
    var mask :| |mask| == |candidates| && Conflicts.MergeFold(existing, candidates) == existing + Conflicts.Select(candidates, mask);
    SelectMembers(candidates, mask);
  }

  lemma {:induction false} SelectMembers(candidates: seq<Meeting>, mask: seq<bool>)
    requires |mask| == |candidates|
    ensures forall m :: m in Conflicts.Select(candidates, mask) ==> m in candidates
  {
    if candidates != [] {
      var init := candidates[..|candidates| - 1];
      SelectMembers(init, mask[..|mask| - 1]);
      assert forall m :: m in init ==> m in candidates;
    }
  }

  // ---------------------------------------------------------------- unscheduled one-on-ones

  /** The names of the employees whose id is not in `scheduled`, in employee order. */
  function NamesWithout(employees: seq<Employee>, scheduled: set<string>): (r: seq<string>)
    ensures |r| <= |employees|
    ensures |r| == |employees| <==> forall k :: 0 <= k < |employees| ==> employees[k].id !in scheduled
  {
    if employees == [] then []
    else
      var e := employees[|employees| - 1];
      NamesWithout(employees[..|employees| - 1], scheduled) + (if e.id !in scheduled then [e.name] else [])
  }

  /** `unscheduled1on1s`: nothing outside the one-on-one and scramble modes. */
  function Unscheduled1on1s(mode: Mode, plan: seq<Meeting>, employees: seq<Employee>): (r: seq<string>)
    ensures |r| <= |employees|
    ensures mode != TeamMode ==>
      (|r| == |employees| <==> forall k :: 0 <= k < |employees| ==> employees[k].id !in Derived.OneOnOneEmployees(plan))
  {
    if mode == TeamMode then []
    else NamesWithout(employees, Derived.OneOnOneEmployees(plan))
  }

  /**
   * In the one-on-one and scramble modes a name is listed exactly when some employee of that
   * name has a coverage row with no one-on-one; in team mode nothing is listed.
   */
  lemma Unscheduled1on1sFacts(mode: Mode, plan: seq<Meeting>, employees: seq<Employee>, name: string)
    ensures mode == TeamMode ==> Unscheduled1on1s(mode, plan, employees) == []
    ensures mode != TeamMode ==>
      (name in Unscheduled1on1s(mode, plan, employees) <==>
        exists i :: 0 <= i < |employees| && employees[i].name == name
          && Derived.ComputeCoverage(employees, plan)[i].oneCount == 0)
  {
    if mode != TeamMode {
      var rows := Derived.ComputeCoverage(employees, plan);
      NamesWithoutMembers(employees, Derived.OneOnOneEmployees(plan), name);
      forall i | 0 <= i < |employees|
        ensures rows[i].oneCount == 0 <==> employees[i].id !in Derived.OneOnOneEmployees(plan)
      {
        Derived.OneCountPositive(plan, employees[i].id);
      }
    }
  }

  lemma {:induction false} NamesWithoutMembers(employees: seq<Employee>, scheduled: set<string>, name: string)
    ensures name in NamesWithout(employees, scheduled) <==>
      exists i :: 0 <= i < |employees| && employees[i].name == name && employees[i].id !in scheduled
  {
    if employees != [] {
      var init, e := employees[..|employees| - 1], employees[|employees| - 1];
      NamesWithoutMembers(init, scheduled, name);
      if exists i :: 0 <= i < |employees| && employees[i].name == name && employees[i].id !in scheduled {
        var i :| 0 <= i < |employees| && employees[i].name == name && employees[i].id !in scheduled;
        if i < |init| {
          assert init[i] == employees[i];
        }
      }
      if exists i :: 0 <= i < |init| && init[i].name == name && init[i].id !in scheduled {
        var i :| 0 <= i < |init| && init[i].name == name && init[i].id !in scheduled;
        assert employees[i] == init[i];
      }
    }
  }
}
