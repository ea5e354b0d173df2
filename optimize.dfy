/**
 * `optimizeScramble` (src/lib/optimize.ts): team sessions first, then one-on-ones placed around
 * them with the default caps of one per employee per week and per day; all sorted by start.
 */
module Optimize {
  import opened Wrappers
  import opened Time
  import opened Types
  import opened Sorting
  import opened Availability
  import opened ScarcityScheduler
  import opened TeamScheduler

  /**
   * The scramble plan. Team sessions take their ids from `teamIds` (the source's `uid("tm")`) and
   * one-on-ones from `oneIds` (`uid("oo")`), each stream from its start.
   */
  function Scramble(employees: seq<Employee>, wins: seq<Interval>, teamMinutes: nat, oneOnOneMinutes: nat,
                    bufferMinutes: nat, maxPerDay: nat, teamIds: nat -> string, oneIds: nat -> string): (r: seq<Meeting>)
    ensures SortedBy(r, StartKey)
  {
    var team := TeamPlan(employees, wins, teamMinutes, teamIds, 0);
    var one := Schedule(Rules(oneOnOneMinutes, bufferMinutes, maxPerDay, 1, 1), employees, wins, team, oneIds, 0);
    SortBy(team + one, StartKey)
  }

  /** A list of team sessions holds no one-on-one of anybody. */
  lemma {:induction false} TeamHoldsNoOneOnOne(ms: seq<Meeting>, eid: string)
    requires forall m :: m in ms ==> m.TeamSession?
    ensures WeekCount(ms, eid) == 0
  {
    if ms != [] {
      assert ms[|ms| - 1] in ms;
      TeamHoldsNoOneOnOne(ms[..|ms| - 1], eid);
    }
  }

  /** Merging team sessions with one-on-ones of at most one per employee keeps that bound. */
  lemma MergedPlanFacts(team: seq<Meeting>, one: seq<Meeting>)
    requires forall m :: m in team ==> m.TeamSession?
    requires forall eid :: WeekCount(one, eid) <= 1
    ensures var out := SortBy(team + one, StartKey);
      SortedBy(out, StartKey) && multiset(out) == multiset(team) + multiset(one) && forall eid :: WeekCount(out, eid) <= 1
  {
    var out := SortBy(team + one, StartKey);
    forall eid ensures WeekCount(out, eid) <= 1 {
      MergedCount(team, one, out, eid);
      assert WeekCount(one, eid) <= 1;
    }
  }

  lemma MergedCount(team: seq<Meeting>, one: seq<Meeting>, out: seq<Meeting>, eid: string)
    requires forall m :: m in team ==> m.TeamSession?
    requires multiset(out) == multiset(team + one)
    ensures WeekCount(out, eid) == WeekCount(one, eid)
  {
    CountKeyPerm(team + one, out, Owner, Some(eid));
    CountKeyConcat(team, one, Owner, Some(eid));
    TeamHoldsNoOneOnOne(team, eid);
  }

  /**
   * The scramble plan: sorted by start, holding exactly the team sessions and the one-on-ones;
   * no employee has more than one one-on-one; every one-on-one is `bufferMinutes` apart from each
   * team session that starts on its day index; and two different team sessions never overlap.
   */
  lemma ScrambleFacts(employees: seq<Employee>, wins: seq<Interval>, teamMinutes: nat, oneOnOneMinutes: nat,
                      bufferMinutes: nat, maxPerDay: nat, teamIds: nat -> string, oneIds: nat -> string)
    ensures var team := TeamPlan(employees, wins, teamMinutes, teamIds, 0);
      var one := Schedule(Rules(oneOnOneMinutes, bufferMinutes, maxPerDay, 1, 1), employees, wins, team, oneIds, 0);
      var out := Scramble(employees, wins, teamMinutes, oneOnOneMinutes, bufferMinutes, maxPerDay, teamIds, oneIds);
      && SortedBy(out, StartKey)
      && multiset(out) == multiset(team) + multiset(one)
      && (forall eid :: WeekCount(out, eid) <= 1)
      && (forall m, b :: m in one && b in team && StartDay(m) == StartDay(b) ==> Apart(Span(b), Span(m), bufferMinutes))
      && PairwiseApart(team)
  {
    var team := TeamPlan(employees, wins, teamMinutes, teamIds, 0);
    var r := Rules(oneOnOneMinutes, bufferMinutes, maxPerDay, 1, 1);
    var one := Schedule(r, employees, wins, team, oneIds, 0);
    var out := SortBy(team + one, StartKey);
    TeamPlanSessions(employees, wins, teamMinutes, teamIds, 0);
    TeamPlanApart(employees, wins, teamMinutes, teamIds, 0);
    ScheduleFacts(r, employees, wins, team, oneIds, 0);
    MergedPlanFacts(team, one);
  }

  /** `optimizeScramble`. */
  method OptimizeScramble(employees: seq<Employee>, managerWindowsAbs: seq<Interval>, teamMinutes: nat, oneOnOneMinutes: nat,
                          bufferMinutes: nat, maxPerDay: nat, teamIds: nat -> string, oneIds: nat -> string)
    returns (out: seq<Meeting>)
    ensures out == Scramble(employees, managerWindowsAbs, teamMinutes, oneOnOneMinutes, bufferMinutes, maxPerDay, teamIds, oneIds)
  {
    var team := OptimizeTeamWeekWeighted(employees, managerWindowsAbs, teamMinutes, teamIds, 0);
    var one := OptimizeOneOnOnesScarcity(employees, managerWindowsAbs, oneOnOneMinutes, bufferMinutes, maxPerDay, team, 1, 1, oneIds, 0);
    out := SortBy(team + one, StartKey);
  }
}
