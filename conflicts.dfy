/**
 * The plan's conflict policy (src/lib/planner/conflicts.ts): candidates are appended in order,
 * first one wins, skipping any whose id is already taken or whose time overlaps a meeting
 * already kept.
 */
module Conflicts {
  import opened Time
  import opened Types
  import opened Sorting

  /** `timeOverlaps` (and `meetingsConflict`, which is the same test). */
  predicate TimeOverlaps(a: Meeting, b: Meeting) {
    !(a.endMin <= b.startMin || b.endMin <= a.startMin)
  }

  lemma TimeOverlapsSymmetric(a: Meeting, b: Meeting)
    ensures TimeOverlaps(a, b) <==> TimeOverlaps(b, a)
    ensures TimeOverlaps(a, b) <==> Overlaps(Span(a), Span(b))
  {
  }

  /** Back-to-back meetings `[a, b)` and `[b, c)` do not conflict. */
  lemma TouchingMeetingsDoNotConflict(p: Meeting, q: Meeting)
    requires p.endMin == q.startMin
    ensures !TimeOverlaps(p, q) && !TimeOverlaps(q, p)
  {
  }

  function MeetingIds(ms: seq<Meeting>): set<string> {
    set i | 0 <= i < |ms| :: ms[i].id
  }

  lemma MeetingIdsSnoc(ms: seq<Meeting>, p: Meeting)
    ensures MeetingIds(ms + [p]) == MeetingIds(ms) + {p.id}
  {
    var r := ms + [p];
    forall x | x in MeetingIds(ms) ensures x in MeetingIds(r) {
      var i :| 0 <= i < |ms| && ms[i].id == x;
      assert r[i] == ms[i];
    }
    assert r[|ms|] == p;
  }

  predicate CollidesWithAny(ms: seq<Meeting>, p: Meeting) {
    exists i :: 0 <= i < |ms| && TimeOverlaps(p, ms[i])
  }

  /** Whether the loop keeps candidate `p` given what has been kept so far. */
  predicate Admits(result: seq<Meeting>, p: Meeting) {
    p.id !in MeetingIds(result) && !CollidesWithAny(result, p)
  }

  /** One iteration of the candidate loop. */
  function Offer(result: seq<Meeting>, p: Meeting): seq<Meeting> {
    if Admits(result, p) then result + [p] else result
  }

  /** `mergeWithoutConflicts(existing, candidates)` as a left fold of the candidate loop. */
  function MergeFold(existing: seq<Meeting>, candidates: seq<Meeting>): (r: seq<Meeting>)
    ensures existing <= r && |r| <= |existing| + |candidates|
  {
    if candidates == [] then existing
    else Offer(MergeFold(existing, candidates[..|candidates| - 1]), candidates[|candidates| - 1])
  }

  /** The candidates a boolean mask picks, in their input order. */
  function Select(candidates: seq<Meeting>, mask: seq<bool>): seq<Meeting>
    requires |mask| == |candidates|
  {
    if candidates == [] then []
    else
      Select(candidates[..|candidates| - 1], mask[..|mask| - 1])
        + (if mask[|mask| - 1] then [candidates[|candidates| - 1]] else [])
  }

  /** From position `n` on, each meeting's id differs from every earlier one's. */
  predicate FreshIdsFrom(r: seq<Meeting>, n: nat) {
    forall i, j :: 0 <= i < j < |r| && j >= n ==> r[i].id != r[j].id
  }

  /** From position `n` on, each meeting overlaps no earlier one. */
  predicate NoOverlapFrom(r: seq<Meeting>, n: nat) {
    forall i, j :: 0 <= i < j < |r| && j >= n ==> !TimeOverlaps(r[i], r[j])
  }

  /** A plan with no two meetings overlapping. */
  predicate OverlapFree(r: seq<Meeting>) {
    forall i, j :: 0 <= i < j < |r| ==> !TimeOverlaps(r[i], r[j])
  }

  /**
   * One turn of the candidate loop appends the candidate exactly when its id is unseen and it
   * overlaps nothing kept, and otherwise leaves the result as it was; either way the kept
   * meetings stay fresh and non-overlapping from position `n` on.
   */
  lemma OfferFacts(result: seq<Meeting>, p: Meeting, n: nat)
    requires n <= |result| && FreshIdsFrom(result, n) && NoOverlapFrom(result, n)
    ensures Admits(result, p) <==> Offer(result, p) == result + [p]
    ensures !Admits(result, p) ==> Offer(result, p) == result
    ensures var r := Offer(result, p);
      result <= r && FreshIdsFrom(r, n) && NoOverlapFrom(r, n)
  {
    if Admits(result, p) {
      var r := result + [p];
      forall i | 0 <= i < |result| ensures r[i].id != p.id && !TimeOverlaps(r[i], p) {
        assert result[i].id in MeetingIds(result);
        TimeOverlapsSymmetric(p, result[i]);
      }
    }
  }

  /**
   * `mergeWithoutConflicts`: the existing plan unchanged, followed by the accepted candidates
   * in input order. Each accepted candidate has an id absent from everything before it and
   * overlaps nothing before it, so an overlap-free plan stays overlap-free.
   */
  lemma {:induction false} MergeFoldFacts(existing: seq<Meeting>, candidates: seq<Meeting>)
    ensures var r := MergeFold(existing, candidates);
      && existing <= r
      && (exists mask :: |mask| == |candidates| && r == existing + Select(candidates, mask))
      && FreshIdsFrom(r, |existing|)
      && NoOverlapFrom(r, |existing|)
      && (OverlapFree(existing) ==> OverlapFree(r))
  {
    var r := MergeFold(existing, candidates);
    if candidates == [] {
      assert r == existing + Select(candidates, []);
    } else {
      var init, p := candidates[..|candidates| - 1], candidates[|candidates| - 1];
      MergeFoldFacts(existing, init);
      var prev := MergeFold(existing, init);
      var mask :| |mask| == |init| && prev == existing + Select(init, mask);
      OfferFacts(prev, p, |existing|);
      OfferSelects(existing, candidates, mask, prev);
    }
    if OverlapFree(existing) {
      OverlapFreeExtends(existing, r);
    }
  }

  /** For each candidate, whether the loop admits it against what was kept before it. */
  function AdmitMask(existing: seq<Meeting>, candidates: seq<Meeting>): (mask: seq<bool>)
    ensures |mask| == |candidates|
  {
    if candidates == [] then []
    else
      var init := candidates[..|candidates| - 1];
      AdmitMask(existing, init) + [Admits(MergeFold(existing, init), candidates[|candidates| - 1])]
  }

  /**
   * The merged plan is the existing plan followed by exactly the candidates that were admitted
   * when their turn came.
   */
  lemma {:induction false} MergeFoldSelectsAdmitted(existing: seq<Meeting>, candidates: seq<Meeting>)
    ensures MergeFold(existing, candidates) == existing + Select(candidates, AdmitMask(existing, candidates))
  {
    if candidates == [] {
      assert existing + [] == existing;
    } else {
      var init, p := candidates[..|candidates| - 1], candidates[|candidates| - 1];
      MergeFoldSelectsAdmitted(existing, init);
      var prev := MergeFold(existing, init);
      OfferSelects(existing, candidates, AdmitMask(existing, init), prev);
    }
  }

  /** The candidate loop's step extends the mask with whether the last candidate was admitted. */
  lemma OfferSelects(existing: seq<Meeting>, candidates: seq<Meeting>, mask: seq<bool>, prev: seq<Meeting>)
    requires candidates != [] && |mask| == |candidates| - 1
    requires prev == existing + Select(candidates[..|candidates| - 1], mask)
    ensures var p := candidates[|candidates| - 1];
      Offer(prev, p) == existing + Select(candidates, mask + [Admits(prev, p)])
  {
    var p := candidates[|candidates| - 1];
    var mask' := mask + [Admits(prev, p)];
    assert mask'[..|mask'| - 1] == mask;
    var sel := Select(candidates[..|candidates| - 1], mask);
    if Admits(prev, p) {
      assert Select(candidates, mask') == sel + [p];
      ConcatAssoc(existing, sel, [p]);
    } else {
      assert Select(candidates, mask') == sel + [];
      assert sel + [] == sel;
    }
  }

  /** A plan that keeps an overlap-free prefix and adds only non-overlapping meetings is overlap-free. */
  lemma OverlapFreeExtends(existing: seq<Meeting>, r: seq<Meeting>)
    requires existing <= r && NoOverlapFrom(r, |existing|) && OverlapFree(existing)
    ensures OverlapFree(r)
  {
    forall i, j | 0 <= i < j < |r| ensures !TimeOverlaps(r[i], r[j]) {
      if j < |existing| {
        assert r[i] == existing[i] && r[j] == existing[j];
      }
    }
  }

  /** With existing [100,130), a candidate at [120,150) is refused and one at [130,160) accepted. */
  lemma MergeExample()
    ensures var held := OneOnOne("a", "1:1", 100, 130, "e1");
      && MergeFold([held], [OneOnOne("b", "1:1", 120, 150, "e2")]) == [held]
      && MergeFold([held], [OneOnOne("c", "1:1", 130, 160, "e2")]) == [held, OneOnOne("c", "1:1", 130, 160, "e2")]
  {
    var held := OneOnOne("a", "1:1", 100, 130, "e1");
    var late := OneOnOne("c", "1:1", 130, 160, "e2");
    assert [OneOnOne("b", "1:1", 120, 150, "e2")][..0] == [];
    assert [late][..0] == [];
    assert TimeOverlaps(OneOnOne("b", "1:1", 120, 150, "e2"), [held][0]);
    assert MeetingIds([held]) == {"a"};
    assert "c" != "a";
  }

  /** The candidate loop's result only grows: the result for a prefix is a prefix of the result. */
  lemma {:induction false} MergeFoldPrefix(existing: seq<Meeting>, candidates: seq<Meeting>, k: nat)
    requires k <= |candidates|
    ensures MergeFold(existing, candidates[..k]) <= MergeFold(existing, candidates)
    decreases |candidates|
  {
    if k < |candidates| {
      var init := candidates[..|candidates| - 1];
      assert init[..k] == candidates[..k];
      MergeFoldPrefix(existing, init, k);
    } else {
      assert candidates[..k] == candidates;
    }
  }

  /** A list with distinct ids and no overlaps passes through the candidate loop unchanged. */
  lemma {:induction false} CleanListPassesThrough(c: seq<Meeting>)
    requires FreshIdsFrom(c, 0) && OverlapFree(c)
    ensures MergeFold([], c) == c
  {
    if c != [] {
      var init, p := c[..|c| - 1], c[|c| - 1];
      CleanListPassesThrough(init);
      assert MergeFold([], init) == init;
      assert p.id !in MeetingIds(init);
      assert !CollidesWithAny(init, p) by {
        forall i | 0 <= i < |init| ensures !TimeOverlaps(p, init[i]) {
          assert !TimeOverlaps(c[i], c[|c| - 1]);
        }
      }
      assert init + [p] == c;
    }
  }

  /** The first candidate always survives: nothing is kept before it. */
  lemma StripKeepsFirst(c: seq<Meeting>)
    requires c != []
    ensures var k := MergeFold([], c); k != [] && k[0] == c[0]
  {
    MergeFoldPrefix([], c, 1);
    assert c[..1][..0] == [];
    assert MeetingIds([]) == {};
    assert MergeFold([], c[..1]) == [c[0]];
  }

  /**
   * `stripInternalConflicts(c)` is `mergeWithoutConflicts([], c)`: an overlap-free, id-distinct
   * subsequence of `c`, and stripping twice changes nothing.
   */
  lemma StripFacts(c: seq<Meeting>)
    ensures var k := MergeFold([], c);
      && (exists mask :: |mask| == |c| && k == Select(c, mask))
      && FreshIdsFrom(k, 0) && OverlapFree(k)
      && MergeFold([], k) == k
  {
    var k := MergeFold([], c);
    MergeFoldFacts([], c);
    var mask :| |mask| == |c| && k == [] + Select(c, mask);
    assert k == Select(c, mask);
    CleanListPassesThrough(k);
  }

  /** `mergeWithoutConflicts`: the loop over candidates with a set of seen ids. */
  method MergeWithoutConflicts(existing: seq<Meeting>, candidates: seq<Meeting>) returns (result: seq<Meeting>)
    ensures result == MergeFold(existing, candidates)
  {
    result := existing;
    var seen := MeetingIds(existing);
    for i := 0 to |candidates|
      invariant result == MergeFold(existing, candidates[..i])
      invariant seen == MeetingIds(result)
    {
      var p := candidates[i];
      assert candidates[..i + 1][..i] == candidates[..i] && candidates[..i + 1][i] == p;
      if p.id in seen {
        continue;
      }
      var collides := CollidesWithAny(result, p);
      if !collides {
        MeetingIdsSnoc(result, p);
        result := result + [p];
        seen := seen + {p.id};
      }
    }
    assert candidates[..|candidates|] == candidates;
  }

  /** `stripInternalConflicts`: the same loop starting from an empty plan. */
  method StripInternalConflicts(candidates: seq<Meeting>) returns (kept: seq<Meeting>)
    ensures kept == MergeFold([], candidates)
  {
    kept := [];
    var seen: set<string> := {};
    for i := 0 to |candidates|
      invariant kept == MergeFold([], candidates[..i])
      invariant seen == MeetingIds(kept)
    {
      var p := candidates[i];
      assert candidates[..i + 1][..i] == candidates[..i] && candidates[..i + 1][i] == p;
      if p.id in seen {
        continue;
      }
      var collides := CollidesWithAny(kept, p);
      if !collides {
        MeetingIdsSnoc(kept, p);
        kept := kept + [p];
        seen := seen + {p.id};
      }
    }
    assert candidates[..|candidates|] == candidates;
  }
}
