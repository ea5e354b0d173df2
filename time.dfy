/**
 * Minute arithmetic over the repeating week and the interval algebra of src/lib/time.ts.
 * Every minute value is built from a day index and a time of day, so minutes are natural
 * numbers here; on natural numbers Dafny's `/` and `%` agree with `Math.floor(a / b)` and `%`.
 */
module Time {
  import opened Wrappers
  import opened Sorting

  const MinutesInDay: nat := 24 * 60
  const MinutesInWeek: nat := 7 * MinutesInDay

  type Day = d: nat | d < 7

  /** A time-of-day text "H:M" once it has been split at the colon and read as two numbers. */
  datatype Clock = Clock(h: nat, m: nat)

  /** The half-open span [startMin, endMin) in minutes since the start of the week. */
  datatype Interval = Interval(startMin: nat, endMin: nat)

  function Max(a: int, b: int): int { if a >= b then a else b }
  function Min(a: int, b: int): int { if a <= b then a else b }

  predicate NonEmpty(iv: Interval) { iv.startMin < iv.endMin }
  predicate AllNonEmpty(ivs: seq<Interval>) { forall i :: 0 <= i < |ivs| ==> NonEmpty(ivs[i]) }
  predicate In(x: int, iv: Interval) { iv.startMin <= x < iv.endMin }
  predicate InSome(x: int, ivs: seq<Interval>) { exists i :: 0 <= i < |ivs| && In(x, ivs[i]) }
  predicate Within(inner: Interval, outer: Interval) {
    outer.startMin <= inner.startMin && inner.endMin <= outer.endMin
  }

  /** `inner` lies inside some span of `ivs`. */
  predicate InsideSome(inner: Interval, ivs: seq<Interval>) {
    exists j :: 0 <= j < |ivs| && Within(inner, ivs[j])
  }

  /** Two spans conflict unless one ends at or before the other starts; touching is no conflict. */
  predicate Overlaps(a: Interval, b: Interval) {
    !(a.endMin <= b.startMin || b.endMin <= a.startMin)
  }

  lemma InSomeConcat(a: seq<Interval>, b: seq<Interval>, x: int)
    ensures InSome(x, a + b) <==> InSome(x, a) || InSome(x, b)
  {
    if InSome(x, a + b) {
      var i :| 0 <= i < |a + b| && In(x, (a + b)[i]);
      if i >= |a| { assert b[i - |a|] == (a + b)[i]; }
    }
    if InSome(x, a) {
      var i :| 0 <= i < |a| && In(x, a[i]);
      assert (a + b)[i] == a[i];
    }
    if InSome(x, b) {
      var i :| 0 <= i < |b| && In(x, b[i]);
      assert (a + b)[|a| + i] == b[i];
    }
  }

  lemma InSomeSnoc(a: seq<Interval>, iv: Interval, x: int)
    ensures InSome(x, a + [iv]) <==> InSome(x, a) || In(x, iv)
  {
    InSomeConcat(a, [iv], x);
    assert InSome(x, [iv]) <==> In(x, iv) by { assert [iv][0] == iv; }
  }

  /** A list's minutes are those of all but its last span plus those of the last. */
  lemma InSomeInit(a: seq<Interval>, x: int)
    requires a != []
    ensures InSome(x, a) <==> InSome(x, a[..|a| - 1]) || In(x, a[|a| - 1])
  {
    assert a == a[..|a| - 1] + [a[|a| - 1]];
    InSomeSnoc(a[..|a| - 1], a[|a| - 1], x);
  }

  // ---------------------------------------------------------------- clock text

  /** `hhmmToMins`: the clock's minutes reduced into one day, so "24:00" reads as 0. */
  function HhmmToMins(t: Clock): (r: nat)
    ensures r < MinutesInDay
    ensures (t.h * 60 + t.m - r) % MinutesInDay == 0
    ensures t.h * 60 + t.m < MinutesInDay ==> r == t.h * 60 + t.m
  {
    (t.h * 60 + t.m) % MinutesInDay
  }

  lemma MidnightTextIsZero()
    ensures HhmmToMins(Clock(24, 0)) == 0 && HhmmToMins(Clock(0, 0)) == 0
  {
  }

  predicate IsDigit(c: char) { '0' <= c <= '9' }
  predicate AllDigits(s: string) { forall i :: 0 <= i < |s| ==> IsDigit(s[i]) }

  function DigitChar(d: nat): (c: char)
    requires d < 10
    ensures IsDigit(c) && c as int - '0' as int == d
  {
    ('0' as int + d) as char
  }

  /** The number a run of decimal digits denotes (`Number` on such a text). */
  function DigitsValue(s: string): nat
    requires AllDigits(s)
  {
    if s == [] then 0 else DigitsValue(s[..|s| - 1]) * 10 + (s[|s| - 1] as int - '0' as int)
  }

  /** `padStart(2, "0")` of a number below 100. */
  function TwoDigits(n: nat): (s: string)
    requires n < 100
    ensures |s| == 2 && AllDigits(s) && DigitsValue(s) == n
  {
    var s := [DigitChar(n / 10), DigitChar(n % 10)];
    assert s[..1] == [DigitChar(n / 10)] && s[..1][..0] == [];
    assert DigitsValue(s[..1]) == n / 10;
    s
  }

  /** `fmtHHMM`: two-digit hour of day, a colon, two-digit minute of hour. */
  function FmtHHMM(mins: nat): (s: string)
    ensures |s| == 5 && s[2] == ':'
    ensures AllDigits(s[..2]) && DigitsValue(s[..2]) == (mins / 60) % 24
    ensures AllDigits(s[3..]) && DigitsValue(s[3..]) == mins % 60
  {
    var s := TwoDigits((mins / 60) % 24) + ":" + TwoDigits(mins % 60);
    assert s[..2] == TwoDigits((mins / 60) % 24);
    assert s[3..] == TwoDigits(mins % 60);
    s
  }

  function IndexOfColon(s: string): (r: Option<nat>)
    ensures r.Some? ==> r.value < |s| && s[r.value] == ':'
    ensures r.Some? ==> forall j :: 0 <= j < r.value ==> s[j] != ':'
    ensures r.None? ==> forall j :: 0 <= j < |s| ==> s[j] != ':'
  {
    if s == [] then None
    else if s[0] == ':' then Some(0)
    else match IndexOfColon(s[1..])
      case None => None
      case Some(i) => Some(i + 1)
  }

  /**
   * `s.split(":").map(Number)` read as [h, m], for texts made of two digit runs around one
   * colon: the hour is the number before the colon, the minute the number after it. Any other
   * text (`None`) is outside what the model reads.
   */
  function ParseClock(s: string): (r: Option<Clock>)
    ensures r.Some? ==> exists i ::
      && 0 < i < |s| - 1 && s[i] == ':' && AllDigits(s[..i]) && AllDigits(s[i + 1..])
      && r.value == Clock(DigitsValue(s[..i]), DigitsValue(s[i + 1..]))
  {
    match IndexOfColon(s)
    case None => None
    case Some(i) =>
      var hs, ms := s[..i], s[i + 1..];
      if 0 < |hs| && 0 < |ms| && AllDigits(hs) && AllDigits(ms)
      then Some(Clock(DigitsValue(hs), DigitsValue(ms)))
      else None
  }

  /** Two non-empty digit runs around a colon read as the hour and the minute they denote. */
  lemma ParseClockReads(hs: string, ms: string)
    requires 0 < |hs| && 0 < |ms| && AllDigits(hs) && AllDigits(ms)
    ensures ParseClock(hs + ":" + ms) == Some(Clock(DigitsValue(hs), DigitsValue(ms)))
  {
    var s := hs + ":" + ms;
    assert s[|hs|] == ':';
    assert forall j :: 0 <= j < |hs| ==> s[j] == hs[j] && s[j] != ':';
    assert s[..|hs|] == hs && s[|hs| + 1..] == ms;
  }

  /** What `fmtHHMM` writes, `hhmmToMins`' parsing reads back. */
  lemma FmtHHMMParses(mins: nat)
    ensures ParseClock(FmtHHMM(mins)) == Some(Clock((mins / 60) % 24, mins % 60))
  {
    var s := FmtHHMM(mins);
    assert s[0] != ':' && s[1] != ':' && s[2] == ':' by {
      assert IsDigit(s[..2][0]) && IsDigit(s[..2][1]);
    }
    assert s[1..][1..] == s[2..];
    assert IndexOfColon(s[2..]) == Some(0);
    assert IndexOfColon(s[1..]) == Some(1);
  }

  // ---------------------------------------------------------------- absolute minutes

  /** `dayTimeToAbs`: the minute of the week at which the clock time falls on the given day. */
  function DayTimeToAbs(d: Day, t: Clock): (r: nat)
    ensures r < MinutesInWeek
    ensures r / MinutesInDay == d && r % MinutesInDay == HhmmToMins(t)
  {
    d * MinutesInDay + HhmmToMins(t)
  }

  /**
   * `toAbsInterval`: starts at the start day and time; ends at the end day and time, one week
   * later when that would not be after the start, so the span is never empty.
   */
  function ToAbsInterval(startDay: Day, start: Clock, endDay: Day, end: Clock): (r: Interval)
    ensures r.startMin == DayTimeToAbs(startDay, start)
    ensures r.startMin < r.endMin <= r.startMin + MinutesInWeek
    ensures r.endMin % MinutesInWeek == DayTimeToAbs(endDay, end)
  {
    var s := DayTimeToAbs(startDay, start);
    var e := DayTimeToAbs(endDay, end);
    WeekRemainder(e);
    if e <= s then Interval(s, e + MinutesInWeek) else Interval(s, e)
  }

  /** A minute of the week is its own remainder, also one week later. */
  lemma WeekRemainder(e: nat)
    requires e < MinutesInWeek
    ensures e % MinutesInWeek == e && (e + MinutesInWeek) % MinutesInWeek == e
  {
  }

  /** The end day every caller computes: the next day when the end time is not after the start. */
  function EndDay(day: Day, start: Clock, end: Clock): Day {
    if HhmmToMins(end) <= HhmmToMins(start) then (day + 1) % 7 else day
  }

  /** A day-local span (shift, break or manager window) as an absolute interval. */
  function SpanInterval(day: Day, start: Clock, end: Clock): Interval {
    ToAbsInterval(day, start, EndDay(day, start, end), end)
  }

  /**
   * The span starts at its own day and time and lasts until the next occurrence of the end
   * time: between 1 minute and a whole day, a whole day when start and end read the same.
   */
  lemma SpanIntervalLength(day: Day, start: Clock, end: Clock)
    ensures SpanInterval(day, start, end).startMin == DayTimeToAbs(day, start)
    ensures var s, e := HhmmToMins(start), HhmmToMins(end);
      SpanInterval(day, start, end).endMin - SpanInterval(day, start, end).startMin
        == if s < e then e - s else e - s + MinutesInDay
  {
  }

  // ---------------------------------------------------------------- intersect

  /** `intersect`: the common part of two spans, or nothing when they share no minute. */
  function Intersect(a: Interval, b: Interval): (r: Option<Interval>)
    ensures r.None? <==> Max(a.startMin, b.startMin) >= Min(a.endMin, b.endMin)
    ensures r.Some? ==> NonEmpty(r.value) && Within(r.value, a) && Within(r.value, b)
    ensures forall x :: (r.Some? && In(x, r.value)) <==> In(x, a) && In(x, b)
  {
    var s := Max(a.startMin, b.startMin);
    var e := Min(a.endMin, b.endMin);
    if e > s then Some(Interval(s, e)) else None
  }

  lemma IntersectSymmetric(a: Interval, b: Interval)
    ensures Intersect(a, b) == Intersect(b, a)
  {
  }

  /** Two non-empty spans intersect exactly when they overlap. */
  lemma IntersectIffOverlaps(a: Interval, b: Interval)
    requires NonEmpty(a) && NonEmpty(b)
    ensures Intersect(a, b).Some? <==> Overlaps(a, b)
  {
  }

  // ---------------------------------------------------------------- merge

  predicate StartsSorted(ivs: seq<Interval>) {
    forall i, j :: 0 <= i < j < |ivs| ==> ivs[i].startMin <= ivs[j].startMin
  }

  /** Each span ends strictly before the next one starts: no overlap and no touching. */
  predicate Separated(ivs: seq<Interval>) {
    forall i, j :: 0 <= i < j < |ivs| ==> ivs[i].endMin < ivs[j].startMin
  }

  function StartOf(iv: Interval): int { iv.startMin }

  function SortByStart(ivs: seq<Interval>): (r: seq<Interval>)
    ensures |r| == |ivs| && multiset(r) == multiset(ivs) && StartsSorted(r)
  {
    var r := SortBy(ivs, StartOf);
    assert forall i, j :: 0 <= i < j < |r| ==> StartOf(r[i]) <= StartOf(r[j]);
    r
  }

  /** One step of the merge loop: extend the last span over `iv` if `iv` starts no later than its end. */
  function MergeStep(out: seq<Interval>, iv: Interval): seq<Interval> {
    if out != [] && iv.startMin <= out[|out| - 1].endMin
    then out[..|out| - 1] + [Interval(out[|out| - 1].startMin, Max(out[|out| - 1].endMin, iv.endMin))]
    else out + [iv]
  }

  /** The merge loop over an already sorted list. */
  function Coalesce(s: seq<Interval>): seq<Interval> {
    if s == [] then [] else MergeStep(Coalesce(s[..|s| - 1]), s[|s| - 1])
  }

  lemma {:induction false} MergeStepCovers(out: seq<Interval>, iv: Interval, x: int)
    requires out != [] ==> out[|out| - 1].startMin <= iv.startMin
    ensures InSome(x, MergeStep(out, iv)) <==> InSome(x, out) || In(x, iv)
  {
    if out != [] && iv.startMin <= out[|out| - 1].endMin {
      var init, last := out[..|out| - 1], out[|out| - 1];
      var merged := Interval(last.startMin, Max(last.endMin, iv.endMin));
      assert out == init + [last];
      InSomeConcat(init, [last], x);
      InSomeConcat(init, [merged], x);
      assert InSome(x, [last]) <==> In(x, last) by { assert [last][0] == last; }
      assert InSome(x, [merged]) <==> In(x, merged) by { assert [merged][0] == merged; }
    } else {
      InSomeConcat(out, [iv], x);
      assert InSome(x, [iv]) <==> In(x, iv) by { assert [iv][0] == iv; }
    }
  }

  /** The merge step keeps the output ordered and separated when spans arrive in order of start. */
  lemma MergeStepOrdered(out: seq<Interval>, iv: Interval)
    requires StartsSorted(out) && Separated(out)
    requires forall i :: 0 <= i < |out| ==> out[i].startMin <= iv.startMin
    ensures var r := MergeStep(out, iv);
      && |out| <= |r| <= |out| + 1 && r != []
      && StartsSorted(r) && Separated(r)
      && (forall i :: 0 <= i < |r| ==> r[i].startMin <= iv.startMin)
      && (AllNonEmpty(out) && NonEmpty(iv) ==> AllNonEmpty(r))
  {
    var r := MergeStep(out, iv);
    if out != [] && iv.startMin <= out[|out| - 1].endMin {
      assert forall i :: 0 <= i < |out| - 1 ==> r[i] == out[i];
      assert r[|out| - 1].startMin == out[|out| - 1].startMin;
    } else {
      assert forall i :: 0 <= i < |out| ==> r[i] == out[i];
    }
  }

  /** What the merge loop guarantees for sorted input, apart from coverage. */
  lemma {:induction false} CoalesceOrdered(s: seq<Interval>)
    requires StartsSorted(s)
    ensures var r := Coalesce(s);
      && |r| <= |s|
      && (s == [] <==> r == [])
      && StartsSorted(r)
      && Separated(r)
      && (forall i :: 0 <= i < |r| ==> r[i].startMin <= s[|s| - 1].startMin)
      && (AllNonEmpty(s) ==> AllNonEmpty(Coalesce(s)))
  {
    if s != [] {
      var init, last := s[..|s| - 1], s[|s| - 1];
      assert StartsSorted(init);
      CoalesceOrdered(init);
      var out := Coalesce(init);
      assert Coalesce(s) == MergeStep(out, last);
      if init != [] {
        assert init[|init| - 1].startMin <= last.startMin;
        assert forall i :: 0 <= i < |out| ==> out[i].startMin <= last.startMin;
      }
      assert AllNonEmpty(s) ==> AllNonEmpty(init) && NonEmpty(last);
      MergeStepOrdered(out, last);
    }
  }

  /** The merge loop over sorted input covers exactly the minutes of its input. */
  lemma {:induction false} CoalesceCovers(s: seq<Interval>, x: int)
    requires StartsSorted(s)
    ensures InSome(x, Coalesce(s)) <==> InSome(x, s)
  {
    if s != [] {
      var init, last := s[..|s| - 1], s[|s| - 1];
      InSomeInit(s, x);
      assert StartsSorted(init);
      CoalesceCovers(init, x);
      CoalesceOrdered(init);
      var out := Coalesce(init);
      if init != [] {
        assert init[|init| - 1].startMin <= last.startMin;
      }
      MergeStepCovers(out, last, x);
    }
  }

  /**
   * `mergeIntervals`: sorted by start, each span ending strictly before the next starts
   * (touching spans coalesce), covering exactly the minutes the input covers.
   */
  function Merge(list: seq<Interval>): (r: seq<Interval>)
    ensures |r| <= |list| && (list == [] <==> r == [])
    ensures StartsSorted(r) && Separated(r)
    ensures AllNonEmpty(list) ==> AllNonEmpty(r)
    ensures forall x :: InSome(x, r) <==> InSome(x, list)
  {
    var s := SortByStart(list);
    CoalesceOrdered(s);
    forall x ensures InSome(x, Coalesce(s)) <==> InSome(x, s) {
      CoalesceCovers(s, x);
    }
    assert AllNonEmpty(list) ==> AllNonEmpty(s) by {
      if AllNonEmpty(list) {
        forall i | 0 <= i < |s| ensures NonEmpty(s[i]) {
          assert s[i] in multiset(list);
        }
      }
    }
    forall x ensures InSome(x, s) <==> InSome(x, list) {
      if InSome(x, s) {
        var i :| 0 <= i < |s| && In(x, s[i]);
        assert s[i] in multiset(list);
      }
      if InSome(x, list) {
        var i :| 0 <= i < |list| && In(x, list[i]);
        assert list[i] in multiset(s);
      }
    }
    Coalesce(s)
  }

  method MergeIntervals(list: seq<Interval>) returns (out: seq<Interval>)
    ensures out == Merge(list)
  {
    MergeIsCoalesce(list);
    if |list| == 0 {
      return [];
    }
    var s := SortByStart(list);
    out := MergeSorted(s);
  }

  /** The merge loop over the sorted copy: the first span, then each later one merged in. */
  method MergeSorted(s: seq<Interval>) returns (out: seq<Interval>)
    requires s != []
    ensures out == Coalesce(s)
  {
    out := [s[0]];
    CoalesceNext(s, 0);
    assert s[..0] == [];
    for i := 1 to |s|
      invariant out == Coalesce(s[..i]) && out != []
    {
      CoalesceNext(s, i);
      out := MergeInto(out, s[i]);
    }
    assert s[..|s|] == s;
  }

  /** The body of the merge loop: extend the last merged span or start a new one. */
  method MergeInto(out0: seq<Interval>, iv: Interval) returns (out: seq<Interval>)
    requires out0 != []
    ensures out == MergeStep(out0, iv) && out != []
  {
    var last := out0[|out0| - 1];
    if iv.startMin <= last.endMin {
      out := out0[..|out0| - 1] + [last.(endMin := Max(last.endMin, iv.endMin))];
    } else {
      out := out0 + [iv];
    }
  }

  lemma CoalesceNext(s: seq<Interval>, i: nat)
    requires i < |s|
    ensures Coalesce(s[..i + 1]) == MergeStep(Coalesce(s[..i]), s[i])
  {
    assert s[..i + 1][..i] == s[..i] && s[..i + 1][i] == s[i];
  }

  lemma MergeIsCoalesce(list: seq<Interval>)
    ensures Merge(list) == Coalesce(SortByStart(list))
  {
  }

  // ---------------------------------------------------------------- minus and subtract

  function NonEmptyOnly(ivs: seq<Interval>): (r: seq<Interval>)
    ensures |r| <= |ivs| && AllNonEmpty(r)
    ensures forall i :: 0 <= i < |r| ==> r[i] in ivs
    ensures forall x :: InSome(x, r) <==> InSome(x, ivs)
  {
    if ivs == [] then []
    else
      var rest := NonEmptyOnly(ivs[1..]);
      assert forall x :: InSome(x, ivs) <==> In(x, ivs[0]) || InSome(x, ivs[1..]) by {
        forall x ensures InSome(x, ivs) <==> In(x, ivs[0]) || InSome(x, ivs[1..]) {
          assert ivs == [ivs[0]] + ivs[1..];
          InSomeConcat([ivs[0]], ivs[1..], x);
          assert InSome(x, [ivs[0]]) <==> In(x, ivs[0]) by { assert [ivs[0]][0] == ivs[0]; }
        }
      }
      if NonEmpty(ivs[0]) then
        assert forall x :: InSome(x, [ivs[0]] + rest) <==> In(x, ivs[0]) || InSome(x, rest) by {
          forall x ensures InSome(x, [ivs[0]] + rest) <==> In(x, ivs[0]) || InSome(x, rest) {
            InSomeConcat([ivs[0]], rest, x);
            assert InSome(x, [ivs[0]]) <==> In(x, ivs[0]) by { assert [ivs[0]][0] == ivs[0]; }
          }
        }
        [ivs[0]] + rest
      else rest
  }

  /** `minus(a, b)`: the minutes of `a` outside `b`, as at most two pieces of `a`. */
  function Minus(a: Interval, b: Interval): (r: seq<Interval>)
    ensures |r| <= 2
    ensures b.endMin <= a.startMin || b.startMin >= a.endMin ==> r == [a]
    ensures forall x :: InSome(x, r) <==> In(x, a) && !In(x, b)
    ensures forall i :: 0 <= i < |r| ==> Within(r[i], a) && !Overlaps(r[i], b)
    ensures NonEmpty(a) ==> AllNonEmpty(r)
  {
    if b.endMin <= a.startMin || b.startMin >= a.endMin then
      assert forall x :: InSome(x, [a]) <==> In(x, a) by { assert [a][0] == a; }
      [a]
    else
      var left := if b.startMin > a.startMin then [Interval(a.startMin, Min(b.startMin, a.endMin))] else [];
      var right := if b.endMin < a.endMin then [Interval(Max(b.endMin, a.startMin), a.endMin)] else [];
      assert forall x :: InSome(x, left + right) <==> In(x, a) && !In(x, b) by {
        forall x ensures InSome(x, left + right) <==> In(x, a) && !In(x, b) {
          InSomeConcat(left, right, x);
          if left != [] { assert InSome(x, left) <==> In(x, left[0]); }
          if right != [] { assert InSome(x, right) <==> In(x, right[0]); }
        }
      }
      NonEmptyOnly(left + right)
  }

  lemma MinusSelf(a: Interval)
    requires NonEmpty(a)
    ensures Minus(a, a) == []
  {
  }

  /** `acc.flatMap(iv => minus(iv, h))`. */
  function MinusEach(acc: seq<Interval>, h: Interval): (r: seq<Interval>)
    ensures forall x :: InSome(x, r) <==> InSome(x, acc) && !In(x, h)
    ensures forall i :: 0 <= i < |r| ==> !Overlaps(r[i], h) && InsideSome(r[i], acc)
    ensures AllNonEmpty(acc) ==> AllNonEmpty(r)
  {
    if acc == [] then []
    else
      var head, rest := Minus(acc[0], h), MinusEach(acc[1..], h);
      forall x ensures InSome(x, head + rest) <==> InSome(x, acc) && !In(x, h) {
        InSomeConcat(head, rest, x);
        assert acc == [acc[0]] + acc[1..];
        InSomeConcat([acc[0]], acc[1..], x);
        assert InSome(x, [acc[0]]) <==> In(x, acc[0]) by { assert [acc[0]][0] == acc[0]; }
      }
      forall i | 0 <= i < |head + rest|
        ensures InsideSome((head + rest)[i], acc)
      {
        if i < |head| {
          assert Within((head + rest)[i], acc[0]);
        } else {
          var j :| 0 <= j < |acc[1..]| && Within(rest[i - |head|], acc[1..][j]);
          assert acc[1..][j] == acc[j + 1];
        }
      }
      head + rest
  }

  /** The `reduce` of `subtractMany`: subtract each hole in turn. */
  function SubtractEach(acc: seq<Interval>, holes: seq<Interval>): (r: seq<Interval>)
    ensures forall x :: InSome(x, r) <==> InSome(x, acc) && !InSome(x, holes)
    ensures forall i :: 0 <= i < |r| ==> InsideSome(r[i], acc)
    ensures AllNonEmpty(acc) ==> AllNonEmpty(r)
    ensures AllNonEmpty(acc) ==> forall i, j :: 0 <= i < |r| && 0 <= j < |holes| ==> !Overlaps(r[i], holes[j])
    decreases |holes|
  {
    if holes == [] then
      SubtractNone(acc);
      acc
    else
      var step := MinusEach(acc, holes[0]);
      var r := SubtractEach(step, holes[1..]);
      SubtractCovers(acc, holes, step, r);
      SubtractWithin(acc, step, r);
      SubtractApart(acc, holes, step, r);
      r
  }

  lemma SubtractNone(acc: seq<Interval>)
    ensures forall x :: InSome(x, acc) <==> InSome(x, acc) && !InSome(x, [])
    ensures forall i :: 0 <= i < |acc| ==> InsideSome(acc[i], acc)
  {
    forall i | 0 <= i < |acc| ensures InsideSome(acc[i], acc) {
      assert Within(acc[i], acc[i]);
    }
  }

  /** Subtracting the first hole and then the rest covers the minutes of `acc` in no hole. */
  lemma SubtractCovers(acc: seq<Interval>, holes: seq<Interval>, step: seq<Interval>, r: seq<Interval>)
    requires holes != []
    requires forall x :: InSome(x, step) <==> InSome(x, acc) && !In(x, holes[0])
    requires forall x :: InSome(x, r) <==> InSome(x, step) && !InSome(x, holes[1..])
    ensures forall x :: InSome(x, r) <==> InSome(x, acc) && !InSome(x, holes)
  {
    forall x ensures InSome(x, r) <==> InSome(x, acc) && !InSome(x, holes) {
      assert holes == [holes[0]] + holes[1..];
      InSomeConcat([holes[0]], holes[1..], x);
      assert InSome(x, [holes[0]]) <==> In(x, holes[0]) by { assert [holes[0]][0] == holes[0]; }
    }
  }

  /** Lying inside is transitive through the intermediate pieces. */
  lemma SubtractWithin(acc: seq<Interval>, step: seq<Interval>, r: seq<Interval>)
    requires forall i :: 0 <= i < |step| ==> InsideSome(step[i], acc)
    requires forall i :: 0 <= i < |r| ==> InsideSome(r[i], step)
    ensures forall i :: 0 <= i < |r| ==> InsideSome(r[i], acc)
  {
    forall i | 0 <= i < |r| ensures InsideSome(r[i], acc) {
      var k :| 0 <= k < |step| && Within(r[i], step[k]);
      var j :| 0 <= j < |acc| && Within(step[k], acc[j]);
      assert Within(r[i], acc[j]);
    }
  }

  /** Non-empty pieces avoid the first hole through `step` and the others through the recursion. */
  lemma SubtractApart(acc: seq<Interval>, holes: seq<Interval>, step: seq<Interval>, r: seq<Interval>)
    requires holes != []
    requires forall i :: 0 <= i < |step| ==> !Overlaps(step[i], holes[0])
    requires AllNonEmpty(acc) ==> AllNonEmpty(step)
    requires forall i :: 0 <= i < |r| ==> InsideSome(r[i], step)
    requires AllNonEmpty(step) ==> AllNonEmpty(r)
    requires AllNonEmpty(step) ==> forall i, j :: 0 <= i < |r| && 0 <= j < |holes[1..]| ==> !Overlaps(r[i], holes[1..][j])
    ensures AllNonEmpty(acc) ==> AllNonEmpty(r)
    ensures AllNonEmpty(acc) ==> forall i, j :: 0 <= i < |r| && 0 <= j < |holes| ==> !Overlaps(r[i], holes[j])
  {
    if AllNonEmpty(acc) {
      forall i, j | 0 <= i < |r| && 0 <= j < |holes| ensures !Overlaps(r[i], holes[j]) {
        if j == 0 {
          var k :| 0 <= k < |step| && Within(r[i], step[k]);
          assert !Overlaps(step[k], holes[0]);
          assert NonEmpty(r[i]);
        } else {
          assert holes[j] == holes[1..][j - 1];
        }
      }
    }
  }

  /**
   * `subtractMany(base, holes)`: the minutes of `base` in no hole, as pieces each lying inside
   * one interval of the merged base and overlapping no hole.
   */
  function SubtractMany(base: seq<Interval>, holes: seq<Interval>): (r: seq<Interval>)
    ensures forall x :: InSome(x, r) <==> InSome(x, base) && !InSome(x, holes)
    ensures forall i :: 0 <= i < |r| ==> InsideSome(r[i], Merge(base))
    ensures AllNonEmpty(base) ==> AllNonEmpty(r)
    ensures AllNonEmpty(base) && AllNonEmpty(holes) ==>
      forall i, j :: 0 <= i < |r| && 0 <= j < |holes| ==> !Overlaps(r[i], holes[j])
  {
    var mh := Merge(holes);
    var r := SubtractEach(Merge(base), mh);
    assert AllNonEmpty(base) && AllNonEmpty(holes) ==>
      forall i, j :: 0 <= i < |r| && 0 <= j < |holes| ==> !Overlaps(r[i], holes[j]) by {
      if AllNonEmpty(base) && AllNonEmpty(holes) {
        DisjointPiecesDoNotOverlap(r, holes);
      }
    }
    r
  }

  /** Pieces sharing no minute with any hole overlap none of them. */
  lemma DisjointPiecesDoNotOverlap(r: seq<Interval>, holes: seq<Interval>)
    requires AllNonEmpty(r) && AllNonEmpty(holes)
    requires forall x :: InSome(x, r) ==> !InSome(x, holes)
    ensures forall i, j :: 0 <= i < |r| && 0 <= j < |holes| ==> !Overlaps(r[i], holes[j])
  {
    forall i, j | 0 <= i < |r| && 0 <= j < |holes| ensures !Overlaps(r[i], holes[j]) {
      var x := Max(r[i].startMin, holes[j].startMin);
      assert In(x, r[i]) ==> InSome(x, r);
      assert In(x, holes[j]) ==> InSome(x, holes);
      assert Overlaps(r[i], holes[j]) ==> In(x, r[i]) && In(x, holes[j]);
    }
  }

  /** Non-empty pieces whose every minute lies in `outer` lie inside `outer`. */
  lemma PiecesWithin(r: seq<Interval>, outer: Interval)
    requires AllNonEmpty(r)
    requires forall x :: InSome(x, r) ==> In(x, outer)
    ensures forall i :: 0 <= i < |r| ==> Within(r[i], outer)
  {
    forall i | 0 <= i < |r| ensures Within(r[i], outer) {
      assert In(r[i].startMin, r[i]) && In(r[i].endMin - 1, r[i]);
      assert InSome(r[i].startMin, r) && InSome(r[i].endMin - 1, r);
    }
  }

  /**
   * Holes cut from a single span leave pieces inside the span, overlapping no hole, covering
   * exactly the span's minutes outside every hole.
   */
  lemma SubtractFromSpan(span: Interval, holes: seq<Interval>)
    requires NonEmpty(span) && AllNonEmpty(holes)
    ensures var r := SubtractMany([span], holes);
      && AllNonEmpty(r)
      && (forall i :: 0 <= i < |r| ==> Within(r[i], span))
      && (forall i, j :: 0 <= i < |r| && 0 <= j < |holes| ==> !Overlaps(r[i], holes[j]))
      && (forall x :: InSome(x, r) <==> In(x, span) && !InSome(x, holes))
  {
    var r := SubtractMany([span], holes);
    assert AllNonEmpty([span]);
    forall x ensures InSome(x, [span]) <==> In(x, span) {
      assert [span][0] == span;
    }
    PiecesWithin(r, span);
  }

  // ---------------------------------------------------------------- slots

  lemma {:induction false} MulAtLeast(k: nat, y: nat)
    requires k >= 1
    ensures k * y >= y
  {
    if k > 1 {
      MulAtLeast(k - 1, y);
      assert k * y == (k - 1) * y + y;
    }
  }

  /** Multiplying by a natural number keeps order; a strictly smaller factor loses at least `y`. */
  lemma MulMono(a: int, b: int, y: nat)
    ensures a <= b ==> a * y <= b * y
    ensures a < b ==> a * y + y <= b * y
  {
    if a < b {
      MulAtLeast(b - a, y);
      assert (b - a) * y == b * y - a * y;
    }
  }

  lemma DivModUnique(x: int, y: int, q: int, r: int)
    requires y > 0 && 0 <= r < y && x == q * y + r
    ensures x / y == q && x % y == r
  {
    var q', r' := x / y, x % y;
    assert x == q' * y + r';
    MulMono(q, q', y);
    MulMono(q', q, y);
  }

  /** `Math.ceil(a / step) * step`: the first multiple of `step` at or after `a`. */
  function AlignUp(a: nat, step: nat): (r: nat)
    requires step > 0
    ensures r % step == 0 && a <= r < a + step
  {
    var q := (a + step - 1) / step;
    DivModUnique(a + step - 1, step, q, (a + step - 1) % step);
    DivModUnique(q * step, step, q, 0);
    q * step
  }

  /** The slots of the slicing loop from `t` on: `[t, t + len)` for `t`, `t + step`, ... while they end by `end`. */
  function SlotsFrom(t: nat, end: nat, len: nat, step: nat): (r: seq<Interval>)
    requires step > 0
    ensures forall i :: 0 <= i < |r| ==> r[i] == Interval(t + i * step, t + i * step + len)
    ensures t + |r| * step + len > end
    ensures r != [] ==> t + (|r| - 1) * step + len <= end
    decreases end + step - t
  {
    if t + len <= end then
      var rest := SlotsFrom(t + step, end, len, step);
      assert forall i :: 0 < i < |rest| + 1 ==> t + step + (i - 1) * step == t + i * step;
      assert t + step + |rest| * step == t + (|rest| + 1) * step;
      [Interval(t, t + len)] + rest
    else []
  }

  function Slots(win: Interval, len: nat, step: nat): seq<Interval>
    requires step > 0
  {
    SlotsFrom(AlignUp(win.startMin, step), win.endMin, len, step)
  }

  /**
   * The slots of a window are exactly the spans of length `len` that start on the `step` grid
   * at or after the window's start and end by its end, in increasing order of start.
   */
  lemma {:induction false} SlotsExactly(win: Interval, len: nat, step: nat)
    requires step > 0
    ensures var r := Slots(win, len, step);
      && (forall i :: 0 <= i < |r| ==>
            r[i].endMin == r[i].startMin + len && r[i].startMin % step == 0
            && win.startMin <= r[i].startMin && r[i].endMin <= win.endMin)
      && (forall i :: 0 <= i < |r| - 1 ==> r[i + 1].startMin == r[i].startMin + step)
      && (forall t: nat :: t % step == 0 && win.startMin <= t && t + len <= win.endMin ==>
            Interval(t, t + len) in r)
  {
    var r := Slots(win, len, step);
    forall i | 0 <= i < |r|
      ensures r[i].startMin % step == 0 && win.startMin <= r[i].startMin && r[i].endMin <= win.endMin
    {
      SlotOnGrid(win, len, step, i);
    }
    forall i | 0 <= i < |r| - 1 ensures r[i + 1].startMin == r[i].startMin + step {
      assert (i + 1) * step == i * step + step;
    }
    forall t: nat | t % step == 0 && win.startMin <= t && t + len <= win.endMin
      ensures Interval(t, t + len) in r
    {
      SlotPresent(win, len, step, t);
    }
  }

  lemma SlotOnGrid(win: Interval, len: nat, step: nat, i: nat)
    requires step > 0 && i < |Slots(win, len, step)|
    ensures var r := Slots(win, len, step);
      r[i].startMin % step == 0 && win.startMin <= r[i].startMin && r[i].endMin <= win.endMin
  {
    var t0 := AlignUp(win.startMin, step);
    var r := Slots(win, len, step);
    assert r[i].startMin == t0 + i * step;
    GridStep(t0, i, step);
    MulMono(i, |r| - 1, step);
  }

  /** Whole steps from a point of the grid land on the grid. */
  lemma GridStep(t0: nat, i: nat, step: nat)
    requires step > 0 && t0 % step == 0
    ensures (t0 + i * step) % step == 0
  {
    var q0 := t0 / step;
    assert t0 == q0 * step;
    assert t0 + i * step == (q0 + i) * step;
    DivModUnique((q0 + i) * step, step, q0 + i, 0);
  }

  lemma SlotPresent(win: Interval, len: nat, step: nat, t: nat)
    requires step > 0 && t % step == 0 && win.startMin <= t && t + len <= win.endMin
    ensures Interval(t, t + len) in Slots(win, len, step)
  {
    var t0 := AlignUp(win.startMin, step);
    var r := Slots(win, len, step);
    GridOffset(win.startMin, t0, t, step);
    var i := (t - t0) / step;
    assert t0 + i * step + len <= win.endMin < t0 + |r| * step + len;
    MulMono(|r|, i, step);
    assert r[i] == Interval(t, t + len);
  }

  /** A multiple of `step` at or after `a` lies a whole number of steps after the first one, `t0`. */
  lemma GridOffset(a: nat, t0: nat, t: nat, step: nat)
    requires step > 0 && t0 % step == 0 && t % step == 0 && a <= t0 < a + step && a <= t
    ensures t0 <= t && t == t0 + ((t - t0) / step) * step
  {
    var q0, qt := t0 / step, t / step;
    DivModUnique(t0, step, q0, 0);
    DivModUnique(t, step, qt, 0);
    MulMono(qt, q0, step);
    assert q0 <= qt;
    MulMono(q0, qt, step);
    assert t - t0 == (qt - q0) * step;
    DivModUnique(t - t0, step, qt - q0, 0);
  }


  /** A window has no slot exactly when the first aligned start leaves no room for one. */
  lemma SlotsEmptyIff(win: Interval, len: nat, step: nat)
    requires step > 0
    ensures Slots(win, len, step) == [] <==> AlignUp(win.startMin, step) + len > win.endMin
  {
  }

  /** `sliceIntoSlots` (and its twin `sliceInto`): the counting loop that pushes the slots. */
  method SliceIntoSlots(win: Interval, slotMinutes: nat, stepMinutes: nat) returns (slots: seq<Interval>)
    requires stepMinutes > 0
    ensures slots == Slots(win, slotMinutes, stepMinutes)
  {
    slots := [];
    var t := AlignUp(win.startMin, stepMinutes);
    while t + slotMinutes <= win.endMin
      invariant slots + SlotsFrom(t, win.endMin, slotMinutes, stepMinutes) == Slots(win, slotMinutes, stepMinutes)
      decreases win.endMin + stepMinutes - t
    {
      slots := slots + [Interval(t, t + slotMinutes)];
      t := t + stepMinutes;
    }
  }

  // ---------------------------------------------------------------- days and overlap

  /** `sameDay`: the day index of the start minute, not reduced modulo 7. */
  function SameDay(iv: Interval): (r: nat)
    ensures r * MinutesInDay <= iv.startMin < (r + 1) * MinutesInDay
  {
    iv.startMin / MinutesInDay
  }

  /** A span starting in the second week gets a day index of 7 or more. */
  lemma SameDayBeyondWeek(iv: Interval)
    requires iv.startMin >= MinutesInWeek
    ensures SameDay(iv) >= 7
  {
  }

  /** `overlaps(xs, c)`: some span of `xs` overlaps `c`. */
  predicate OverlapsAny(xs: seq<Interval>, c: Interval) {
    exists i :: 0 <= i < |xs| && Overlaps(c, xs[i])
  }

  lemma OverlapsSymmetric(a: Interval, b: Interval)
    ensures Overlaps(a, b) <==> Overlaps(b, a)
  {
  }

  lemma TouchingDoesNotOverlap(a: nat, b: nat, c: nat)
    ensures !Overlaps(Interval(a, b), Interval(b, c))
  {
  }
}
