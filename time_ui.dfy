/**
 * The minute-to-text helpers of src/components/utils/time-ui.ts: an absolute minute of the
 * week shown as a day and an "HH:MM" clock text.
 */
module TimeUi {
  import opened Wrappers
  import opened Time
  import opened Types

  datatype DayTime = DayTime(day: Day, time: string)

  /**
   * `minutesToDayTime`: the day of the week the minute falls on (wrapping past Saturday) and
   * the clock text of the minute within its day, which reads back as that hour and minute.
   */
  function MinutesToDayTime(mins: nat): (r: DayTime)
    ensures r.day == (mins / MinutesInDay) % 7
    ensures |r.time| == 5
    ensures var x := mins % MinutesInDay; ParseClock(r.time) == Some(Clock(x / 60, x % 60))
  {
    var x := mins % MinutesInDay;
    FmtHHMMParses(x);
    assert x / 60 < 24;
    DayTime((mins / MinutesInDay) % 7, FmtHHMM(mins % MinutesInDay))
  }

  /**
   * What the plan editor does with the pair: reading the day and the clock text back through
   * `dayTimeToAbs` gives the minute again, for every minute of the week.
   */
  lemma DayTimeRoundTrip(mins: nat)
    requires mins < MinutesInWeek
    ensures var r := MinutesToDayTime(mins);
      ParseClock(r.time).Some? && DayTimeToAbs(r.day, ParseClock(r.time).value) == mins
  {
    var q, x := mins / MinutesInDay, mins % MinutesInDay;
    WeekSplit(mins);
    ClockSplit(x);
    var r := MinutesToDayTime(mins);
    assert r.day == q;
    assert ParseClock(r.time) == Some(Clock(x / 60, x % 60));
    assert HhmmToMins(Clock(x / 60, x % 60)) == x;
  }

  /** A minute of the week is its day times the day's length plus its minute within the day. */
  lemma WeekSplit(mins: nat)
    requires mins < MinutesInWeek
    ensures mins / MinutesInDay < 7 && (mins / MinutesInDay) % 7 == mins / MinutesInDay
    ensures mins == (mins / MinutesInDay) * MinutesInDay + mins % MinutesInDay
  {
  }

  /** A minute of the day is its hour times sixty plus its minute within the hour. */
  lemma ClockSplit(x: nat)
    requires x < MinutesInDay
    ensures (x / 60) * 60 + x % 60 == x
  {
  }

  /** A minute past the end of the week shows as the same day and time one week earlier. */
  lemma MinutesToDayTimeWraps(mins: nat)
    ensures MinutesToDayTime(mins + MinutesInWeek) == MinutesToDayTime(mins)
  {
    WeekShift(mins);
  }

  /** Adding a week adds seven whole days and leaves the minute within the day alone. */
  lemma WeekShift(mins: nat)
    ensures ((mins + MinutesInWeek) / MinutesInDay) % 7 == (mins / MinutesInDay) % 7
    ensures (mins + MinutesInWeek) % MinutesInDay == mins % MinutesInDay
  {
    assert (mins + MinutesInWeek) / MinutesInDay == mins / MinutesInDay + 7;
  }

  /** `dayTimeLabel`: the day's three-letter name, a space, then the clock text. */
  function DayTimeLabel(mins: nat): (r: string)
    ensures |r| == 9 && r[3] == ' '
    ensures r[..3] == DayNames[(mins / MinutesInDay) % 7]
    ensures r[4..] == MinutesToDayTime(mins).time
  {
    var dt := MinutesToDayTime(mins);
    DayNames[dt.day] + " " + dt.time
  }

  /** The day a three-letter name stands for, if any. */
  function DayOfName(name: string): (r: Option<Day>)
    ensures r.Some? ==> DayNames[r.value] == name
  {
    if name == DayNames[0] then Some(0)
    else if name == DayNames[1] then Some(1)
    else if name == DayNames[2] then Some(2)
    else if name == DayNames[3] then Some(3)
    else if name == DayNames[4] then Some(4)
    else if name == DayNames[5] then Some(5)
    else if name == DayNames[6] then Some(6)
    else None
  }

  /** Each day's name stands for that day and no other. */
  lemma DayOfNameInverts(d: Day)
    ensures DayOfName(DayNames[d]) == Some(d)
  {
    assert DayNames[0][0] == 'S' && DayNames[0][1] == 'u';
    assert DayNames[1][0] == 'M';
    assert DayNames[2][0] == 'T' && DayNames[2][1] == 'u';
    assert DayNames[3][0] == 'W';
    assert DayNames[4][0] == 'T' && DayNames[4][1] == 'h';
    assert DayNames[5][0] == 'F';
    assert DayNames[6][0] == 'S' && DayNames[6][1] == 'a';
  }

  /** Reads a label back: a day name, a space and a clock text, as a minute of the week. */
  function ParseDayTimeLabel(s: string): (r: Option<nat>)
    ensures r.Some? ==> r.value < MinutesInWeek
  {
    if |s| < 4 || s[3] != ' ' then None
    else match (DayOfName(s[..3]), ParseClock(s[4..]))
      case (Some(d), Some(t)) => Some(DayTimeToAbs(d, t))
      case _ => None
  }

  /** A label determines its minute of the week: reading it back gives the minute. */
  lemma DayTimeLabelRoundTrip(mins: nat)
    requires mins < MinutesInWeek
    ensures ParseDayTimeLabel(DayTimeLabel(mins)) == Some(mins)
  {
    DayOfNameInverts((mins / MinutesInDay) % 7);
    DayTimeRoundTrip(mins);
  }
}
