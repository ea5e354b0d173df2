/**
 * `optimizeOneOnOnesScarcity` (src/lib/optimize.ts): one-on-ones placed greedily over a
 * chronological list of candidate slots, first in a fairness pass and then in a fill pass,
 * under a week cap and a day cap per employee, a buffer around same-day meetings and a limit on
 * meetings per day.
 */
module ScarcityScheduler {
  import opened Wrappers
  import opened Time
  import opened Types
  import opened Sorting
  import opened Availability

  /** One entry of the slot list: a slot of one employee's availability. */
  datatype Offer = Offer(employeeId: string, slot: Interval)

  /** The numeric parameters: slot length, buffer, meetings per day, and the two per-employee caps. */
  datatype Rules = Rules(slotMinutes: nat, bufferMinutes: nat, maxPerDay: nat, weekCap: nat, dayCap: nat)

  /** `byEmp[eid] ?? []`. */
  function AvailOf(byEmp: map<string, seq<Interval>>, eid: string): seq<Interval> {
    if eid in byEmp then byEmp[eid] else []
  }

  // ---------------------------------------------------------------- the slot list

  /** A slot of length `len` on the 15-minute grid that lies inside one of the spans. */
  predicate SlotIn(slot: Interval, ivs: seq<Interval>, len: nat) {
    && slot.endMin == slot.startMin + len
    && slot.startMin % 15 == 0
    && exists j :: 0 <= j < |ivs| && Within(slot, ivs[j])
  }

  /** `ivs.flatMap(iv => sliceInto(iv, len, 15))`. */
  function SlotsOver(ivs: seq<Interval>, len: nat): seq<Interval> {
    if ivs == [] then []
    else SlotsOver(ivs[..|ivs| - 1], len) + Slots(ivs[|ivs| - 1], len, 15)
  }

  lemma {:induction false} SlotsOverFacts(ivs: seq<Interval>, len: nat)
    ensures forall k :: 0 <= k < |SlotsOver(ivs, len)| ==> SlotIn(SlotsOver(ivs, len)[k], ivs, len)
  {
    if ivs != [] {
      var init, last := ivs[..|ivs| - 1], ivs[|ivs| - 1];
      SlotsOverFacts(init, len);
      SlotsExactly(last, len, 15);
      var head, tail := SlotsOver(init, len), Slots(last, len, 15);
      forall k | 0 <= k < |head| + |tail| ensures SlotIn((head + tail)[k], ivs, len) {
        if k < |head| {
          var j :| 0 <= j < |init| && Within(head[k], init[j]);
          assert ivs[j] == init[j];
        } else {
          assert Within(tail[k - |head|], ivs[|ivs| - 1]);
        }
      }
    }
  }

  function EmployeeOffers(eid: string, slots: seq<Interval>): seq<Offer> {
    seq(|slots|, k requires 0 <= k < |slots| => Offer(eid, slots[k]))
  }

  /** One employee's slots, sorted by start. */
  function EmployeeSlots(byEmp: map<string, seq<Interval>>, eid: string, len: nat): seq<Interval> {
    SortByStart(SlotsOver(AvailOf(byEmp, eid), len))
  }

  /** The slot list before the global sort: employee by employee, each employee's slots by start. */
  function OffersInEmployeeOrder(employees: seq<Employee>, byEmp: map<string, seq<Interval>>, len: nat): seq<Offer> {
    if employees == [] then []
    else
      var e := employees[|employees| - 1];
      OffersInEmployeeOrder(employees[..|employees| - 1], byEmp, len) + EmployeeOffers(e.id, EmployeeSlots(byEmp, e.id, len))
  }

  function OfferKey(o: Offer): int { o.slot.startMin }

  /** `allSlots` after its stable sort by start. */
  function AllOffers(employees: seq<Employee>, byEmp: map<string, seq<Interval>>, len: nat): seq<Offer> {
    SortBy(OffersInEmployeeOrder(employees, byEmp, len), OfferKey)
  }

  /** An offer of an existing employee whose slot lies inside that employee's availability. */
  predicate GoodOffer(o: Offer, employees: seq<Employee>, byEmp: map<string, seq<Interval>>, len: nat) {
    o.employeeId in Ids(employees) && SlotIn(o.slot, AvailOf(byEmp, o.employeeId), len)
  }

  lemma {:induction false} OffersFacts(employees: seq<Employee>, byEmp: map<string, seq<Interval>>, len: nat)
    ensures forall o :: o in OffersInEmployeeOrder(employees, byEmp, len) ==> GoodOffer(o, employees, byEmp, len)
  {
    if employees != [] {
      var init, e := employees[..|employees| - 1], employees[|employees| - 1];
      OffersFacts(init, byEmp, len);
      IdsInit(employees);
      SlotsOverFacts(AvailOf(byEmp, e.id), len);
      var flat := SlotsOver(AvailOf(byEmp, e.id), len);
      var slots := EmployeeSlots(byEmp, e.id, len);
      var head, tail := OffersInEmployeeOrder(init, byEmp, len), EmployeeOffers(e.id, slots);
      forall o | o in head + tail ensures GoodOffer(o, employees, byEmp, len) {
        if o in tail {
          var k :| 0 <= k < |tail| && tail[k] == o;
          assert slots[k] in multiset(flat);
        }
      }
    }
  }

  /**
   * The slot list: every entry is a slot of length `len` on the 15-minute grid inside one of
   * its employee's availability spans; the list is sorted by start, and entries with the same
   * start keep the order in which they were pushed, employee by employee.
   */
  lemma AllOffersFacts(employees: seq<Employee>, byEmp: map<string, seq<Interval>>, len: nat, t: int)
    ensures var r := AllOffers(employees, byEmp, len);
      && SortedBy(r, OfferKey)
      && (forall k :: 0 <= k < |r| ==> GoodOffer(r[k], employees, byEmp, len))
      && WithKey(r, OfferKey, t) == WithKey(OffersInEmployeeOrder(employees, byEmp, len), OfferKey, t)
  {
    var r := AllOffers(employees, byEmp, len);
    OffersFacts(employees, byEmp, len);
    SortByStable(OffersInEmployeeOrder(employees, byEmp, len), OfferKey, t);
    forall k | 0 <= k < |r| ensures GoodOffer(r[k], employees, byEmp, len) {
      assert r[k] in multiset(r);
    }
  }

  /** The `flatMap` of `sliceInto` over one employee's spans. */
  method SliceAll(ivs: seq<Interval>, slotMinutes: nat) returns (flat: seq<Interval>)
    ensures flat == SlotsOver(ivs, slotMinutes)
  {
    flat := [];
    for j := 0 to |ivs|
      invariant flat == SlotsOver(ivs[..j], slotMinutes)
    {
      var s := SliceIntoSlots(ivs[j], slotMinutes, 15);
      assert ivs[..j + 1][..j] == ivs[..j] && ivs[..j + 1][j] == ivs[j];
      flat := flat + s;
    }
    assert ivs[..|ivs|] == ivs;
  }

  /** The inner `for (const slot of slots) allSlots.push(...)`. */
  method PushOffers(allSlots: seq<Offer>, eid: string, slots: seq<Interval>) returns (out: seq<Offer>)
    ensures out == allSlots + EmployeeOffers(eid, slots)
  {
    out := allSlots;
    for j := 0 to |slots|
      invariant out == allSlots + EmployeeOffers(eid, slots[..j])
    {
      assert EmployeeOffers(eid, slots[..j + 1]) == EmployeeOffers(eid, slots[..j]) + [Offer(eid, slots[j])];
      out := out + [Offer(eid, slots[j])];
    }
    assert slots[..|slots|] == slots;
  }

  /** `allSlots` built employee by employee, then sorted. */
  method CollectOffers(employees: seq<Employee>, byEmp: map<string, seq<Interval>>, slotMinutes: nat)
    returns (allSlots: seq<Offer>)
    ensures allSlots == AllOffers(employees, byEmp, slotMinutes)
  {
    allSlots := [];
    for k := 0 to |employees|
      invariant allSlots == OffersInEmployeeOrder(employees[..k], byEmp, slotMinutes)
    {
      var emp := employees[k];
      var ivs := if emp.id in byEmp then byEmp[emp.id] else [];
      var flat := SliceAll(ivs, slotMinutes);
      var slots := SortByStart(flat);
      assert slots == EmployeeSlots(byEmp, emp.id, slotMinutes);
      assert employees[..k + 1][..k] == employees[..k] && employees[..k + 1][k] == emp;
      allSlots := PushOffers(allSlots, emp.id, slots);
    }
    assert employees[..|employees|] == employees;
    allSlots := SortBy(allSlots, OfferKey);
  }

  // ---------------------------------------------------------------- counts

  function Owner(m: Meeting): Option<string> {
    if m.OneOnOne? then Some(m.employeeId) else None
  }

  function OwnerDay(m: Meeting): Option<(string, nat)> {
    if m.OneOnOne? then Some((m.employeeId, SameDay(Span(m)))) else None
  }

  function StartDay(m: Meeting): nat { SameDay(Span(m)) }

  /** The number of one-on-ones of employee `eid`. */
  function WeekCount(ms: seq<Meeting>, eid: string): nat {
    CountKey(ms, Owner, Some(eid))
  }

  /** The number of one-on-ones of employee `eid` starting on day index `d`. */
  function DayCount(ms: seq<Meeting>, eid: string, d: nat): nat {
    CountKey(ms, OwnerDay, Some((eid, d)))
  }

  lemma {:induction false} CountOnDayByKey(ms: seq<Meeting>, d: nat)
    ensures CountOnDay(ms, d) == CountKey(ms, StartDay, d)
  {
    if ms != [] {
      CountOnDayByKey(ms[..|ms| - 1], d);
    }
  }

  // ---------------------------------------------------------------- the two passes

  /** The meeting the scheduler creates for an accepted slot. */
  function Booking(o: Offer, id: string): Meeting {
    OneOnOne(id, "1:1", o.slot.startMin, o.slot.endMin, o.employeeId)
  }

  /** The tests both passes apply, in the order the source applies them. */
  predicate Eligible(r: Rules, existing: seq<Meeting>, placed: seq<Meeting>, o: Offer) {
    && WeekCount(placed, o.employeeId) < r.weekCap
    && DayCount(placed, o.employeeId, SameDay(o.slot)) < r.dayCap
    && RespectsBuffer(existing + placed, o.slot, r.bufferMinutes)
    && CountDayMeetings(existing + placed, o.slot) < r.maxPerDay
  }

  /** The fairness test: the employee has no more one-on-ones than any employee. */
  predicate AtMinimum(placed: seq<Meeting>, employees: seq<Employee>, eid: string) {
    forall i :: 0 <= i < |employees| ==> WeekCount(placed, eid) <= WeekCount(placed, employees[i].id)
  }

  /** Some placed one-on-one already has exactly this start and end. */
  predicate SlotTaken(placed: seq<Meeting>, slot: Interval) {
    exists i :: 0 <= i < |placed| && placed[i].startMin == slot.startMin && placed[i].endMin == slot.endMin
  }

  /** One turn of the first pass: book `o` when it passes the common tests and its employee is at the minimum. */
  function FairStep(r: Rules, employees: seq<Employee>, existing: seq<Meeting>, placed: seq<Meeting>, o: Offer, ids: nat -> string, n0: nat): seq<Meeting> {
    if Eligible(r, existing, placed, o) && AtMinimum(placed, employees, o.employeeId)
    then placed + [Booking(o, ids(n0 + |placed|))]
    else placed
  }

  /** The first pass over `offers`; the `k`-th meeting created gets id `ids(n0 + k)`. */
  function FairPass(r: Rules, employees: seq<Employee>, existing: seq<Meeting>, offers: seq<Offer>, ids: nat -> string, n0: nat): seq<Meeting> {
    if offers == [] then []
    else FairStep(r, employees, existing, FairPass(r, employees, existing, offers[..|offers| - 1], ids, n0), offers[|offers| - 1], ids, n0)
  }

  /** One turn of the second pass: book `o` when it passes the common tests and its slot is still free. */
  function FillStep(r: Rules, existing: seq<Meeting>, placed: seq<Meeting>, o: Offer, ids: nat -> string, n0: nat): seq<Meeting> {
    if Eligible(r, existing, placed, o) && !SlotTaken(placed, o.slot)
    then placed + [Booking(o, ids(n0 + |placed|))]
    else placed
  }

  /** The second pass over `offers`, continuing from the first pass's meetings `first`. */
  function FillPass(r: Rules, existing: seq<Meeting>, first: seq<Meeting>, offers: seq<Offer>, ids: nat -> string, n0: nat): seq<Meeting> {
    if offers == [] then first
    else FillStep(r, existing, FillPass(r, existing, first, offers[..|offers| - 1], ids, n0), offers[|offers| - 1], ids, n0)
  }

  lemma FairPassNext(r: Rules, employees: seq<Employee>, existing: seq<Meeting>, offers: seq<Offer>, ids: nat -> string, n0: nat, i: nat)
    requires i < |offers|
    ensures FairPass(r, employees, existing, offers[..i + 1], ids, n0)
      == FairStep(r, employees, existing, FairPass(r, employees, existing, offers[..i], ids, n0), offers[i], ids, n0)
  {
    assert offers[..i + 1][..i] == offers[..i] && offers[..i + 1][i] == offers[i];
  }

  lemma FillPassNext(r: Rules, existing: seq<Meeting>, first: seq<Meeting>, offers: seq<Offer>, ids: nat -> string, n0: nat, i: nat)
    requires i < |offers|
    ensures FillPass(r, existing, first, offers[..i + 1], ids, n0)
      == FillStep(r, existing, FillPass(r, existing, first, offers[..i], ids, n0), offers[i], ids, n0)
  {
    assert offers[..i + 1][..i] == offers[..i] && offers[..i + 1][i] == offers[i];
  }


  /** `optimizeOneOnOnesScarcity`: both passes over the sorted slot list, the result sorted by start. */
  function Schedule(r: Rules, employees: seq<Employee>, wins: seq<Interval>, existing: seq<Meeting>, ids: nat -> string, n0: nat): (out: seq<Meeting>)
    ensures SortedBy(out, StartKey)
  {
    var byEmp := ByEmployee(employees, wins);
    var offers := AllOffers(employees, byEmp, r.slotMinutes);
    var first := FairPass(r, employees, existing, offers, ids, n0);
    SortBy(FillPass(r, existing, first, offers, ids, n0), StartKey)
  }

  // ---------------------------------------------------------------- what every placement keeps

  /** A one-on-one made from a good offer. */
  predicate Booked(m: Meeting, employees: seq<Employee>, byEmp: map<string, seq<Interval>>, len: nat) {
    m.OneOnOne? && m.title == "1:1" && GoodOffer(Offer(m.employeeId, Span(m)), employees, byEmp, len)
  }

  /** Every meeting from position `n` on is `buffer` apart from each earlier meeting of its day index. */
  predicate BufferedFrom(busy: seq<Meeting>, n: nat, buffer: nat) {
    forall i, j :: 0 <= i < j < |busy| && j >= n && StartDay(busy[i]) == StartDay(busy[j]) ==>
      Apart(Span(busy[i]), Span(busy[j]), buffer)
  }

  ghost predicate Sound(r: Rules, employees: seq<Employee>, byEmp: map<string, seq<Interval>>, existing: seq<Meeting>, placed: seq<Meeting>, ids: nat -> string, n0: nat) {
    && AllBooked(placed, employees, byEmp, r.slotMinutes, ids, n0)
    && WithinWeekCap(placed, r.weekCap)
    && WithinDayCap(placed, r.dayCap)
    && BufferedFrom(existing + placed, |existing|, r.bufferMinutes)
    && WithinLoad(existing, existing + placed, r.maxPerDay)
  }

  /** Every placement is a booking of an available slot, with the next id of the stream. */
  predicate AllBooked(placed: seq<Meeting>, employees: seq<Employee>, byEmp: map<string, seq<Interval>>, len: nat, ids: nat -> string, n0: nat) {
    forall i :: 0 <= i < |placed| ==> Booked(placed[i], employees, byEmp, len) && placed[i].id == ids(n0 + i)
  }

  /** No employee has more than `cap` one-on-ones in the week. */
  ghost predicate WithinWeekCap(placed: seq<Meeting>, cap: nat) {
    forall eid :: WeekCount(placed, eid) <= cap
  }

  /** No employee has more than `cap` one-on-ones on one day. */
  ghost predicate WithinDayCap(placed: seq<Meeting>, cap: nat) {
    forall eid, d: nat :: DayCount(placed, eid, d) <= cap
  }

  /** No day holds more meetings than `maxPerDay`, or than it already held before the placements. */
  ghost predicate WithinLoad(existing: seq<Meeting>, busy: seq<Meeting>, maxPerDay: nat) {
    forall d: nat :: CountOnDay(busy, d) <= Max(maxPerDay, CountOnDay(existing, d))
  }

  lemma SoundStart(r: Rules, employees: seq<Employee>, byEmp: map<string, seq<Interval>>, existing: seq<Meeting>, ids: nat -> string, n0: nat)
    ensures Sound(r, employees, byEmp, existing, [], ids, n0)
  {
    assert existing + [] == existing;
  }

  lemma BufferStep(busy: seq<Meeting>, n: nat, m: Meeting, buffer: nat)
    requires n <= |busy| && BufferedFrom(busy, n, buffer) && RespectsBuffer(busy, Span(m), buffer)
    ensures BufferedFrom(busy + [m], n, buffer)
  {
    var b := busy + [m];
    forall i, j | 0 <= i < j < |b| && j >= n && StartDay(b[i]) == StartDay(b[j])
      ensures Apart(Span(b[i]), Span(b[j]), buffer)
    {
      assert b[i] == busy[i];
      if j < |busy| {
        assert b[j] == busy[j];
      } else {
        assert Apart(Span(m), Span(busy[i]), buffer);
      }
    }
  }

  lemma WeekStep(placed: seq<Meeting>, m: Meeting, cap: nat)
    requires m.OneOnOne? && WeekCount(placed, m.employeeId) < cap
    requires WithinWeekCap(placed, cap)
    ensures WithinWeekCap(placed + [m], cap)
  {
    forall eid ensures WeekCount(placed + [m], eid) <= cap {
      assert WeekCount(placed, eid) <= cap;
      CountKeySnoc(placed, m, Owner, Some(eid));
    }
  }

  lemma DayStep(placed: seq<Meeting>, m: Meeting, cap: nat)
    requires m.OneOnOne? && DayCount(placed, m.employeeId, StartDay(m)) < cap
    requires WithinDayCap(placed, cap)
    ensures WithinDayCap(placed + [m], cap)
  {
    forall eid, d: nat ensures DayCount(placed + [m], eid, d) <= cap {
      assert DayCount(placed, eid, d) <= cap;
      CountKeySnoc(placed, m, OwnerDay, Some((eid, d)));
    }
  }

  lemma LoadStep(existing: seq<Meeting>, busy: seq<Meeting>, m: Meeting, maxPerDay: nat)
    requires CountOnDay(busy, StartDay(m)) < maxPerDay
    requires WithinLoad(existing, busy, maxPerDay)
    ensures WithinLoad(existing, busy + [m], maxPerDay)
  {
    forall d: nat ensures CountOnDay(busy + [m], d) <= Max(maxPerDay, CountOnDay(existing, d)) {
      assert CountOnDay(busy, d) <= Max(maxPerDay, CountOnDay(existing, d));
      CountOnDayConcat(busy, [m], d);
      CountOnDaySingle(m, d);
    }
  }

  lemma BookedStep(employees: seq<Employee>, byEmp: map<string, seq<Interval>>, placed: seq<Meeting>, o: Offer, r: Rules, ids: nat -> string, n0: nat)
    requires AllBooked(placed, employees, byEmp, r.slotMinutes, ids, n0)
    requires GoodOffer(o, employees, byEmp, r.slotMinutes)
    ensures AllBooked(placed + [Booking(o, ids(n0 + |placed|))], employees, byEmp, r.slotMinutes, ids, n0)
  {
    var m := Booking(o, ids(n0 + |placed|));
    assert Offer(m.employeeId, Span(m)) == o;
  }

  lemma BookStep(r: Rules, employees: seq<Employee>, byEmp: map<string, seq<Interval>>, existing: seq<Meeting>, placed: seq<Meeting>, o: Offer, ids: nat -> string, n0: nat)
    requires Sound(r, employees, byEmp, existing, placed, ids, n0)
    requires GoodOffer(o, employees, byEmp, r.slotMinutes) && Eligible(r, existing, placed, o)
    ensures Sound(r, employees, byEmp, existing, placed + [Booking(o, ids(n0 + |placed|))], ids, n0)
  {
    var m := Booking(o, ids(n0 + |placed|));
    var placed' := placed + [m];
    BookedStep(employees, byEmp, placed, o, r, ids, n0);
    assert Span(m) == o.slot;
    WeekStep(placed, m, r.weekCap);
    DayStep(placed, m, r.dayCap);
    var busy := existing + placed;
    assert existing + placed' == busy + [m];
    BufferStep(busy, |existing|, m, r.bufferMinutes);
    LoadStep(existing, busy, m, r.maxPerDay);
  }

  /** No employee has more than one one-on-one more than any other employee. */
  predicate Balanced(placed: seq<Meeting>, employees: seq<Employee>) {
    forall i, j :: 0 <= i < |employees| && 0 <= j < |employees| ==>
      WeekCount(placed, employees[i].id) <= WeekCount(placed, employees[j].id) + 1
  }

  lemma BalancedStep(placed: seq<Meeting>, employees: seq<Employee>, m: Meeting)
    requires m.OneOnOne? && Balanced(placed, employees) && AtMinimum(placed, employees, m.employeeId)
    ensures Balanced(placed + [m], employees)
  {
    assert Owner(m) == Some(m.employeeId);
    forall eid ensures WeekCount(placed + [m], eid) == WeekCount(placed, eid) + (if eid == m.employeeId then 1 else 0) {
      CountKeySnoc(placed, m, Owner, Some(eid));
    }
  }

  /**
   * The fairness pass: every meeting it places respects the caps, the buffer and the daily
   * limit, and since it only places an employee whose count is the minimum, the counts of any
   * two employees differ by at most one afterwards.
   */
  lemma {:induction false} FairPassFacts(r: Rules, employees: seq<Employee>, byEmp: map<string, seq<Interval>>, existing: seq<Meeting>, offers: seq<Offer>, ids: nat -> string, n0: nat)
    requires forall k :: 0 <= k < |offers| ==> GoodOffer(offers[k], employees, byEmp, r.slotMinutes)
    ensures var p := FairPass(r, employees, existing, offers, ids, n0);
      Sound(r, employees, byEmp, existing, p, ids, n0) && Balanced(p, employees)
  {
    if offers == [] {
      SoundStart(r, employees, byEmp, existing, ids, n0);
    } else {
      var init := offers[..|offers| - 1];
      FairPassFacts(r, employees, byEmp, existing, init, ids, n0);
      FairOne(r, employees, byEmp, existing, FairPass(r, employees, existing, init, ids, n0), offers[|offers| - 1], ids, n0);
    }
  }

  /** One turn of the first pass keeps the placements sound and balanced. */
  lemma FairOne(r: Rules, employees: seq<Employee>, byEmp: map<string, seq<Interval>>, existing: seq<Meeting>, placed: seq<Meeting>, o: Offer, ids: nat -> string, n0: nat)
    requires GoodOffer(o, employees, byEmp, r.slotMinutes)
    requires Sound(r, employees, byEmp, existing, placed, ids, n0) && Balanced(placed, employees)
    ensures var p := FairStep(r, employees, existing, placed, o, ids, n0);
      Sound(r, employees, byEmp, existing, p, ids, n0) && Balanced(p, employees)
  {
    if Eligible(r, existing, placed, o) && AtMinimum(placed, employees, o.employeeId) {
      BookStep(r, employees, byEmp, existing, placed, o, ids, n0);
      BalancedStep(placed, employees, Booking(o, ids(n0 + |placed|)));
    }
  }

  /** From position `n` on, no two meetings have the same start and end. */
  predicate FreshSlotsFrom(placed: seq<Meeting>, n: nat) {
    forall i, j :: 0 <= i < j < |placed| && j >= n ==> Span(placed[i]) != Span(placed[j])
  }

  /**
   * The fill pass keeps the fairness pass's meetings as a prefix, keeps every placement within
   * the caps, the buffer and the daily limit, and never reuses a start and end already placed.
   */
  lemma {:induction false} FillPassFacts(r: Rules, employees: seq<Employee>, byEmp: map<string, seq<Interval>>, existing: seq<Meeting>, first: seq<Meeting>, offers: seq<Offer>, ids: nat -> string, n0: nat)
    requires forall k :: 0 <= k < |offers| ==> GoodOffer(offers[k], employees, byEmp, r.slotMinutes)
    requires Sound(r, employees, byEmp, existing, first, ids, n0)
    ensures var p := FillPass(r, existing, first, offers, ids, n0);
      Sound(r, employees, byEmp, existing, p, ids, n0) && first <= p && FreshSlotsFrom(p, |first|)
  {
    if offers != [] {
      var init := offers[..|offers| - 1];
      FillPassFacts(r, employees, byEmp, existing, first, init, ids, n0);
      FillOne(r, employees, byEmp, existing, first, FillPass(r, existing, first, init, ids, n0), offers[|offers| - 1], ids, n0);
    }
  }

  /** One turn of the second pass keeps the placements sound, extends them, and books only free slots. */
  lemma FillOne(r: Rules, employees: seq<Employee>, byEmp: map<string, seq<Interval>>, existing: seq<Meeting>, first: seq<Meeting>, placed: seq<Meeting>, o: Offer, ids: nat -> string, n0: nat)
    requires GoodOffer(o, employees, byEmp, r.slotMinutes)
    requires Sound(r, employees, byEmp, existing, placed, ids, n0) && first <= placed && FreshSlotsFrom(placed, |first|)
    ensures var p := FillStep(r, existing, placed, o, ids, n0);
      Sound(r, employees, byEmp, existing, p, ids, n0) && first <= p && FreshSlotsFrom(p, |first|)
  {
    if Eligible(r, existing, placed, o) && !SlotTaken(placed, o.slot) {
      BookStep(r, employees, byEmp, existing, placed, o, ids, n0);
      var p := placed + [Booking(o, ids(n0 + |placed|))];
      forall i | 0 <= i < |placed| ensures Span(p[i]) != Span(p[|placed|]) {
        assert p[i] == placed[i];
      }
    }
  }




  /** Both passes together: everything `Sound` promises plus the fairness of the first pass. */
  lemma PassesFacts(r: Rules, employees: seq<Employee>, wins: seq<Interval>, existing: seq<Meeting>, ids: nat -> string, n0: nat)
    ensures var byEmp := ByEmployee(employees, wins);
      var offers := AllOffers(employees, byEmp, r.slotMinutes);
      var first := FairPass(r, employees, existing, offers, ids, n0);
      Sound(r, employees, byEmp, existing, FillPass(r, existing, first, offers, ids, n0), ids, n0)
  {
    var byEmp := ByEmployee(employees, wins);
    var offers := AllOffers(employees, byEmp, r.slotMinutes);
    AllOffersFacts(employees, byEmp, r.slotMinutes, 0);
    var first := FairPass(r, employees, existing, offers, ids, n0);
    FairPassFacts(r, employees, byEmp, existing, offers, ids, n0);
    FillPassFacts(r, employees, byEmp, existing, first, offers, ids, n0);
  }

  /** The final sort changes no membership and no per-employee count. */
  lemma SortedPlacementFacts(employees: seq<Employee>, byEmp: map<string, seq<Interval>>, p: seq<Meeting>, r: Rules)
    requires forall i :: 0 <= i < |p| ==> Booked(p[i], employees, byEmp, r.slotMinutes)
    requires forall eid :: WeekCount(p, eid) <= r.weekCap
    requires forall eid, d: nat :: DayCount(p, eid, d) <= r.dayCap
    ensures var out := SortBy(p, StartKey);
      && SortedBy(out, StartKey)
      && (forall m :: m in out ==> Booked(m, employees, byEmp, r.slotMinutes))
      && (forall eid :: WeekCount(out, eid) <= r.weekCap)
      && (forall eid, d: nat :: DayCount(out, eid, d) <= r.dayCap)
  {
    var out := SortBy(p, StartKey);
    forall m | m in out ensures Booked(m, employees, byEmp, r.slotMinutes) {
      assert m in multiset(p);
    }
    forall eid ensures WeekCount(out, eid) <= r.weekCap {
      assert WeekCount(p, eid) <= r.weekCap;
      CountKeyPerm(out, p, Owner, Some(eid));
    }
    forall eid, d: nat ensures DayCount(out, eid, d) <= r.dayCap {
      assert DayCount(p, eid, d) <= r.dayCap;
      CountKeyPerm(out, p, OwnerDay, Some((eid, d)));
    }
  }

  /** The final sort changes no per-day load. */
  lemma SortedLoadFacts(existing: seq<Meeting>, p: seq<Meeting>, maxPerDay: nat)
    requires forall d: nat :: CountOnDay(existing + p, d) <= Max(maxPerDay, CountOnDay(existing, d))
    ensures forall d: nat :: CountOnDay(existing + SortBy(p, StartKey), d) <= Max(maxPerDay, CountOnDay(existing, d))
  {
    var out := SortBy(p, StartKey);
    assert multiset(existing + out) == multiset(existing + p);
    forall d: nat ensures CountOnDay(existing + out, d) == CountOnDay(existing + p, d) {
      CountOnDayByKey(existing + out, d);
      CountOnDayByKey(existing + p, d);
      CountKeyPerm(existing + out, existing + p, StartDay, d);
    }
  }

  /** The buffer between placed meetings, and to existing ones, survives the final sort. */
  lemma SortedBufferFacts(existing: seq<Meeting>, p: seq<Meeting>, buffer: nat)
    requires BufferedFrom(existing + p, |existing|, buffer)
    ensures var out := SortBy(p, StartKey);
      && (forall m1, m2 :: m1 in out && m2 in out && m1 != m2 && StartDay(m1) == StartDay(m2) ==>
            Apart(Span(m1), Span(m2), buffer))
      && (forall m, b :: m in out && b in existing && StartDay(m) == StartDay(b) ==>
            Apart(Span(b), Span(m), buffer))
  {
    var out := SortBy(p, StartKey);
    forall m1, m2 | m1 in out && m2 in out && m1 != m2 && StartDay(m1) == StartDay(m2)
      ensures Apart(Span(m1), Span(m2), buffer)
    {
      SortByMembers(p, StartKey, m1);
      SortByMembers(p, StartKey, m2);
      var i :| 0 <= i < |p| && p[i] == m1;
      var j :| 0 <= j < |p| && p[j] == m2;
      BufferedPlaced(existing, p, buffer, i, j);
    }
    forall m, b | m in out && b in existing && StartDay(m) == StartDay(b)
      ensures Apart(Span(b), Span(m), buffer)
    {
      SortByMembers(p, StartKey, m);
      var i :| 0 <= i < |p| && p[i] == m;
      var k :| 0 <= k < |existing| && existing[k] == b;
      BufferedExisting(existing, p, buffer, k, i);
    }
  }

  /** Two different placed meetings starting on the same day are apart. */
  lemma BufferedPlaced(existing: seq<Meeting>, p: seq<Meeting>, buffer: nat, i: nat, j: nat)
    requires BufferedFrom(existing + p, |existing|, buffer)
    requires i < |p| && j < |p| && i != j && StartDay(p[i]) == StartDay(p[j])
    ensures Apart(Span(p[i]), Span(p[j]), buffer)
  {
    var busy, n := existing + p, |existing|;
    assert busy[n + i] == p[i] && busy[n + j] == p[j];
  }

  /** A placed meeting and an existing one starting on the same day are apart. */
  lemma BufferedExisting(existing: seq<Meeting>, p: seq<Meeting>, buffer: nat, k: nat, i: nat)
    requires BufferedFrom(existing + p, |existing|, buffer)
    requires k < |existing| && i < |p| && StartDay(existing[k]) == StartDay(p[i])
    ensures Apart(Span(existing[k]), Span(p[i]), buffer)
  {
    var busy, n := existing + p, |existing|;
    assert busy[k] == existing[k] && busy[n + i] == p[i];
  }

  /**
   * The returned one-on-ones: sorted by start; each is a "1:1" in a slot of the slot length on
   * the 15-minute grid inside its employee's availability; no employee exceeds the week cap or,
   * on any day index, the day cap; any two of them, and any one of them and an existing
   * meeting, that start on the same day index are `bufferMinutes` apart; and no day index gets
   * more meetings than `maxPerDay` unless the existing meetings already exceed it.
   */
  lemma ScheduleFacts(r: Rules, employees: seq<Employee>, wins: seq<Interval>, existing: seq<Meeting>, ids: nat -> string, n0: nat)
    ensures var out, byEmp := Schedule(r, employees, wins, existing, ids, n0), ByEmployee(employees, wins);
      && SortedBy(out, StartKey)
      && (forall m :: m in out ==> Booked(m, employees, byEmp, r.slotMinutes))
      && (forall eid :: WeekCount(out, eid) <= r.weekCap)
      && (forall eid, d: nat :: DayCount(out, eid, d) <= r.dayCap)
      && (forall m1, m2 :: m1 in out && m2 in out && m1 != m2 && StartDay(m1) == StartDay(m2) ==>
            Apart(Span(m1), Span(m2), r.bufferMinutes))
      && (forall m, b :: m in out && b in existing && StartDay(m) == StartDay(b) ==>
            Apart(Span(b), Span(m), r.bufferMinutes))
      && (forall d: nat :: CountOnDay(existing + out, d) <= Max(r.maxPerDay, CountOnDay(existing, d)))
  {
    var byEmp := ByEmployee(employees, wins);
    var offers := AllOffers(employees, byEmp, r.slotMinutes);
    var first := FairPass(r, employees, existing, offers, ids, n0);
    var p := FillPass(r, existing, first, offers, ids, n0);
    PassesFacts(r, employees, wins, existing, ids, n0);
    SortedPlacementFacts(employees, byEmp, p, r);
    SortedLoadFacts(existing, p, r.maxPerDay);
    SortedBufferFacts(existing, p, r.bufferMinutes);
  }

  // ---------------------------------------------------------------- the method

  /** `weekCount.get(eid) ?? 0`. */
  function WeekGet(week: map<string, nat>, eid: string): nat {
    if eid in week then week[eid] else 0
  }

  /** `dayCount.get(eid)?.get(d) ?? 0`. */
  function DayGet(day: map<string, map<nat, nat>>, eid: string, d: nat): nat {
    if eid in day && d in day[eid] then day[eid][d] else 0
  }

  /** The `inc` helper on the week map. */
  function Bump(week: map<string, nat>, eid: string): map<string, nat> {
    week[eid := WeekGet(week, eid) + 1]
  }

  /** The `inc` helper on the day map. */
  function BumpDay(day: map<string, map<nat, nat>>, eid: string, d: nat): map<string, map<nat, nat>> {
    var inner: map<nat, nat> := if eid in day then day[eid] else map[];
    day[eid := inner[d := DayGet(day, eid, d) + 1]]
  }

  /** The two count maps agree with the meetings placed so far. */
  ghost predicate Tallied(week: map<string, nat>, day: map<string, map<nat, nat>>, placed: seq<Meeting>, employees: seq<Employee>) {
    && week.Keys == Ids(employees)
    && (forall eid :: eid in week ==> week[eid] == WeekCount(placed, eid))
    && (forall eid, d: nat :: DayGet(day, eid, d) == DayCount(placed, eid, d))
  }

  lemma TallyStep(week: map<string, nat>, day: map<string, map<nat, nat>>, placed: seq<Meeting>, employees: seq<Employee>, m: Meeting)
    requires Tallied(week, day, placed, employees) && m.OneOnOne? && m.employeeId in Ids(employees)
    ensures Tallied(Bump(week, m.employeeId), BumpDay(day, m.employeeId, StartDay(m)), placed + [m], employees)
  {
    assert Owner(m) == Some(m.employeeId) && OwnerDay(m) == Some((m.employeeId, StartDay(m)));
    forall eid ensures WeekCount(placed + [m], eid) == WeekCount(placed, eid) + (if eid == m.employeeId then 1 else 0) {
      CountKeySnoc(placed, m, Owner, Some(eid));
    }
    forall eid, d: nat ensures DayCount(placed + [m], eid, d) == DayCount(placed, eid, d) + (if (eid, d) == (m.employeeId, StartDay(m)) then 1 else 0) {
      CountKeySnoc(placed, m, OwnerDay, Some((eid, d)));
    }
  }

  /** The initial `forEach`: every employee's week count at zero and an empty day map. */
  method InitCounts(employees: seq<Employee>) returns (week: map<string, nat>, day: map<string, map<nat, nat>>)
    ensures Tallied(week, day, [], employees)
  {
    week := map[];
    day := map[];
    var empty: map<nat, nat> := map[];
    for k := 0 to |employees|
      invariant week.Keys == Ids(employees[..k]) && forall eid :: eid in week ==> week[eid] == 0
      invariant forall eid :: eid in day ==> day[eid] == map[]
    {
      IdsInit(employees[..k + 1]);
      assert employees[..k + 1][..k] == employees[..k] && employees[..k + 1][k] == employees[k];
      week := week[employees[k].id := 0];
      day := day[employees[k].id := empty];
    }
    assert employees[..|employees|] == employees;
  }

  /** `Math.min(...weekCount.values())`, with `None` for the empty map (where JavaScript gives Infinity). */
  method MinOfCounts(week: map<string, nat>) returns (least: Option<nat>)
    ensures least.None? <==> week.Keys == {}
    ensures least.Some? ==> (exists eid :: eid in week && week[eid] == least.value)
    ensures least.Some? ==> forall eid :: eid in week ==> least.value <= week[eid]
  {
    least := None;
    var rest := week.Keys;
    while rest != {}
      invariant rest <= week.Keys
      invariant least.None? <==> rest == week.Keys
      invariant least.Some? ==> (exists eid :: eid in week && week[eid] == least.value)
      invariant least.Some? ==> forall eid :: eid in week && eid !in rest ==> least.value <= week[eid]
      decreases |rest|
    {
      var eid :| eid in rest;
      if least.None? || week[eid] < least.value {
        least := Some(week[eid]);
      }
      rest := rest - {eid};
    }
  }

  /** Skipping when the count exceeds the minimum of the map is the fairness test. */
  lemma MinimumTest(week: map<string, nat>, day: map<string, map<nat, nat>>, placed: seq<Meeting>, employees: seq<Employee>, eid: string, least: Option<nat>)
    requires Tallied(week, day, placed, employees)
    requires least.None? <==> week.Keys == {}
    requires least.Some? ==> (exists k :: k in week && week[k] == least.value)
    requires least.Some? ==> forall k :: k in week ==> least.value <= week[k]
    ensures (least.Some? && WeekCount(placed, eid) > least.value) <==> !AtMinimum(placed, employees, eid)
  {
    assert |employees| > 0 ==> employees[0].id in Ids(employees);
    if least.Some? {
      var k :| k in week && week[k] == least.value;
      assert k in Ids(employees);
      forall j | 0 <= j < |employees| ensures least.value <= WeekCount(placed, employees[j].id) {
        assert employees[j].id in Ids(employees);
      }
    }
  }

  /** The tests both loops apply first, in the source's order: caps, buffer, daily limit. */
  method CommonTests(r: Rules, employees: seq<Employee>, existing: seq<Meeting>, busy: seq<Meeting>, placed: seq<Meeting>,
                     week: map<string, nat>, day: map<string, map<nat, nat>>, o: Offer)
    returns (pass: bool)
    requires busy == existing + placed && Tallied(week, day, placed, employees) && o.employeeId in Ids(employees)
    ensures pass == Eligible(r, existing, placed, o)
  {
    var employeeId, slot := o.employeeId, o.slot;
    var currentCount := WeekGet(week, employeeId);
    assert currentCount == WeekCount(placed, employeeId);
    if currentCount >= r.weekCap { return false; }
    var d := SameDay(slot);
    assert DayGet(day, employeeId, d) == DayCount(placed, employeeId, d);
    if DayGet(day, employeeId, d) >= r.dayCap { return false; }
    if !RespectsBuffer(busy, slot, r.bufferMinutes) { return false; }
    if CountDayMeetings(busy, slot) >= r.maxPerDay { return false; }
    return true;
  }

  /** The fairness test of the first loop: skip when the count exceeds the minimum over the map. */
  method FairnessTest(employees: seq<Employee>, placed: seq<Meeting>, week: map<string, nat>, day: map<string, map<nat, nat>>, eid: string)
    returns (pass: bool)
    requires Tallied(week, day, placed, employees) && eid in Ids(employees)
    ensures pass == AtMinimum(placed, employees, eid)
  {
    var currentCount := WeekGet(week, eid);
    var minCount := MinOfCounts(week);
    MinimumTest(week, day, placed, employees, eid, minCount);
    pass := !(minCount.Some? && currentCount > minCount.value);
  }

  /** One iteration of the first loop over `allSlots`: the tests in the source's order, then the booking. */
  method FairIteration(r: Rules, employees: seq<Employee>, existing: seq<Meeting>, offers: seq<Offer>, ids: nat -> string, n0: nat, i: nat,
                       placed: seq<Meeting>, busy: seq<Meeting>, week: map<string, nat>, day: map<string, map<nat, nat>>)
    returns (placed': seq<Meeting>, busy': seq<Meeting>, week': map<string, nat>, day': map<string, map<nat, nat>>)
    requires i < |offers| && offers[i].employeeId in Ids(employees)
    requires placed == FairPass(r, employees, existing, offers[..i], ids, n0)
    requires busy == existing + placed && Tallied(week, day, placed, employees)
    ensures placed' == FairPass(r, employees, existing, offers[..i + 1], ids, n0)
    ensures busy' == existing + placed' && Tallied(week', day', placed', employees)
  {
    placed', busy', week', day' := placed, busy, week, day;
    var o := offers[i];
    FairPassNext(r, employees, existing, offers, ids, n0, i);
    ghost var next := FairStep(r, employees, existing, placed, o, ids, n0);
    var eligible := CommonTests(r, employees, existing, busy, placed, week, day, o);
    if !eligible {
      assert next == placed;
      return;
    }
    var fair := FairnessTest(employees, placed, week, day, o.employeeId);
    if !fair {
      assert next == placed;
      return;
    }
    var mtg := OneOnOne(ids(n0 + |placed|), "1:1", o.slot.startMin, o.slot.endMin, o.employeeId);
    assert mtg == Booking(o, ids(n0 + |placed|)) && Span(mtg) == o.slot;
    assert next == placed + [mtg];
    TallyStep(week, day, placed, employees, mtg);
    ConcatAssoc(existing, placed, [mtg]);
    placed', busy' := placed + [mtg], busy + [mtg];
    week', day' := Bump(week, o.employeeId), BumpDay(day, o.employeeId, SameDay(o.slot));
  }

  /** The first loop over `allSlots`. */
  method RunFairPass(r: Rules, employees: seq<Employee>, existing: seq<Meeting>, offers: seq<Offer>, ids: nat -> string, n0: nat,
                     week0: map<string, nat>, day0: map<string, map<nat, nat>>)
    returns (placed: seq<Meeting>, busy: seq<Meeting>, week: map<string, nat>, day: map<string, map<nat, nat>>)
    requires Tallied(week0, day0, [], employees)
    requires forall k :: 0 <= k < |offers| ==> offers[k].employeeId in Ids(employees)
    ensures placed == FairPass(r, employees, existing, offers, ids, n0)
    ensures busy == existing + placed && Tallied(week, day, placed, employees)
  {
    placed, busy, week, day := [], existing, week0, day0;
    assert existing + [] == existing;
    assert offers[..0] == [];
    for i := 0 to |offers|
      invariant placed == FairPass(r, employees, existing, offers[..i], ids, n0)
      invariant busy == existing + placed && Tallied(week, day, placed, employees)
    {
      placed, busy, week, day := FairIteration(r, employees, existing, offers, ids, n0, i, placed, busy, week, day);
    }
    assert offers[..|offers|] == offers;
  }

  /** One iteration of the second loop over `allSlots`. */
  method FillIteration(r: Rules, employees: seq<Employee>, existing: seq<Meeting>, first: seq<Meeting>, offers: seq<Offer>, ids: nat -> string, n0: nat, i: nat,
                       placed: seq<Meeting>, busy: seq<Meeting>, week: map<string, nat>, day: map<string, map<nat, nat>>)
    returns (placed': seq<Meeting>, busy': seq<Meeting>, week': map<string, nat>, day': map<string, map<nat, nat>>)
    requires i < |offers| && offers[i].employeeId in Ids(employees)
    requires placed == FillPass(r, existing, first, offers[..i], ids, n0)
    requires busy == existing + placed && Tallied(week, day, placed, employees)
    ensures placed' == FillPass(r, existing, first, offers[..i + 1], ids, n0)
    ensures busy' == existing + placed' && Tallied(week', day', placed', employees)
  {
    placed', busy', week', day' := placed, busy, week, day;
    var o := offers[i];
    FillPassNext(r, existing, first, offers, ids, n0, i);
    ghost var next := FillStep(r, existing, placed, o, ids, n0);
    var eligible := CommonTests(r, employees, existing, busy, placed, week, day, o);
    if !eligible {
      assert next == placed;
      return;
    }
    var slotUsed := SlotTaken(placed, o.slot);
    if slotUsed {
      assert next == placed;
      return;
    }
    var mtg := OneOnOne(ids(n0 + |placed|), "1:1", o.slot.startMin, o.slot.endMin, o.employeeId);
    assert mtg == Booking(o, ids(n0 + |placed|)) && Span(mtg) == o.slot;
    assert next == placed + [mtg];
    TallyStep(week, day, placed, employees, mtg);
    ConcatAssoc(existing, placed, [mtg]);
    placed', busy' := placed + [mtg], busy + [mtg];
    week', day' := Bump(week, o.employeeId), BumpDay(day, o.employeeId, SameDay(o.slot));
  }

  /** The second loop over `allSlots`, continuing from the first loop's bookings and counts. */
  method RunFillPass(r: Rules, employees: seq<Employee>, existing: seq<Meeting>, offers: seq<Offer>, ids: nat -> string, n0: nat,
                     first: seq<Meeting>, week0: map<string, nat>, day0: map<string, map<nat, nat>>)
    returns (placed: seq<Meeting>)
    requires Tallied(week0, day0, first, employees)
    requires forall k :: 0 <= k < |offers| ==> offers[k].employeeId in Ids(employees)
    ensures placed == FillPass(r, existing, first, offers, ids, n0)
  {
    placed := first;
    var busy, week, day := existing + first, week0, day0;
    assert offers[..0] == [];
    for i := 0 to |offers|
      invariant placed == FillPass(r, existing, first, offers[..i], ids, n0)
      invariant busy == existing + placed && Tallied(week, day, placed, employees)
    {
      placed, busy, week, day := FillIteration(r, employees, existing, first, offers, ids, n0, i, placed, busy, week, day);
    }
    assert offers[..|offers|] == offers;
  }

  /**
   * `optimizeOneOnOnesScarcity`; the `k`-th one-on-one created gets id `ids(n0 + k)` (the
   * source draws random ids).
   */
  method OptimizeOneOnOnesScarcity(employees: seq<Employee>, managerWindowsAbs: seq<Interval>, slotMinutes: nat,
                                   bufferMinutes: nat, maxPerDay: nat, existingBusy: seq<Meeting>,
                                   perEmployeeWeekCap: nat, perEmployeeDayCap: nat, ids: nat -> string, n0: nat)
    returns (out: seq<Meeting>)
    ensures out == Schedule(Rules(slotMinutes, bufferMinutes, maxPerDay, perEmployeeWeekCap, perEmployeeDayCap),
                            employees, managerWindowsAbs, existingBusy, ids, n0)
  {
    var r := Rules(slotMinutes, bufferMinutes, maxPerDay, perEmployeeWeekCap, perEmployeeDayCap);
    var byEmp := AvailabilityByEmployee(employees, managerWindowsAbs);
    var week, day := InitCounts(employees);
    var allSlots := CollectOffers(employees, byEmp, slotMinutes);
    AllOffersFacts(employees, byEmp, slotMinutes, 0);
    var first, busy, week1, day1 := RunFairPass(r, employees, existingBusy, allSlots, ids, n0, week, day);
    var placed := RunFillPass(r, employees, existingBusy, allSlots, ids, n0, first, week1, day1);
    out := SortBy(placed, StartKey);
  }
}
