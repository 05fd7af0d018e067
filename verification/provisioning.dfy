/** Slot provisioning (index.ts, generateTimeSlotsForCourt): expands the
    weekly schedule of a court's club into fixed-length slots over a range of
    days, inserting each slot only if its deterministic id is absent. */
module Provisioning {
  import opened Maybe
  import opened Docs
  import opened Clock
  import opened Entities

  /** One day of the horizon: the instant of its local midnight and its host
      weekday (both come from the host clock and time zone). */
  datatype Day = Day(midnight: nat, weekday: JsDay)

  /** What provisioning reads from the store for a court: its club's weekly
      schedule and the game duration in minutes. */
  datatype Setup = Setup(schedule: map<string, DaySchedule>, duration: nat)

  /** The setup of a court, absent when the court is missing, has no club
      id, its club is missing, or the club has no schedule. */
  function SetupOf(st: Store, courtId: Id): (r: Option<Setup>)
    ensures r.Some? <==>
              && courtId in st.courts.docs
              && st.courts.docs[courtId].clubId.Some?
              && st.courts.docs[courtId].clubId.value != ""
              && st.courts.docs[courtId].clubId.value in st.clubs.docs
              && st.clubs.docs[st.courts.docs[courtId].clubId.value].schedule.Some?
    ensures r.Some? ==> r.value.duration > 0
    ensures r.Some? ==>
              var court := st.courts.docs[courtId];
              r.value == Setup(st.clubs.docs[court.clubId.value].schedule.value, GameDuration(court))
  {
    match st.courts.Get(courtId)
    case None => None
    case Some(court) =>
      if court.clubId.None? || court.clubId.value == "" then None
      else match st.clubs.Get(court.clubId.value)
        case None => None
        case Some(club) =>
          if club.schedule.None? then None
          else Some(Setup(club.schedule.value, GameDuration(court)))
  }

  /** A time field counts as given when it is a non-empty string. */
  predicate Given(s: Option<string>) {
    s.Some? && s.value != ""
  }

  /** A schedule entry that opens the day: not closed, with a start and an
      end that both read as times. */
  predicate OpensDay(e: DaySchedule) {
    !e.closed && Given(e.start) && Given(e.end) &&
    ParseClock(e.start.value).Some? && ParseClock(e.end.value).Some?
  }

  /** The opening and closing minutes of the day, absent when the day is
      skipped: no entry for its weekday name, marked closed, a missing
      start or end, or a time that does not read as a number. Present,
      with the two times read, exactly when the entry opens the day. */
  function DayHours(schedule: map<string, DaySchedule>, weekday: JsDay): (r: Option<(nat, nat)>)
    ensures r.Some? <==> WeekdayName(weekday) in schedule && OpensDay(schedule[WeekdayName(weekday)])
    ensures WeekdayName(weekday) !in schedule ==> r.None?
    ensures WeekdayName(weekday) in schedule && schedule[WeekdayName(weekday)].closed ==> r.None?
    ensures (WeekdayName(weekday) in schedule &&
               (!Given(schedule[WeekdayName(weekday)].start) || !Given(schedule[WeekdayName(weekday)].end)))
            ==> r.None?
    ensures r.Some? ==>
              var e := schedule[WeekdayName(weekday)];
              ParseClock(e.start.value) == Some(r.value.0) && ParseClock(e.end.value) == Some(r.value.1)
  {
    var name := WeekdayName(weekday);
    if name !in schedule || schedule[name].closed then None
    else
      var e := schedule[name];
      if !Given(e.start) || !Given(e.end) then None
      else match (ParseClock(e.start.value), ParseClock(e.end.value))
        case (Some(open), Some(close)) => Some((open, close))
        case _ => None
  }

  /** An open day whose times both read gives exactly those hours, spelled
      out field by field. */
  lemma DayHoursOfOpenDay(schedule: map<string, DaySchedule>, weekday: JsDay)
    requires WeekdayName(weekday) in schedule
    requires !schedule[WeekdayName(weekday)].closed
    requires Given(schedule[WeekdayName(weekday)].start) && Given(schedule[WeekdayName(weekday)].end)
    requires ParseClock(schedule[WeekdayName(weekday)].start.value).Some?
    requires ParseClock(schedule[WeekdayName(weekday)].end.value).Some?
    ensures DayHours(schedule, weekday) ==
              Some((ParseClock(schedule[WeekdayName(weekday)].start.value).value,
                    ParseClock(schedule[WeekdayName(weekday)].end.value).value))
  {
  }

  /** Instants of the given minute offsets from `midnight`. */
  function Instants(midnight: nat, offsets: seq<nat>): (r: seq<nat>)
    ensures |r| == |offsets|
    ensures forall i :: 0 <= i < |r| ==> r[i] == midnight + offsets[i] * MinuteMs
  {
    if offsets == [] then [] else [midnight + offsets[0] * MinuteMs] + Instants(midnight, offsets[1..])
  }

  /** The start instants of the inner loop of one day, from minute `t` on:
      a slot at `t` while `t + duration <= close`, then the next minute
      `t + duration`. */
  function DayRun(midnight: nat, t: nat, close: nat, duration: nat): (r: seq<nat>)
    requires duration > 0
    ensures r == [] <==> t + duration > close
    ensures r != [] ==> r[0] == midnight + t * MinuteMs
    decreases close - t
  {
    if t + duration <= close then [midnight + t * MinuteMs] + DayRun(midnight, t + duration, close, duration)
    else []
  }

  /** The loop's starts are the instants of the slot offsets of the opening
      period: `open`, `open + duration`, ... minutes after midnight. */
  lemma {:induction false} DayRunIsInstants(midnight: nat, t: nat, close: nat, duration: nat)
    requires duration > 0
    ensures DayRun(midnight, t, close, duration) == Instants(midnight, SlotOffsets(t, close, duration))
    decreases close - t
  {
    if t + duration <= close {
      DayRunIsInstants(midnight, t + duration, close, duration);
      var rest := SlotOffsets(t + duration, close, duration);
      assert SlotOffsets(t, close, duration) == [t] + rest;
      assert ([t] + rest)[1..] == rest;
    }
  }

  /** Slot start instants of one day. */
  function DayStarts(setup: Setup, day: Day): seq<nat>
    requires setup.duration > 0
  {
    match DayHours(setup.schedule, day.weekday)
    case None => []
    case Some((open, close)) => DayRun(day.midnight, open, close, setup.duration)
  }

  /** Slot start instants of the whole horizon, day by day. */
  function PlannedStarts(setup: Setup, days: seq<Day>): seq<nat>
    requires setup.duration > 0
  {
    if days == [] then [] else DayStarts(setup, days[0]) + PlannedStarts(setup, days[1..])
  }

  /** A day's starts are the instants of the slot offsets of its opening
      hours, and there are none on a skipped day. */
  lemma DayStartsAreOffsets(setup: Setup, day: Day)
    requires setup.duration > 0
    ensures DayHours(setup.schedule, day.weekday).None? ==> DayStarts(setup, day) == []
    ensures DayHours(setup.schedule, day.weekday).Some? ==>
              var (open, close) := DayHours(setup.schedule, day.weekday).value;
              DayStarts(setup, day) == Instants(day.midnight, SlotOffsets(open, close, setup.duration))
  {
    match DayHours(setup.schedule, day.weekday)
    case None =>
    case Some((open, close)) =>
      DayRunIsInstants(day.midnight, open, close, setup.duration);
  }

  /** The horizon's starts are exactly the starts of its days. */
  lemma {:induction false} PlannedStartsAreDayStarts(setup: Setup, days: seq<Day>, x: nat)
    requires setup.duration > 0
    ensures x in PlannedStarts(setup, days) <==>
              exists di :: 0 <= di < |days| && x in DayStarts(setup, days[di])
  {
    if days != [] {
      PlannedStartsAreDayStarts(setup, days[1..], x);
      if x in PlannedStarts(setup, days) {
        if x !in DayStarts(setup, days[0]) {
          var di :| 0 <= di < |days[1..]| && x in DayStarts(setup, days[1..][di]);
          assert days[1..][di] == days[di + 1];
        }
      }
      if exists di :: 0 <= di < |days| && x in DayStarts(setup, days[di]) {
        var di :| 0 <= di < |days| && x in DayStarts(setup, days[di]);
        if di > 0 {
          assert days[1..][di - 1] == days[di];
        }
      }
    }
  }

  /** A Monday open from "08:00" to "12:00" is open from minute 480 to
      minute 720. */
  lemma MondayHours(schedule: map<string, DaySchedule>)
    requires "Monday" in schedule && schedule["Monday"] == DaySchedule(false, Some("08:00"), Some("12:00"))
    ensures DayHours(schedule, 1) == Some((480, 720))
  {
    assert WeekdayName(1) == "Monday";
    ParseClockEight();
    ParseClockNoon();
    DayHoursOfOpenDay(schedule, 1);
  }

  /** A Monday open from "08:00" to "12:00" with one-hour games has slots
      starting at 08:00, 09:00, 10:00 and 11:00. */
  lemma MondayMorningExample(setup: Setup, midnight: nat)
    requires setup.duration == 60
    requires "Monday" in setup.schedule
    requires setup.schedule["Monday"] == DaySchedule(false, Some("08:00"), Some("12:00"))
    ensures DayStarts(setup, Day(midnight, 1))
            == [midnight + 480 * MinuteMs, midnight + 540 * MinuteMs,
                midnight + 600 * MinuteMs, midnight + 660 * MinuteMs]
  {
    MondayHours(setup.schedule);
    DayStartsAreOffsets(setup, Day(midnight, 1));
    MorningExample();
    assert SlotOffsets(480, 720, 60) == [480, 540, 600, 660];
    MorningInstants(midnight);
  }

  /** The instants of the four morning offsets after `midnight`. */
  lemma MorningInstants(midnight: nat)
    ensures Instants(midnight, [480, 540, 600, 660])
            == [midnight + 480 * MinuteMs, midnight + 540 * MinuteMs,
                midnight + 600 * MinuteMs, midnight + 660 * MinuteMs]
  {
    var r := Instants(midnight, [480, 540, 600, 660]);
    assert |r| == 4;
    assert r[0] == midnight + 480 * MinuteMs && r[1] == midnight + 540 * MinuteMs;
    assert r[2] == midnight + 600 * MinuteMs && r[3] == midnight + 660 * MinuteMs;
  }

  function NewSlot(courtId: Id, start: nat, duration: nat): TimeSlot {
    TimeSlot(courtId, start, start + duration * MinuteMs, true, 0, DefaultPrice)
  }

  /** The ids of the slots of `courtId` starting at `starts`. */
  function KeysOf(courtId: Id, starts: seq<nat>): (r: set<Id>)
    ensures forall s :: s in starts ==> SlotKey(courtId, s) in r
  {
    if starts == [] then {} else {SlotKey(courtId, starts[0])} + KeysOf(courtId, starts[1..])
  }

  /** `s`, stored under `k`, is a slot provisioning would create for
      `courtId`: available, default price, no buddies, spanning exactly one
      game, under the id derived from its court and start. */
  predicate IsNewSlot(courtId: Id, duration: nat, k: Id, s: TimeSlot) {
    s.start >= 0 && s == NewSlot(courtId, s.start, duration) && k == SlotKey(courtId, s.start)
  }

  /** Inserts the slot of every start whose id is absent, in order; returns
      the new collection and the number of slots inserted. */
  function InsertSlots(slots: Coll<TimeSlot>, courtId: Id, starts: seq<nat>, duration: nat)
    : (Coll<TimeSlot>, nat)
    decreases |starts|
  {
    if starts == [] then (slots, 0)
    else
      var k := SlotKey(courtId, starts[0]);
      var step := if k in slots.docs then (slots, 0)
                  else (Put(slots, k, NewSlot(courtId, starts[0], duration)), 1);
      var rest := InsertSlots(step.0, courtId, starts[1..], duration);
      (rest.0, step.1 + rest.1)
  }

  /** Every planned id ends up present and nothing else is added. */
  lemma {:induction false} InsertSlotsKeys(slots: Coll<TimeSlot>, courtId: Id, starts: seq<nat>, duration: nat)
    ensures InsertSlots(slots, courtId, starts, duration).0.docs.Keys == slots.docs.Keys + KeysOf(courtId, starts)
    decreases |starts|
  {
    if starts != [] {
      var k := SlotKey(courtId, starts[0]);
      var step := if k in slots.docs then slots else Put(slots, k, NewSlot(courtId, starts[0], duration));
      assert step.docs.Keys == slots.docs.Keys + {k};
      InsertSlotsKeys(step, courtId, starts[1..], duration);
    }
  }

  /** No slot already present is touched. */
  lemma {:induction false} InsertSlotsKeepsPresent(slots: Coll<TimeSlot>, courtId: Id, starts: seq<nat>, duration: nat)
    ensures forall k :: k in slots.docs ==> k in InsertSlots(slots, courtId, starts, duration).0.docs
    ensures forall k :: k in slots.docs ==> InsertSlots(slots, courtId, starts, duration).0.docs[k] == slots.docs[k]
    decreases |starts|
  {
    if starts != [] {
      var k := SlotKey(courtId, starts[0]);
      var step := if k in slots.docs then slots else Put(slots, k, NewSlot(courtId, starts[0], duration));
      InsertSlotsKeepsPresent(step, courtId, starts[1..], duration);
    }
  }

  /** The count is the number of documents added. */
  lemma {:induction false} InsertSlotsCount(slots: Coll<TimeSlot>, courtId: Id, starts: seq<nat>, duration: nat)
    ensures var r := InsertSlots(slots, courtId, starts, duration);
            |r.0.docs| == |slots.docs| + r.1
    decreases |starts|
  {
    if starts != [] {
      var k := SlotKey(courtId, starts[0]);
      var step := if k in slots.docs then slots else Put(slots, k, NewSlot(courtId, starts[0], duration));
      assert |step.docs| == |slots.docs| + (if k in slots.docs then 0 else 1);
      InsertSlotsCount(step, courtId, starts[1..], duration);
    }
  }

  /** Every slot added is a fresh slot of the court for one of the starts. */
  lemma {:induction false} InsertSlotsNew(slots: Coll<TimeSlot>, courtId: Id, starts: seq<nat>, duration: nat)
    decreases |starts|
    ensures var r := InsertSlots(slots, courtId, starts, duration);
            forall k :: k in r.0.docs && k !in slots.docs ==>
              IsNewSlot(courtId, duration, k, r.0.docs[k]) && r.0.docs[k].start in starts
  {
    if starts != [] {
      var k := SlotKey(courtId, starts[0]);
      var step := if k in slots.docs then slots else Put(slots, k, NewSlot(courtId, starts[0], duration));
      InsertSlotsNew(step, courtId, starts[1..], duration);
      InsertSlotsKeepsPresent(step, courtId, starts[1..], duration);
      assert starts[0] in starts;
      assert forall s :: s in starts[1..] ==> s in starts;
    }
  }

  /** Insertion keeps the enumeration a listing of the stored slots. */
  lemma {:induction false} InsertSlotsWf(slots: Coll<TimeSlot>, courtId: Id, starts: seq<nat>, duration: nat)
    ensures slots.Wf() ==> InsertSlots(slots, courtId, starts, duration).0.Wf()
    decreases |starts|
  {
    if starts != [] {
      var k := SlotKey(courtId, starts[0]);
      var step := if k in slots.docs then slots else Put(slots, k, NewSlot(courtId, starts[0], duration));
      InsertSlotsWf(step, courtId, starts[1..], duration);
    }
  }

  /** Inserting `a + b` is inserting `a`, then `b`. */
  lemma {:induction false} InsertSlotsAppend(slots: Coll<TimeSlot>, courtId: Id, a: seq<nat>, b: seq<nat>, duration: nat)
    ensures var first := InsertSlots(slots, courtId, a, duration);
            var second := InsertSlots(first.0, courtId, b, duration);
            InsertSlots(slots, courtId, a + b, duration) == (second.0, first.1 + second.1)
    decreases |a|
  {
    if a == [] {
      assert a + b == b;
    } else {
      var k := SlotKey(courtId, a[0]);
      var step := if k in slots.docs then slots else Put(slots, k, NewSlot(courtId, a[0], duration));
      assert (a + b)[1..] == a[1..] + b;
      assert (a + b)[0] == a[0];
      InsertSlotsAppend(step, courtId, a[1..], b, duration);
    }
  }

  /** Inserting slots whose ids are all present already changes nothing. */
  lemma {:induction false} InsertPresentIsNoOp(slots: Coll<TimeSlot>, courtId: Id, starts: seq<nat>, duration: nat)
    requires KeysOf(courtId, starts) <= slots.docs.Keys
    ensures InsertSlots(slots, courtId, starts, duration) == (slots, 0)
    decreases |starts|
  {
    if starts != [] {
      assert SlotKey(courtId, starts[0]) in KeysOf(courtId, starts);
      assert KeysOf(courtId, starts[1..]) <= KeysOf(courtId, starts);
      InsertPresentIsNoOp(slots, courtId, starts[1..], duration);
    }
  }

  /** The whole run on the store: absent setup means no write and a count of
      0; otherwise only the slot collection changes. */
  function Provision(st: Store, courtId: Id, days: seq<Day>): (r: (Store, nat))
    ensures SetupOf(st, courtId).None? ==> r == (st, 0)
    ensures r.0 == st.(slots := r.0.slots)
  {
    match SetupOf(st, courtId)
    case None => (st, 0)
    case Some(setup) =>
      var ins := InsertSlots(st.slots, courtId, PlannedStarts(setup, days), setup.duration);
      (st.(slots := ins.0), ins.1)
  }

  /** What a run does to the slots: no id disappears and no slot already
      present is overwritten, the count is the number of slots added, every
      added slot is a fresh slot of the court, and the store stays well
      formed. */
  lemma ProvisionFrame(st: Store, courtId: Id, days: seq<Day>)
    ensures var r := Provision(st, courtId, days);
            && r.0.slots.docs.Keys >= st.slots.docs.Keys
            && (forall k :: k in st.slots.docs ==> r.0.slots.docs[k] == st.slots.docs[k])
            && |r.0.slots.docs| == |st.slots.docs| + r.1
            && (forall k :: k in r.0.slots.docs && k !in st.slots.docs ==>
                  IsNewSlot(courtId, SetupOf(st, courtId).value.duration, k, r.0.slots.docs[k]))
            && (st.Wf() ==> r.0.Wf())
  {
    match SetupOf(st, courtId)
    case None =>
    case Some(setup) =>
      var planned := PlannedStarts(setup, days);
      InsertSlotsKeys(st.slots, courtId, planned, setup.duration);
      InsertSlotsKeepsPresent(st.slots, courtId, planned, setup.duration);
      InsertSlotsCount(st.slots, courtId, planned, setup.duration);
      InsertSlotsNew(st.slots, courtId, planned, setup.duration);
      InsertSlotsWf(st.slots, courtId, planned, setup.duration);
  }

  /** Provisioning is idempotent: a second run over the same days finds
      every id present, creates nothing and leaves the store as the first
      run left it. */
  lemma ProvisionIdempotent(st: Store, courtId: Id, days: seq<Day>)
    ensures var once := Provision(st, courtId, days);
            Provision(once.0, courtId, days) == (once.0, 0)
  {
    match SetupOf(st, courtId)
    case None =>
    case Some(setup) =>
      var planned := PlannedStarts(setup, days);
      InsertSlotsKeys(st.slots, courtId, planned, setup.duration);
      var ins := InsertSlots(st.slots, courtId, planned, setup.duration);
      var once := st.(slots := ins.0);
      assert Provision(st, courtId, days) == (once, ins.1);
      assert SetupOf(once, courtId) == Some(setup);
      InsertPresentIsNoOp(ins.0, courtId, planned, setup.duration);
  }

  /** The ids a run for `courtId` plans over `days`; none when the court
      has no setup. */
  function PlannedKeys(st: Store, courtId: Id, days: seq<Day>): set<Id> {
    match SetupOf(st, courtId)
    case None => {}
    case Some(setup) => KeysOf(courtId, PlannedStarts(setup, days))
  }

  /** Only the slots change, so a court's setup, and the ids planned for
      it, are the same before and after any run. */
  lemma SetupIgnoresSlots(st: Store, slots: Coll<TimeSlot>, courtId: Id, days: seq<Day>)
    ensures SetupOf(st.(slots := slots), courtId) == SetupOf(st, courtId)
    ensures PlannedKeys(st.(slots := slots), courtId, days) == PlannedKeys(st, courtId, days)
  {
  }

  /** After a run every planned id is present. */
  lemma ProvisionCovers(st: Store, courtId: Id, days: seq<Day>)
    ensures PlannedKeys(st, courtId, days) <= Provision(st, courtId, days).0.slots.docs.Keys
  {
    match SetupOf(st, courtId)
    case None =>
    case Some(setup) =>
      InsertSlotsKeys(st.slots, courtId, PlannedStarts(setup, days), setup.duration);
  }

  /** Every slot the club's schedule calls for is present after a run:
      each start of each day of the horizon (by `DayStartsAreOffsets`, the
      day's slot offsets after its midnight) has its slot id in the store. */
  lemma ProvisionCreatesScheduledSlots(st: Store, courtId: Id, days: seq<Day>, setup: Setup,
                                       di: nat, x: nat)
    requires SetupOf(st, courtId) == Some(setup)
    requires di < |days| && x in DayStarts(setup, days[di])
    ensures SlotKey(courtId, x) in Provision(st, courtId, days).0.slots.docs
  {
    PlannedStartsAreDayStarts(setup, days, x);
    assert x in PlannedStarts(setup, days);
    PlannedStartIsCovered(st, courtId, days, setup, x);
  }

  /** End to end: a court whose club opens Mondays from "08:00" to "12:00"
      with one-hour games has its 08:00 and 11:00 slots after a run over
      a Monday. */
  lemma MondayMorningSlots(st: Store, courtId: Id, midnight: nat)
    requires courtId in st.courts.docs && GameDuration(st.courts.docs[courtId]) == 60
    requires st.courts.docs[courtId].clubId.Some? && st.courts.docs[courtId].clubId.value != ""
    requires st.courts.docs[courtId].clubId.value in st.clubs.docs
    requires var schedule := st.clubs.docs[st.courts.docs[courtId].clubId.value].schedule;
             && schedule.Some? && "Monday" in schedule.value
             && schedule.value["Monday"] == DaySchedule(false, Some("08:00"), Some("12:00"))
    ensures var after := Provision(st, courtId, [Day(midnight, 1)]).0.slots.docs;
            SlotKey(courtId, midnight + 480 * MinuteMs) in after &&
            SlotKey(courtId, midnight + 660 * MinuteMs) in after
  {
    var setup := SetupOf(st, courtId).value;
    var day := Day(midnight, 1);
    MondayMorningExample(setup, midnight);
    var starts := DayStarts(setup, day);
    assert starts[0] == midnight + 480 * MinuteMs && starts[3] == midnight + 660 * MinuteMs;
    ProvisionCreatesScheduledSlots(st, courtId, [day], setup, 0, starts[0]);
    ProvisionCreatesScheduledSlots(st, courtId, [day], setup, 0, starts[3]);
  }

  /** Every planned start's slot id is present after a run. */
  lemma PlannedStartIsCovered(st: Store, courtId: Id, days: seq<Day>, setup: Setup, x: nat)
    requires SetupOf(st, courtId) == Some(setup)
    requires x in PlannedStarts(setup, days)
    ensures SlotKey(courtId, x) in Provision(st, courtId, days).0.slots.docs
  {
    assert SlotKey(courtId, x) in KeysOf(courtId, PlannedStarts(setup, days));
    assert PlannedKeys(st, courtId, days) == KeysOf(courtId, PlannedStarts(setup, days));
    ProvisionCovers(st, courtId, days);
  }

  /** A run whose planned ids are all present already changes nothing. */
  lemma ProvisionCoveredIsNoOp(st: Store, courtId: Id, days: seq<Day>)
    requires PlannedKeys(st, courtId, days) <= st.slots.docs.Keys
    ensures Provision(st, courtId, days) == (st, 0)
  {
    match SetupOf(st, courtId)
    case None =>
    case Some(setup) =>
      InsertPresentIsNoOp(st.slots, courtId, PlannedStarts(setup, days), setup.duration);
  }

  /** The daily sweep (generateDailyTimeSlots): a run for every court in
      `courtIds`, one after the other over the same days, summing the
      counts. Only the slot collection changes. */
  function ProvisionAll(st: Store, courtIds: seq<Id>, days: seq<Day>): (r: (Store, nat))
    ensures r.0 == st.(slots := r.0.slots)
    decreases |courtIds|
  {
    if courtIds == [] then (st, 0)
    else
      var one := Provision(st, courtIds[0], days);
      var rest := ProvisionAll(one.0, courtIds[1..], days);
      (rest.0, one.1 + rest.1)
  }

  /** What the sweep does to the slots: no id disappears, no slot already
      present is overwritten, the total is the number of slots added, and
      the store stays well formed. */
  lemma {:induction false} ProvisionAllFrame(st: Store, courtIds: seq<Id>, days: seq<Day>)
    ensures var r := ProvisionAll(st, courtIds, days);
            && r.0.slots.docs.Keys >= st.slots.docs.Keys
            && (forall k :: k in st.slots.docs ==> r.0.slots.docs[k] == st.slots.docs[k])
            && |r.0.slots.docs| == |st.slots.docs| + r.1
            && (st.Wf() ==> r.0.Wf())
    decreases |courtIds|
  {
    if courtIds != [] {
      var one := Provision(st, courtIds[0], days);
      ProvisionFrame(st, courtIds[0], days);
      ProvisionAllFrame(one.0, courtIds[1..], days);
    }
  }

  /** After the sweep every id planned for every swept court is present. */
  lemma {:induction false} ProvisionAllCovers(st: Store, courtIds: seq<Id>, days: seq<Day>)
    ensures forall c :: c in courtIds ==> PlannedKeys(st, c, days) <= ProvisionAll(st, courtIds, days).0.slots.docs.Keys
    decreases |courtIds|
  {
    if courtIds != [] {
      var one := Provision(st, courtIds[0], days);
      ProvisionCovers(st, courtIds[0], days);
      ProvisionAllCovers(one.0, courtIds[1..], days);
      ProvisionAllFrame(one.0, courtIds[1..], days);
      forall c | c in courtIds
        ensures PlannedKeys(st, c, days) <= ProvisionAll(st, courtIds, days).0.slots.docs.Keys
      {
        SetupIgnoresSlots(st, one.0.slots, c, days);
        if c != courtIds[0] {
          assert c in courtIds[1..];
        }
      }
    }
  }

  /** A sweep whose planned ids are all present already changes nothing. */
  lemma {:induction false} ProvisionAllCoveredIsNoOp(st: Store, courtIds: seq<Id>, days: seq<Day>)
    requires forall c :: c in courtIds ==> PlannedKeys(st, c, days) <= st.slots.docs.Keys
    ensures ProvisionAll(st, courtIds, days) == (st, 0)
    decreases |courtIds|
  {
    if courtIds != [] {
      ProvisionCoveredIsNoOp(st, courtIds[0], days);
      assert forall c :: c in courtIds[1..] ==> c in courtIds;
      ProvisionAllCoveredIsNoOp(st, courtIds[1..], days);
    }
  }

  /** The daily sweep is idempotent: a second sweep over the same courts
      and days creates nothing. */
  lemma ProvisionAllIdempotent(st: Store, courtIds: seq<Id>, days: seq<Day>)
    ensures var once := ProvisionAll(st, courtIds, days);
            ProvisionAll(once.0, courtIds, days) == (once.0, 0)
  {
    var once := ProvisionAll(st, courtIds, days);
    ProvisionAllCovers(st, courtIds, days);
    forall c | c in courtIds ensures PlannedKeys(once.0, c, days) <= once.0.slots.docs.Keys {
      SetupIgnoresSlots(st, once.0.slots, c, days);
    }
    ProvisionAllCoveredIsNoOp(once.0, courtIds, days);
  }

  /** One step of the insertion: the first start, then the rest. */
  lemma InsertSlotsStep(slots: Coll<TimeSlot>, courtId: Id, start: nat, starts: seq<nat>, duration: nat)
    ensures var k := SlotKey(courtId, start);
            var step := if k in slots.docs then (slots, 0) else (Put(slots, k, NewSlot(courtId, start, duration)), 1);
            var rest := InsertSlots(step.0, courtId, starts, duration);
            InsertSlots(slots, courtId, [start] + starts, duration) == (rest.0, step.1 + rest.1)
  {
    assert ([start] + starts)[0] == start;
    assert ([start] + starts)[1..] == starts;
  }

  /** The inner loop of the source for one day: `t` runs from the opening
      minute while `t + duration <= close`, and the slot at `t` is inserted
      only if its id is absent. */
  method ProvisionDay(slots0: Coll<TimeSlot>, courtId: Id, midnight: nat, open: nat, close: nat, duration: nat)
    returns (slots: Coll<TimeSlot>, created: nat)
    requires duration > 0
    ensures (slots, created) == InsertSlots(slots0, courtId, DayRun(midnight, open, close, duration), duration)
  {
    ghost var goal := InsertSlots(slots0, courtId, DayRun(midnight, open, close, duration), duration);
    slots := slots0;
    created := 0;
    var t := open;
    while t + duration <= close
      invariant InsertSlots(slots, courtId, DayRun(midnight, t, close, duration), duration).0 == goal.0
      invariant created + InsertSlots(slots, courtId, DayRun(midnight, t, close, duration), duration).1 == goal.1
      decreases close - t
    {
      var start := midnight + t * MinuteMs;
      InsertSlotsStep(slots, courtId, start, DayRun(midnight, t + duration, close, duration), duration);
      var key := SlotKey(courtId, start);
      if key !in slots.docs {
        slots := Put(slots, key, NewSlot(courtId, start, duration));
        created := created + 1;
      }
      t := t + duration;
    }
    assert DayRun(midnight, t, close, duration) == [];
  }

  /** The planned starts from day `di` on: that day's, then the rest. */
  lemma PlannedStartsStep(setup: Setup, days: seq<Day>, di: nat)
    requires setup.duration > 0 && di < |days|
    ensures PlannedStarts(setup, days[di..]) == DayStarts(setup, days[di]) + PlannedStarts(setup, days[di + 1..])
  {
    assert days[di..][0] == days[di];
    assert days[di..][1..] == days[di + 1..];
  }

  /** The run for a court with a setup is the insertion of its planned
      starts. */
  lemma ProvisionUnfold(st: Store, courtId: Id, days: seq<Day>, setup: Setup)
    requires SetupOf(st, courtId) == Some(setup)
    ensures var ins := InsertSlots(st.slots, courtId, PlannedStarts(setup, days), setup.duration);
            Provision(st, courtId, days) == (st.(slots := ins.0), ins.1)
  {
  }

  /** The outer loop of the source: the days of the horizon in order,
      skipping the days `DayHours` rules out. */
  method GenerateTimeSlotsForCourt(st: Store, courtId: Id, days: seq<Day>) returns (out: Store, created: nat)
    ensures (out, created) == Provision(st, courtId, days)
  {
    var setup := SetupOf(st, courtId);
    if setup.None? {
      return st, 0;
    }
    var duration := setup.value.duration;
    ghost var goal := InsertSlots(st.slots, courtId, PlannedStarts(setup.value, days), duration);
    var slots := st.slots;
    created := 0;
    var di := 0;
    while di < |days|
      invariant di <= |days|
      invariant InsertSlots(slots, courtId, PlannedStarts(setup.value, days[di..]), duration).0 == goal.0
      invariant created + InsertSlots(slots, courtId, PlannedStarts(setup.value, days[di..]), duration).1 == goal.1
    {
      var day := days[di];
      PlannedStartsStep(setup.value, days, di);
      InsertSlotsAppend(slots, courtId, DayStarts(setup.value, day),
                        PlannedStarts(setup.value, days[di + 1..]), duration);
      var hours := DayHours(setup.value.schedule, day.weekday);
      if hours.Some? {
        var n;
        slots, n := ProvisionDay(slots, courtId, day.midnight, hours.value.0, hours.value.1, duration);
        created := created + n;
      } else {
        assert DayStarts(setup.value, day) == [];
      }
      di := di + 1;
    }
    assert days[di..] == [];
    ProvisionUnfold(st, courtId, days, setup.value);
    out := st.(slots := slots);
  }

  /** One step of the sweep from court `i` on: the run for that court,
      then the rest. */
  lemma ProvisionAllStep(st: Store, courtIds: seq<Id>, i: nat, days: seq<Day>)
    requires i < |courtIds|
    ensures var one := Provision(st, courtIds[i], days);
            var others := ProvisionAll(one.0, courtIds[i + 1..], days);
            ProvisionAll(st, courtIds[i..], days) == (others.0, one.1 + others.1)
  {
    assert courtIds[i..][0] == courtIds[i];
    assert courtIds[i..][1..] == courtIds[i + 1..];
  }

  /** generateDailyTimeSlots: the courts are listed once, up front, and
      each is provisioned in turn; the total is the number of slots
      created. */
  method GenerateDailyTimeSlots(st: Store, days: seq<Day>) returns (out: Store, total: nat)
    ensures (out, total) == ProvisionAll(st, AllIds(st.courts), days)
  {
    var courtIds := AllIds(st.courts);
    ghost var goal := ProvisionAll(st, courtIds, days);
    out, total := st, 0;
    var i := 0;
    while i < |courtIds|
      invariant i <= |courtIds|
      invariant ProvisionAll(out, courtIds[i..], days).0 == goal.0
      invariant total + ProvisionAll(out, courtIds[i..], days).1 == goal.1
    {
      ProvisionAllStep(out, courtIds, i, days);
      var created;
      out, created := GenerateTimeSlotsForCourt(out, courtIds[i], days);
      total := total + created;
      i := i + 1;
    }
    assert courtIds[i..] == [];
  }
}
