/** The documents of the store and the store itself. Instants are
    milliseconds since the epoch. */
module Entities {
  import opened Maybe
  import opened Docs
  import opened Geo
  import Decimal

  const PlayersPerMatch: nat := 4
  /** Breadth of the nearby-club list. */
  const NearbyClubs: nat := 3
  const MinuteMs: nat := 60 * 1000
  /** Half-width of the time window: two hours. */
  const WindowMs: nat := 2 * 60 * 60 * 1000
  const DefaultGameDuration: nat := 60
  const DefaultPrice: nat := 25
  /** `buddiesState` of a player absorbed into a match. */
  const BuddiesMatched: int := 2

  /** One weekday entry of a club schedule; `start`/`end` are `"HH:mm"`. */
  datatype DaySchedule = DaySchedule(closed: bool, start: Option<string>, end: Option<string>)

  datatype Club = Club(location: Option<RawPoint>, schedule: Option<map<string, DaySchedule>>)

  datatype Court = Court(clubId: Option<Id>, gameDuration: Option<nat>)

  datatype TimeSlot = TimeSlot(courtId: Id, start: int, end: int, available: bool,
                               buddies: nat, price: nat)

  /** A player's request. A request that has not been enriched yet has no
      `closeClubs` and no `available` field; the empty list and `false`
      stand for them, which no query can tell apart. */
  datatype SearchRequest = SearchRequest(userId: Id, location: Option<RawPoint>, dateTime: int,
                                         available: bool, closeClubs: seq<Id>)

  datatype User = User(matchId: Option<Id>, buddiesState: int)

  datatype Match = Match(userIds: seq<Id>, dateTime: int, courtId: Id, timeSlotId: Id,
                         createdAt: int)

  datatype Store = Store(clubs: Coll<Club>, courts: Coll<Court>, slots: Coll<TimeSlot>,
                         requests: Coll<SearchRequest>, users: Coll<User>,
                         matches: Coll<Match>)
  {
    ghost predicate Wf() {
      && clubs.Wf() && courts.Wf() && slots.Wf()
      && requests.Wf() && users.Wf() && matches.Wf()
    }
  }

  /** `court.gameDuration || 60`: a missing or zero duration means 60. */
  function GameDuration(c: Court): (r: nat)
    ensures r > 0
    ensures c.gameDuration.Some? && c.gameDuration.value > 0 ==> r == c.gameDuration.value
    ensures (c.gameDuration.None? || c.gameDuration.value == 0) ==> r == DefaultGameDuration
  {
    if c.gameDuration.None? || c.gameDuration.value == 0 then DefaultGameDuration
    else c.gameDuration.value
  }

  /** The deterministic id of the slot of `courtId` starting at `start`:
      the court id, `'_'`, and a rendering of the start instant that uses
      no `'_'` (the source uses the ISO-8601 string with `':'` and `'.'`
      replaced by `'-'`; the decimal millisecond count stands in for it). */
  function SlotKey(courtId: Id, start: nat): Id {
    courtId + "_" + Decimal.Render(start)
  }

  /** The stamp is the part after the last `'_'` of a slot id, so two equal
      ids carry stamps of equal length. */
  lemma {:induction false} SlotKeyStampLength(c1: Id, s1: nat, c2: Id, s2: nat)
    requires SlotKey(c1, s1) == SlotKey(c2, s2)
    ensures |Decimal.Render(s1)| == |Decimal.Render(s2)|
  {
    var k := SlotKey(c1, s1);
    var a, b := Decimal.Render(s1), Decimal.Render(s2);
    Decimal.RenderDigits(s1);
    Decimal.RenderDigits(s2);
    assert k == c1 + "_" + a == c2 + "_" + b;
    assert k[|k| - |a| - 1] == '_' && k[|k| - |b| - 1] == '_';
    assert forall q :: |k| - |b| <= q < |k| ==> Decimal.IsDigit(k[q]);
    assert forall q :: |k| - |a| <= q < |k| ==> Decimal.IsDigit(k[q]);
    assert |k| - |a| - 1 < |k| - |b|;
    assert |k| - |b| - 1 < |k| - |a|;
  }

  /** Slot ids are injective: one id names one (court, start) pair. */
  lemma {:induction false} SlotKeyInjective(c1: Id, s1: nat, c2: Id, s2: nat)
    requires SlotKey(c1, s1) == SlotKey(c2, s2)
    ensures c1 == c2 && s1 == s2
  {
    SlotKeyStampLength(c1, s1, c2, s2);
    var k := SlotKey(c1, s1);
    var a, b := Decimal.Render(s1), Decimal.Render(s2);
    assert a == k[|k| - |a|..] == b;
    assert c1 == k[..|k| - |a| - 1] == c2;
    Decimal.RenderInjective(s1, s2);
  }
}
