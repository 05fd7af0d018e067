/** Candidate search (index.ts): ranking the clubs around a point, the
    courts of a club, the first matching slot of a court, and the pending
    requests of a club in a time window. */
module Search {
  import opened Maybe
  import opened Seqs
  import opened Docs
  import opened Geo
  import opened Ranking
  import opened Entities

  predicate Located(c: Club) {
    ConvertGeoPoint(c.location).Some?
  }

  /** Whether some enumerated club has a usable location. */
  predicate AnyLocated(clubs: Coll<Club>) {
    exists id :: id in AllIds(clubs) && Located(clubs.docs[id])
  }

  /** The ranking distance of a club: the sentinel when its location is
      unusable, otherwise the geodesic distance from the user. The source
      calls the library whenever the club is located, so a user without a
      location must not reach a located club. */
  function ClubDistance(dist: DistanceFn, user: Option<Point>, club: Club): (r: nat)
    requires user.Some? || !Located(club)
    ensures r == MaxSafeInteger <==> !Located(club)
    ensures Located(club) ==> r == dist(user.value, ConvertGeoPoint(club.location).value)
  {
    match ConvertGeoPoint(club.location)
    case None => MaxSafeInteger
    case Some(p) => dist(user.value, p)
  }

  function KeyClubs(dist: DistanceFn, user: Option<Point>, clubs: Coll<Club>, ids: seq<Id>)
    : (r: seq<Keyed<Id>>)
    requires forall id :: id in ids ==> id in clubs.docs && (user.Some? || !Located(clubs.docs[id]))
    ensures |r| == |ids|
    ensures forall i :: 0 <= i < |ids| ==>
              r[i] == Keyed(ids[i], ClubDistance(dist, user, clubs.docs[ids[i]]))
  {
    if ids == [] then []
    else [Keyed(ids[0], ClubDistance(dist, user, clubs.docs[ids[0]]))]
         + KeyClubs(dist, user, clubs, ids[1..])
  }

  /** The full stable ranking of the clubs by distance; absent when the
      distance library would be called without a user location (it throws). */
  function RankClubs(dist: DistanceFn, user: Option<Point>, clubs: Coll<Club>)
    : (r: Option<seq<Keyed<Id>>>)
    ensures r.None? <==> user.None? && AnyLocated(clubs)
  {
    if user.None? && AnyLocated(clubs) then None
    else Some(SortByKey(KeyClubs(dist, user, clubs, AllIds(clubs))))
  }

  /** Each of the closest keyed clubs is an enumerated club keyed by its
      ranking distance. */
  lemma ClosestKeyedClubs(dist: DistanceFn, user: Option<Point>, clubs: Coll<Club>,
                          keyed: seq<Keyed<Id>>, top: seq<Keyed<Id>>)
    requires !(user.None? && AnyLocated(clubs))
    requires keyed == KeyClubs(dist, user, clubs, AllIds(clubs))
    requires top == Closest(keyed, NearbyClubs)
    ensures forall i :: 0 <= i < |top| ==>
              && top[i].item in AllIds(clubs)
              && top[i].key == ClubDistance(dist, user, clubs.docs[top[i].item])
  {
    ClosestMembers(keyed, NearbyClubs);
    forall i | 0 <= i < |top|
      ensures top[i].item in AllIds(clubs)
      ensures top[i].key == ClubDistance(dist, user, clubs.docs[top[i].item])
    {
      assert top[i] in keyed;
      var k :| 0 <= k < |keyed| && keyed[k] == top[i];
      assert keyed[k] == Keyed(AllIds(clubs)[k], ClubDistance(dist, user, clubs.docs[AllIds(clubs)[k]]));
    }
  }

  /** getClosestClubs: the ids of the three nearest clubs in nondecreasing
      distance, drawn from the store's clubs; absent exactly when the
      distance library would be handed a missing user location. */
  function GetClosestClubs(dist: DistanceFn, user: Option<Point>, clubs: Coll<Club>)
    : (r: Option<seq<Id>>)
    ensures r.None? <==> user.None? && AnyLocated(clubs)
    ensures r.Some? ==>
              |r.value| == if |AllIds(clubs)| < NearbyClubs then |AllIds(clubs)| else NearbyClubs
    ensures r.Some? ==> forall i :: 0 <= i < |r.value| ==> r.value[i] in AllIds(clubs)
    ensures r.Some? ==> forall i, j :: 0 <= i < j < |r.value| ==>
              ClubDistance(dist, user, clubs.docs[r.value[i]]) <= ClubDistance(dist, user, clubs.docs[r.value[j]])
  {
    match RankClubs(dist, user, clubs)
    case None => None
    case Some(ranked) =>
      var keyed := KeyClubs(dist, user, clubs, AllIds(clubs));
      var top := Closest(keyed, NearbyClubs);
      ClosestKeyedClubs(dist, user, clubs, keyed, top);
      assert forall i :: 0 <= i < |top| ==> top[i].item in AllIds(clubs);
      var r := Items(top);
      assert forall i :: 0 <= i < |r| ==> r[i] in AllIds(clubs);
      forall i, j | 0 <= i < j < |r|
        ensures ClubDistance(dist, user, clubs.docs[r[i]]) <= ClubDistance(dist, user, clubs.docs[r[j]])
      {
        assert r[i] in AllIds(clubs) && r[j] in AllIds(clubs);
        assert top[i].key <= top[j].key;
      }
      Some(r)
  }

  /** A club left out of the closest three is at least as far as every club
      chosen; in particular an unlocated club, at the sentinel distance, is
      left out only when three clubs are chosen before it. */
  lemma {:induction false} ClosestClubsAreNearest(dist: DistanceFn, user: Option<Point>, clubs: Coll<Club>, id: Id)
    requires !(user.None? && AnyLocated(clubs))
    requires id in AllIds(clubs) && id !in GetClosestClubs(dist, user, clubs).value
    ensures var r := GetClosestClubs(dist, user, clubs).value;
            forall i :: 0 <= i < |r| ==>
              ClubDistance(dist, user, clubs.docs[r[i]]) <= ClubDistance(dist, user, clubs.docs[id])
  {
    var ids := AllIds(clubs);
    var keyed := KeyClubs(dist, user, clubs, ids);
    var top := Closest(keyed, NearbyClubs);
    var r := Items(top);
    assert GetClosestClubs(dist, user, clubs).value == r;
    var k :| 0 <= k < |ids| && ids[k] == id;
    assert keyed[k] in keyed && keyed[k].item == id;
    LeftOutIsFarther(keyed, NearbyClubs, keyed[k]);
    ClosestKeyedClubs(dist, user, clubs, keyed, top);
    forall i | 0 <= i < |r|
      ensures ClubDistance(dist, user, clubs.docs[r[i]]) <= ClubDistance(dist, user, clubs.docs[id])
    {
      assert r[i] == top[i].item;
      assert top[i].key <= keyed[k].key;
    }
  }

  /** With three clubs or fewer, every club is among the closest, located
      or not. */
  lemma {:induction false} FewClubsAllKept(dist: DistanceFn, user: Option<Point>, clubs: Coll<Club>, id: Id)
    requires !(user.None? && AnyLocated(clubs))
    requires |AllIds(clubs)| <= NearbyClubs && id in AllIds(clubs)
    ensures id in GetClosestClubs(dist, user, clubs).value
  {
    var ids := AllIds(clubs);
    var keyed := KeyClubs(dist, user, clubs, ids);
    var k :| 0 <= k < |ids| && ids[k] == id;
    FewAreAllKept(keyed, NearbyClubs, keyed[k]);
  }

  /** Among the chosen clubs, every located club comes before every
      unlocated one. */
  lemma LocatedClubsFirst(dist: DistanceFn, user: Option<Point>, clubs: Coll<Club>)
    requires !(user.None? && AnyLocated(clubs))
    ensures var r := GetClosestClubs(dist, user, clubs).value;
            forall i, j :: 0 <= i < j < |r| && !Located(clubs.docs[r[i]]) ==> !Located(clubs.docs[r[j]])
  {
  }

  /** Ties keep enumeration order: for every distance, the clubs at that
      distance appear in the ranking in the order the store lists them. */
  lemma ClubRankingIsStable(dist: DistanceFn, user: Option<Point>, clubs: Coll<Club>, d: int)
    requires !(user.None? && AnyLocated(clubs))
    ensures WithKey(RankClubs(dist, user, clubs).value, d)
         == WithKey(KeyClubs(dist, user, clubs, AllIds(clubs)), d)
  {
    SortIsStable(KeyClubs(dist, user, clubs, AllIds(clubs)), d);
  }

  /** The chosen clubs repeat no club, as long as the store lists each club
      once. */
  lemma ClosestClubsAreDistinct(dist: DistanceFn, user: Option<Point>, clubs: Coll<Club>)
    requires !(user.None? && AnyLocated(clubs))
    requires Distinct(clubs.order)
    ensures Distinct(GetClosestClubs(dist, user, clubs).value)
  {
    var ids := AllIds(clubs);
    assert Distinct(ids);
    var keyed := KeyClubs(dist, user, clubs, ids);
    assert Items(keyed) == ids;
    ClosestItemsDistinct(keyed, NearbyClubs);
  }

  /** The closest clubs are the head of the full ranking. */
  lemma ClosestAreRankingHead(dist: DistanceFn, user: Option<Point>, clubs: Coll<Club>)
    requires !(user.None? && AnyLocated(clubs))
    ensures var r := GetClosestClubs(dist, user, clubs).value;
            var ranked := RankClubs(dist, user, clubs).value;
            forall i :: 0 <= i < |r| ==> r[i] == ranked[i].item
  {
  }

  /** The courts of a club, in enumeration order. */
  function GetCourtsOfClub(courts: Coll<Court>, clubId: Id): (r: seq<Id>)
    ensures forall id :: id in r <==> id in courts.order && id in courts.docs && courts.docs[id].clubId == Some(clubId)
  {
    Select(courts.order, courts.docs, (id: Id, c: Court) => c.clubId == Some(clubId))
  }

  /** Whether a slot may serve a game requested for `desired`: it belongs to
      the court, is available, and starts within two hours either side,
      bounds included. */
  predicate SlotFits(s: TimeSlot, courtId: Id, desired: int) {
    s.courtId == courtId && s.available && desired - WindowMs <= s.start <= desired + WindowMs
  }

  /** findMatchingTimeSlotForCourt: the first available slot of the court,
      in enumeration order, whose start lies in the window; not the closest
      one in time. */
  function FindMatchingTimeSlotForCourt(slots: Coll<TimeSlot>, courtId: Id, desired: int)
    : (r: Option<Id>)
    ensures r.None? <==> forall i :: 0 <= i < |slots.order| && slots.order[i] in slots.docs ==>
                           !SlotFits(slots.docs[slots.order[i]], courtId, desired)
    ensures r.Some? ==> r.value in slots.docs && SlotFits(slots.docs[r.value], courtId, desired)
    ensures r.Some? ==> exists i :: 0 <= i < |slots.order| && slots.order[i] == r.value &&
                          forall j :: 0 <= j < i && slots.order[j] in slots.docs ==>
                            !SlotFits(slots.docs[slots.order[j]], courtId, desired)
  {
    var p := (id: Id, s: TimeSlot) => SlotFits(s, courtId, desired);
    assert forall i :: 0 <= i < |slots.order| ==>
             (Hit(slots.order, slots.docs, p, i) <==>
              slots.order[i] in slots.docs && SlotFits(slots.docs[slots.order[i]], courtId, desired));
    First(slots.order, slots.docs, p)
  }

  /** Whether the court belongs to the club and has a matching slot. */
  predicate CourtHasSlot(slots: Coll<TimeSlot>, clubId: Id, desired: int, courtId: Id, c: Court) {
    c.clubId == Some(clubId) && FindMatchingTimeSlotForCourt(slots, courtId, desired).Some?
  }

  /** Whether the `i`-th enumerated court belongs to the club. */
  predicate CourtOfClubAt(courts: Coll<Court>, clubId: Id, i: int)
    requires 0 <= i < |courts.order|
  {
    courts.order[i] in courts.docs && courts.docs[courts.order[i]].clubId == Some(clubId)
  }

  /** The first court of the club, in enumeration order, with a matching
      slot, and that slot; absent exactly when no court of the club has
      one. */
  function FindSlotInClub(st: Store, clubId: Id, desired: int): (r: Option<(Id, Id)>)
    ensures r.None? <==> forall i :: 0 <= i < |st.courts.order| && CourtOfClubAt(st.courts, clubId, i) ==>
                           FindMatchingTimeSlotForCourt(st.slots, st.courts.order[i], desired).None?
    ensures r.Some? ==> r.value.0 in st.courts.docs && st.courts.docs[r.value.0].clubId == Some(clubId)
    ensures r.Some? ==> FindMatchingTimeSlotForCourt(st.slots, r.value.0, desired) == Some(r.value.1)
    ensures r.Some? ==> exists i :: 0 <= i < |st.courts.order| && st.courts.order[i] == r.value.0 &&
                          forall j :: 0 <= j < i && CourtOfClubAt(st.courts, clubId, j) ==>
                            FindMatchingTimeSlotForCourt(st.slots, st.courts.order[j], desired).None?
  {
    var p := (id: Id, c: Court) => CourtHasSlot(st.slots, clubId, desired, id, c);
    assert forall i :: 0 <= i < |st.courts.order| ==>
             (Hit(st.courts.order, st.courts.docs, p, i) <==>
              CourtOfClubAt(st.courts, clubId, i) &&
              FindMatchingTimeSlotForCourt(st.slots, st.courts.order[i], desired).Some?);
    match First(st.courts.order, st.courts.docs, p)
    case None => None
    case Some(courtId) =>
      Some((courtId, FindMatchingTimeSlotForCourt(st.slots, courtId, desired).value))
  }

  /** The courts tried are the club's courts as getCourtsOfClub lists them:
      no slot is found exactly when none of those courts has one, and a
      slot found is on one of them. */
  lemma {:induction false} SlotInClubIsOnClubCourt(st: Store, clubId: Id, desired: int)
    ensures FindSlotInClub(st, clubId, desired).None? <==>
              forall c :: c in GetCourtsOfClub(st.courts, clubId) ==>
                FindMatchingTimeSlotForCourt(st.slots, c, desired).None?
    ensures FindSlotInClub(st, clubId, desired).Some? ==>
              FindSlotInClub(st, clubId, desired).value.0 in GetCourtsOfClub(st.courts, clubId)
  {
    var courts := GetCourtsOfClub(st.courts, clubId);
    var r := FindSlotInClub(st, clubId, desired);
    if r.None? {
      forall c | c in courts ensures FindMatchingTimeSlotForCourt(st.slots, c, desired).None? {
        var i :| 0 <= i < |st.courts.order| && st.courts.order[i] == c;
        assert CourtOfClubAt(st.courts, clubId, i);
      }
    } else {
      var i :| 0 <= i < |st.courts.order| && st.courts.order[i] == r.value.0 &&
               forall j :: 0 <= j < i && CourtOfClubAt(st.courts, clubId, j) ==>
                 FindMatchingTimeSlotForCourt(st.slots, st.courts.order[j], desired).None?;
      assert r.value.0 in courts;
    }
  }

  /** Whether a request is a candidate partner for a club in the window
      `[lo, hi]`: its time is in the window, its nearby clubs contain the
      club, and it is still available. */
  predicate Pending(q: SearchRequest, clubId: Id, lo: int, hi: int) {
    lo <= q.dateTime <= hi && clubId in q.closeClubs && q.available
  }

  /** findPlayersForClub: the pending requests of the club in the window,
      in enumeration order. */
  function FindPlayersForClub(requests: Coll<SearchRequest>, clubId: Id, lo: int, hi: int)
    : (r: seq<Id>)
    ensures forall id :: id in r <==>
              id in requests.order && id in requests.docs && Pending(requests.docs[id], clubId, lo, hi)
    ensures Distinct(requests.order) ==> Distinct(r)
  {
    Select(requests.order, requests.docs, (id: Id, q: SearchRequest) => Pending(q, clubId, lo, hi))
  }
}
