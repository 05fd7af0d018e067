/** The search-request trigger (index.ts, onSearchRequestCreated): ranks
    the clubs around the new request, records them on it, then walks the
    nearby clubs in rank order and creates at most one match of four. */
module Matchmaking {
  import opened Maybe
  import opened Seqs
  import opened Docs
  import opened Geo
  import opened Ranking
  import opened Entities
  import opened Search
  import opened Allocation

  /** What the trigger settles on in one club: the court, its slot and the
      four players. */
  datatype Plan = Plan(clubId: Id, courtId: Id, slotId: Id, group: seq<Member>)

  /** How one run of the trigger ends. */
  datatype Outcome =
    | NoEvent
    | Aborted
    | Unmatched
    | Matched(matchId: Id, plan: Plan)

  /** The facts of the new request the trigger works with, read once from
      the event's snapshot. */
  datatype Origin = Origin(requestId: Id, userId: Id, location: Option<Point>, dateTime: int)

  function OriginOf(reqId: Id, q: SearchRequest): (r: Origin)
    ensures r.requestId == reqId && r.userId == q.userId && r.dateTime == q.dateTime
    ensures r.location.Some? <==> q.location.Some? && ConvertGeoPoint(q.location).Some?
    ensures r.location.Some? ==> r.location == ConvertGeoPoint(q.location)
  {
    Origin(reqId, q.userId, ConvertGeoPoint(q.location), q.dateTime)
  }

  function WindowStart(o: Origin): int { o.dateTime - WindowMs }

  function WindowEnd(o: Origin): int { o.dateTime + WindowMs }

  /** A candidate may partner the origin when it is another request from
      another user. */
  predicate OtherThan(o: Origin, id: Id, q: SearchRequest) {
    q.userId != o.userId && id != o.requestId
  }

  /** The pending requests of the club in the origin's window, less the
      origin's own request and every request of the origin's user, in
      enumeration order. */
  function Others(requests: Coll<SearchRequest>, o: Origin, clubId: Id): (r: seq<Id>)
    ensures forall id :: id in r <==>
              && id in requests.order && id in requests.docs
              && Pending(requests.docs[id], clubId, WindowStart(o), WindowEnd(o))
              && OtherThan(o, id, requests.docs[id])
    ensures Distinct(requests.order) ==> Distinct(r)
  {
    var found := FindPlayersForClub(requests, clubId, WindowStart(o), WindowEnd(o));
    Select(found, requests.docs, (id: Id, q: SearchRequest) => OtherThan(o, id, q))
  }

  /** How far a candidate is from the origin; the sentinel when either
      location is unusable. */
  function PartnerDistance(dist: DistanceFn, o: Origin, q: SearchRequest): (r: nat)
    ensures r == MaxSafeInteger <==> o.location.None? || ConvertGeoPoint(q.location).None?
    ensures o.location.Some? && ConvertGeoPoint(q.location).Some? ==>
              r == dist(o.location.value, ConvertGeoPoint(q.location).value)
  {
    CalculateDistance(dist, o.location, ConvertGeoPoint(q.location))
  }

  function KeyPartners(dist: DistanceFn, o: Origin, requests: Coll<SearchRequest>, ids: seq<Id>)
    : (r: seq<Keyed<Id>>)
    requires forall id :: id in ids ==> id in requests.docs
    ensures |r| == |ids|
    ensures forall i :: 0 <= i < |ids| ==> r[i] == Keyed(ids[i], PartnerDistance(dist, o, requests.docs[ids[i]]))
  {
    if ids == [] then []
    else [Keyed(ids[0], PartnerDistance(dist, o, requests.docs[ids[0]]))]
         + KeyPartners(dist, o, requests, ids[1..])
  }

  /** Each of the closest keyed candidates is a candidate keyed by its
      distance. */
  lemma ClosestKeyedPartners(dist: DistanceFn, o: Origin, requests: Coll<SearchRequest>, ids: seq<Id>,
                             keyed: seq<Keyed<Id>>, top: seq<Keyed<Id>>)
    requires forall id :: id in ids ==> id in requests.docs
    requires keyed == KeyPartners(dist, o, requests, ids)
    requires top == Closest(keyed, PlayersPerMatch - 1)
    ensures forall i :: 0 <= i < |top| ==>
              && top[i].item in ids
              && top[i].key == PartnerDistance(dist, o, requests.docs[top[i].item])
  {
    ClosestMembers(keyed, PlayersPerMatch - 1);
    forall i | 0 <= i < |top|
      ensures top[i].item in ids
      ensures top[i].key == PartnerDistance(dist, o, requests.docs[top[i].item])
    {
      KeyedPartner(dist, o, requests, ids, keyed, top[i]);
    }
  }

  /** An entry of the keyed candidates is a candidate keyed by its distance. */
  lemma KeyedPartner(dist: DistanceFn, o: Origin, requests: Coll<SearchRequest>, ids: seq<Id>,
                     keyed: seq<Keyed<Id>>, x: Keyed<Id>)
    requires forall id :: id in ids ==> id in requests.docs
    requires keyed == KeyPartners(dist, o, requests, ids)
    requires x in keyed
    ensures x.item in ids && x.key == PartnerDistance(dist, o, requests.docs[x.item])
  {
    var k :| 0 <= k < |keyed| && keyed[k] == x;
    assert keyed[k] == Keyed(ids[k], PartnerDistance(dist, o, requests.docs[ids[k]]));
  }

  /** The three candidates nearest the origin, nearest first, ties in
      candidate order. */
  function NearestPartners(dist: DistanceFn, o: Origin, requests: Coll<SearchRequest>, ids: seq<Id>)
    : (r: seq<Id>)
    requires forall id :: id in ids ==> id in requests.docs
    ensures |r| == if |ids| < PlayersPerMatch - 1 then |ids| else PlayersPerMatch - 1
    ensures forall i :: 0 <= i < |r| ==> r[i] in ids
    ensures forall i, j :: 0 <= i < j < |r| ==>
              PartnerDistance(dist, o, requests.docs[r[i]]) <= PartnerDistance(dist, o, requests.docs[r[j]])
  {
    var keyed := KeyPartners(dist, o, requests, ids);
    var top := Closest(keyed, PlayersPerMatch - 1);
    ClosestKeyedPartners(dist, o, requests, ids, keyed, top);
    var r := Items(top);
    assert forall i :: 0 <= i < |r| ==> r[i] in ids;
    forall i, j | 0 <= i < j < |r|
      ensures PartnerDistance(dist, o, requests.docs[r[i]]) <= PartnerDistance(dist, o, requests.docs[r[j]])
    {
      assert top[i].key <= top[j].key;
    }
    r
  }

  /** A candidate left out is at least as far as every partner chosen. */
  lemma {:induction false} PartnersAreNearest(dist: DistanceFn, o: Origin, requests: Coll<SearchRequest>,
                                              ids: seq<Id>, id: Id)
    requires forall x :: x in ids ==> x in requests.docs
    requires id in ids && id !in NearestPartners(dist, o, requests, ids)
    ensures var r := NearestPartners(dist, o, requests, ids);
            forall i :: 0 <= i < |r| ==>
              PartnerDistance(dist, o, requests.docs[r[i]]) <= PartnerDistance(dist, o, requests.docs[id])
  {
    var keyed := KeyPartners(dist, o, requests, ids);
    var top := Closest(keyed, PlayersPerMatch - 1);
    var r := Items(top);
    assert NearestPartners(dist, o, requests, ids) == r;
    var k :| 0 <= k < |ids| && ids[k] == id;
    assert keyed[k] in keyed && keyed[k].item == id;
    LeftOutIsFarther(keyed, PlayersPerMatch - 1, keyed[k]);
    ClosestKeyedPartners(dist, o, requests, ids, keyed, top);
    forall i | 0 <= i < |r|
      ensures PartnerDistance(dist, o, requests.docs[r[i]]) <= PartnerDistance(dist, o, requests.docs[id])
    {
      assert r[i] == top[i].item;
      assert top[i].key <= keyed[k].key;
    }
  }

  /** Distinct candidates give distinct partners. */
  lemma {:induction false} PartnersAreDistinct(dist: DistanceFn, o: Origin, requests: Coll<SearchRequest>,
                                               ids: seq<Id>)
    requires forall x :: x in ids ==> x in requests.docs
    requires Distinct(ids)
    ensures Distinct(NearestPartners(dist, o, requests, ids))
  {
    var keyed := KeyPartners(dist, o, requests, ids);
    assert Items(keyed) == ids;
    ClosestItemsDistinct(keyed, PlayersPerMatch - 1);
  }

  /** The members of the given requests, in order. */
  function Members(requests: Coll<SearchRequest>, ids: seq<Id>): (r: seq<Member>)
    requires forall id :: id in ids ==> id in requests.docs
    ensures |r| == |ids|
    ensures forall i :: 0 <= i < |ids| ==> r[i] == Member(ids[i], requests.docs[ids[i]].userId)
  {
    if ids == [] then [] else [Member(ids[0], requests.docs[ids[0]].userId)] + Members(requests, ids[1..])
  }

  /** The group of a match: the origin first, then its three nearest
      candidates. */
  function GroupOf(st: Store, o: Origin, dist: DistanceFn, others: seq<Id>): (r: seq<Member>)
    requires forall id :: id in others ==> id in st.requests.docs
    requires |others| >= PlayersPerMatch - 1
    ensures |r| == PlayersPerMatch && r[0] == Member(o.requestId, o.userId)
    ensures forall i :: 1 <= i < |r| ==>
              && r[i].requestId in others
              && r[i].userId == st.requests.docs[r[i].requestId].userId
  {
    var partners := NearestPartners(dist, o, st.requests, others);
    var r := [Member(o.requestId, o.userId)] + Members(st.requests, partners);
    assert forall i :: 1 <= i < |r| ==> r[i].requestId == partners[i - 1];
    r
  }

  /** The partners in a group are the three candidates nearest the origin,
      nearest first. */
  lemma GroupPartnersAreNearest(st: Store, o: Origin, dist: DistanceFn, others: seq<Id>)
    requires forall id :: id in others ==> id in st.requests.docs
    requires |others| >= PlayersPerMatch - 1
    ensures GroupOf(st, o, dist, others)[1..] == Members(st.requests, NearestPartners(dist, o, st.requests, others))
  {
  }

  /** Distinct candidates that exclude the origin's request give a group of
      four different requests. */
  lemma {:induction false} GroupRequestsAreDistinct(st: Store, o: Origin, dist: DistanceFn, others: seq<Id>)
    requires forall id :: id in others ==> id in st.requests.docs && id != o.requestId
    requires |others| >= PlayersPerMatch - 1
    requires Distinct(others)
    ensures var g := GroupOf(st, o, dist, others);
            forall i, j :: 0 <= i < j < |g| ==> g[i].requestId != g[j].requestId
  {
    var partners := NearestPartners(dist, o, st.requests, others);
    PartnersAreDistinct(dist, o, st.requests, others);
    var g := GroupOf(st, o, dist, others);
    GroupPartnersAreNearest(st, o, dist, others);
    forall i, j | 0 <= i < j < |g| ensures g[i].requestId != g[j].requestId {
      if i > 0 {
        assert g[i] == g[1..][i - 1] && g[j] == g[1..][j - 1];
      } else {
        assert g[j].requestId in others;
      }
    }
  }

  /** One iteration of the club loop: the first matching slot of the club
      and, when at least three other pending requests share the window, the
      origin and its three nearest partners; nothing when either is
      missing. */
  function TryClub(st: Store, o: Origin, dist: DistanceFn, clubId: Id): (r: Option<Plan>)
    ensures r.None? <==> FindSlotInClub(st, clubId, o.dateTime).None? ||
                         |Others(st.requests, o, clubId)| < PlayersPerMatch - 1
    ensures r.Some? ==> r.value.clubId == clubId &&
                        FindSlotInClub(st, clubId, o.dateTime) == Some((r.value.courtId, r.value.slotId))
    ensures r.Some? ==> r.value.group == GroupOf(st, o, dist, Others(st.requests, o, clubId))
  {
    match FindSlotInClub(st, clubId, o.dateTime)
    case None => None
    case Some((courtId, slotId)) =>
      var others := Others(st.requests, o, clubId);
      if |others| < PlayersPerMatch - 1 then None
      else Some(Plan(clubId, courtId, slotId, GroupOf(st, o, dist, others)))
  }

  /** When the store lists every request once, the four requests of a plan
      are four different requests. */
  lemma PlanRequestsAreDistinct(st: Store, o: Origin, dist: DistanceFn, clubId: Id)
    requires st.requests.Wf()
    requires TryClub(st, o, dist, clubId).Some?
    ensures var g := TryClub(st, o, dist, clubId).value.group;
            forall i, j :: 0 <= i < j < |g| ==> g[i].requestId != g[j].requestId
  {
    GroupRequestsAreDistinct(st, o, dist, Others(st.requests, o, clubId));
  }

  /** The club loop: the first club, in the given order, on which a plan
      can be made. */
  function FirstPlan(st: Store, o: Origin, dist: DistanceFn, clubs: seq<Id>): (r: Option<Plan>)
    ensures r.None? <==> forall i :: 0 <= i < |clubs| ==> TryClub(st, o, dist, clubs[i]).None?
    ensures r.Some? ==> exists i :: 0 <= i < |clubs| && TryClub(st, o, dist, clubs[i]) == r &&
                          forall j :: 0 <= j < i ==> TryClub(st, o, dist, clubs[j]).None?
  {
    var plans := seq(|clubs|, i requires 0 <= i < |clubs| => TryClub(st, o, dist, clubs[i]));
    var k := FirstSomeFrom(plans, 0);
    assert forall i :: 0 <= i < |clubs| ==> plans[i] == TryClub(st, o, dist, clubs[i]);
    if k == |clubs| then None else plans[k]
  }

  /** The write at the start of the trigger: the request gets its nearby
      clubs and is marked available, whatever it held before. */
  function Enrich(st: Store, reqId: Id, closeClubs: seq<Id>): (r: Store)
    requires reqId in st.requests.docs
    ensures r.requests.order == st.requests.order
    ensures r.requests.docs.Keys == st.requests.docs.Keys
    ensures r.requests.docs[reqId].available && r.requests.docs[reqId].closeClubs == closeClubs
    ensures OriginOf(reqId, r.requests.docs[reqId]) == OriginOf(reqId, st.requests.docs[reqId])
    ensures forall id :: id in st.requests.docs && id != reqId ==> r.requests.docs[id] == st.requests.docs[id]
    ensures r == st.(requests := r.requests)
  {
    st.(requests := UpdateAll(st.requests, {reqId}, (q: SearchRequest) => q.(closeClubs := closeClubs, available := true)))
  }

  /** The nearby clubs of a request, absent when ranking them would throw. */
  function NearbyOf(st: Store, reqId: Id, dist: DistanceFn): (r: Option<seq<Id>>)
    requires reqId in st.requests.docs
    ensures r.None? <==> ConvertGeoPoint(st.requests.docs[reqId].location).None? && AnyLocated(st.clubs)
    ensures r.Some? ==> |r.value| <= NearbyClubs && forall i :: 0 <= i < |r.value| ==> r.value[i] in AllIds(st.clubs)
    ensures r.Some? ==>
              |r.value| == if |AllIds(st.clubs)| < NearbyClubs then |AllIds(st.clubs)| else NearbyClubs
    ensures r.Some? ==>
              var user := ConvertGeoPoint(st.requests.docs[reqId].location);
              forall i, j :: 0 <= i < j < |r.value| ==>
                ClubDistance(dist, user, st.clubs.docs[r.value[i]]) <= ClubDistance(dist, user, st.clubs.docs[r.value[j]])
  {
    GetClosestClubs(dist, ConvertGeoPoint(st.requests.docs[reqId].location), st.clubs)
  }

  /** The club loop and the batch that follows it, run against the store
      as the enrichment write left it. `matchId` is the id the store
      generates for a new match and `now` the server time. */
  function MatchLoop(st1: Store, o: Origin, dist: DistanceFn, closeClubs: seq<Id>, matchId: Id, now: int)
    : (r: (Store, Outcome))
    ensures r.1.Unmatched? || r.1.Aborted? || r.1.Matched?
    ensures r.1.Unmatched? <==> FirstPlan(st1, o, dist, closeClubs).None?
    ensures r.1.Aborted? <==>
              FirstPlan(st1, o, dist, closeClubs).Some? &&
              var p := FirstPlan(st1, o, dist, closeClubs).value;
              CreateMatch(st1, p.group, o.dateTime, p.slotId, p.courtId, matchId, now).None?
    ensures !r.1.Matched? ==> r.0 == st1
    ensures r.1.Matched? ==> r.1.matchId == matchId && r.1.plan == FirstPlan(st1, o, dist, closeClubs).value
    ensures r.1.Matched? ==>
              CreateMatch(st1, r.1.plan.group, o.dateTime, r.1.plan.slotId, r.1.plan.courtId, matchId, now)
              == Some(r.0)
  {
    match FirstPlan(st1, o, dist, closeClubs)
    case None => (st1, Unmatched)
    case Some(plan) =>
      match CreateMatch(st1, plan.group, o.dateTime, plan.slotId, plan.courtId, matchId, now)
      case None => (st1, Aborted)
      case Some(st2) => (st2, Matched(matchId, plan))
  }

  /** onSearchRequestCreated, for the created request `reqId`: nothing
      without a document; an abort before any write when ranking the clubs
      throws; otherwise the enrichment write, then the club loop. */
  function OnSearchRequestCreated(st: Store, reqId: Id, dist: DistanceFn, matchId: Id, now: int)
    : (r: (Store, Outcome))
    ensures r.1.NoEvent? <==> reqId !in st.requests.docs
    ensures r.1.NoEvent? ==> r.0 == st
    ensures r.0.clubs == st.clubs && r.0.courts == st.courts
    ensures !r.1.Matched? ==> r.0.matches == st.matches && r.0.users == st.users && r.0.slots == st.slots
    ensures !r.1.NoEvent? && NearbyOf(st, reqId, dist).None? ==> r == (st, Aborted)
    ensures r.1.Aborted? && reqId in st.requests.docs && NearbyOf(st, reqId, dist).Some? ==>
              r.0 == Enrich(st, reqId, NearbyOf(st, reqId, dist).value)
    ensures r.1.Unmatched? ==> r.0 == Enrich(st, reqId, NearbyOf(st, reqId, dist).value)
    ensures r.1.Matched? ==> r.1.matchId == matchId && r.0.matches.docs.Keys == st.matches.docs.Keys + {matchId}
  {
    if reqId !in st.requests.docs then (st, NoEvent)
    else
      match NearbyOf(st, reqId, dist)
      case None => (st, Aborted)
      case Some(closeClubs) =>
        MatchLoop(Enrich(st, reqId, closeClubs), OriginOf(reqId, st.requests.docs[reqId]), dist, closeClubs, matchId, now)
  }

  /** After a committed match none of its requests is pending for any club
      or window any more, and its slot fits no request time: neither can be
      drawn into a later match. */
  lemma MatchRetiresGroupAndSlot(st: Store, group: seq<Member>, dateTime: int, slotId: Id, courtId: Id,
                                 matchId: Id, now: int, clubId: Id, lo: int, hi: int, desired: int)
    requires CreateMatch(st, group, dateTime, slotId, courtId, matchId, now).Some?
    ensures var after := CreateMatch(st, group, dateTime, slotId, courtId, matchId, now).value;
            && (forall m :: m in group ==> m.requestId !in FindPlayersForClub(after.requests, clubId, lo, hi))
            && FindMatchingTimeSlotForCourt(after.slots, courtId, desired) != Some(slotId)
  {
  }

  /** A match is made in the first nearby club, in rank order, where a plan
      can be made against the store as the enrichment write left it. */
  lemma MatchIsFirstPlan(st: Store, reqId: Id, dist: DistanceFn, matchId: Id, now: int)
    requires OnSearchRequestCreated(st, reqId, dist, matchId, now).1.Matched?
    ensures reqId in st.requests.docs && NearbyOf(st, reqId, dist).Some?
    ensures var cc := NearbyOf(st, reqId, dist).value;
            var st1 := Enrich(st, reqId, cc);
            var o := OriginOf(reqId, st.requests.docs[reqId]);
            var plan := OnSearchRequestCreated(st, reqId, dist, matchId, now).1.plan;
            exists i :: 0 <= i < |cc| && TryClub(st1, o, dist, cc[i]) == Some(plan) &&
              forall j :: 0 <= j < i ==> TryClub(st1, o, dist, cc[j]).None?
  {
    var st1, o, plan := MatchedSteps(st, reqId, dist, matchId, now);
    assert FirstPlan(st1, o, dist, NearbyOf(st, reqId, dist).value) == Some(plan);
  }

  /** The steps behind a match: the enriched store, the plan found on it,
      and the batch that committed. */
  lemma MatchedSteps(st: Store, reqId: Id, dist: DistanceFn, matchId: Id, now: int)
    returns (st1: Store, o: Origin, plan: Plan)
    requires OnSearchRequestCreated(st, reqId, dist, matchId, now).1.Matched?
    ensures reqId in st.requests.docs && NearbyOf(st, reqId, dist).Some?
    ensures st1 == Enrich(st, reqId, NearbyOf(st, reqId, dist).value)
    ensures o == OriginOf(reqId, st.requests.docs[reqId])
    ensures plan == OnSearchRequestCreated(st, reqId, dist, matchId, now).1.plan
    ensures FirstPlan(st1, o, dist, NearbyOf(st, reqId, dist).value) == Some(plan)
    ensures CreateMatch(st1, plan.group, o.dateTime, plan.slotId, plan.courtId, matchId, now)
         == Some(OnSearchRequestCreated(st, reqId, dist, matchId, now).0)
  {
    st1 := Enrich(st, reqId, NearbyOf(st, reqId, dist).value);
    o := OriginOf(reqId, st.requests.docs[reqId]);
    plan := OnSearchRequestCreated(st, reqId, dist, matchId, now).1.plan;
  }

  /** The group of a match: four players, the originator first, then three
      other available requests of other users for the same club and window;
      afterwards all four requests are unavailable, all four users point at
      the match, and the slot is taken. */
  lemma MatchedGroup(st: Store, reqId: Id, dist: DistanceFn, matchId: Id, now: int)
    requires OnSearchRequestCreated(st, reqId, dist, matchId, now).1.Matched?
    ensures reqId in st.requests.docs && NearbyOf(st, reqId, dist).Some?
    ensures var r := OnSearchRequestCreated(st, reqId, dist, matchId, now);
            var g := r.1.plan.group;
            var st1 := Enrich(st, reqId, NearbyOf(st, reqId, dist).value);
            var o := OriginOf(reqId, st.requests.docs[reqId]);
            && |g| == PlayersPerMatch
            && g[0] == Member(reqId, st.requests.docs[reqId].userId)
            && (forall i :: 1 <= i < |g| ==> g[i].requestId in Others(st1.requests, o, r.1.plan.clubId))
            && (forall m :: m in g ==> m.requestId in r.0.requests.docs && !r.0.requests.docs[m.requestId].available)
            && (forall m :: m in g ==> m.userId in r.0.users.docs && r.0.users.docs[m.userId].matchId == Some(matchId))
            && r.1.plan.slotId in r.0.slots.docs && !r.0.slots.docs[r.1.plan.slotId].available
  {
    var st1, o, plan := MatchedSteps(st, reqId, dist, matchId, now);
    var cc := NearbyOf(st, reqId, dist).value;
    var i :| 0 <= i < |cc| && TryClub(st1, o, dist, cc[i]) == Some(plan);
    assert plan.group == GroupOf(st1, o, dist, Others(st1.requests, o, plan.clubId));
  }

  /** Once the clubs are ranked, the trigger's outcome is decided by the
      first plan over the enriched store and by whether its batch commits:
      a match exactly when a plan exists and the batch commits, an abort
      exactly when a plan exists and the batch fails, no match exactly when
      there is no plan. */
  lemma TriggerOutcome(st: Store, reqId: Id, dist: DistanceFn, matchId: Id, now: int)
    requires reqId in st.requests.docs && NearbyOf(st, reqId, dist).Some?
    ensures var cc := NearbyOf(st, reqId, dist).value;
            var st1 := Enrich(st, reqId, cc);
            var o := OriginOf(reqId, st.requests.docs[reqId]);
            var plan := FirstPlan(st1, o, dist, cc);
            var commits := plan.Some? &&
              CreateMatch(st1, plan.value.group, o.dateTime, plan.value.slotId, plan.value.courtId, matchId, now).Some?;
            var r := OnSearchRequestCreated(st, reqId, dist, matchId, now);
            && (r.1.Matched? <==> commits)
            && (r.1.Aborted? <==> plan.Some? && !commits)
            && (r.1.Unmatched? <==> plan.None?)
  {
  }

  /** No match is made only when no nearby club offers both a slot and
      three partners. */
  lemma UnmatchedMeansNoPlan(st: Store, reqId: Id, dist: DistanceFn, matchId: Id, now: int)
    requires OnSearchRequestCreated(st, reqId, dist, matchId, now).1.Unmatched?
    ensures reqId in st.requests.docs && NearbyOf(st, reqId, dist).Some?
    ensures var cc := NearbyOf(st, reqId, dist).value;
            var st1 := Enrich(st, reqId, cc);
            var o := OriginOf(reqId, st.requests.docs[reqId]);
            forall i :: 0 <= i < |cc| ==>
              FindSlotInClub(st1, cc[i], o.dateTime).None? || |Others(st1.requests, o, cc[i])| < PlayersPerMatch - 1
  {
    var cc := NearbyOf(st, reqId, dist).value;
    var st1 := Enrich(st, reqId, cc);
    var o := OriginOf(reqId, st.requests.docs[reqId]);
    assert FirstPlan(st1, o, dist, cc).None?;
    forall i | 0 <= i < |cc|
      ensures FindSlotInClub(st1, cc[i], o.dateTime).None? || |Others(st1.requests, o, cc[i])| < PlayersPerMatch - 1
    {
      assert TryClub(st1, o, dist, cc[i]).None?;
    }
  }

  /** The enrichment write leaves the same store whatever availability and
      nearby clubs the request held before. */
  lemma EnrichOverwrites(st: Store, reqId: Id, closeClubs: seq<Id>, available: bool, held: seq<Id>)
    requires reqId in st.requests.docs
    ensures var q := st.requests.docs[reqId];
            var st' := st.(requests := st.requests.(docs := st.requests.docs[reqId := q.(available := available, closeClubs := held)]));
            Enrich(st', reqId, closeClubs) == Enrich(st, reqId, closeClubs)
  {
    var q := st.requests.docs[reqId];
    var st' := st.(requests := st.requests.(docs := st.requests.docs[reqId := q.(available := available, closeClubs := held)]));
    var a, b := Enrich(st', reqId, closeClubs), Enrich(st, reqId, closeClubs);
    assert a.requests.docs.Keys == b.requests.docs.Keys;
    assert forall id :: id in a.requests.docs ==> a.requests.docs[id] == b.requests.docs[id];
    assert a.requests.docs == b.requests.docs;
  }

  /** The trigger never checks whether the request is still available or
      what nearby clubs it holds: the enrichment write overwrites both
      before anything reads them, so the outcome, and once the clubs are
      ranked the whole resulting store, are the same. A request already absorbed into a match
      is therefore handled as if still available, and can be matched again,
      when the event is delivered again. */
  lemma TriggerIgnoresAvailability(st: Store, reqId: Id, dist: DistanceFn, matchId: Id, now: int,
                                   available: bool, closeClubs: seq<Id>)
    requires reqId in st.requests.docs
    ensures var q := st.requests.docs[reqId];
            var st' := st.(requests := st.requests.(docs := st.requests.docs[reqId := q.(available := available, closeClubs := closeClubs)]));
            && OnSearchRequestCreated(st', reqId, dist, matchId, now).1 == OnSearchRequestCreated(st, reqId, dist, matchId, now).1
            && (NearbyOf(st, reqId, dist).Some? ==>
                  OnSearchRequestCreated(st', reqId, dist, matchId, now) == OnSearchRequestCreated(st, reqId, dist, matchId, now))
  {
    var q := st.requests.docs[reqId];
    var st' := st.(requests := st.requests.(docs := st.requests.docs[reqId := q.(available := available, closeClubs := closeClubs)]));
    assert st'.requests.docs[reqId].location == q.location;
    assert NearbyOf(st', reqId, dist) == NearbyOf(st, reqId, dist);
    assert OriginOf(reqId, st'.requests.docs[reqId]) == OriginOf(reqId, q);
    if NearbyOf(st, reqId, dist).Some? {
      EnrichOverwrites(st, reqId, NearbyOf(st, reqId, dist).value, available, closeClubs);
    }
  }
}
