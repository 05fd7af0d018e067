/** Match creation (index.ts, createMatch): one atomic batch that records
    the match and takes its players' requests, its players and its slot
    out of circulation. */
module Allocation {
  import opened Maybe
  import opened Docs
  import opened Entities

  /** A player of a match: the request that brought them in and its user. */
  datatype Member = Member(requestId: Id, userId: Id)

  /** The user ids of a group, in group order. */
  function UserIds(group: seq<Member>): (r: seq<Id>)
    ensures |r| == |group|
    ensures forall i :: 0 <= i < |group| ==> r[i] == group[i].userId
  {
    if group == [] then [] else [group[0].userId] + UserIds(group[1..])
  }

  function RequestIdSet(group: seq<Member>): set<Id> {
    set m | m in group :: m.requestId
  }

  function UserIdSet(group: seq<Member>): set<Id> {
    set m | m in group :: m.userId
  }

  /** Whether every document the batch updates exists. A batch update of a
      missing document makes the whole commit fail, so then nothing is
      written. */
  predicate Committable(st: Store, group: seq<Member>, slotId: Id) {
    && (forall m :: m in group ==> m.requestId in st.requests.docs)
    && (forall m :: m in group ==> m.userId in st.users.docs)
    && slotId in st.slots.docs
  }

  /** A request absorbed into a match. */
  function Absorbed(q: SearchRequest): SearchRequest {
    q.(available := false)
  }

  /** A user enlisted into match `matchId`. */
  function Enlisted(matchId: Id, u: User): User {
    u.(matchId := Some(matchId), buddiesState := BuddiesMatched)
  }

  /** A slot taken by a match. */
  function Taken(s: TimeSlot): TimeSlot {
    s.(available := false)
  }

  /** createMatch: the match document is written under `matchId` (an id the
      store generates) with the group's user ids in group order and the
      server time `now`; every request and user of the group and the slot
      are updated; clubs and courts are untouched. The commit fails, and
      the store stays as it was, when one of the updated documents is
      missing. */
  function CreateMatch(st: Store, group: seq<Member>, dateTime: int, slotId: Id, courtId: Id,
                       matchId: Id, now: int): (r: Option<Store>)
    ensures r.None? <==> !Committable(st, group, slotId)
    ensures r.Some? ==> r.value.clubs == st.clubs && r.value.courts == st.courts
    ensures r.Some? ==> r.value.matches.docs.Keys == st.matches.docs.Keys + {matchId}
    ensures r.Some? ==> r.value.matches.docs[matchId] == Match(UserIds(group), dateTime, courtId, slotId, now)
    ensures r.Some? ==> forall id :: id in st.matches.docs && id != matchId ==>
                          r.value.matches.docs[id] == st.matches.docs[id]
    ensures r.Some? ==> r.value.requests.docs.Keys == st.requests.docs.Keys
    ensures r.Some? ==> forall m :: m in group ==> !r.value.requests.docs[m.requestId].available
    ensures r.Some? ==> forall id :: id in st.requests.docs ==>
                          r.value.requests.docs[id] == st.requests.docs[id].(available := r.value.requests.docs[id].available)
    ensures r.Some? ==> forall id :: id in st.requests.docs && id !in RequestIdSet(group) ==>
                          r.value.requests.docs[id] == st.requests.docs[id]
    ensures r.Some? ==> r.value.users.docs.Keys == st.users.docs.Keys
    ensures r.Some? ==> forall m :: m in group ==>
                          r.value.users.docs[m.userId].matchId == Some(matchId) &&
                          r.value.users.docs[m.userId].buddiesState == BuddiesMatched
    ensures r.Some? ==> forall id :: id in st.users.docs && id !in UserIdSet(group) ==>
                          r.value.users.docs[id] == st.users.docs[id]
    ensures r.Some? ==> r.value.slots.docs.Keys == st.slots.docs.Keys
    ensures r.Some? ==> r.value.slots.docs[slotId] == st.slots.docs[slotId].(available := false)
    ensures r.Some? ==> forall id :: id in st.slots.docs && id != slotId ==>
                          r.value.slots.docs[id] == st.slots.docs[id]
    ensures r.Some? ==> r.value.requests.order == st.requests.order &&
                        r.value.users.order == st.users.order &&
                        r.value.slots.order == st.slots.order
    ensures r.Some? && matchId !in st.matches.order ==> r.value.matches.order == st.matches.order + [matchId]
    ensures r.Some? && st.Wf() ==> r.value.Wf()
  {
    if !Committable(st, group, slotId) then None
    else
      var m := Match(UserIds(group), dateTime, courtId, slotId, now);
      Some(st.(matches := Put(st.matches, matchId, m),
               requests := UpdateAll(st.requests, RequestIdSet(group), Absorbed),
               users := UpdateAll(st.users, UserIdSet(group), u => Enlisted(matchId, u)),
               slots := UpdateAll(st.slots, {slotId}, Taken)))
  }
}
