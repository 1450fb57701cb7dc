/** The tables of the main service, in memory. Each table is a field that the
    service operations reassign; a record's identifier is its key. Users and
    categories are only looked up here, so they are sets of identifiers. */
module Storage {
  import opened Model
  import opened Capacity

  type Pair = (int, int)

  /** Every stored event was created by an existing user, below the id counter,
      and carries a publication date exactly when it is published. */
  ghost predicate EventsValid(events: map<int, Event>, users: set<int>, nextEventId: nat) {
    forall id :: id in events ==>
      && id < nextEventId
      && events[id].initiator in users
      && (events[id].publishedOn.Some? <==> events[id].state == EventState.Published)
  }

  /** Every request belongs to an existing user and to a published event of
      somebody else. */
  ghost predicate RequestsValid(requests: Requests, events: map<int, Event>, users: set<int>, nextRequestId: nat) {
    forall id :: id in requests ==>
      && id < nextRequestId
      && requests[id].requester in users
      && requests[id].event in events
      && events[requests[id].event].state == EventState.Published
      && requests[id].requester != events[requests[id].event].initiator
  }

  /** The rows of a pair of users come in twos: (u, f) is stored exactly when
      (f, u) is, never for u == f, and at least one of the two is CONFIRMED. */
  ghost predicate FriendshipsValid(rows: map<Pair, FriendshipStatus>) {
    forall k :: k in rows ==>
      && k.0 != k.1
      && (k.1, k.0) in rows
      && (rows[k] == FriendshipStatus.Confirmed || rows[(k.1, k.0)] == FriendshipStatus.Confirmed)
  }

  class Database {
    var users: set<int>
    var categories: set<int>
    var events: map<int, Event>
    var requests: Requests
    var friendships: map<Pair, FriendshipStatus>
    var nextEventId: nat
    var nextRequestId: nat

    ghost predicate Valid()
      reads this
    {
      && EventsValid(events, users, nextEventId)
      && RequestsValid(requests, events, users, nextRequestId)
      && FriendshipsValid(friendships)
    }

    /** The admission invariant over the whole store. */
    ghost predicate WithinCapacity()
      reads this
    {
      Capacity.WithinCapacity(events, requests)
    }

    constructor (users: set<int>, categories: set<int>)
      ensures Valid() && WithinCapacity()
      ensures this.users == users && this.categories == categories
      ensures events == map[] && requests == map[] && friendships == map[]
    {
      this.users := users;
      this.categories := categories;
      events := map[];
      requests := map[];
      friendships := map[];
      nextEventId := 0;
      nextRequestId := 0;
    }
  }

  /** An event that is not published has no requests, so admits nobody. */
  lemma UnpublishedAdmitsNobody(requests: Requests, events: map<int, Event>, users: set<int>, next: nat, e: int)
    requires RequestsValid(requests, events, users, next)
    requires e in events && events[e].state != EventState.Published
    ensures ConfirmedIds(requests, e) == {} && PendingIds(requests, e) == {}
  {
    forall id | id in requests ensures requests[id].event != e {
      assert events[requests[id].event].state == EventState.Published;
    }
  }
}
