/** Creating and cancelling participation requests
    (ParticipationRequestServiceImpl). Each public operation is one atomic
    transaction: when it fails, the store is left as it was. */
module RequestService {
  import opened Errors
  import opened Model
  import opened Capacity
  import opened Storage

  /** The initial status of a new request: admitted at once unless the event
      both moderates and has a limit. */
  function GetRequestStatus(e: Event): (s: RequestStatus)
    ensures s == RequestStatus.Confirmed <==> !e.requestModeration || e.participantLimit == 0
    ensures s != RequestStatus.Confirmed ==> s == RequestStatus.Pending
  {
    if !e.requestModeration || e.participantLimit == 0 then RequestStatus.Confirmed
    else RequestStatus.Pending
  }

  /** Only a published event that has not started yet takes requests. */
  function CheckEventStateAndDate(e: Event, now: int): (r: Outcome)
    ensures r == Pass <==> e.state == EventState.Published && e.eventDate >= now
    ensures r.Fail? ==> r.error == Conflict
  {
    if e.state != EventState.Published then Fail(Conflict)
    else if e.eventDate < now then Fail(Conflict)
    else Pass
  }

  /** A limited event whose admitted count has reached the limit is full. */
  function CheckEventAvailable(requests: Requests, eventId: int, e: Event): (r: Outcome)
    ensures r == Pass <==> e.participantLimit == 0 || ConfirmedCount(requests, eventId) < e.participantLimit
    ensures r.Fail? ==> r.error == Conflict
  {
    var confirmed := ConfirmedCount(requests, eventId);
    if e.participantLimit != 0 && e.participantLimit <= confirmed then Fail(Conflict) else Pass
  }

  /** A request is visible to its own requester only. */
  function GetRequestByRequestIdAndRequesterId(requests: Requests, requestId: int, userId: int)
    : (r: Result<ParticipationRequest>)
    ensures r.Ok? <==> requestId in requests && requests[requestId].requester == userId
    ensures r.Ok? ==> r.value == requests[requestId]
    ensures r.Err? ==> r.error == NotFound
  {
    if requestId in requests && requests[requestId].requester == userId then Ok(requests[requestId])
    else Err(NotFound)
  }

  /** createRequest: the checks in the order the service makes them, then one
      new record. Returns the new request's identifier. */
  method CreateRequest(db: Database, userId: int, eventId: int, now: int) returns (r: Result<int>)
    requires db.Valid()
    modifies db
    ensures db.Valid()
    ensures db.users == old(db.users) && db.categories == old(db.categories)
    ensures db.events == old(db.events) && db.friendships == old(db.friendships)
    ensures r.Err? ==> db.requests == old(db.requests)
    ensures r == Err(NotFound) <==> userId !in old(db.users) || eventId !in old(db.events)
    ensures r.Err? <==>
      || userId !in old(db.users)
      || eventId !in old(db.events)
      || old(db.events)[eventId].initiator == userId
      || CheckEventStateAndDate(old(db.events)[eventId], now).Fail?
      || CheckEventAvailable(old(db.requests), eventId, old(db.events)[eventId]).Fail?
    ensures r.Err? ==> r.error in {NotFound, Conflict}
    ensures r.Ok? ==>
      && r.value !in old(db.requests)
      && db.requests == old(db.requests)[r.value := ParticipationRequest(eventId, userId, now,
           GetRequestStatus(old(db.events)[eventId]))]
    ensures r.Ok? && db.events[eventId].participantLimit > 0 ==>
      ConfirmedCount(db.requests, eventId) <= db.events[eventId].participantLimit
    ensures old(db.WithinCapacity()) ==> db.WithinCapacity()
  {
    if userId !in db.users {
      return Err(NotFound);
    }
    if eventId !in db.events {
      return Err(NotFound);
    }
    var event := db.events[eventId];
    if event.initiator == userId {
      return Err(Conflict);
    }
    var stateAndDate := CheckEventStateAndDate(event, now);
    if stateAndDate.Fail? {
      return Err(stateAndDate.error);
    }
    var available := CheckEventAvailable(db.requests, eventId, event);
    if available.Fail? {
      return Err(available.error);
    }
    var request := ParticipationRequest(eventId, userId, now, GetRequestStatus(event));
    var id := db.nextRequestId;
    assert id !in db.requests;
    ghost var before := db.requests;
    db.requests := db.requests[id := request];
    db.nextRequestId := db.nextRequestId + 1;
    AddRequestEffect(before, id, request, eventId);
    if Capacity.WithinCapacity(db.events, before) {
      AddRequestWithinCapacity(db.events, before, id, request);
    }
    r := Ok(id);
  }

  /** cancelRequest: a requester withdraws their request, whatever its status. */
  method CancelRequest(db: Database, userId: int, requestId: int) returns (r: Result<ParticipationRequest>)
    requires db.Valid()
    modifies db
    ensures db.Valid()
    ensures db.users == old(db.users) && db.categories == old(db.categories)
    ensures db.events == old(db.events) && db.friendships == old(db.friendships)
    ensures r.Err? <==> requestId !in old(db.requests) || old(db.requests)[requestId].requester != userId
    ensures r.Err? ==> r.error == NotFound && db.requests == old(db.requests)
    ensures r.Ok? ==>
      && r.value == old(db.requests)[requestId].(status := RequestStatus.Canceled)
      && db.requests == old(db.requests)[requestId := r.value]
    ensures old(db.WithinCapacity()) ==> db.WithinCapacity()
  {
    var found := GetRequestByRequestIdAndRequesterId(db.requests, requestId, userId);
    if found.Err? {
      return Err(found.error);
    }
    var request := found.value.(status := RequestStatus.Canceled);
    ghost var before := db.requests;
    db.requests := db.requests[requestId := request];
    forall e | e in db.events ensures ConfirmedCount(db.requests, e) <= ConfirmedCount(before, e) {
      CancelEffect(before, requestId, e);
    }
    r := Ok(request);
  }

  /** Cancelling twice leaves the store as cancelling once does, and the second
      call succeeds too. */
  method CancelRequestTwice(db: Database, userId: int, requestId: int)
    returns (first: Result<ParticipationRequest>, second: Result<ParticipationRequest>)
    requires db.Valid()
    modifies db
    ensures first.Ok? <==> second.Ok?
    ensures first.Ok? ==> second == first
    ensures first.Ok? ==> requestId in old(db.requests)
    ensures first.Ok? ==>
      db.requests == old(db.requests)[requestId := old(db.requests)[requestId].(status := RequestStatus.Canceled)]
  {
    first := CancelRequest(db, userId, requestId);
    second := CancelRequest(db, userId, requestId);
  }
}
