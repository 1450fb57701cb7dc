/** The event lifecycle and the moderation of participation requests
    (EventServiceImpl). Each public operation is one atomic transaction: every
    check runs before the first write, and a failing operation leaves the store
    as it was. */
module EventService {
  import opened Errors
  import opened Model
  import opened Capacity
  import opened Storage
  import opened EventMapper
  import Sorting
  import opened SetFacts

  /** A partial edit of an event: `None` stands for a field that is absent,
      or blank for a text field. */
  datatype UpdateEventRequest = UpdateEventRequest(
    annotation: Option<string>,
    category: Option<int>,
    description: Option<string>,
    eventDate: Option<int>,
    paid: Option<bool>,
    participantLimit: Option<nat>,
    requestModeration: Option<bool>,
    title: Option<string>)

  datatype UserStateAction = SendToReview | CancelReview

  datatype AdminStateAction = PublishEvent | RejectEvent

  /** The identifiers of the event's CONFIRMED and REJECTED requests after a moderation. */
  datatype EventRequestStatusUpdateResult = EventRequestStatusUpdateResult(
    confirmedRequests: set<int>,
    rejectedRequests: set<int>)

  /** The part of an event listing entry the service computes with. */
  datatype EventDto = EventDto(id: int, eventDate: int, confirmedRequests: nat, views: nat)

  datatype SortType = Views | EventDate

  // ---------------------------------------------------------------------------
  // Lookups and date rules

  /** An event as seen by its initiator: somebody else's event is not found. */
  function GetEventByEventIdAndUserId(events: map<int, Event>, eventId: int, userId: int): (r: Result<Event>)
    ensures r.Ok? <==> eventId in events && events[eventId].initiator == userId
    ensures r.Ok? ==> r.value == events[eventId]
    ensures r.Err? ==> r.error == NotFound
  {
    if eventId in events && events[eventId].initiator == userId then Ok(events[eventId]) else Err(NotFound)
  }

  /** A new or edited event must start at least two hours from now. */
  function ValidateEventDate(date: int, now: int): (r: Result<int>)
    ensures r.Ok? <==> date >= now + 2 * OneHour
    ensures r.Ok? ==> r.value == date
    ensures r.Err? ==> r.error == Validation
  {
    if date < now + 2 * OneHour then Err(Validation) else Ok(date)
  }

  // ---------------------------------------------------------------------------
  // Field-by-field edits of one event

  /** The verdict an edit gets before it is applied: an unknown category is
      not found, an edit moving the date closer than two hours is invalid. */
  function FieldsCheck(upd: UpdateEventRequest, categories: set<int>, now: int): Outcome {
    if upd.category.Some? && upd.category.value !in categories then Fail(NotFound)
    else if upd.eventDate.Some? && upd.eventDate.value < now + 2 * OneHour then Fail(Validation)
    else Pass
  }

  /** The supplied value, or the current one when nothing is supplied. */
  function Supplied<T>(o: Option<T>, current: T): T {
    if o.Some? then o.value else current
  }

  /** `e'` is `e` with exactly the supplied fields of `upd` overwritten; the
      creation data, the location and the lifecycle fields are not edited here. */
  ghost predicate Overwrites(upd: UpdateEventRequest, e: Event, e': Event) {
    e' == e.(annotation := Supplied(upd.annotation, e.annotation),
             category := Supplied(upd.category, e.category),
             description := Supplied(upd.description, e.description),
             eventDate := Supplied(upd.eventDate, e.eventDate),
             paid := Supplied(upd.paid, e.paid),
             participantLimit := Supplied(upd.participantLimit, e.participantLimit),
             requestModeration := Supplied(upd.requestModeration, e.requestModeration),
             title := Supplied(upd.title, e.title))
  }

  /** updateEventByNotNullFields: overwrite only the supplied fields, one at a time. */
  method UpdateEventByNotNullFields(upd: UpdateEventRequest, e: Event, categories: set<int>, now: int)
    returns (r: Result<Event>)
    ensures r.Err? <==> FieldsCheck(upd, categories, now).Fail?
    ensures r.Err? ==> r.error == FieldsCheck(upd, categories, now).error
    ensures r.Ok? ==> Overwrites(upd, e, r.value)
  {
    var checked := UpdateCheckedFields(upd, e, categories, now);
    if checked.Err? {
      return checked;
    }
    var event := UpdateSettingFields(upd, checked.value);
    r := Ok(event);
  }

  /** The first half of updateEventByNotNullFields: the fields with a check. */
  method UpdateCheckedFields(upd: UpdateEventRequest, e: Event, categories: set<int>, now: int)
    returns (r: Result<Event>)
    ensures r.Err? <==> FieldsCheck(upd, categories, now).Fail?
    ensures r.Err? ==> r.error == FieldsCheck(upd, categories, now).error
    ensures r.Ok? ==> r.value == e.(annotation := Supplied(upd.annotation, e.annotation),
                                    category := Supplied(upd.category, e.category),
                                    description := Supplied(upd.description, e.description),
                                    eventDate := Supplied(upd.eventDate, e.eventDate))
  {
    var event := e;
    if upd.annotation.Some? {
      event := event.(annotation := upd.annotation.value);
    }
    if upd.category.Some? {
      if upd.category.value !in categories {
        return Err(NotFound);
      }
      event := event.(category := upd.category.value);
    }
    if upd.description.Some? {
      event := event.(description := upd.description.value);
    }
    if upd.eventDate.Some? {
      // the two-hour rule of ValidateEventDate
      if upd.eventDate.value < now + 2 * OneHour {
        return Err(Validation);
      }
      event := event.(eventDate := upd.eventDate.value);
    }
    r := Ok(event);
  }

  /** The second half of updateEventByNotNullFields: the fields without a check. */
  method UpdateSettingFields(upd: UpdateEventRequest, e: Event) returns (event: Event)
    ensures event == e.(paid := Supplied(upd.paid, e.paid),
                        participantLimit := Supplied(upd.participantLimit, e.participantLimit),
                        requestModeration := Supplied(upd.requestModeration, e.requestModeration),
                        title := Supplied(upd.title, e.title))
  {
    event := e;
    if upd.paid.Some? {
      event := event.(paid := upd.paid.value);
    }
    if upd.participantLimit.Some? {
      event := event.(participantLimit := upd.participantLimit.value);
    }
    if upd.requestModeration.Some? {
      event := event.(requestModeration := upd.requestModeration.value);
    }
    if upd.title.Some? {
      event := event.(title := upd.title.value);
    }
  }

  /** An edit that supplies nothing changes nothing, and applying an edit a
      second time changes nothing more. */
  lemma OverwritesIdempotent(upd: UpdateEventRequest, e: Event, e1: Event, e2: Event)
    requires Overwrites(upd, e, e1) && Overwrites(upd, e1, e2)
    ensures e2 == e1
    ensures upd == UpdateEventRequest(None, None, None, None, None, None, None, None) ==> e1 == e
  {
  }

  /** setEventState: only a PENDING event may be published or canceled. */
  method SetEventState(e: Event, newState: EventState) returns (r: Result<Event>)
    ensures r.Ok? <==> e.state == EventState.Pending
    ensures r.Err? ==> r.error == Conflict
    ensures r.Ok? ==> r.value == e.(state := newState)
  {
    if e.state != EventState.Pending {
      return Err(Conflict);
    }
    var event := e;
    event := event.(state := newState);
    r := Ok(event);
  }

  /** setPublishedOnDate: publishing closes one hour before the event starts. */
  method SetPublishedOnDate(e: Event, now: int) returns (r: Result<Event>)
    ensures r.Ok? <==> e.eventDate >= now + OneHour
    ensures r.Err? ==> r.error == Conflict
    ensures r.Ok? ==> r.value == e.(publishedOn := Some(now))
  {
    if e.eventDate < now + OneHour {
      return Err(Conflict);
    }
    var event := e;
    event := event.(publishedOn := Some(now));
    r := Ok(event);
  }

  // ---------------------------------------------------------------------------
  // Lifecycle operations

  /** createEvent: a valid date, an existing initiator and category, then a new
      PENDING event. Returns the new event's identifier. */
  method CreateEvent(db: Database, userId: int, dto: NewEventDto, now: int) returns (r: Result<int>)
    requires db.Valid()
    modifies db
    ensures db.Valid()
    ensures db.users == old(db.users) && db.categories == old(db.categories)
    ensures db.requests == old(db.requests) && db.friendships == old(db.friendships)
    ensures dto.eventDate < now + 2 * OneHour ==> r == Err(Validation)
    ensures dto.eventDate >= now + 2 * OneHour && (userId !in db.users || dto.category !in db.categories) ==>
      r == Err(NotFound)
    ensures r.Ok? <==> dto.eventDate >= now + 2 * OneHour && userId in db.users && dto.category in db.categories
    ensures r.Err? ==> db.events == old(db.events)
    ensures r.Ok? ==>
      && r.value !in old(db.events)
      && db.events == old(db.events)[r.value := ToEvent(dto, userId, dto.category, dto.location, now)]
    ensures old(db.WithinCapacity()) ==> db.WithinCapacity()
  {
    var date := ValidateEventDate(dto.eventDate, now);
    if date.Err? {
      return Err(date.error);
    }
    if userId !in db.users || dto.category !in db.categories {
      return Err(NotFound);
    }
    var id := db.nextEventId;
    assert id !in db.events;
    forall rid | rid in db.requests ensures db.requests[rid].event != id {
      assert db.requests[rid].event in db.events;
    }
    assert ConfirmedIds(db.requests, id) == {};
    db.events := db.events[id := ToEvent(dto, userId, dto.category, dto.location, now)];
    db.nextEventId := db.nextEventId + 1;
    r := Ok(id);
  }

  /** updateEventByUser: the initiator edits an unpublished event and may send
      it to review or withdraw it. */
  method UpdateEventByUser(db: Database, userId: int, eventId: int, upd: UpdateEventRequest,
                           action: Option<UserStateAction>, now: int) returns (r: Result<Event>)
    requires db.Valid()
    modifies db
    ensures db.Valid()
    ensures db.users == old(db.users) && db.categories == old(db.categories)
    ensures db.requests == old(db.requests) && db.friendships == old(db.friendships)
    ensures r.Err? ==> db.events == old(db.events)
    ensures GetEventByEventIdAndUserId(old(db.events), eventId, userId).Err? ==> r == Err(NotFound)
    ensures GetEventByEventIdAndUserId(old(db.events), eventId, userId).Ok? ==>
      && (old(db.events)[eventId].state == EventState.Published ==> r == Err(Conflict))
      && (old(db.events)[eventId].state != EventState.Published ==>
            (r.Err? <==> FieldsCheck(upd, db.categories, now).Fail?) &&
            (r.Err? ==> r.error == FieldsCheck(upd, db.categories, now).error))
    ensures r.Ok? ==>
      && eventId in old(db.events)
      && old(db.events)[eventId].state != EventState.Published
      && db.events == old(db.events)[eventId := r.value]
      && r.value.initiator == userId
      && r.value.publishedOn.None?
      && r.value.state in {EventState.Pending, EventState.Canceled}
      && r.value.state == (match action
                           case None => old(db.events)[eventId].state
                           case Some(SendToReview) => EventState.Pending
                           case Some(CancelReview) => EventState.Canceled)
      && Overwrites(upd, old(db.events)[eventId], r.value.(state := old(db.events)[eventId].state))
    ensures old(db.WithinCapacity()) ==> db.WithinCapacity()
  {
    var found := GetEventByEventIdAndUserId(db.events, eventId, userId);
    if found.Err? {
      return Err(found.error);
    }
    var event := found.value;
    if event.state == EventState.Published {
      return Err(Conflict);
    }
    var edited := UpdateEventByNotNullFields(upd, event, db.categories, now);
    if edited.Err? {
      return Err(edited.error);
    }
    event := edited.value;
    if action.Some? {
      if action.value == SendToReview {
        event := event.(state := EventState.Pending);
      } else {
        event := event.(state := EventState.Canceled);
      }
    }
    UnpublishedAdmitsNobody(db.requests, db.events, db.users, db.nextRequestId, eventId);
    db.events := db.events[eventId := event];
    r := Ok(event);
  }

  /** The date an edit leaves on the event. */
  function EditedDate(upd: UpdateEventRequest, e: Event): int {
    if upd.eventDate.Some? then upd.eventDate.value else e.eventDate
  }

  /** updateEventByAdmin: field edits on any event, then publish or cancel a
      PENDING one. Without a state action a published event is edited too. */
  method UpdateEventByAdmin(db: Database, eventId: int, upd: UpdateEventRequest,
                            action: Option<AdminStateAction>, now: int) returns (r: Result<Event>)
    requires db.Valid()
    modifies db
    ensures db.Valid()
    ensures db.users == old(db.users) && db.categories == old(db.categories)
    ensures db.requests == old(db.requests) && db.friendships == old(db.friendships)
    ensures r.Err? ==> db.events == old(db.events)
    ensures eventId !in old(db.events) ==> r == Err(NotFound)
    ensures eventId in old(db.events) && FieldsCheck(upd, db.categories, now).Fail? ==>
      r == Err(FieldsCheck(upd, db.categories, now).error)
    ensures eventId in old(db.events) && FieldsCheck(upd, db.categories, now).Pass? ==>
      (r.Ok? <==> match action
                  case None => true
                  case Some(PublishEvent) =>
                    EditedDate(upd, old(db.events)[eventId]) >= now + OneHour &&
                    old(db.events)[eventId].state == EventState.Pending
                  case Some(RejectEvent) => old(db.events)[eventId].state == EventState.Pending)
    ensures r.Err? && eventId in old(db.events) && FieldsCheck(upd, db.categories, now).Pass? ==> r.error == Conflict
    ensures r.Ok? ==>
      && eventId in old(db.events)
      && db.events == old(db.events)[eventId := r.value]
      && Overwrites(upd, old(db.events)[eventId],
           r.value.(state := old(db.events)[eventId].state, publishedOn := old(db.events)[eventId].publishedOn))
    ensures r.Ok? && action == Some(PublishEvent) ==>
      r.value.state == EventState.Published && r.value.publishedOn == Some(now) && r.value.eventDate >= now + OneHour
    ensures r.Ok? && action == Some(RejectEvent) ==>
      r.value.state == EventState.Canceled && r.value.publishedOn.None?
    ensures r.Ok? && action.None? ==>
      r.value.state == old(db.events)[eventId].state && r.value.publishedOn == old(db.events)[eventId].publishedOn
    ensures old(db.WithinCapacity()) && upd.participantLimit.None? ==> db.WithinCapacity()
  {
    if eventId !in db.events {
      return Err(NotFound);
    }
    var event := db.events[eventId];
    var edited := UpdateEventByNotNullFields(upd, event, db.categories, now);
    if edited.Err? {
      return Err(edited.error);
    }
    event := edited.value;
    if action.Some? {
      if action.value == PublishEvent {
        var dated := SetPublishedOnDate(event, now);
        if dated.Err? {
          return Err(dated.error);
        }
        var published := SetEventState(dated.value, EventState.Published);
        if published.Err? {
          return Err(published.error);
        }
        event := published.value;
      } else {
        var canceled := SetEventState(event, EventState.Canceled);
        if canceled.Err? {
          return Err(canceled.error);
        }
        event := canceled.value;
      }
    }
    if event.state != EventState.Published {
      UnpublishedAdmitsNobody(db.requests, db.events, db.users, db.nextRequestId, eventId);
    }
    db.events := db.events[eventId := event];
    r := Ok(event);
  }

  // ---------------------------------------------------------------------------
  // Moderation of participation requests

  /** getEventParticipantLimit: only the initiator moderates, only an event that
      asks for moderation and has a limit, and only until the event starts. */
  function GetEventParticipantLimit(events: map<int, Event>, eventId: int, userId: int, now: int): (r: Result<nat>)
    ensures GetEventByEventIdAndUserId(events, eventId, userId).Err? ==> r == Err(NotFound)
    ensures r.Ok? <==>
      && GetEventByEventIdAndUserId(events, eventId, userId).Ok?
      && events[eventId].requestModeration
      && events[eventId].participantLimit != 0
      && events[eventId].eventDate >= now
    ensures r.Ok? ==> r.value == events[eventId].participantLimit && r.value > 0
    ensures r.Err? && GetEventByEventIdAndUserId(events, eventId, userId).Ok? ==> r.error == Conflict
  {
    match GetEventByEventIdAndUserId(events, eventId, userId)
    case Err(e) => Err(e)
    case Ok(event) =>
      if !event.requestModeration || event.participantLimit == 0 then Err(Conflict)
      else if event.eventDate < now then Err(Conflict)
      else Ok(event.participantLimit)
  }

  /** needToRejectConfirmedRequests: moderation stops once the limit is reached;
      a CONFIRMED batch must fit entirely; the answer says whether the batch
      fills the event exactly, so that the remaining PENDING requests are rejected. */
  function NeedToRejectConfirmedRequests(confirmed: nat, limit: nat, ids: set<int>, status: RequestStatus)
    : (r: Result<bool>)
    ensures r.Err? ==> r.error == Conflict
    ensures limit <= confirmed ==> r.Err?
    ensures r.Ok? <==> confirmed < limit && (status == RequestStatus.Confirmed ==> confirmed + |ids| <= limit)
    ensures r.Ok? ==> (r.value <==> status == RequestStatus.Confirmed && confirmed + |ids| == limit)
  {
    if limit <= confirmed then Err(Conflict)
    else if status == RequestStatus.Confirmed then
      var after := confirmed + |ids|;
      if limit < after then Err(Conflict)
      else Ok(limit == after)
    else Ok(false)
  }

  /** The lookup by identifier finds every identifier exactly when it finds as
      many requests as there are identifiers. */
  lemma FoundAllIffSameSize(requests: Requests, eventId: int, ids: set<int>)
    ensures var found := set id | id in ids && id in requests && requests[id].event == eventId;
      && found <= ids && |found| <= |ids|
      && ((forall id :: id in ids ==> id in requests && requests[id].event == eventId) <==> |found| == |ids|)
      && (|found| == |ids| ==> found == ids)
  {
    var found := set id | id in ids && id in requests && requests[id].event == eventId;
    SubsetSameSize(found, ids);
    if found != ids {
      ProperSubsetSmaller(found, ids);
      var x := Missing(found, ids);
    }
  }

  /** findRequestsToUpdate: every requested identifier must be a request of this event. */
  function FindRequestsToUpdate(requests: Requests, eventId: int, ids: set<int>): (r: Result<set<int>>)
    ensures r.Ok? <==> forall id :: id in ids ==> id in requests && requests[id].event == eventId
    ensures r.Ok? ==> r.value == ids
    ensures r.Err? ==> r.error == NotFound
  {
    var found := set id | id in ids && id in requests && requests[id].event == eventId;
    FoundAllIffSameSize(requests, eventId, ids);
    if |found| < |ids| then Err(NotFound) else Ok(found)
  }

  /** checkRequestModerationPossibilities: only PENDING requests can be moderated. */
  function CheckRequestModerationPossibilities(requests: Requests, found: set<int>): (r: Outcome)
    requires found <= requests.Keys
    ensures r == Pass <==> forall id :: id in found ==> requests[id].status == RequestStatus.Pending
    ensures r.Fail? ==> r.error == Conflict
  {
    if exists id :: id in found && requests[id].status != RequestStatus.Pending then Fail(Conflict) else Pass
  }

  /** The status a moderation may set. */
  predicate IsModerationStatus(status: RequestStatus) {
    status == RequestStatus.Confirmed || status == RequestStatus.Rejected
  }

  /** The limit and count checks of a moderation pass (the first two checks of
      updateRequestStatus). */
  predicate MayModerate(events: map<int, Event>, requests: Requests, userId: int, eventId: int,
                        ids: set<int>, status: RequestStatus, now: int) {
    && GetEventParticipantLimit(events, eventId, userId, now).Ok?
    && ConfirmedCount(requests, eventId) < events[eventId].participantLimit
    && (status == RequestStatus.Confirmed ==>
          ConfirmedCount(requests, eventId) + |ids| <= events[eventId].participantLimit)
  }

  /** The checks of updateRequestStatus in the order the service makes them;
      on success, whether the batch triggers the cascade. */
  function ModerationDecision(events: map<int, Event>, requests: Requests, userId: int, eventId: int,
                              ids: set<int>, status: RequestStatus, now: int): (r: Result<bool>)
    ensures GetEventByEventIdAndUserId(events, eventId, userId).Err? ==> r == Err(NotFound)
    ensures r.Ok? ==>
      && eventId in events && events[eventId].initiator == userId
      && events[eventId].requestModeration && events[eventId].participantLimit > 0
      && events[eventId].eventDate >= now
      && ConfirmedCount(requests, eventId) < events[eventId].participantLimit
      && (status == RequestStatus.Confirmed ==>
            ConfirmedCount(requests, eventId) + |ids| <= events[eventId].participantLimit)
      && PendingOf(requests, eventId, ids)
      && IsModerationStatus(status)
      && (r.value <==> status == RequestStatus.Confirmed &&
                       ConfirmedCount(requests, eventId) + |ids| == events[eventId].participantLimit)
    ensures (eventId in events && events[eventId].initiator == userId &&
             (!events[eventId].requestModeration || events[eventId].participantLimit == 0 ||
              events[eventId].eventDate < now)) ==> r == Err(Conflict)
    ensures (GetEventParticipantLimit(events, eventId, userId, now).Ok? &&
             ConfirmedCount(requests, eventId) >= events[eventId].participantLimit) ==> r == Err(Conflict)
    ensures (GetEventParticipantLimit(events, eventId, userId, now).Ok? && status == RequestStatus.Confirmed &&
             ConfirmedCount(requests, eventId) + |ids| > events[eventId].participantLimit) ==> r == Err(Conflict)
    ensures r.Ok? <==>
      MayModerate(events, requests, userId, eventId, ids, status, now) &&
      PendingOf(requests, eventId, ids) && IsModerationStatus(status)
    ensures (MayModerate(events, requests, userId, eventId, ids, status, now) &&
             !(forall id :: id in ids ==> id in requests && requests[id].event == eventId)) ==> r == Err(NotFound)
    ensures (MayModerate(events, requests, userId, eventId, ids, status, now) &&
             (forall id :: id in ids ==> id in requests && requests[id].event == eventId) &&
             !PendingOf(requests, eventId, ids)) ==> r == Err(Conflict)
    ensures (MayModerate(events, requests, userId, eventId, ids, status, now) &&
             PendingOf(requests, eventId, ids) && !IsModerationStatus(status)) ==> r == Err(Conflict)
  {
    match GetEventParticipantLimit(events, eventId, userId, now)
    case Err(e) => Err(e)
    case Ok(limit) =>
      match NeedToRejectConfirmedRequests(ConfirmedCount(requests, eventId), limit, ids, status)
      case Err(e) => Err(e)
      case Ok(cascade) =>
        match FindRequestsToUpdate(requests, eventId, ids)
        case Err(e) => Err(e)
        case Ok(found) =>
          match CheckRequestModerationPossibilities(requests, found)
          case Fail(e) => Err(e)
          case Pass => if !IsModerationStatus(status) then Err(Conflict) else Ok(cascade)
  }

  /** updateRequests: give every listed request the moderation status, one by one. */
  method UpdateRequests(db: Database, ids: set<int>, status: RequestStatus) returns (r: Outcome)
    requires ids <= db.requests.Keys
    modifies db
    ensures r == (if IsModerationStatus(status) then Pass else Fail(Conflict))
    ensures r.Pass? ==> db.requests == WithStatus(old(db.requests), ids, status)
    ensures r.Fail? ==> db.requests == old(db.requests)
    ensures db.users == old(db.users) && db.categories == old(db.categories) && db.events == old(db.events)
    ensures db.friendships == old(db.friendships) && db.nextEventId == old(db.nextEventId)
    ensures db.nextRequestId == old(db.nextRequestId)
  {
    if !IsModerationStatus(status) {
      return Fail(Conflict);
    }
    var todo := ids;
    while todo != {}
      invariant todo <= ids
      invariant db.requests == WithStatus(old(db.requests), ids - todo, status)
      invariant db.users == old(db.users) && db.categories == old(db.categories) && db.events == old(db.events)
      invariant db.friendships == old(db.friendships) && db.nextEventId == old(db.nextEventId)
      invariant db.nextRequestId == old(db.nextRequestId)
      decreases todo
    {
      ghost var _ := Element(todo);
      var id :| id in todo;
      db.requests := db.requests[id := db.requests[id].(status := status)];
      todo := todo - {id};
      assert ids - todo == (ids - (todo + {id})) + {id};
    }
    r := Pass;
  }

  /** A status change keeps every request attached to its event and requester. */
  lemma WithStatusValid(requests: Requests, events: map<int, Event>, users: set<int>, next: nat,
                        ids: set<int>, s: RequestStatus)
    requires RequestsValid(requests, events, users, next)
    ensures RequestsValid(WithStatus(requests, ids, s), events, users, next)
  {
    var m := WithStatus(requests, ids, s);
    forall id | id in m ensures m[id].event == requests[id].event && m[id].requester == requests[id].requester {
    }
  }

  /** updateRequestStatus: the initiator confirms or rejects a batch of PENDING
      requests all-or-nothing; when a CONFIRMED batch fills the event exactly,
      every remaining PENDING request of the event is rejected. */
  method UpdateRequestStatus(db: Database, userId: int, eventId: int, ids: set<int>,
                             status: RequestStatus, now: int) returns (r: Result<EventRequestStatusUpdateResult>)
    requires db.Valid()
    modifies db
    ensures db.Valid()
    ensures db.users == old(db.users) && db.categories == old(db.categories)
    ensures db.events == old(db.events) && db.friendships == old(db.friendships)
    ensures r.Err? <==> ModerationDecision(old(db.events), old(db.requests), userId, eventId, ids, status, now).Err?
    ensures r.Err? ==>
      && r.error == ModerationDecision(old(db.events), old(db.requests), userId, eventId, ids, status, now).error
      && db.requests == old(db.requests)
    ensures r.Ok? ==>
      db.requests == Moderated(old(db.requests), eventId, ids, status,
                               ModerationDecision(old(db.events), old(db.requests), userId, eventId, ids, status, now).value)
    ensures r.Ok? ==> forall id :: id in ids ==> id in db.requests && db.requests[id].status == status
    ensures r.Ok? ==>
      && eventId in db.events
      && ConfirmedCount(db.requests, eventId) <= db.events[eventId].participantLimit
      && (ConfirmedCount(db.requests, eventId) == db.events[eventId].participantLimit ==>
            PendingIds(db.requests, eventId) == {})
    ensures r.Ok? ==> forall id :: id in old(db.requests) && old(db.requests)[id].event != eventId ==>
      id in db.requests && db.requests[id] == old(db.requests)[id]
    ensures r.Ok? ==>
      r.value == EventRequestStatusUpdateResult(ConfirmedIds(db.requests, eventId), RejectedIds(db.requests, eventId))
    ensures old(db.WithinCapacity()) ==> db.WithinCapacity()
  {
    ghost var decision := ModerationDecision(db.events, db.requests, userId, eventId, ids, status, now);
    var limitR := GetEventParticipantLimit(db.events, eventId, userId, now);
    if limitR.Err? {
      return Err(limitR.error);
    }
    var limit := limitR.value;
    var confirmed := ConfirmedCount(db.requests, eventId);
    var needR := NeedToRejectConfirmedRequests(confirmed, limit, ids, status);
    if needR.Err? {
      return Err(needR.error);
    }
    var foundR := FindRequestsToUpdate(db.requests, eventId, ids);
    if foundR.Err? {
      return Err(foundR.error);
    }
    var found := foundR.value;
    var check := CheckRequestModerationPossibilities(db.requests, found);
    if check.Fail? {
      return Err(check.error);
    }
    var updated := UpdateRequests(db, found, status);
    if updated.Fail? {
      return Err(updated.error);
    }
    WithStatusValid(old(db.requests), db.events, db.users, db.nextRequestId, found, status);
    if needR.value {
      ghost var batch := db.requests;
      var pending := PendingIds(db.requests, eventId);
      var _ := UpdateRequests(db, pending, RequestStatus.Rejected);
      WithStatusValid(batch, db.events, db.users, db.nextRequestId, pending, RequestStatus.Rejected);
    }
    assert decision == Ok(needR.value);
    ModerationAdmits(old(db.requests), eventId, ids, status, needR.value);
    ModerationStatuses(old(db.requests), eventId, ids, status, needR.value);
    r := Ok(EventRequestStatusUpdateResult(ConfirmedIds(db.requests, eventId), RejectedIds(db.requests, eventId)));
  }

  // ---------------------------------------------------------------------------
  // Listings

  /** getEarliestPublishDate: the earliest publication instant among the
      published events, if any is published. */
  function GetEarliestPublishDate(events: seq<Event>): (r: Option<int>)
    requires forall i :: 0 <= i < |events| && events[i].state == EventState.Published ==> events[i].publishedOn.Some?
    ensures r.None? <==> forall i :: 0 <= i < |events| ==> events[i].state != EventState.Published
    ensures r.Some? ==> exists i :: 0 <= i < |events| && events[i].state == EventState.Published &&
                                     events[i].publishedOn == Some(r.value)
    ensures r.Some? ==> forall i :: 0 <= i < |events| && events[i].state == EventState.Published ==>
                                      r.value <= events[i].publishedOn.value
  {
    if events == [] then None
    else
      var rest := GetEarliestPublishDate(events[1..]);
      assert forall i :: 1 <= i < |events| ==> events[i] == events[1..][i - 1];
      if events[0].state != EventState.Published then
        (if rest.Some? then
           var i :| 0 <= i < |events[1..]| && events[1..][i].state == EventState.Published &&
                    events[1..][i].publishedOn == Some(rest.value);
           assert events[i + 1] == events[1..][i];
           rest
         else rest)
      else if rest.None? || events[0].publishedOn.value <= rest.value then events[0].publishedOn
      else
        var i :| 0 <= i < |events[1..]| && events[1..][i].state == EventState.Published &&
                 events[1..][i].publishedOn == Some(rest.value);
        assert events[i + 1] == events[1..][i];
        rest
  }

  /** Identifiers of a listing are distinct (the listing comes from one query). */
  ghost predicate DistinctIds(dtos: seq<EventDto>) {
    forall i, j :: 0 <= i < j < |dtos| ==> dtos[i].id != dtos[j].id
  }

  /** The requests among `done` that belong to event `e`. */
  ghost function CountedFor(requests: Requests, done: set<int>, e: int): set<int> {
    set id | id in done && id in requests && requests[id].event == e
  }

  /** Counting one more request adds it to its own event's set only. */
  lemma CountedForStep(requests: Requests, done: set<int>, rid: int, e: int)
    requires rid in requests && rid !in done
    ensures CountedFor(requests, done + {rid}, e) ==
      CountedFor(requests, done, e) + (if requests[rid].event == e then {rid} else {})
    ensures |CountedFor(requests, done + {rid}, e)| ==
      |CountedFor(requests, done, e)| + (if requests[rid].event == e then 1 else 0)
  {
    assert CountedFor(requests, done + {rid}, e) ==
      CountedFor(requests, done, e) + (if requests[rid].event == e then {rid} else {});
  }

  /** `out` is the listing `dtos` with each entry's counter raised by the
      number of requests of `done` that belong to it. */
  ghost predicate CountedInto(requests: Requests, dtos: seq<EventDto>, done: set<int>, out: seq<EventDto>) {
    && |out| == |dtos|
    && forall k :: 0 <= k < |dtos| ==>
         out[k] == dtos[k].(confirmedRequests := dtos[k].confirmedRequests + |CountedFor(requests, done, dtos[k].id)|)
  }

  /** One iteration of the counting loop: the entry of the request's event is
      the one whose counter grows. */
  lemma CountedIntoStep(requests: Requests, dtos: seq<EventDto>, done: set<int>, out: seq<EventDto>, rid: int, j: int)
    requires CountedInto(requests, dtos, done, out)
    requires DistinctIds(dtos)
    requires rid in requests && rid !in done
    requires 0 <= j < |dtos| && dtos[j].id == requests[rid].event
    ensures CountedInto(requests, dtos, done + {rid}, out[j := out[j].(confirmedRequests := out[j].confirmedRequests + 1)])
  {
    forall k | 0 <= k < |dtos|
      ensures |CountedFor(requests, done + {rid}, dtos[k].id)| ==
        |CountedFor(requests, done, dtos[k].id)| + (if k == j then 1 else 0)
    {
      CountedForStep(requests, done, rid, dtos[k].id);
    }
  }

  /** The listing keyed by event identifier (Collectors.toMap): each key maps
      to the position of its entry. */
  method IndexById(dtos: seq<EventDto>) returns (index: map<int, nat>)
    requires DistinctIds(dtos)
    ensures forall id :: id in index ==> index[id] < |dtos| && dtos[index[id]].id == id
    ensures forall j :: 0 <= j < |dtos| ==> dtos[j].id in index && index[dtos[j].id] == j
  {
    index := map[];
    var i := 0;
    while i < |dtos|
      invariant 0 <= i <= |dtos|
      invariant forall id :: id in index ==> index[id] < i && dtos[index[id]].id == id
      invariant forall j :: 0 <= j < i ==> dtos[j].id in index && index[dtos[j].id] == j
    {
      index := index[dtos[i].id := i];
      i := i + 1;
    }
  }

  /** The confirmed-count loop of fillEventDtoList: every listed event's
      counter grows by its admitted count; nothing is filled when no listed
      event is published. */
  method FillConfirmedRequests(db: Database, dtos: seq<EventDto>, earliestPublishDate: Option<int>)
    returns (out: seq<EventDto>)
    requires DistinctIds(dtos)
    ensures |out| == |dtos|
    ensures earliestPublishDate.None? ==> out == dtos
    ensures earliestPublishDate.Some? ==> forall i :: 0 <= i < |dtos| ==>
      out[i] == dtos[i].(confirmedRequests := dtos[i].confirmedRequests + ConfirmedCount(db.requests, dtos[i].id))
  {
    if earliestPublishDate.None? {
      return dtos;
    }
    var index := IndexById(dtos);
    // findByEvent_IdInAndStatus: the CONFIRMED requests of the listed events
    var all := set id | id in db.requests && db.requests[id].event in index &&
                        db.requests[id].status == RequestStatus.Confirmed;
    var todo := all;
    out := dtos;
    while todo != {}
      invariant todo <= all
      invariant CountedInto(db.requests, dtos, all - todo, out)
      decreases todo
    {
      ghost var _ := Element(todo);
      var rid :| rid in todo;
      var j := index[db.requests[rid].event];
      assert all - (todo - {rid}) == (all - todo) + {rid};
      CountedIntoStep(db.requests, dtos, all - todo, out, rid, j);
      out := out[j := out[j].(confirmedRequests := out[j].confirmedRequests + 1)];
      todo := todo - {rid};
    }
    assert all - todo == all;
    forall k | 0 <= k < |dtos| ensures CountedFor(db.requests, all, dtos[k].id) == ConfirmedIds(db.requests, dtos[k].id) {
      assert dtos[k].id in index;
    }
  }

  /** An event that is limited and full is not available. */
  predicate Unavailable(e: Event, d: EventDto) {
    e.participantLimit != 0 && e.participantLimit <= d.confirmedRequests
  }

  /** The entries of `s` that are not in `toRemove`, in their order (List.removeAll). */
  function RemoveAll(s: seq<EventDto>, toRemove: seq<EventDto>): (r: seq<EventDto>)
    ensures forall d :: d in r <==> d in s && d !in toRemove
    ensures forall d :: multiset(r)[d] == if d in toRemove then 0 else multiset(s)[d]
    ensures |r| <= |s|
  {
    if s == [] then []
    else
      assert s == [s[0]] + s[1..];
      if s[0] in toRemove then RemoveAll(s[1..], toRemove)
      else [s[0]] + RemoveAll(s[1..], toRemove)
  }

  /** filterNotAvailableEvents: drop the listing entries of full events. The
      listing was built from `events` position by position. */
  method FilterNotAvailableEvents(events: seq<Event>, dtos: seq<EventDto>) returns (kept: seq<EventDto>)
    requires |events| == |dtos|
    ensures forall d :: d in kept <==>
      d in dtos && !(exists j :: 0 <= j < |dtos| && dtos[j] == d && Unavailable(events[j], dtos[j]))
    ensures forall j :: 0 <= j < |dtos| ==>
      ((forall k :: 0 <= k < |dtos| && dtos[k] == dtos[j] ==> !Unavailable(events[k], dtos[k])) ==> dtos[j] in kept)
    ensures forall d :: d in kept ==> multiset(kept)[d] == multiset(dtos)[d]
    ensures multiset(kept) <= multiset(dtos)
    ensures |kept| <= |dtos|
  {
    var toRemove: seq<EventDto> := [];
    var i := 0;
    while i < |events|
      invariant 0 <= i <= |events|
      invariant forall d :: d in toRemove <==> exists j :: 0 <= j < i && dtos[j] == d && Unavailable(events[j], dtos[j])
    {
      if events[i].participantLimit != 0 && events[i].participantLimit <= dtos[i].confirmedRequests {
        toRemove := toRemove + [dtos[i]];
      }
      i := i + 1;
    }
    kept := RemoveAll(dtos, toRemove);
    assert forall d :: multiset(kept)[d] <= multiset(dtos)[d];
  }

  /** sortEvents: most viewed first, or earliest first; a permutation either way. */
  function SortEvents(dtos: seq<EventDto>, sortType: SortType): (r: seq<EventDto>)
    ensures multiset(r) == multiset(dtos)
    ensures sortType == Views ==> forall i, j :: 0 <= i < j < |r| ==> r[i].views >= r[j].views
    ensures sortType == EventDate ==> forall i, j :: 0 <= i < j < |r| ==> r[i].eventDate <= r[j].eventDate
  {
    match sortType
    case Views => Sorting.SortByKey(dtos, (d: EventDto) => -(d.views as int))
    case EventDate => Sorting.SortByKey(dtos, (d: EventDto) => d.eventDate)
  }
}
