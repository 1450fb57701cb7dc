/** Building a new event from the creation request, and the publication date
    of the full event view (EventMapper.toEvent, EventMapper.toEventFullDto).
    The textual formatting of instants is not modelled: an instant stays an
    integer and a missing one stays `None`. */
module EventMapper {
  import opened Errors
  import opened Model

  /** The creation request; the optional fields may be left out by the client. */
  datatype NewEventDto = NewEventDto(
    annotation: string,
    category: int,
    description: string,
    eventDate: int,
    location: int,
    paid: Option<bool>,
    participantLimit: Option<nat>,
    requestModeration: Option<bool>,
    title: string)

  /** The full view of an event, without the counters filled in by the service. */
  datatype EventFullDto = EventFullDto(
    id: int,
    annotation: string,
    category: int,
    eventDate: int,
    initiator: int,
    paid: bool,
    title: string,
    createdOn: int,
    description: string,
    location: int,
    participantLimit: nat,
    publishedOn: Option<int>,
    requestModeration: bool,
    state: EventState)

  /** A new event awaits review, is not yet published, is unlimited, moderated
      and free unless the request says otherwise, and copies everything else. */
  function ToEvent(dto: NewEventDto, initiator: int, category: int, location: int, now: int): (e: Event)
    ensures e.state == EventState.Pending
    ensures e.publishedOn.None?
    ensures dto.participantLimit.None? ==> e.participantLimit == 0
    ensures dto.participantLimit.Some? ==> e.participantLimit == dto.participantLimit.value
    ensures e.requestModeration <==> dto.requestModeration != Some(false)
    ensures e.paid <==> dto.paid == Some(true)
    ensures e.annotation == dto.annotation && e.description == dto.description && e.title == dto.title
    ensures e.eventDate == dto.eventDate && e.createdOn == now
    ensures e.category == category && e.initiator == initiator && e.location == location
  {
    Event(
      annotation := dto.annotation,
      category := category,
      createdOn := now,
      description := dto.description,
      eventDate := dto.eventDate,
      initiator := initiator,
      location := location,
      paid := dto.paid.Some? && dto.paid.value,
      participantLimit := if dto.participantLimit.None? then 0 else dto.participantLimit.value,
      publishedOn := None,
      requestModeration := dto.requestModeration.None? || dto.requestModeration.value,
      state := EventState.Pending,
      title := dto.title)
  }

  /** The full view shows no publication date exactly when the event has none. */
  function ToEventFullDto(id: int, e: Event): (d: EventFullDto)
    ensures d.publishedOn.None? <==> e.publishedOn.None?
    ensures e.publishedOn.Some? ==> d.publishedOn == e.publishedOn
    ensures d.id == id && d.state == e.state && d.participantLimit == e.participantLimit
    ensures d.requestModeration == e.requestModeration && d.eventDate == e.eventDate
  {
    EventFullDto(id, e.annotation, e.category, e.eventDate, e.initiator, e.paid, e.title,
      e.createdOn, e.description, e.location, e.participantLimit,
      if e.publishedOn == None then None else Some(e.publishedOn.value),
      e.requestModeration, e.state)
  }

  /** The view of a freshly created event is pending and shows no publication date. */
  lemma NewEventViewUnpublished(id: int, dto: NewEventDto, initiator: int, category: int, location: int, now: int)
    ensures ToEventFullDto(id, ToEvent(dto, initiator, category, location, now)).publishedOn == None
    ensures ToEventFullDto(id, ToEvent(dto, initiator, category, location, now)).state == EventState.Pending
  {
  }
}
