/** The persistent entities of the main service. Identifiers are the keys of the
    tables that hold these records (see module Storage), so the records carry no
    id of their own. Instants are integer seconds. The location is an opaque
    reference: its coordinates are not modelled. */
module Model {
  import opened Errors

  /** Seconds in one hour, the unit of the publication and edit deadlines. */
  const OneHour: int := 3600

  datatype EventState = Pending | Published | Canceled

  datatype RequestStatus = Pending | Confirmed | Rejected | Canceled

  /** Status of one directed row (user, friend) of the friendship table. */
  datatype FriendshipStatus = Confirmed | Pending | Canceled

  datatype Event = Event(
    annotation: string,
    category: int,
    createdOn: int,
    description: string,
    eventDate: int,
    initiator: int,
    location: int,
    paid: bool,
    participantLimit: nat,   // 0 means unlimited
    publishedOn: Option<int>,
    requestModeration: bool,
    state: EventState,
    title: string)

  datatype ParticipationRequest = ParticipationRequest(
    event: int,
    requester: int,
    created: int,
    status: RequestStatus)
}
