# Explore With Me: admission engine, friendships and hit statistics

This project is a Dafny model of the core of "Explore With Me". The service
publishes events and lets users ask to take part in them. An event may have a
participant limit and may require its initiator to moderate requests.

The model covers four parts:

- **Event lifecycle.** An event starts PENDING. An administrator publishes it
  or cancels it. A user edits it and sends it back for review while it is not
  published.
- **Participation requests.** A request is created, moderated by the event's
  initiator (confirmed or rejected in batches, all or nothing), or cancelled by
  its requester. The derived quantity is the number of CONFIRMED requests of
  an event, its *admitted count*. Request creation and moderation keep it
  within the limit.
- **Friendship graph.** Rows `(user, friend) -> CONFIRMED | PENDING | CANCELED`
  are created and deleted in pairs. Friends, followers and followings are
  derived from them.
- **Hit statistics.** The stats service groups stored hits by `(app, uri)`. It
  counts all hits or distinct addresses, then sorts by count, largest first.

The model is built as follows:

- **The store.** The tables of the main service are fields of one `Database`
  class. These are users, categories, events, requests and friendship rows,
  each a `set` or a `map` keyed by identifier. Identifiers of new records
  come from counters.
- **Operations.** Each public service operation is a method that
  `modifies db`. Every failure leaves the store as it was, because each
  operation is one transaction.
- **Errors.** There are three error kinds:
  - `NotFound` (HTTP 404) for a missing entity;
  - `Conflict` (HTTP 409) for a forbidden modification or a security refusal;
  - `Validation` (HTTP 400) for an invalid request.
- **Time.** Instants are integer seconds, and the current instant `now` is a
  parameter. An hour is 3600 seconds.
- **Invariants.** `Database.Valid()` is kept by every operation. It says:
  - every request belongs to a published event of somebody else;
  - friendship rows come in pairs;
  - at least one row of a pair is CONFIRMED;
  - identifiers are below their counters.

  `Database.WithinCapacity()` says every limited event admits at most its
  limit. Request creation, cancellation, moderation, event creation and user
  edits keep it. Administrator edits do not always keep it, as explained
  below.
- **Statistics.** The stats service reads its stored hits as a set passed in.

Where the behaviour described for the system and its code differ, the model
follows the code:

- Publishing less than an hour before the event starts is a `Conflict`, not a
  validation error.
- Moderation of somebody else's event is `NotFound`, because the event is
  looked up by identifier and initiator together.
- `createRequest` has no duplicate-request check.
- Requests and moderation are still accepted when the event date equals `now`.
  They are refused only when the date is before `now`.

## Model

| member | source | states |
|---|---|---|
| Validator.ValidateStartAndEndDates | ewm-service/src/main/java/ru/practicum/utils/Validator.java:14-26 | a missing bound passes. With both bounds present, the range passes exactly when the end is strictly after the start. A failure is a validation error |
| EventMapper.ToEvent | ewm-service/src/main/java/ru/practicum/event/model/EventMapper.java:23-38 | a new event is PENDING and has no publication date. The limit defaults to 0 (unlimited), moderation defaults to on and paid defaults to off. Every other field is copied unchanged |
| EventMapper.ToEventFullDto | ewm-service/src/main/java/ru/practicum/event/model/EventMapper.java:40-57 | the view has no publication date exactly when the event has none, and otherwise shows the event's date |
| EventMapper.NewEventViewUnpublished | ewm-service/src/main/java/ru/practicum/event/model/EventMapper.java:23-57 | the view of a freshly built event is PENDING with no publication date |
| Capacity.StatusChangeOfPending | ewm-service/src/main/java/ru/practicum/event/EventServiceImpl.java:289-300 | changing the status of pending requests of an event adds them to the admitted set exactly when the new status is CONFIRMED. It leaves every other event's admitted set the same |
| Capacity.CascadeEffect | ewm-service/src/main/java/ru/practicum/event/EventServiceImpl.java:217-219 | rejecting the remaining pending requests of an event leaves none pending and touches no other event's request |
| Capacity.ModerationAdmits | ewm-service/src/main/java/ru/practicum/event/EventServiceImpl.java:206-223 | a moderation batch raises the event's admitted count by the batch size only for CONFIRMED, and leaves every other event's admitted set alone, with or without the cascade |
| Capacity.ModerationStatuses | ewm-service/src/main/java/ru/practicum/event/EventServiceImpl.java:206-223 | a moderation batch keeps the request identifiers and gives the batch its status. It touches no other event's request, and with the cascade no pending request of the event remains |
| Capacity.AddRequestEffect | ewm-service/src/main/java/ru/practicum/request/ParticipationRequestServiceImpl.java:47-53 | storing a new request raises its event's admitted count by one exactly when it is CONFIRMED |
| Capacity.AddRequestWithinCapacity | ewm-service/src/main/java/ru/practicum/request/ParticipationRequestServiceImpl.java:47-53 | storing a request keeps every limited event within its limit when the request is not CONFIRMED or its event still had room |
| Capacity.CancelEffect | ewm-service/src/main/java/ru/practicum/request/ParticipationRequestServiceImpl.java:66-73 | cancelling a request removes it from the admitted set and so never raises an admitted count |
| Storage.UnpublishedAdmitsNobody | ewm-service/src/main/java/ru/practicum/request/ParticipationRequestServiceImpl.java:83-95 | in a valid store an unpublished event has no confirmed and no pending requests |
| RequestService.GetRequestStatus | ewm-service/src/main/java/ru/practicum/request/ParticipationRequestServiceImpl.java:75-81 | a new request is CONFIRMED exactly when the event does not moderate or is unlimited, and PENDING otherwise |
| RequestService.CheckEventStateAndDate | ewm-service/src/main/java/ru/practicum/request/ParticipationRequestServiceImpl.java:83-95 | passes exactly for a published event whose date is not before now. Otherwise it is a conflict |
| RequestService.CheckEventAvailable | ewm-service/src/main/java/ru/practicum/request/ParticipationRequestServiceImpl.java:109-116 | passes exactly when the event is unlimited or its admitted count is below the limit. Otherwise it is a conflict |
| RequestService.GetRequestByRequestIdAndRequesterId | ewm-service/src/main/java/ru/practicum/request/ParticipationRequestServiceImpl.java:97-107 | finds the request exactly when it exists and belongs to the caller. Otherwise it is not found |
| RequestService.CreateRequest | ewm-service/src/main/java/ru/practicum/request/ParticipationRequestServiceImpl.java:36-54 | fails exactly on one of these, storing nothing: a missing user or event (not found), the initiator asking, an unpublished or already started event (conflict), or a full event (conflict). On success it adds exactly one request, under a fresh identifier, with the policy's status. It keeps the store valid and within capacity |
| RequestService.CancelRequest | ewm-service/src/main/java/ru/practicum/request/ParticipationRequestServiceImpl.java:66-73 | fails with not found exactly when the request is missing or not the caller's. Otherwise it sets that request to CANCELED whatever its status, changes nothing else and keeps capacity |
| RequestService.CancelRequestTwice | ewm-service/src/main/java/ru/practicum/request/ParticipationRequestServiceImpl.java:66-73 | a second cancellation succeeds exactly when the first did, returns the same request and leaves the store as one cancellation does |
| EventService.GetEventByEventIdAndUserId | ewm-service/src/main/java/ru/practicum/event/EventServiceImpl.java:551-560 | finds the event exactly when it exists and the caller initiated it. Otherwise it is not found |
| EventService.ValidateEventDate | ewm-service/src/main/java/ru/practicum/event/EventServiceImpl.java:501-511 | a date is accepted exactly when it is at least two hours after now. Otherwise it is a validation error |
| EventService.UpdateEventByNotNullFields | ewm-service/src/main/java/ru/practicum/event/EventServiceImpl.java:449-488 | fails exactly when the supplied category is unknown (not found) or the supplied date is less than two hours ahead (validation). On success exactly the supplied fields are overwritten and every other field keeps its value |
| EventService.UpdateCheckedFields | ewm-service/src/main/java/ru/practicum/event/EventServiceImpl.java:449-465 | the checked fields (annotation, category, description, date): an unknown category is not found and a date less than two hours ahead is invalid. Otherwise exactly the supplied ones among these four are overwritten |
| EventService.UpdateSettingFields | ewm-service/src/main/java/ru/practicum/event/EventServiceImpl.java:472-488 | the unchecked fields (paid, limit, moderation, title): exactly the supplied ones are overwritten |
| EventService.OverwritesIdempotent | ewm-service/src/main/java/ru/practicum/event/EventServiceImpl.java:449-488 | applying the same edit twice gives what applying it once does, and an empty edit changes nothing |
| EventService.SetEventState | ewm-service/src/main/java/ru/practicum/event/EventServiceImpl.java:431-447 | the state changes exactly when the event is PENDING. Otherwise it is a conflict |
| EventService.SetPublishedOnDate | ewm-service/src/main/java/ru/practicum/event/EventServiceImpl.java:490-499 | publication succeeds exactly when the event starts at least an hour after now, and records now as the publication date. Otherwise it is a conflict |
| EventService.CreateEvent | ewm-service/src/main/java/ru/practicum/event/EventServiceImpl.java:55-65 | checks in source order: a date less than two hours ahead (validation), then a missing user or category (not found). On success the event built by the mapper is stored under a fresh identifier, and validity and capacity are kept |
| EventService.UpdateEventByUser | ewm-service/src/main/java/ru/practicum/event/EventServiceImpl.java:91-112 | errors in source order: somebody else's or a missing event (not found), a published event (conflict), then the field checks. On success the event is edited field by field. SEND_TO_REVIEW makes it PENDING, CANCEL_REVIEW makes it CANCELED and no action keeps its state. Capacity is kept |
| EventService.UpdateEventByAdmin | ewm-service/src/main/java/ru/practicum/event/EventServiceImpl.java:116-132 | a missing event is not found, then the field checks apply. Publishing needs a PENDING event starting at least an hour ahead and sets it PUBLISHED with now as its publication date. Rejecting needs a PENDING event and sets it CANCELED. Any other refusal is a conflict. No action keeps the state. Capacity is kept when the limit is not edited |
| EventService.GetEventParticipantLimit | ewm-service/src/main/java/ru/practicum/event/EventServiceImpl.java:249-265 | moderation is possible exactly for the initiator's own event that moderates, has a positive limit and has not started. It returns that limit; somebody else's event is not found and every other refusal is a conflict |
| EventService.NeedToRejectConfirmedRequests | ewm-service/src/main/java/ru/practicum/event/EventServiceImpl.java:225-247 | any batch is a conflict once the admitted count reaches the limit. A CONFIRMED batch is a conflict when it would exceed the limit. The cascade is needed exactly when a CONFIRMED batch fills the limit |
| EventService.FoundAllIffSameSize | ewm-service/src/main/java/ru/practicum/event/EventServiceImpl.java:267-276 | the lookup finds every given identifier exactly when it finds as many requests as identifiers were given |
| EventService.FindRequestsToUpdate | ewm-service/src/main/java/ru/practicum/event/EventServiceImpl.java:267-276 | succeeds exactly when every identifier names a request of this event. Otherwise it is not found |
| EventService.CheckRequestModerationPossibilities | ewm-service/src/main/java/ru/practicum/event/EventServiceImpl.java:278-287 | passes exactly when every found request is PENDING. Otherwise it is a conflict |
| EventService.ModerationDecision | ewm-service/src/main/java/ru/practicum/event/EventServiceImpl.java:206-215 | succeeds exactly when the initiator's own moderating, limited, not yet started event is below its limit, a CONFIRMED batch fits under it, every identifier is a PENDING request of the event and the status is CONFIRMED or REJECTED. Errors follow the source order: somebody else's or a missing event is not found; a non-moderating, unlimited or started event, a reached limit or an overfilling batch is a conflict; then an identifier that is not a request of the event is not found; then a non-PENDING request or another status is a conflict. On success it says whether the batch fills the limit exactly |
| EventService.UpdateRequests | ewm-service/src/main/java/ru/practicum/event/EventServiceImpl.java:289-300 | for CONFIRMED or REJECTED every listed request gets that status and nothing else changes. Any other status is a conflict and changes nothing |
| EventService.WithStatusValid | ewm-service/src/main/java/ru/practicum/event/EventServiceImpl.java:289-300 | a status change keeps every request valid against its event and requester |
| EventService.UpdateRequestStatus | ewm-service/src/main/java/ru/practicum/event/EventServiceImpl.java:206-223 | fails exactly when the decision fails, with its error, and then changes nothing. On success the batch gets the status and the admitted count stays within the limit. A full event keeps no pending request, other events' requests are untouched, and the result lists the event's CONFIRMED and REJECTED requests. Capacity is kept |
| EventService.GetEarliestPublishDate | ewm-service/src/main/java/ru/practicum/event/EventServiceImpl.java:424-429 | absent exactly when no listed event is published. Otherwise it is the publication date of a published one and no later than any other's |
| EventService.CountedIntoStep | ewm-service/src/main/java/ru/practicum/event/EventServiceImpl.java:400-408 | one loop iteration raises the counter of exactly the request's own event by one |
| EventService.IndexById | ewm-service/src/main/java/ru/practicum/event/EventServiceImpl.java:400-401 | the index maps each listed event's identifier to its position, and nothing else |
| EventService.FillConfirmedRequests | ewm-service/src/main/java/ru/practicum/event/EventServiceImpl.java:395-408 | with no published event the listing is unchanged. Otherwise every entry's counter rises by exactly its event's admitted count, and nothing else changes |
| EventService.RemoveAll | ewm-service/src/main/java/ru/practicum/event/EventServiceImpl.java:323 | keeps exactly the entries not marked for removal, each as often as it occurs in the listing |
| EventService.FilterNotAvailableEvents | ewm-service/src/main/java/ru/practicum/event/EventServiceImpl.java:310-324 | an entry is kept exactly when it is not the entry of a limited event whose counter has reached its limit. A kept entry occurs as often as in the listing, and nothing is added |
| EventService.SortEvents | ewm-service/src/main/java/ru/practicum/event/EventServiceImpl.java:519-533 | a permutation of the listing: most viewed first, or earliest date first |
| FriendshipService.CheckIdsCorrectness | ewm-service/src/main/java/ru/practicum/user/FriendshipServiceImpl.java:193-198 | passes exactly when the two ids differ. Otherwise it is a validation error |
| FriendshipService.GetFriendships | ewm-service/src/main/java/ru/practicum/user/FriendshipServiceImpl.java:174-191 | equal ids are a validation error, then a missing user is not found. Otherwise it returns the pair's two rows |
| FriendshipService.PairRowsTogether | ewm-service/src/main/java/ru/practicum/user/FriendshipServiceImpl.java:38-41 | in a valid table the two rows of a pair are found together, and one of them is CONFIRMED |
| FriendshipService.AddFriend | ewm-service/src/main/java/ru/practicum/user/FriendshipServiceImpl.java:31-53 | a fresh pair becomes user→friend CONFIRMED and friend→user PENDING. A row that is not CONFIRMED becomes CONFIRMED with the other row unchanged. A row already CONFIRMED is a conflict. On success the user follows the friend, and they are friends exactly when the friend already followed the user |
| FriendshipService.DeleteFriend | ewm-service/src/main/java/ru/practicum/user/FriendshipServiceImpl.java:57-73 | needs user→friend CONFIRMED, otherwise not found. A one-way follow deletes both rows; a mutual one sets user→friend CANCELED. Afterwards they are not friends |
| FriendshipService.CancelFriendshipRequest | ewm-service/src/main/java/ru/practicum/user/FriendshipServiceImpl.java:77-89 | needs user→friend PENDING, otherwise not found, and sets it CANCELED. Afterwards the friend follows the user one way |
| FriendshipService.DeleteFollower | ewm-service/src/main/java/ru/practicum/user/FriendshipServiceImpl.java:93-109 | no rows or a CONFIRMED row is not found, and a PENDING row is a conflict. A CANCELED row deletes both rows of the pair |
| FriendshipService.FillIncomingAndOutgoingRequests | ewm-service/src/main/java/ru/practicum/user/FriendshipServiceImpl.java:161-172 | incoming holds exactly the users who follow the user, and outgoing exactly the user's own CONFIRMED rows, without repeats |
| FriendshipService.FriendsWhere | ewm-service/src/main/java/ru/practicum/user/FriendshipServiceImpl.java:136-159 | lists exactly the outgoing friends whose presence among the incoming ones is as asked, without repeats |
| FriendshipService.OutgoingFriendsDistinct | ewm-service/src/main/java/ru/practicum/user/FriendshipServiceImpl.java:161-172 | the user's distinct outgoing rows name distinct friends |
| FriendshipService.FindFriends | ewm-service/src/main/java/ru/practicum/user/FriendshipServiceImpl.java:136-145 | lists exactly the users who follow the user and are followed back, each once |
| FriendshipService.FindFollowers | ewm-service/src/main/java/ru/practicum/user/FriendshipServiceImpl.java:147-159 | FOLLOWED lists exactly the one-way followers, FOLLOWING exactly the users followed one way, each once and never a friend |
| StatsService.CheckSearchInterval | stats-service/server/src/main/java/ru/practicum/stats/StatsServiceImpl.java:102-108 | passes exactly when start is not after end, so a one-instant window is accepted. Otherwise it is a validation error |
| StatsService.CollectHits | stats-service/server/src/main/java/ru/practicum/stats/StatsServiceImpl.java:39-49 | collects exactly the stored hits inside the closed window whose uri starts with a given prefix, or every hit in the window when no prefix is given |
| StatsService.SortByHits | stats-service/server/src/main/java/ru/practicum/stats/StatsServiceImpl.java:91-95 | a permutation ordered by count, largest first, that keeps endpoints distinct |
| StatsService.Entries | stats-service/server/src/main/java/ru/practicum/stats/StatsServiceImpl.java:60-68 | one entry per key of the count table, with that key's count |
| StatsService.ListsTablePermuted | stats-service/server/src/main/java/ru/practicum/stats/StatsServiceImpl.java:91-95 | a reordering lists the same table |
| StatsService.ListAndSort | stats-service/server/src/main/java/ru/practicum/stats/StatsServiceImpl.java:60-70 | a listing of the table, sorted by count, largest first |
| StatsService.CalcStatsWithRepeatings | stats-service/server/src/main/java/ru/practicum/stats/StatsServiceImpl.java:56-71 | each endpoint of the hits appears once, with the number of its hits, largest first. The counts add up to the number of hits |
| StatsService.CalcStatsWithoutRepeatings | stats-service/server/src/main/java/ru/practicum/stats/StatsServiceImpl.java:73-89 | each endpoint of the hits appears once, with the number of its distinct addresses, largest first |
| StatsService.GetStats | stats-service/server/src/main/java/ru/practicum/stats/StatsServiceImpl.java:35-54 | a window whose start is after its end is a validation error. Otherwise the statistics of exactly the selected hits, all or unique as asked. In all-hits mode the counts add up to the number of selected hits |
| StatsService.SumOfGroups | stats-service/server/src/main/java/ru/practicum/stats/StatsServiceImpl.java:56-71 | full counts of distinct endpoints add up to the number of hits of those endpoints |
| StatsService.CoveredAll | stats-service/server/src/main/java/ru/practicum/stats/StatsServiceImpl.java:60-68 | a listing that names every endpoint of the hits covers all of them |
| StatsService.UniqueAtMostAll | stats-service/server/src/main/java/ru/practicum/stats/StatsServiceImpl.java:56-89 | for every endpoint the unique count is at most the all-hits count |

## Left out

- Concurrency and transaction isolation: each public operation is one sequential atomic method.
- View counts: the stats client, `saveStatistics`, `getViews` and the views half of `fillEventDtoList` are network calls. Views are opaque numbers in the listing entries.
- The search predicates (`composeSearchPredicate`) and paging: these are library wrappers. Listings enter the model ready-made.
- Date and string parsing: instants are integers, and a blank or absent string is `None`.
- Locations: a location is an opaque identifier. Its replacement during an edit (`updateEventByNotNullFields`, the location branch) and its coordinates are not modelled, because they are floating point.
- The CRUD services for categories, users and compilations, the controllers, the error handlers, the DTO mapping other than the event mapper, and the storage interfaces (replaced by maps): these add no logic.
- The `visibility` parameter of `createRequest`: it is passed through and never read.
- The read-only operations `getEventRequests`, `getFriendshipRequests`, `getFriends` and `getFollowers` (beyond the `findFriends`/`findFollowers` they call): they look up records and map them to views. The initiator check of `getEventRequests` (a security refusal for anybody but the initiator) is not modelled either, because it guards a read and changes no state.
- The listing and view operations: the two `getEvents` searches, `getUserEvents`, `getEventById` (both the initiator's and the public one) and `composeEventFullDto`. Their pieces are modelled: Validator.ValidateStartAndEndDates, EventService.GetEventByEventIdAndUserId, EventMapper.ToEventFullDto, EventService.GetEarliestPublishDate, Capacity.ConfirmedCount, EventService.FillConfirmedRequests, EventService.FilterNotAvailableEvents and EventService.SortEvents. The way they chain them (with the view counts and, for the searches, the library search query) is not modelled, because the view counts and the query are both left out.
- Integer width: counts, limits and identifiers are unbounded in the model, while the code holds them in Java `int` and `long`. In particular the sum of the admitted count and the batch size in `needToRejectConfirmedRequests` could wrap in Java and skip the over-limit refusal. That would need more than 2^31 admitted requests, so no behaviour of the modelled core depends on it.
- `saveEndpointHit`: it only stores a hit. EndpointHit.java is not part of this model, so hits are distinct by their row identifier.
- EventService.FilterNotAvailableEvents: states which entries are kept and how often, but not that they keep their order.
- EventService.SortEvents and StatsService.SortByHits: state the order and the permutation, but not the stability of the sort among equal keys.
- EventService.UpdateEventByAdmin: keeps the admission invariant only when the limit is not edited. The administrator may lower the limit of a published event below its admitted count, as the code allows.
- Hash-set and hash-map iteration order: loops over sets pick their next element arbitrarily, and the contracts are independent of that order.
