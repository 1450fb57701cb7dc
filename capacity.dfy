/** The admitted count of an event and how the request operations change it.
    The count is never stored: it is the number of CONFIRMED requests of the
    event in the request table (ParticipationRequestStorage.countByEvent_IdAndStatus). */
module Capacity {
  import opened Model

  type Requests = map<int, ParticipationRequest>

  function IdsWithStatus(m: Requests, e: int, s: RequestStatus): set<int> {
    set id | id in m && m[id].event == e && m[id].status == s
  }

  function ConfirmedIds(m: Requests, e: int): set<int> {
    IdsWithStatus(m, e, RequestStatus.Confirmed)
  }

  function PendingIds(m: Requests, e: int): set<int> {
    IdsWithStatus(m, e, RequestStatus.Pending)
  }

  function RejectedIds(m: Requests, e: int): set<int> {
    IdsWithStatus(m, e, RequestStatus.Rejected)
  }

  /** The admitted count of event `e`. */
  function ConfirmedCount(m: Requests, e: int): nat {
    |ConfirmedIds(m, e)|
  }

  /** Every limited event admits at most its participant limit. */
  ghost predicate WithinCapacity(events: map<int, Event>, m: Requests) {
    forall e :: e in events && events[e].participantLimit > 0 ==>
      ConfirmedCount(m, e) <= events[e].participantLimit
  }

  /** The table after giving every request of `ids` the status `s`. */
  function WithStatus(m: Requests, ids: set<int>, s: RequestStatus): Requests {
    map id | id in m :: if id in ids then m[id].(status := s) else m[id]
  }

  /** The table after a moderation batch: the batch gets `s`; with `cascade`
      every request of `e` still pending afterwards becomes REJECTED. */
  function Moderated(m: Requests, e: int, ids: set<int>, s: RequestStatus, cascade: bool): Requests {
    var batch := WithStatus(m, ids, s);
    if cascade then WithStatus(batch, PendingIds(batch, e), RequestStatus.Rejected) else batch
  }

  /** The requests of one event `e` that are all PENDING. */
  ghost predicate PendingOf(m: Requests, e: int, ids: set<int>) {
    forall id :: id in ids ==> id in m && m[id].event == e && m[id].status == RequestStatus.Pending
  }

  /** Changing the status of pending requests of `e` admits them exactly when the
      new status is CONFIRMED, and leaves the admitted set of every event
      otherwise the same. */
  lemma StatusChangeOfPending(m: Requests, e: int, ids: set<int>, s: RequestStatus, e': int)
    requires PendingOf(m, e, ids)
    ensures ConfirmedIds(WithStatus(m, ids, s), e') ==
      ConfirmedIds(m, e') + (if s == RequestStatus.Confirmed && e' == e then ids else {})
    ensures ConfirmedIds(m, e') !! ids
    ensures ConfirmedCount(WithStatus(m, ids, s), e') ==
      ConfirmedCount(m, e') + (if s == RequestStatus.Confirmed && e' == e then |ids| else 0)
  {
    var m' := WithStatus(m, ids, s);
    var extra := if s == RequestStatus.Confirmed && e' == e then ids else {};
    forall id | id in ids ensures id !in ConfirmedIds(m, e') {
      assert m[id].status == RequestStatus.Pending;
    }
    assert ConfirmedIds(m', e') == ConfirmedIds(m, e') + extra by {
      forall id ensures id in ConfirmedIds(m', e') <==> id in ConfirmedIds(m, e') + extra {
        if id in m && id in ids {
          assert m'[id] == m[id].(status := s);
        }
      }
    }
  }

  /** The cascade leaves no pending request of `e` behind and changes no other event. */
  lemma CascadeEffect(m: Requests, e: int)
    ensures PendingIds(WithStatus(m, PendingIds(m, e), RequestStatus.Rejected), e) == {}
    ensures forall id :: id in m && m[id].event != e ==>
      WithStatus(m, PendingIds(m, e), RequestStatus.Rejected)[id] == m[id]
  {
    var m' := WithStatus(m, PendingIds(m, e), RequestStatus.Rejected);
    forall id | id in m' ensures !(m'[id].event == e && m'[id].status == RequestStatus.Pending) {
      if id in PendingIds(m, e) {
        assert m'[id].status == RequestStatus.Rejected;
      }
    }
  }

  /** What one successful moderation does to the admitted sets. */
  lemma ModerationAdmits(m: Requests, e: int, ids: set<int>, s: RequestStatus, cascade: bool)
    requires PendingOf(m, e, ids)
    ensures ConfirmedCount(Moderated(m, e, ids, s, cascade), e) ==
      ConfirmedCount(m, e) + (if s == RequestStatus.Confirmed then |ids| else 0)
    ensures forall e' :: e' != e ==>
      ConfirmedIds(Moderated(m, e, ids, s, cascade), e') == ConfirmedIds(m, e')
  {
    var batch := WithStatus(m, ids, s);
    StatusChangeOfPending(m, e, ids, s, e);
    forall e' | e' != e ensures ConfirmedIds(Moderated(m, e, ids, s, cascade), e') == ConfirmedIds(m, e') {
      StatusChangeOfPending(m, e, ids, s, e');
      if cascade {
        StatusChangeOfPending(batch, e, PendingIds(batch, e), RequestStatus.Rejected, e');
      }
    }
    if cascade {
      StatusChangeOfPending(batch, e, PendingIds(batch, e), RequestStatus.Rejected, e);
    }
  }

  /** What one successful moderation does to the single requests. */
  lemma ModerationStatuses(m: Requests, e: int, ids: set<int>, s: RequestStatus, cascade: bool)
    requires PendingOf(m, e, ids)
    ensures Moderated(m, e, ids, s, cascade).Keys == m.Keys
    ensures cascade ==> PendingIds(Moderated(m, e, ids, s, cascade), e) == {}
    ensures forall id :: id in m && m[id].event != e ==> Moderated(m, e, ids, s, cascade)[id] == m[id]
    ensures forall id :: id in ids ==>
      Moderated(m, e, ids, s, cascade)[id].status ==
        (if cascade && s == RequestStatus.Pending then RequestStatus.Rejected else s)
  {
    if cascade {
      CascadeEffect(WithStatus(m, ids, s), e);
    }
  }

  /** Storing a new request adds it to its event's admitted set exactly when it is CONFIRMED. */
  lemma AddRequestIds(m: Requests, id: int, r: ParticipationRequest, e: int)
    requires id !in m
    ensures ConfirmedIds(m[id := r], e) ==
      ConfirmedIds(m, e) + (if r.event == e && r.status == RequestStatus.Confirmed then {id} else {})
  {
    var m' := m[id := r];
    var extra := if r.event == e && r.status == RequestStatus.Confirmed then {id} else {};
    forall x ensures x in ConfirmedIds(m', e) <==> x in ConfirmedIds(m, e) + extra {
      if x == id {
        assert m'[x] == r;
      } else if x in m {
        assert m'[x] == m[x];
      }
    }
  }

  /** Storing a new request admits it exactly when it is CONFIRMED. */
  lemma AddRequestEffect(m: Requests, id: int, r: ParticipationRequest, e: int)
    requires id !in m
    ensures ConfirmedIds(m[id := r], e) ==
      ConfirmedIds(m, e) + (if r.event == e && r.status == RequestStatus.Confirmed then {id} else {})
    ensures ConfirmedCount(m[id := r], e) ==
      ConfirmedCount(m, e) + (if r.event == e && r.status == RequestStatus.Confirmed then 1 else 0)
  {
    AddRequestIds(m, id, r, e);
    if r.event == e && r.status == RequestStatus.Confirmed {
      assert id !in ConfirmedIds(m, e);
    }
  }

  /** Storing a new request keeps every limited event within its limit when the
      request is not CONFIRMED or its event still had room. */
  lemma AddRequestWithinCapacity(events: map<int, Event>, m: Requests, id: int, r: ParticipationRequest)
    requires WithinCapacity(events, m) && id !in m
    requires (r.event in events && r.status == RequestStatus.Confirmed && events[r.event].participantLimit > 0 ==>
      ConfirmedCount(m, r.event) < events[r.event].participantLimit)
    ensures WithinCapacity(events, m[id := r])
  {
    forall e | e in events && events[e].participantLimit > 0
      ensures ConfirmedCount(m[id := r], e) <= events[e].participantLimit
    {
      AddRequestEffect(m, id, r, e);
    }
  }

  /** Cancelling a request never admits anyone. */
  lemma CancelEffect(m: Requests, id: int, e: int)
    requires id in m
    ensures ConfirmedIds(m[id := m[id].(status := RequestStatus.Canceled)], e) == ConfirmedIds(m, e) - {id}
    ensures ConfirmedCount(m[id := m[id].(status := RequestStatus.Canceled)], e) <= ConfirmedCount(m, e)
  {
    var m' := m[id := m[id].(status := RequestStatus.Canceled)];
    assert ConfirmedIds(m', e) == ConfirmedIds(m, e) - {id};
    assert ConfirmedIds(m', e) <= ConfirmedIds(m, e);
  }
}
