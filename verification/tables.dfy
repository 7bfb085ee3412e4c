/**
 * The two database tables the routes share: slots (the `Event` table) and
 * swap requests (the `SwapRequest` table), together with the lock invariant
 * that ties a slot's SWAP_PENDING status to the pending requests.
 */
module Tables {

  type UserId = int
  type SlotId = int
  type RequestId = int
  /** Milliseconds since the epoch. */
  type Instant = int

  datatype SlotStatus = Busy | Swappable | SwapPending

  datatype RequestStatus = Pending | Accepted | Rejected

  /** A row of the slot table; its id is its key in the table. */
  datatype Slot = Slot(owner: UserId, title: string, start: Instant, end: Instant, status: SlotStatus)

  /** A row of the swap-request table; its id is its key in the table. */
  datatype SwapRequest = SwapRequest(
    mySlotId: SlotId,
    theirSlotId: SlotId,
    requesterId: UserId,
    responderId: UserId,
    status: RequestStatus,
    createdAt: Instant)

  /** The whole database: both tables and their autoincrement counters. */
  datatype Db = Db(
    events: map<SlotId, Slot>,
    requests: map<RequestId, SwapRequest>,
    nextSlotId: int,
    nextRequestId: int)

  const EmptyDb := Db(map[], map[], 1, 1)

  /** Autoincrement keys start at 1 and every key lies below its counter. */
  ghost predicate WellFormed(db: Db) {
    && 1 <= db.nextSlotId
    && 1 <= db.nextRequestId
    && (forall id :: id in db.events ==> 1 <= id < db.nextSlotId)
    && (forall id :: id in db.requests ==> 1 <= id < db.nextRequestId)
  }

  predicate References(req: SwapRequest, slot: SlotId) {
    req.mySlotId == slot || req.theirSlotId == slot
  }

  /** The pending requests that name `slot` on either side. */
  ghost function PendingRefs(requests: map<RequestId, SwapRequest>, slot: SlotId): set<RequestId> {
    set r | r in requests && requests[r].status == Pending && References(requests[r], slot)
  }

  /**
   * The lock discipline: every pending request names two distinct existing
   * slots, no slot is named by two pending requests, and a slot is
   * SWAP_PENDING exactly when one pending request names it.
   */
  ghost predicate LockInvariant(db: Db) {
    && (forall r :: r in db.requests && db.requests[r].status == Pending ==>
          && db.requests[r].mySlotId in db.events
          && db.requests[r].theirSlotId in db.events
          && db.requests[r].mySlotId != db.requests[r].theirSlotId)
    && (forall s :: s in db.events ==> |PendingRefs(db.requests, s)| <= 1)
    && (forall s :: s in db.events ==>
          (db.events[s].status == SwapPending <==> |PendingRefs(db.requests, s)| == 1))
  }

  /** Every id names a row, and the rows' start instants never decrease along `ids`. */
  ghost predicate StartOrdered(events: map<SlotId, Slot>, ids: seq<SlotId>) {
    && (forall i :: 0 <= i < |ids| ==> ids[i] in events)
    && (forall i, j :: 0 <= i < j < |ids| ==> events[ids[i]].start <= events[ids[j]].start)
  }

  /** Every id names a request, and the requests' creation instants never increase along `ids`. */
  ghost predicate NewestFirst(requests: map<RequestId, SwapRequest>, ids: seq<RequestId>) {
    && (forall i :: 0 <= i < |ids| ==> ids[i] in requests)
    && (forall i, j :: 0 <= i < j < |ids| ==> requests[ids[i]].createdAt >= requests[ids[j]].createdAt)
  }

  /** The database client: both tables are fields that the handlers reassign. */
  class Store {
    var events: map<SlotId, Slot>
    var requests: map<RequestId, SwapRequest>
    var nextSlotId: int
    var nextRequestId: int

    function State(): Db
      reads this
    {
      Db(events, requests, nextSlotId, nextRequestId)
    }

    constructor ()
      ensures State() == EmptyDb
      ensures WellFormed(State()) && LockInvariant(State())
    {
      events := map[];
      requests := map[];
      nextSlotId := 1;
      nextRequestId := 1;
    }
  }

  /** Writing request `rid` removes it from every slot's pending set and adds it back where it is pending and names the slot. */
  lemma PendingRefsAfterWrite(requests: map<RequestId, SwapRequest>, rid: RequestId, req: SwapRequest, slot: SlotId)
    ensures PendingRefs(requests[rid := req], slot)
         == (PendingRefs(requests, slot) - {rid}) + (if req.status == Pending && References(req, slot) then {rid} else {})
  {
  }

  /**
   * Recording a new pending request over two distinct slots that were not
   * SWAP_PENDING, and locking exactly those two, keeps the lock invariant.
   */
  lemma {:induction false} LockingKeepsInvariant(db: Db, db': Db, rid: RequestId, req: SwapRequest)
    requires LockInvariant(db)
    requires rid !in db.requests && req.status == Pending
    requires req.mySlotId in db.events && req.theirSlotId in db.events && req.mySlotId != req.theirSlotId
    requires db.events[req.mySlotId].status != SwapPending && db.events[req.theirSlotId].status != SwapPending
    requires db'.requests == db.requests[rid := req]
    requires db'.events.Keys == db.events.Keys
    requires db'.events[req.mySlotId].status == SwapPending && db'.events[req.theirSlotId].status == SwapPending
    requires forall k :: k in db.events && !References(req, k) ==> db'.events[k].status == db.events[k].status
    ensures LockInvariant(db')
  {
    forall s | s in db'.events
      ensures |PendingRefs(db'.requests, s)| <= 1
      ensures db'.events[s].status == SwapPending <==> |PendingRefs(db'.requests, s)| == 1
    {
      PendingRefsAfterWrite(db.requests, rid, req, s);
      assert rid !in PendingRefs(db.requests, s);
      assert PendingRefs(db.requests, s) - {rid} == PendingRefs(db.requests, s);
      if References(req, s) {
        assert |PendingRefs(db.requests, s)| == 0;
        assert PendingRefs(db'.requests, s) == {rid};
      }
    }
  }

  /**
   * Moving a pending request to a final status, with its two slots left not
   * SWAP_PENDING and every other slot's status untouched, keeps the lock invariant.
   */
  lemma {:induction false} UnlockingKeepsInvariant(db: Db, db': Db, rid: RequestId, final: RequestStatus)
    requires LockInvariant(db)
    requires rid in db.requests && db.requests[rid].status == Pending && final != Pending
    requires db'.requests == db.requests[rid := db.requests[rid].(status := final)]
    requires db'.events.Keys == db.events.Keys
    requires db'.events[db.requests[rid].mySlotId].status != SwapPending
    requires db'.events[db.requests[rid].theirSlotId].status != SwapPending
    requires forall k :: k in db.events && !References(db.requests[rid], k) ==> db'.events[k].status == db.events[k].status
    ensures LockInvariant(db')
  {
    var sr := db.requests[rid];
    forall s | s in db'.events
      ensures |PendingRefs(db'.requests, s)| <= 1
      ensures db'.events[s].status == SwapPending <==> |PendingRefs(db'.requests, s)| == 1
    {
      PendingRefsAfterWrite(db.requests, rid, sr.(status := final), s);
      if References(sr, s) {
        assert rid in PendingRefs(db.requests, s);
        AtMostOneMember(PendingRefs(db.requests, s), rid);
        assert PendingRefs(db'.requests, s) == {};
      } else {
        assert rid !in PendingRefs(db.requests, s);
        assert PendingRefs(db'.requests, s) == PendingRefs(db.requests, s);
      }
    }
  }

  /** A set with at most one element that contains `x` is exactly `{x}`. */
  lemma AtMostOneMember<T>(a: set<T>, x: T)
    requires |a| <= 1 && x in a
    ensures a == {x}
  {
    assert |a - {x}| == |a| - 1;
  }
}
