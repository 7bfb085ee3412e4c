/**
 * The swap routes (backend/src/routes/swaps.ts): the marketplace list, the
 * proposal, the response and the request lists. Each `$transaction` block is
 * one atomic step of a handler method; the transition functions `Propose` and
 * `Respond` give the whole effect of a call on the database value.
 */
module Swaps {
  import opened Wrappers
  import opened Tables
  import Query
  import Events

  datatype ProposeError = MissingSlotIds | InvalidSlots | NotSwappable | SelfSwap

  datatype RespondError =
    | NotFound
    | Forbidden
    | NotPending
    | SlotUpdateFailed   // a reject-path update found no row, so its transaction rolled back
    | SlotsDisappeared
    | SlotsNotPending

  /** A slot id in the body counts as given unless it is absent or 0 (both falsy). */
  predicate Given(id: Option<SlotId>)
    ensures Given(id) ==> id.Some?
    ensures id == Some(0) ==> !Given(id)
  {
    id.Some? && id.value != 0
  }

  /** `events` with the status of row `id` replaced. */
  function WithStatus(events: map<SlotId, Slot>, id: SlotId, st: SlotStatus): (e: map<SlotId, Slot>)
    requires id in events
    ensures e.Keys == events.Keys && e[id] == events[id].(status := st)
    ensures forall k :: k in events && k != id ==> e[k] == events[k]
  {
    events[id := events[id].(status := st)]
  }

  /** POST /swap-request: validate, then lock both slots and record a pending request. */
  function Propose(db: Db, caller: UserId, mySlotId: Option<SlotId>, theirSlotId: Option<SlotId>, now: Instant)
    : (out: (Result<RequestId, ProposeError>, Db))
    ensures out.0.Err? ==> out.1 == db
  {
    if !Given(mySlotId) || !Given(theirSlotId) then (Err(MissingSlotIds), db)
    else
      var my, their := mySlotId.value, theirSlotId.value;
      if !Events.OwnedBy(db, my, caller) || their !in db.events then (Err(InvalidSlots), db)
      else if db.events[my].status != Swappable || db.events[their].status != Swappable then (Err(NotSwappable), db)
      else if db.events[their].owner == caller then (Err(SelfSwap), db)
      else
        var rid := db.nextRequestId;
        var req := SwapRequest(my, their, caller, db.events[their].owner, Pending, now);
        var locked := WithStatus(WithStatus(db.events, my, SwapPending), their, SwapPending);
        (Ok(rid), db.(requests := db.requests[rid := req], nextRequestId := rid + 1, events := locked))
  }

  /** POST /swap-response/:requestId: checks, then the reject or the accept transaction. */
  function Respond(db: Db, caller: UserId, requestId: RequestId, accept: bool)
    : (out: (Result<RequestStatus, RespondError>, Db))
    ensures out.0.Err? ==> out.1 == db
  {
    if requestId !in db.requests then (Err(NotFound), db)
    else
      var sr := db.requests[requestId];
      if sr.responderId != caller then (Err(Forbidden), db)
      else if sr.status != Pending then (Err(NotPending), db)
      else if !accept then
        // The reject transaction reads no slot; it fails only if an update finds no row.
        if sr.mySlotId !in db.events || sr.theirSlotId !in db.events then (Err(SlotUpdateFailed), db)
        else
          var released := WithStatus(WithStatus(db.events, sr.mySlotId, Swappable), sr.theirSlotId, Swappable);
          (Ok(Rejected), db.(requests := db.requests[requestId := sr.(status := Rejected)], events := released))
      else if sr.mySlotId !in db.events || sr.theirSlotId !in db.events then (Err(SlotsDisappeared), db)
      else if db.events[sr.mySlotId].status != SwapPending || db.events[sr.theirSlotId].status != SwapPending then
        (Err(SlotsNotPending), db)
      else
        var e1 := db.events[sr.mySlotId := db.events[sr.mySlotId].(owner := sr.responderId, status := Busy)];
        var e2 := e1[sr.theirSlotId := e1[sr.theirSlotId].(owner := sr.requesterId, status := Busy)];
        (Ok(Accepted), db.(events := e2, requests := db.requests[requestId := sr.(status := Accepted)]))
  }

  // ----- The handlers -----

  /** GET /swappable-slots: other users' SWAPPABLE slots, earliest start first. */
  method SwappableSlots(store: Store, caller: UserId) returns (ids: seq<SlotId>)
    requires WellFormed(store.State())
    ensures forall id :: id in ids <==>
      id in store.events && store.events[id].status == Swappable && store.events[id].owner != caller
    ensures Query.NoDuplicates(ids)
    ensures StartOrdered(store.events, ids)
  {
    var events := store.events;
    ids := Query.SelectSorted(1, store.nextSlotId,
      id => id in events && events[id].status == Swappable && events[id].owner != caller,
      id => if id in events then events[id].start else 0);
  }

  method ProposeSwap(store: Store, caller: UserId, mySlotId: Option<SlotId>, theirSlotId: Option<SlotId>, now: Instant)
    returns (r: Result<RequestId, ProposeError>)
    modifies store
    ensures (r, store.State()) == Propose(old(store.State()), caller, mySlotId, theirSlotId, now)
  {
    if !Given(mySlotId) || !Given(theirSlotId) {
      return Err(MissingSlotIds);
    }
    var my, their := mySlotId.value, theirSlotId.value;
    if !(my in store.events && store.events[my].owner == caller) || their !in store.events {
      return Err(InvalidSlots);
    }
    var mySlot, theirSlot := store.events[my], store.events[their];
    if mySlot.status != Swappable || theirSlot.status != Swappable {
      return Err(NotSwappable);
    }
    if theirSlot.owner == caller {
      return Err(SelfSwap);
    }
    // The transaction: create the request, then lock both slots.
    var rid := store.nextRequestId;
    store.requests := store.requests[rid := SwapRequest(my, their, caller, theirSlot.owner, Pending, now)];
    store.nextRequestId := rid + 1;
    store.events := store.events[my := store.events[my].(status := SwapPending)];
    store.events := store.events[their := store.events[their].(status := SwapPending)];
    r := Ok(rid);
  }

  method RespondSwap(store: Store, caller: UserId, requestId: RequestId, accept: bool)
    returns (r: Result<RequestStatus, RespondError>)
    modifies store
    ensures (r, store.State()) == Respond(old(store.State()), caller, requestId, accept)
  {
    if requestId !in store.requests {
      return Err(NotFound);
    }
    var sr := store.requests[requestId];
    if sr.responderId != caller {
      return Err(Forbidden);
    }
    if sr.status != Pending {
      return Err(NotPending);
    }
    if !accept {
      // The reject transaction: all three updates, or none when a row is missing.
      if sr.mySlotId !in store.events || sr.theirSlotId !in store.events {
        return Err(SlotUpdateFailed);
      }
      store.requests := store.requests[requestId := sr.(status := Rejected)];
      store.events := store.events[sr.mySlotId := store.events[sr.mySlotId].(status := Swappable)];
      store.events := store.events[sr.theirSlotId := store.events[sr.theirSlotId].(status := Swappable)];
      return Ok(Rejected);
    }
    // The accept transaction: re-read both slots, then exchange owners.
    if sr.mySlotId !in store.events || sr.theirSlotId !in store.events {
      return Err(SlotsDisappeared);
    }
    var mySlot, theirSlot := store.events[sr.mySlotId], store.events[sr.theirSlotId];
    if mySlot.status != SwapPending || theirSlot.status != SwapPending {
      return Err(SlotsNotPending);
    }
    store.events := store.events[sr.mySlotId := mySlot.(owner := sr.responderId, status := Busy)];
    store.events := store.events[sr.theirSlotId := store.events[sr.theirSlotId].(owner := sr.requesterId, status := Busy)];
    store.requests := store.requests[requestId := sr.(status := Accepted)];
    r := Ok(Accepted);
  }

  /** GET /requests: requests the caller must answer and requests the caller made, newest first. */
  method ListRequests(store: Store, caller: UserId) returns (incoming: seq<RequestId>, outgoing: seq<RequestId>)
    requires WellFormed(store.State())
    ensures forall id :: id in incoming <==> id in store.requests && store.requests[id].responderId == caller
    ensures forall id :: id in outgoing <==> id in store.requests && store.requests[id].requesterId == caller
    ensures Query.NoDuplicates(incoming) && Query.NoDuplicates(outgoing)
    ensures NewestFirst(store.requests, incoming) && NewestFirst(store.requests, outgoing)
  {
    var requests := store.requests;
    var newestFirst := id => if id in requests then -requests[id].createdAt else 0;
    incoming := Query.SelectSorted(1, store.nextRequestId,
      id => id in requests && requests[id].responderId == caller, newestFirst);
    outgoing := Query.SelectSorted(1, store.nextRequestId,
      id => id in requests && requests[id].requesterId == caller, newestFirst);
  }

  // ----- Properties of a proposal -----

  /** A proposal succeeds exactly on two given ids, the caller's own SWAPPABLE slot and another user's SWAPPABLE slot. */
  lemma ProposeSucceedsIff(db: Db, caller: UserId, mySlotId: Option<SlotId>, theirSlotId: Option<SlotId>, now: Instant)
    ensures Propose(db, caller, mySlotId, theirSlotId, now).0.Ok? <==>
      && Given(mySlotId) && Given(theirSlotId)
      && Events.OwnedBy(db, mySlotId.value, caller) && db.events[mySlotId.value].status == Swappable
      && theirSlotId.value in db.events && db.events[theirSlotId.value].status == Swappable
      && db.events[theirSlotId.value].owner != caller
  {
  }

  /**
   * The checks run in order: missing ids, then a missing or foreign offered
   * slot or a missing requested slot, then a slot that is not SWAPPABLE, and
   * only then a requested slot of the caller's own.
   */
  lemma ProposeErrorOrder(db: Db, caller: UserId, mySlotId: Option<SlotId>, theirSlotId: Option<SlotId>, now: Instant)
    ensures var r := Propose(db, caller, mySlotId, theirSlotId, now).0;
      && (r == Err(MissingSlotIds) <==> !Given(mySlotId) || !Given(theirSlotId))
      && (r == Err(InvalidSlots) <==>
            Given(mySlotId) && Given(theirSlotId)
            && (!Events.OwnedBy(db, mySlotId.value, caller) || theirSlotId.value !in db.events))
      && (r == Err(NotSwappable) <==>
            Given(mySlotId) && Given(theirSlotId)
            && Events.OwnedBy(db, mySlotId.value, caller) && theirSlotId.value in db.events
            && (db.events[mySlotId.value].status != Swappable || db.events[theirSlotId.value].status != Swappable))
      && (r == Err(SelfSwap) <==>
            Given(mySlotId) && Given(theirSlotId)
            && Events.OwnedBy(db, mySlotId.value, caller) && theirSlotId.value in db.events
            && db.events[mySlotId.value].status == Swappable && db.events[theirSlotId.value].status == Swappable
            && db.events[theirSlotId.value].owner == caller)
  {
  }

  /** An offered slot that is missing and one that belongs to someone else get the same error. */
  lemma ProposeForeignSlotLikeMissing(db: Db, caller: UserId, my: SlotId, their: SlotId, now: Instant)
    requires my != 0 && their != 0
    requires !Events.OwnedBy(db, my, caller)
    ensures Propose(db, caller, Some(my), Some(their), now) == (Err(InvalidSlots), db)
  {
  }

  /**
   * Offering a slot for itself never succeeds. The status check comes first:
   * the caller sees "not swappable" unless the slot is SWAPPABLE, and only then "self swap".
   */
  lemma ProposeSameSlotFails(db: Db, caller: UserId, id: SlotId, now: Instant)
    requires id != 0
    ensures Propose(db, caller, Some(id), Some(id), now).0
         == if !Events.OwnedBy(db, id, caller) then Err(InvalidSlots)
            else if db.events[id].status != Swappable then Err(NotSwappable)
            else Err(SelfSwap)
  {
  }

  /**
   * A successful proposal adds exactly one request, PENDING, from the caller to
   * the owner of the requested slot, under a fresh id; it locks both slots and
   * changes nothing else.
   */
  lemma ProposeEffect(db: Db, caller: UserId, mySlotId: Option<SlotId>, theirSlotId: Option<SlotId>, now: Instant)
    requires WellFormed(db)
    requires Propose(db, caller, mySlotId, theirSlotId, now).0.Ok?
    ensures var (r, db') := Propose(db, caller, mySlotId, theirSlotId, now);
      var my, their := mySlotId.value, theirSlotId.value;
      && r.value == db.nextRequestId && r.value !in db.requests
      && db'.nextRequestId == db.nextRequestId + 1
      && db'.requests == db.requests[r.value := SwapRequest(my, their, caller, db.events[their].owner, Pending, now)]
      && my != their
      && db'.events.Keys == db.events.Keys
      && db'.events[my] == db.events[my].(status := SwapPending)
      && db'.events[their] == db.events[their].(status := SwapPending)
      && (forall k :: k in db.events && k != my && k != their ==> db'.events[k] == db.events[k])
      && db'.nextSlotId == db.nextSlotId
  {
  }

  /** A proposal keeps the keys below their counters and keeps the lock invariant. */
  lemma ProposePreservesInvariants(db: Db, caller: UserId, mySlotId: Option<SlotId>, theirSlotId: Option<SlotId>, now: Instant)
    requires WellFormed(db) && LockInvariant(db)
    ensures WellFormed(Propose(db, caller, mySlotId, theirSlotId, now).1)
    ensures LockInvariant(Propose(db, caller, mySlotId, theirSlotId, now).1)
  {
    var (r, db') := Propose(db, caller, mySlotId, theirSlotId, now);
    if r.Ok? {
      ProposeEffect(db, caller, mySlotId, theirSlotId, now);
      LockingKeepsInvariant(db, db', r.value, db'.requests[r.value]);
    }
  }

  // ----- Properties of a response -----

  /** The checks run in order: a missing request, then the wrong responder, then a finished request. */
  lemma RespondErrorOrder(db: Db, caller: UserId, requestId: RequestId, accept: bool)
    ensures var r := Respond(db, caller, requestId, accept).0;
      && (r == Err(NotFound) <==> requestId !in db.requests)
      && (r == Err(Forbidden) <==> requestId in db.requests && db.requests[requestId].responderId != caller)
      && (r == Err(NotPending) <==>
            requestId in db.requests && db.requests[requestId].responderId == caller
            && db.requests[requestId].status != Pending)
  {
  }

  /** Once a response succeeds, every later response to the same request fails and changes nothing. */
  lemma SecondResponseFails(db: Db, caller: UserId, requestId: RequestId, accept: bool, caller2: UserId, accept2: bool)
    requires Respond(db, caller, requestId, accept).0.Ok?
    ensures var db' := Respond(db, caller, requestId, accept).1;
      var (r2, db'') := Respond(db', caller2, requestId, accept2);
      && (r2 == Err(Forbidden) || r2 == Err(NotPending))
      && db'' == db'
  {
  }

  /**
   * A response succeeds exactly when the caller answers a pending request whose
   * two slots still exist; a rejection reads no slot status, and an acceptance
   * needs both slots SWAP_PENDING.
   */
  lemma RespondSucceedsIff(db: Db, caller: UserId, requestId: RequestId, accept: bool)
    ensures Respond(db, caller, requestId, accept).0.Ok? <==>
      && requestId in db.requests
      && db.requests[requestId].responderId == caller
      && db.requests[requestId].status == Pending
      && db.requests[requestId].mySlotId in db.events
      && db.requests[requestId].theirSlotId in db.events
      && (accept ==>
            && db.events[db.requests[requestId].mySlotId].status == SwapPending
            && db.events[db.requests[requestId].theirSlotId].status == SwapPending)
  {
  }

  /** A rejection marks the request REJECTED and both slots SWAPPABLE, whatever their status was; no owner and no counter changes. */
  lemma RejectEffect(db: Db, caller: UserId, requestId: RequestId)
    requires Respond(db, caller, requestId, false).0.Ok?
    ensures var (r, db') := Respond(db, caller, requestId, false);
      var sr := db.requests[requestId];
      && r == Ok(Rejected)
      && db'.requests == db.requests[requestId := sr.(status := Rejected)]
      && db'.events.Keys == db.events.Keys
      && db'.events[sr.mySlotId] == db.events[sr.mySlotId].(status := Swappable)
      && db'.events[sr.theirSlotId] == db.events[sr.theirSlotId].(status := Swappable)
      && (forall k :: k in db.events ==> db'.events[k].owner == db.events[k].owner)
      && (forall k :: k in db.events && !References(sr, k) ==> db'.events[k] == db.events[k])
      && db'.nextSlotId == db.nextSlotId && db'.nextRequestId == db.nextRequestId
  {
  }

  /**
   * An acceptance needs both slots still present and SWAP_PENDING; it then gives
   * the offered slot to the responder and the requested slot to the requester,
   * marks both BUSY and the request ACCEPTED, and changes nothing else.
   */
  lemma AcceptEffect(db: Db, caller: UserId, requestId: RequestId)
    requires Respond(db, caller, requestId, true).0.Ok?
    ensures var (r, db') := Respond(db, caller, requestId, true);
      var sr := db.requests[requestId];
      var my, their := sr.mySlotId, sr.theirSlotId;
      && r == Ok(Accepted)
      && my in db.events && their in db.events
      && db.events[my].status == SwapPending && db.events[their].status == SwapPending
      && db'.requests == db.requests[requestId := sr.(status := Accepted)]
      && db'.events.Keys == db.events.Keys
      && (my != their ==> db'.events[my] == db.events[my].(owner := sr.responderId, status := Busy))
      && db'.events[their] == db.events[their].(owner := sr.requesterId, status := Busy)
      && (forall k :: k in db.events && !References(sr, k) ==> db'.events[k] == db.events[k])
      && db'.nextSlotId == db.nextSlotId && db'.nextRequestId == db.nextRequestId
  {
  }

  /** A response keeps the keys below their counters and keeps the lock invariant. */
  lemma RespondPreservesInvariants(db: Db, caller: UserId, requestId: RequestId, accept: bool)
    requires WellFormed(db) && LockInvariant(db)
    ensures WellFormed(Respond(db, caller, requestId, accept).1)
    ensures LockInvariant(Respond(db, caller, requestId, accept).1)
  {
    var (r, db') := Respond(db, caller, requestId, accept);
    if r.Ok? {
      if accept {
        AcceptEffect(db, caller, requestId);
        UnlockingKeepsInvariant(db, db', requestId, Accepted);
      } else {
        RejectEffect(db, caller, requestId);
        UnlockingKeepsInvariant(db, db', requestId, Rejected);
      }
    }
  }

  /**
   * Under the lock invariant the responder of a pending request always succeeds:
   * the accept transaction's re-check and the reject path's row updates never fail.
   */
  lemma RespondSucceedsUnderLock(db: Db, requestId: RequestId, accept: bool)
    requires LockInvariant(db)
    requires requestId in db.requests && db.requests[requestId].status == Pending
    ensures Respond(db, db.requests[requestId].responderId, requestId, accept).0
         == Ok(if accept then Accepted else Rejected)
  {
    var sr := db.requests[requestId];
    assert requestId in PendingRefs(db.requests, sr.mySlotId);
    AtMostOneMember(PendingRefs(db.requests, sr.mySlotId), requestId);
    assert requestId in PendingRefs(db.requests, sr.theirSlotId);
    AtMostOneMember(PendingRefs(db.requests, sr.theirSlotId), requestId);
  }

  /** Proposing and then rejecting restores every slot; only the REJECTED request remains. */
  lemma ProposeThenRejectRestoresSlots(db: Db, caller: UserId, mySlotId: Option<SlotId>, theirSlotId: Option<SlotId>, now: Instant)
    requires WellFormed(db)
    requires Propose(db, caller, mySlotId, theirSlotId, now).0.Ok?
    ensures var (r, db1) := Propose(db, caller, mySlotId, theirSlotId, now);
      var responder := db.events[theirSlotId.value].owner;
      var (r2, db2) := Respond(db1, responder, r.value, false);
      && r2 == Ok(Rejected)
      && db2.events == db.events
      && db2.requests == db.requests[r.value := db1.requests[r.value].(status := Rejected)]
  {
    var (r, db1) := Propose(db, caller, mySlotId, theirSlotId, now);
    var responder := db.events[theirSlotId.value].owner;
    var db2 := Respond(db1, responder, r.value, false).1;
    ProposeEffect(db, caller, mySlotId, theirSlotId, now);
    assert db2.events == db.events by {
      forall k | k in db.events
        ensures db2.events[k] == db.events[k]
      {
      }
    }
  }

  /**
   * Deleting either slot of a pending request, which the owner may do, leaves
   * the request pending: every response to it then fails and changes nothing,
   * and the other slot stays SWAP_PENDING. This rests on the delete reaching the table and
   * leaving the request row in place: the schema's referential action for the
   * request's slot relations is not part of this model.
   */
  lemma DeletingLockedSlotStrandsRequest(db: Db, requestId: RequestId, accept: bool)
    requires LockInvariant(db)
    requires requestId in db.requests && db.requests[requestId].status == Pending
    ensures var sr := db.requests[requestId];
      var (d, db1) := Events.Delete(db, db.events[sr.mySlotId].owner, sr.mySlotId);
      && d.Pass?
      && Respond(db1, sr.responderId, requestId, accept).0.Err?
      && Respond(db1, sr.responderId, requestId, accept).1 == db1
      && db1.requests[requestId].status == Pending
      && db1.events[sr.theirSlotId].status == SwapPending
  {
    var sr := db.requests[requestId];
    assert requestId in PendingRefs(db.requests, sr.theirSlotId);
    AtMostOneMember(PendingRefs(db.requests, sr.theirSlotId), requestId);
  }

  /** Slots 1 and 2 locked by request 1 between users 10 and 20; user 30 offers slot 3. */
  const ThreeUsers := Db(
    map[1 := Slot(10, "standup", 0, 60, SwapPending),
        2 := Slot(20, "review", 0, 60, SwapPending),
        3 := Slot(30, "retro", 0, 60, Swappable)],
    map[1 := SwapRequest(1, 2, 10, 20, Pending, 0)],
    4, 2)

  /**
   * Because the owner may unlock a pending slot, one slot can end up in two
   * pending requests; after one of them is accepted, rejecting the other sets
   * the slot the new owner just received back to SWAPPABLE.
   */
  lemma OwnerUnlockAllowsDoubleBooking(parseIso: Events.DateParser)
    ensures LockInvariant(ThreeUsers)
    ensures
      var unlock := Events.EventBody(None, Events.Undefined, Events.Undefined, Some("SWAPPABLE"));
      var (u, db1) := Events.Update(ThreeUsers, 20, 2, unlock, parseIso);
      var (p, db2) := Propose(db1, 30, Some(3), Some(2), 5);
      var (a, db3) := Respond(db2, 20, 2, true);
      var (j, db4) := Respond(db3, 20, 1, false);
      && u.Ok? && p == Ok(2) && {1, 2} <= PendingRefs(db2.requests, 2)
      && a == Ok(Accepted) && db3.events[2] == Slot(30, "review", 0, 60, Busy)
      && j == Ok(Rejected) && db4.events[2] == Slot(30, "review", 0, 60, Swappable)
  {
    var requests := ThreeUsers.requests;
    assert PendingRefs(requests, 1) == {1} by {
      forall q ensures q in PendingRefs(requests, 1) <==> q == 1 { }
    }
    assert PendingRefs(requests, 2) == {1} by {
      forall q ensures q in PendingRefs(requests, 2) <==> q == 1 { }
    }
    assert PendingRefs(requests, 3) == {} by {
      forall q ensures q !in PendingRefs(requests, 3) { }
    }
  }
}
