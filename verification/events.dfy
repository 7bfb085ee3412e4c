/**
 * The slot routes (backend/src/routes/events.ts): create, patch-update,
 * delete and list one's own slots. Each handler is a method on the shared
 * Store whose effect is given by a transition function on the database value.
 */
module Events {
  import opened Wrappers
  import opened Tables
  import Query

  /** A field of the parsed JSON request body. Numbers are integral. */
  datatype JsValue = Undefined | Null | Bool(b: bool) | Num(n: int) | NonFinite | Str(s: string) | Compound

  /** The largest distance from the epoch, in milliseconds, that a `Date` accepts. */
  const MaxTime := 8_640_000_000_000_000

  /** How `new Date(string)` reads a date string: an instant, or None for an invalid date. */
  type DateParser = string -> Option<Instant>

  /** `parseDateOrNull`: numbers are epoch milliseconds, strings go to the date parser, anything else is null. */
  function ParseDateOrNull(v: JsValue, parseIso: DateParser): (d: Option<Instant>)
    ensures d.Some? ==> v.Num? || v.Str?
    ensures v.Num? ==> (d.Some? <==> -MaxTime <= v.n <= MaxTime)
    ensures v.Num? && d.Some? ==> d.value == v.n
    ensures v.Str? ==> d == parseIso(v.s)
  {
    match v
    case Num(n) => if -MaxTime <= n <= MaxTime then Some(n) else None
    case Str(s) => parseIso(s)
    case _ => None
  }

  /** The request body of POST and PUT; `None` stands for an absent or null field. */
  datatype EventBody = EventBody(title: Option<string>, startTime: JsValue, endTime: JsValue, status: Option<string>)

  datatype EventError = TitleRequired | InvalidDates | EndNotAfterStart | NotFound | StartInvalid | EndInvalid

  /** The status strings stored in the table. */
  function StatusName(st: SlotStatus): string {
    match st
    case Busy => "BUSY"
    case Swappable => "SWAPPABLE"
    case SwapPending => "SWAP_PENDING"
  }

  /** The status a string names, if it names one. */
  function StatusNamed(name: string): (st: Option<SlotStatus>)
    ensures st.Some? ==> StatusName(st.value) == name
    ensures forall s :: StatusName(s) == name ==> st == Some(s)
  {
    if name == "BUSY" then Some(Busy)
    else if name == "SWAPPABLE" then Some(Swappable)
    else if name == "SWAP_PENDING" then Some(SwapPending)
    else None
  }

  /** POST keeps "SWAPPABLE" and "BUSY" and turns every other value into BUSY. */
  function CreateStatus(status: Option<string>): (st: SlotStatus)
    ensures st != SwapPending
    ensures st == Swappable <==> status == Some("SWAPPABLE")
  {
    if status == Some(StatusName(Swappable)) || status == Some(StatusName(Busy)) then
      StatusNamed(status.value).value
    else
      Busy
  }

  /** PUT takes any of the three status names, SWAP_PENDING included, and otherwise keeps `current`. */
  function UpdateStatus(status: Option<string>, current: SlotStatus): (st: SlotStatus)
    ensures (exists s :: status == Some(StatusName(s))) ==> status == Some(StatusName(st))
    ensures (forall s :: status != Some(StatusName(s))) ==> st == current
  {
    if status.Some? && StatusNamed(status.value).Some? then StatusNamed(status.value).value else current
  }

  /** POST /: validate the body and add a slot owned by the caller under the next id. */
  function Create(db: Db, caller: UserId, body: EventBody, parseIso: DateParser): (out: (Result<SlotId, EventError>, Db))
    ensures out.0.Err? ==> out.1 == db
  {
    if body.title.None? || body.title.value == "" then (Err(TitleRequired), db)
    else
      var start := ParseDateOrNull(body.startTime, parseIso);
      var end := ParseDateOrNull(body.endTime, parseIso);
      if start.None? || end.None? then (Err(InvalidDates), db)
      else if end.value <= start.value then (Err(EndNotAfterStart), db)
      else
        var id := db.nextSlotId;
        var slot := Slot(caller, body.title.value, start.value, end.value, CreateStatus(body.status));
        (Ok(id), db.(events := db.events[id := slot], nextSlotId := id + 1))
  }

  /** The PUT body merged into an existing row: absent fields keep their old values. */
  function MergePatch(existing: Slot, body: EventBody, parseIso: DateParser): (r: Result<Slot, EventError>)
    ensures r.Ok? ==> r.value.owner == existing.owner && r.value.start < r.value.end
  {
    var start := if body.startTime != Undefined then ParseDateOrNull(body.startTime, parseIso) else Some(existing.start);
    var end := if body.endTime != Undefined then ParseDateOrNull(body.endTime, parseIso) else Some(existing.end);
    if body.startTime != Undefined && start.None? then Err(StartInvalid)
    else if body.endTime != Undefined && end.None? then Err(EndInvalid)
    else if end.value <= start.value then Err(EndNotAfterStart)
    else
      var title := if body.title.Some? then body.title.value else existing.title;
      Ok(Slot(existing.owner, title, start.value, end.value, UpdateStatus(body.status, existing.status)))
  }

  /** The `findFirst({ where: { id, userId } })` lookup: row `id` exists and belongs to `caller`. */
  predicate OwnedBy(db: Db, id: SlotId, caller: UserId)
    ensures OwnedBy(db, id, caller) ==> id in db.events && db.events[id].owner == caller
  {
    id in db.events && db.events[id].owner == caller
  }

  /** PUT /:id: only the owner's own row is found; it is replaced by the merged row. */
  function Update(db: Db, caller: UserId, id: SlotId, body: EventBody, parseIso: DateParser): (out: (Result<Slot, EventError>, Db))
    ensures out.0.Err? ==> out.1 == db
    ensures !OwnedBy(db, id, caller) ==> out.0 == Err(NotFound)
    ensures OwnedBy(db, id, caller) ==> out.0 == MergePatch(db.events[id], body, parseIso)
    ensures out.0.Ok? ==> out.1 == db.(events := db.events[id := out.0.value])
  {
    if !OwnedBy(db, id, caller) then (Err(NotFound), db)
    else
      match MergePatch(db.events[id], body, parseIso)
      case Err(e) => (Err(e), db)
      case Ok(slot) => (Ok(slot), db.(events := db.events[id := slot]))
  }

  /** DELETE /:id: only the owner's own row is found; it is removed whatever its status. */
  function Delete(db: Db, caller: UserId, id: SlotId): (out: (Outcome<EventError>, Db))
    ensures out.0.Pass? <==> OwnedBy(db, id, caller)
    ensures out.0.Fail? ==> out.0.error == NotFound && out.1 == db
    ensures out.0.Pass? ==> out.1 == db.(events := db.events - {id})
  {
    if !OwnedBy(db, id, caller) then (Fail(NotFound), db)
    else (Pass, db.(events := db.events - {id}))
  }

  // ----- The handlers -----

  method CreateEvent(store: Store, caller: UserId, body: EventBody, parseIso: DateParser)
    returns (r: Result<SlotId, EventError>)
    modifies store
    ensures (r, store.State()) == Create(old(store.State()), caller, body, parseIso)
  {
    if body.title.None? || body.title.value == "" {
      return Err(TitleRequired);
    }
    var start := ParseDateOrNull(body.startTime, parseIso);
    var end := ParseDateOrNull(body.endTime, parseIso);
    if start.None? || end.None? {
      return Err(InvalidDates);
    }
    if end.value <= start.value {
      return Err(EndNotAfterStart);
    }
    var status := CreateStatus(body.status);
    var id := store.nextSlotId;
    store.events := store.events[id := Slot(caller, body.title.value, start.value, end.value, status)];
    store.nextSlotId := id + 1;
    r := Ok(id);
  }

  method UpdateEvent(store: Store, caller: UserId, id: SlotId, body: EventBody, parseIso: DateParser)
    returns (r: Result<Slot, EventError>)
    modifies store
    ensures (r, store.State()) == Update(old(store.State()), caller, id, body, parseIso)
  {
    if !(id in store.events && store.events[id].owner == caller) {
      return Err(NotFound);
    }
    var existing := store.events[id];
    r := MergePatch(existing, body, parseIso);
    if r.Ok? {
      store.events := store.events[id := r.value];
    }
  }

  method DeleteEvent(store: Store, caller: UserId, id: SlotId) returns (r: Outcome<EventError>)
    modifies store
    ensures (r, store.State()) == Delete(old(store.State()), caller, id)
  {
    if !(id in store.events && store.events[id].owner == caller) {
      return Fail(NotFound);
    }
    store.events := store.events - {id};
    r := Pass;
  }

  /** GET /: the caller's slots, earliest start first. */
  method ListOwnEvents(store: Store, caller: UserId) returns (ids: seq<SlotId>)
    requires WellFormed(store.State())
    ensures forall id :: id in ids <==> id in store.events && store.events[id].owner == caller
    ensures Query.NoDuplicates(ids)
    ensures StartOrdered(store.events, ids)
  {
    var events := store.events;
    ids := Query.SelectSorted(1, store.nextSlotId,
      id => id in events && events[id].owner == caller,
      id => if id in events then events[id].start else 0);
  }

  // ----- Properties -----

  /**
   * Create succeeds exactly on a non-empty title, two valid dates and end after
   * start; it then stores the caller's row with that title, those dates and the
   * normalised status under the next id, and changes nothing else.
   */
  lemma CreateSucceedsIff(db: Db, caller: UserId, body: EventBody, parseIso: DateParser)
    ensures var (r, db') := Create(db, caller, body, parseIso);
      && (r.Ok? <==>
           && body.title.Some? && body.title.value != ""
           && ParseDateOrNull(body.startTime, parseIso).Some?
           && ParseDateOrNull(body.endTime, parseIso).Some?
           && ParseDateOrNull(body.startTime, parseIso).value < ParseDateOrNull(body.endTime, parseIso).value)
      && (r.Ok? ==>
           && r.value == db.nextSlotId
           && db' == db.(events := db.events[r.value := Slot(caller, body.title.value,
                                                             ParseDateOrNull(body.startTime, parseIso).value,
                                                             ParseDateOrNull(body.endTime, parseIso).value,
                                                             CreateStatus(body.status))],
                         nextSlotId := r.value + 1))
  {
  }

  /** Create keeps the keys below their counters and, by never creating a SWAP_PENDING row, keeps the lock invariant. */
  lemma CreatePreservesInvariants(db: Db, caller: UserId, body: EventBody, parseIso: DateParser)
    requires WellFormed(db) && LockInvariant(db)
    ensures WellFormed(Create(db, caller, body, parseIso).1)
    ensures LockInvariant(Create(db, caller, body, parseIso).1)
  {
    var (r, db') := Create(db, caller, body, parseIso);
    if r.Ok? {
      var id := r.value;
      assert id !in db.events;
      forall s | s in db'.events
        ensures PendingRefs(db'.requests, s) == PendingRefs(db.requests, s)
      {
      }
      forall q | q in db.requests && db.requests[q].status == Pending
        ensures !References(db.requests[q], id)
      {
      }
      assert PendingRefs(db.requests, id) == {};
    }
  }

  /** An update stores the merged row, never changes the owner, and leaves every other row and every request as it was. */
  lemma UpdateFrame(db: Db, caller: UserId, id: SlotId, body: EventBody, parseIso: DateParser)
    requires Update(db, caller, id, body, parseIso).0.Ok?
    ensures var db' := Update(db, caller, id, body, parseIso).1;
      && OwnedBy(db, id, caller)
      && db'.events.Keys == db.events.Keys
      && db'.events[id] == MergePatch(db.events[id], body, parseIso).value
      && db'.events[id].owner == caller
      && (forall k :: k in db.events && k != id ==> db'.events[k] == db.events[k])
      && db'.requests == db.requests
      && db'.nextSlotId == db.nextSlotId
  {
  }

  /** Patch semantics: a field the body leaves out keeps its old value. */
  lemma PatchKeepsAbsentFields(existing: Slot, body: EventBody, parseIso: DateParser)
    requires MergePatch(existing, body, parseIso).Ok?
    ensures var s := MergePatch(existing, body, parseIso).value;
      && (body.title.None? ==> s.title == existing.title)
      && (body.startTime == Undefined ==> s.start == existing.start)
      && (body.endTime == Undefined ==> s.end == existing.end)
      && ((forall st :: body.status != Some(StatusName(st))) ==> s.status == existing.status)
  {
  }

  /** Patch semantics: a supplied title, a supplied parsed date and a legal status name replace the old value. */
  lemma PatchTakesSuppliedFields(existing: Slot, body: EventBody, parseIso: DateParser)
    requires MergePatch(existing, body, parseIso).Ok?
    ensures var s := MergePatch(existing, body, parseIso).value;
      && (body.title.Some? ==> s.title == body.title.value)
      && (body.startTime != Undefined ==> Some(s.start) == ParseDateOrNull(body.startTime, parseIso))
      && (body.endTime != Undefined ==> Some(s.end) == ParseDateOrNull(body.endTime, parseIso))
      && s.status == UpdateStatus(body.status, existing.status)
  {
  }

  /**
   * A patch succeeds exactly when every supplied date parses and the merged end
   * is after the merged start; the title and the status never cause a refusal,
   * whatever the row's current status.
   */
  lemma PatchSucceedsIff(existing: Slot, body: EventBody, parseIso: DateParser)
    ensures var start := if body.startTime != Undefined then ParseDateOrNull(body.startTime, parseIso) else Some(existing.start);
      var end := if body.endTime != Undefined then ParseDateOrNull(body.endTime, parseIso) else Some(existing.end);
      MergePatch(existing, body, parseIso).Ok? <==> start.Some? && end.Some? && start.value < end.value
  {
  }

  /** An empty body leaves a well-formed row unchanged. */
  lemma EmptyPatchIsIdentity(existing: Slot, parseIso: DateParser)
    requires existing.start < existing.end
    ensures MergePatch(existing, EventBody(None, Undefined, Undefined, None), parseIso) == Ok(existing)
  {
  }

  /** A date that is present but does not parse is an error, even when the other bound is absent. */
  lemma PatchRejectsBadDate(existing: Slot, body: EventBody, parseIso: DateParser)
    requires body.startTime != Undefined && ParseDateOrNull(body.startTime, parseIso).None?
    ensures MergePatch(existing, body, parseIso) == Err(StartInvalid)
  {
  }

  /** An end date that is present but does not parse is an error once the start is acceptable. */
  lemma PatchRejectsBadEnd(existing: Slot, body: EventBody, parseIso: DateParser)
    requires body.startTime == Undefined || ParseDateOrNull(body.startTime, parseIso).Some?
    requires body.endTime != Undefined && ParseDateOrNull(body.endTime, parseIso).None?
    ensures MergePatch(existing, body, parseIso) == Err(EndInvalid)
  {
  }

  /** The bounds are checked after merging: moving only the end to or before the old start fails. */
  lemma PatchChecksMergedBounds(existing: Slot, body: EventBody, parseIso: DateParser)
    requires body.startTime == Undefined
    requires ParseDateOrNull(body.endTime, parseIso).Some?
    requires ParseDateOrNull(body.endTime, parseIso).value <= existing.start
    ensures MergePatch(existing, body, parseIso) == Err(EndNotAfterStart)
  {
  }

  /** The owner may set SWAP_PENDING, and may set any status on a slot that is pending. */
  lemma PatchAcceptsAnyStatus(existing: Slot, st: SlotStatus, parseIso: DateParser)
    requires existing.start < existing.end
    ensures MergePatch(existing, EventBody(None, Undefined, Undefined, Some(StatusName(st))), parseIso)
            == Ok(existing.(status := st))
  {
  }

  /** Unlike create, an update may set the empty title. */
  lemma PatchAllowsEmptyTitle(existing: Slot, parseIso: DateParser)
    requires existing.start < existing.end
    ensures MergePatch(existing, EventBody(Some(""), Undefined, Undefined, None), parseIso) == Ok(existing.(title := ""))
    ensures Create(EmptyDb, existing.owner, EventBody(Some(""), Num(existing.start), Num(existing.end), None), parseIso).0
            == Err(TitleRequired)
  {
  }

  /** Two users' slots locked by one pending request: a state that satisfies the lock invariant. */
  const LockedPair := Db(
    map[1 := Slot(10, "standup", 0, 60, SwapPending), 2 := Slot(20, "review", 0, 60, SwapPending)],
    map[1 := SwapRequest(1, 2, 10, 20, Pending, 0)],
    3, 2)

  lemma LockedPairIsLocked()
    ensures WellFormed(LockedPair) && LockInvariant(LockedPair)
  {
    var requests := LockedPair.requests;
    assert PendingRefs(requests, 1) == {1} by {
      forall q ensures q in PendingRefs(requests, 1) <==> q == 1 { }
    }
    assert PendingRefs(requests, 2) == {1} by {
      forall q ensures q in PendingRefs(requests, 2) <==> q == 1 { }
    }
  }

  /** Nothing stops the owner of a locked slot from setting it to BUSY, which breaks the lock invariant. */
  lemma OwnerUpdateCanBreakLock(parseIso: DateParser)
    ensures LockInvariant(LockedPair)
    ensures var (r, db') := Update(LockedPair, 10, 1, EventBody(None, Undefined, Undefined, Some("BUSY")), parseIso);
      r.Ok? && !LockInvariant(db')
  {
    LockedPairIsLocked();
    var (r, db') := Update(LockedPair, 10, 1, EventBody(None, Undefined, Undefined, Some("BUSY")), parseIso);
    assert db'.requests == LockedPair.requests;
    assert 1 in PendingRefs(db'.requests, 1);
    assert PendingRefs(db'.requests, 1) == PendingRefs(LockedPair.requests, 1);
    assert db'.events[1].status == Busy;
  }

  /**
   * Nothing stops the owner of a locked slot from deleting it, leaving a
   * pending request that names a missing slot. This rests on the delete
   * reaching the table: the schema's referential action for the request's
   * slot relations is not part of this model.
   */
  lemma OwnerDeleteCanBreakLock()
    ensures LockInvariant(LockedPair)
    ensures var (r, db') := Delete(LockedPair, 10, 1);
      r.Pass? && !LockInvariant(db')
  {
    LockedPairIsLocked();
    var (r, db') := Delete(LockedPair, 10, 1);
    assert 1 !in db'.events;
    assert db'.requests[1].status == Pending && db'.requests[1].mySlotId == 1;
  }
}
