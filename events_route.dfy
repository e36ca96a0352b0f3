/** `POST /api/events` creates an event for the signed-in user and answers with its
    share token; `GET /api/events` lists the caller's own events. Without a database
    both work on a process-local memory. */
module EventsRoute {
  import opened Wrappers
  import opened Seqs
  import opened Schema
  import Auth

  /** A JavaScript `Date`: a time, or the Invalid Date `new Date(..)` makes of an
      unparseable string. */
  datatype JsDate = ValidDate(t: Instant) | InvalidDate

  /** `new Date(s)`, with `parse` standing for the engine's date parser (`None` for NaN). */
  function ToDate(s: string, parse: string -> Option<Instant>): (d: JsDate)
    ensures d.ValidDate? <==> parse(s).Some?
    ensures d.ValidDate? ==> Some(d.t) == parse(s)
  {
    if parse(s).Some? then ValidDate(parse(s).value) else InvalidDate
  }

  /** The JSON body; a missing or `null` member is `None`. */
  datatype Body = Body(
    title: Option<string>,
    description: Option<string>,
    startsAt: string,
    endsAt: Option<string>,
    locationText: Option<string>,
    visibility: Option<string>)

  /** The route's `row` object. Nothing checks the title or the visibility label. */
  datatype Row = Row(
    ownerId: Id,
    title: Option<string>,
    description: Option<string>,
    startsAt: JsDate,
    endsAt: Option<JsDate>,
    locationText: Option<string>,
    visibility: string,
    shareToken: string)

  function RowOf(ownerId: Id, body: Body, parse: string -> Option<Instant>, token: string): (r: Row)
    ensures r.ownerId == ownerId && r.shareToken == token && r.title == body.title
    ensures r.description == body.description && r.locationText == body.locationText
    ensures r.startsAt == ToDate(body.startsAt, parse)
    ensures r.endsAt.None? <==> body.endsAt.None? || body.endsAt == Some("")
    ensures r.endsAt.Some? ==> r.endsAt == Some(ToDate(body.endsAt.value, parse))
    ensures body.visibility.None? ==> r.visibility == "unlisted"
    ensures body.visibility.Some? ==> r.visibility == body.visibility.value
  {
    Row(
      ownerId,
      body.title,
      body.description,
      ToDate(body.startsAt, parse),
      if body.endsAt.Some? && body.endsAt.value != "" then Some(ToDate(body.endsAt.value, parse)) else None,
      body.locationText,
      body.visibility.GetOr("unlisted"),
      token)
  }

  /** The values the store accepts for the row: a title is present (`NOT NULL`), both
      dates are valid timestamps and the visibility is one of the enum's labels.
      `None` when the store refuses the row. */
  function StoreValues(row: Row): (r: Option<EventValues>)
    ensures r.Some? <==> && row.title.Some?
                         && row.startsAt.ValidDate?
                         && (row.endsAt.Some? ==> row.endsAt.value.ValidDate?)
                         && ParseVisibility(row.visibility).Some?
    ensures r.Some? ==> && r.value.ownerId == row.ownerId && r.value.shareToken == row.shareToken
                        && Some(r.value.title) == row.title && r.value.startsAt == row.startsAt.t
                        && VisibilityName(r.value.visibility) == row.visibility
    ensures r.Some? ==> && r.value.description == row.description
                        && r.value.locationText == row.locationText
                        && r.value.endsAt == (if row.endsAt.Some? then Some(row.endsAt.value.t) else None)
  {
    if row.title.None? || row.startsAt.InvalidDate? || (row.endsAt.Some? && row.endsAt.value.InvalidDate?)
       || ParseVisibility(row.visibility).None?
    then None
    else
      Some(EventValues(row.ownerId, row.title.value, row.description, row.startsAt.t,
                       if row.endsAt.Some? then Some(row.endsAt.value.t) else None,
                       row.locationText, ParseVisibility(row.visibility).value, row.shareToken))
  }

  /** An event of the memory: `{ id, ...row, createdAt: now, updatedAt: now }`. */
  datatype MemoryEvent = MemoryEvent(id: string, row: Row, createdAt: Instant, updatedAt: Instant)

  function MemoryOwnedBy(uid: Id): MemoryEvent -> bool { (m: MemoryEvent) => m.row.ownerId == uid }
  function OwnedBy(uid: Id): Event -> bool { (e: Event) => e.ownerId == uid }
  function CreatedAtKey(e: Event): int { e.createdAt }

  /** `memory.events.filter(e => e.ownerId === uid)`: each of `uid`'s events as often
      as the memory holds it, and no other. */
  function MemoryMine(memory: seq<MemoryEvent>, uid: Id): (r: seq<MemoryEvent>)
    ensures forall m :: m in r <==> m in memory && m.row.ownerId == uid
    ensures forall m :: multiset(r)[m] == if m.row.ownerId == uid then multiset(memory)[m] else 0
  {
    FilterMultiset(MemoryOwnedBy(uid), memory);
    Filter(MemoryOwnedBy(uid), memory)
  }

  /** `SELECT * FROM events WHERE owner_id = uid ORDER BY created_at DESC`. */
  function StoreMine(events: seq<Event>, uid: Id): (r: seq<Event>)
    ensures SortedDesc(r, CreatedAtKey)
    ensures forall e :: e in r <==> e in events && e.ownerId == uid
    ensures forall e :: multiset(r)[e] == if e.ownerId == uid then multiset(events)[e] else 0
  {
    var mine := Filter(OwnedBy(uid), events);
    FilterMultiset(OwnedBy(uid), events);
    SortDescSameRows(mine, CreatedAtKey);
    SortDesc(mine, CreatedAtKey)
  }

  /** Adding an event of `uid` to the memory appends it to `uid`'s listing and leaves
      every other user's listing as it was. */
  lemma MemoryMineAfterPush(memory: seq<MemoryEvent>, m: MemoryEvent, uid: Id)
    ensures m.row.ownerId == uid ==> MemoryMine(memory + [m], uid) == MemoryMine(memory, uid) + [m]
    ensures m.row.ownerId != uid ==> MemoryMine(memory + [m], uid) == MemoryMine(memory, uid)
  {
    FilterSnoc(MemoryOwnedBy(uid), memory, m);
  }

  /** An accepted insert adds the new event to its owner's listing and changes no other user's rows. */
  lemma StoreMineAfterInsert(db: Database, v: EventValues, id: Id, now: Instant, uid: Id)
    requires InsertEvent(db, v, id, now).Ok?
    ensures var e := NewEventRow(v, id, now);
            var after := StoreMine(InsertEvent(db, v, id, now).value.events, uid);
            && (v.ownerId == uid ==> e in after)
            && (forall x :: x in after && x != e ==> x in StoreMine(db.events, uid))
            && (forall x :: x in StoreMine(db.events, uid) ==> x in after)
  {
  }

  datatype Reply =
    | Unauthorized               // 401 { error: "Unauthorized" }
    | Token(shareToken: string)  // { shareToken }
    | ServerError                // the insert throws

  datatype Listing = NoRows | MemoryRows(memoryRows: seq<MemoryEvent>) | StoreRows(rows: seq<Event>)

  /** The route module's state: the memory used without a database, and the store. */
  class EventsApi {
    const configured: bool
    var memory: seq<MemoryEvent>
    var store: Database

    ghost predicate Valid() reads this {
      Schema.Valid(store)
    }

    constructor (configured: bool, store: Database)
      requires Schema.Valid(store)
      ensures Valid() && this.configured == configured && this.store == store && memory == []
    {
      this.configured := configured;
      memory := [];
      this.store := store;
    }

    /** `POST(req)`. `token` is `nano()`, `id` the generated id (`crypto.randomUUID()` or
        the column default) and `now` the clock. */
    method Post(session: Auth.Session, body: Body, parse: string -> Option<Instant>, token: string, id: Id, now: Instant)
      returns (reply: Reply)
      requires Valid()
      modifies this
      ensures Valid()
      ensures !Auth.HasUserId(session) ==> reply == Unauthorized && memory == old(memory) && store == old(store)
      ensures Auth.HasUserId(session) && !configured ==>
        && reply == Token(token)
        && memory == old(memory) + [MemoryEvent(id, RowOf(Auth.UserId(session).value, body, parse, token), now, now)]
        && store == old(store)
      ensures Auth.HasUserId(session) && configured ==> (memory == old(memory) &&
        var v := StoreValues(RowOf(Auth.UserId(session).value, body, parse, token));
        if v.Some? && InsertEvent(old(store), v.value, id, now).Ok? then
          reply == Token(token) && store == InsertEvent(old(store), v.value, id, now).value
        else
          reply == ServerError && store == old(store))
    {
      if !Auth.HasUserId(session) {
        return Unauthorized;
      }
      var row := RowOf(Auth.UserId(session).value, body, parse, token);
      if !configured {
        memory := memory + [MemoryEvent(id, row, now, now)];
        return Token(row.shareToken);
      }
      var v := StoreValues(row);
      if v.None? {
        return ServerError;
      }
      var inserted := InsertEvent(store, v.value, id, now);
      if inserted.Err? {
        return ServerError;
      }
      InsertEventValid(store, v.value, id, now);
      store := inserted.value;
      reply := Token(token);
    }

    /** `GET()`: nothing for an anonymous caller, otherwise the caller's own events. */
    function Get(session: Auth.Session): (r: Listing)
      reads this
      ensures !Auth.HasUserId(session) <==> r == NoRows
      ensures r.MemoryRows? <==> Auth.HasUserId(session) && !configured
      ensures r.MemoryRows? ==> r.memoryRows == MemoryMine(memory, Auth.UserId(session).value)
      ensures r.StoreRows? ==> r.rows == StoreMine(store.events, Auth.UserId(session).value)
      ensures r.MemoryRows? ==> forall m :: m in r.memoryRows <==> m in memory && Some(m.row.ownerId) == Auth.UserId(session)
      ensures r.StoreRows? ==> SortedDesc(r.rows, CreatedAtKey)
      ensures r.StoreRows? ==> forall e :: e in r.rows <==> e in store.events && Some(e.ownerId) == Auth.UserId(session)
    {
      if !Auth.HasUserId(session) then NoRows
      else if !configured then MemoryRows(MemoryMine(memory, Auth.UserId(session).value))
      else StoreRows(StoreMine(store.events, Auth.UserId(session).value))
    }
  }
}
