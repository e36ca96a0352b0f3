/** The relational schema: the enums with their defaults, one row type per
    application table, the uniqueness and foreign-key constraints as table
    invariants, and the store's own reactions to inserts and deletes
    (constraint checks, `ON DELETE CASCADE`, `ON DELETE SET NULL`).

    Tables are sequences of rows in storage order. */
module Schema {
  import opened Wrappers
  import opened Seqs

  /** Row identities and tokens are opaque strings (uuids, nano ids). */
  type Id = string

  /** A timestamp, in milliseconds since the epoch. */
  type Instant = int

  datatype InviteStatus = Pending | Accepted | Declined
  datatype RsvpResponse = Yes | No | Maybe
  datatype EventStatus = Open | Closed
  datatype Visibility = Unlisted | Private | Public

  const DefaultInviteStatus: InviteStatus := Pending
  const DefaultEventStatus: EventStatus := Open
  const DefaultVisibility: Visibility := Unlisted

  function RsvpResponseName(r: RsvpResponse): string {
    match r
    case Yes => "yes"
    case No => "no"
    case Maybe => "maybe"
  }

  function EventStatusName(s: EventStatus): string {
    match s
    case Open => "open"
    case Closed => "closed"
  }

  function VisibilityName(v: Visibility): string {
    match v
    case Unlisted => "unlisted"
    case Private => "private"
    case Public => "public"
  }

  /** The cast of a text value to the `visibility` enum: only its three labels are accepted. */
  function ParseVisibility(s: string): (r: Option<Visibility>)
    ensures r.Some? <==> s == "unlisted" || s == "private" || s == "public"
    ensures r.Some? ==> VisibilityName(r.value) == s
  {
    if s == "unlisted" then Some(Unlisted)
    else if s == "private" then Some(Private)
    else if s == "public" then Some(Public)
    else None
  }

  /** Every visibility survives the round trip through its label. */
  lemma VisibilityRoundTrip(v: Visibility)
    ensures ParseVisibility(VisibilityName(v)) == Some(v)
  {
  }

  datatype User = User(id: Id, email: Option<string>)

  datatype Event = Event(
    id: Id,
    ownerId: Id,
    title: string,
    description: Option<string>,
    startsAt: Instant,
    endsAt: Option<Instant>,
    locationText: Option<string>,
    visibility: Visibility,
    shareToken: string,
    createdAt: Instant,
    updatedAt: Instant,
    status: EventStatus)

  datatype Comment = Comment(id: Id, eventId: Id, userId: Option<Id>, body: string, createdAt: Instant)

  datatype Invite = Invite(
    id: Id,
    eventId: Id,
    email: string,
    inviteToken: string,
    status: InviteStatus,
    respondedAt: Option<Instant>,
    createdAt: Instant)

  datatype Rsvp = Rsvp(
    id: Id,
    eventId: Id,
    userId: Option<Id>,
    email: Option<string>,
    response: RsvpResponse,
    createdAt: Instant)

  datatype Database = Database(
    users: seq<User>,
    events: seq<Event>,
    comments: seq<Comment>,
    invites: seq<Invite>,
    rsvps: seq<Rsvp>)

  // Keys of the unique constraints; None is SQL NULL, which never conflicts.
  function UserKey(u: User): Option<Id> { Some(u.id) }
  function UserEmailKey(u: User): Option<string> { u.email }
  function EventKey(e: Event): Option<Id> { Some(e.id) }
  function ShareTokenKey(e: Event): Option<string> { Some(e.shareToken) }
  function CommentKey(c: Comment): Option<Id> { Some(c.id) }
  function InviteKey(i: Invite): Option<Id> { Some(i.id) }
  function InviteTokenKey(i: Invite): Option<string> { Some(i.inviteToken) }
  function RsvpKey(r: Rsvp): Option<Id> { Some(r.id) }
  /** `rsvps_event_email_idx`: a row with a NULL email is not constrained. */
  function RsvpEventEmailKey(r: Rsvp): Option<(Id, string)> {
    if r.email.Some? then Some((r.eventId, r.email.value)) else None
  }

  function UserIds(db: Database): set<Id> { set u | u in db.users :: u.id }
  function EventIds(db: Database): set<Id> { set e | e in db.events :: e.id }
  function ShareTokens(db: Database): set<string> { set e | e in db.events :: e.shareToken }
  function CommentIds(db: Database): set<Id> { set c | c in db.comments :: c.id }

  predicate UsersUnique(db: Database) {
    UniqueBy(db.users, UserKey) && UniqueBy(db.users, UserEmailKey)
  }

  predicate EventsUnique(db: Database) {
    UniqueBy(db.events, EventKey) && UniqueBy(db.events, ShareTokenKey)
  }

  predicate CommentsUnique(db: Database) {
    UniqueBy(db.comments, CommentKey)
  }

  predicate InvitesUnique(db: Database) {
    UniqueBy(db.invites, InviteKey) && UniqueBy(db.invites, InviteTokenKey)
  }

  predicate RsvpsUnique(db: Database) {
    UniqueBy(db.rsvps, RsvpKey) && UniqueBy(db.rsvps, RsvpEventEmailKey)
  }

  predicate OptRef(r: Option<Id>, ids: set<Id>) {
    r.Some? ==> r.value in ids
  }

  /** Every foreign key names an existing row (a NULL user reference names none). */
  predicate RefsResolve(db: Database) {
    && (forall e :: e in db.events ==> e.ownerId in UserIds(db))
    && (forall c :: c in db.comments ==> c.eventId in EventIds(db) && OptRef(c.userId, UserIds(db)))
    && (forall i :: i in db.invites ==> i.eventId in EventIds(db))
    && (forall r :: r in db.rsvps ==> r.eventId in EventIds(db) && OptRef(r.userId, UserIds(db)))
  }

  /** The table invariants the store maintains. */
  predicate Valid(db: Database) {
    && UsersUnique(db) && EventsUnique(db) && CommentsUnique(db) && InvitesUnique(db) && RsvpsUnique(db)
    && RefsResolve(db)
  }

  /** In a valid store no two events share an id or a share token, every event's
      owner is a stored user, and every comment's event is a stored event. */
  lemma ValidMeans(db: Database)
    requires Valid(db)
    ensures forall i, j :: 0 <= i < j < |db.events| ==>
      db.events[i].id != db.events[j].id && db.events[i].shareToken != db.events[j].shareToken
    ensures forall e :: e in db.events ==> exists u :: u in db.users && u.id == e.ownerId
    ensures forall c :: c in db.comments ==> exists e :: e in db.events && e.id == c.eventId
  {
    forall i, j | 0 <= i < j < |db.events|
      ensures db.events[i].id != db.events[j].id && db.events[i].shareToken != db.events[j].shareToken
    {
      assert EventKey(db.events[i]) != EventKey(db.events[j]);
      assert ShareTokenKey(db.events[i]) != ShareTokenKey(db.events[j]);
    }
  }

  datatype Violation = UniqueViolation | ForeignKeyViolation

  /** The values an insert into `events` supplies; the store fills in the rest. */
  datatype EventValues = EventValues(
    ownerId: Id,
    title: string,
    description: Option<string>,
    startsAt: Instant,
    endsAt: Option<Instant>,
    locationText: Option<string>,
    visibility: Visibility,
    shareToken: string)

  /** The row the store creates: a generated id, `status` at its default, both timestamps now. */
  function NewEventRow(v: EventValues, id: Id, now: Instant): (e: Event)
    ensures e.status == DefaultEventStatus && e.createdAt == e.updatedAt == now
    ensures e.ownerId == v.ownerId && e.shareToken == v.shareToken && e.visibility == v.visibility
  {
    Event(id, v.ownerId, v.title, v.description, v.startsAt, v.endsAt, v.locationText,
          v.visibility, v.shareToken, now, now, DefaultEventStatus)
  }

  /** `INSERT INTO events`: rejected when the id or the share token is taken or the owner is unknown. */
  function InsertEvent(db: Database, v: EventValues, id: Id, now: Instant): (r: Result<Database, Violation>)
    ensures r.Ok? <==> id !in EventIds(db) && v.shareToken !in ShareTokens(db) && v.ownerId in UserIds(db)
    ensures r.Ok? ==> r.value == db.(events := db.events + [NewEventRow(v, id, now)])
    ensures r.Err? && (id in EventIds(db) || v.shareToken in ShareTokens(db)) ==> r.error == UniqueViolation
  {
    if id in EventIds(db) || v.shareToken in ShareTokens(db) then Err(UniqueViolation)
    else if v.ownerId !in UserIds(db) then Err(ForeignKeyViolation)
    else Ok(db.(events := db.events + [NewEventRow(v, id, now)]))
  }

  /** Appending a row whose key is not yet taken keeps the key unique. */
  lemma AppendUniqueBy<T, K>(s: seq<T>, x: T, key: T -> Option<K>)
    requires UniqueBy(s, key)
    requires key(x).Some? ==> forall y :: y in s ==> key(y) != key(x)
    ensures UniqueBy(s + [x], key)
  {
    var t := s + [x];
    forall i, j | 0 <= i < j < |t| && key(t[i]).Some? ensures key(t[i]) != key(t[j]) {
      if j == |s| { assert t[i] in s; }
    }
  }

  /** An accepted event insert keeps every table invariant. */
  lemma InsertEventValid(db: Database, v: EventValues, id: Id, now: Instant)
    requires Valid(db) && InsertEvent(db, v, id, now).Ok?
    ensures Valid(InsertEvent(db, v, id, now).value)
  {
    var e := NewEventRow(v, id, now);
    var db' := InsertEvent(db, v, id, now).value;
    forall y | y in db.events ensures EventKey(y) != EventKey(e) && ShareTokenKey(y) != ShareTokenKey(e) {
      assert y.id in EventIds(db) && y.shareToken in ShareTokens(db);
    }
    AppendUniqueBy(db.events, e, EventKey);
    AppendUniqueBy(db.events, e, ShareTokenKey);
    assert EventIds(db) <= EventIds(db') by {
      forall x | x in EventIds(db) ensures x in EventIds(db') {
        var y :| y in db.events && y.id == x;
        assert y in db'.events;
      }
    }
  }

  /** `INSERT INTO comments`: rejected when the id is taken or a reference is dangling. */
  function InsertComment(db: Database, c: Comment): (r: Result<Database, Violation>)
    ensures r.Ok? <==> c.id !in CommentIds(db) && c.eventId in EventIds(db) && OptRef(c.userId, UserIds(db))
    ensures r.Ok? ==> r.value == db.(comments := db.comments + [c])
  {
    if c.id in CommentIds(db) then Err(UniqueViolation)
    else if c.eventId !in EventIds(db) || !OptRef(c.userId, UserIds(db)) then Err(ForeignKeyViolation)
    else Ok(db.(comments := db.comments + [c]))
  }

  /** An accepted comment insert keeps every table invariant. */
  lemma InsertCommentValid(db: Database, c: Comment)
    requires Valid(db) && InsertComment(db, c).Ok?
    ensures Valid(InsertComment(db, c).value)
  {
    forall y | y in db.comments ensures CommentKey(y) != CommentKey(c) {
      assert y.id in CommentIds(db);
    }
    AppendUniqueBy(db.comments, c, CommentKey);
  }

  function HasShareToken(token: string): Event -> bool { (e: Event) => e.shareToken == token }

  /** The first event (in storage order) with the given share token. */
  function FindByShareToken(events: seq<Event>, token: string): (r: Option<Event>)
    ensures r.Some? ==> r.value in events && r.value.shareToken == token
    ensures r.None? <==> forall e :: e in events ==> e.shareToken != token
  {
    FindFirst(HasShareToken(token), events)
  }

  // ----- UPDATE events SET status = ... WHERE id = ...

  function WithStatus(id: Id, st: EventStatus): Event -> Event {
    (e: Event) => if e.id == id then e.(status := st) else e
  }

  /** `UPDATE events SET status = st WHERE id = id`. */
  function SetEventStatus(db: Database, id: Id, st: EventStatus): (r: Database)
    ensures r.users == db.users && r.comments == db.comments && r.invites == db.invites && r.rsvps == db.rsvps
    ensures |r.events| == |db.events|
    ensures forall i :: 0 <= i < |db.events| && db.events[i].id == id ==> r.events[i] == db.events[i].(status := st)
    ensures forall i :: 0 <= i < |db.events| && db.events[i].id != id ==> r.events[i] == db.events[i]
  {
    db.(events := MapSeq(WithStatus(id, st), db.events))
  }

  /** Setting the status keeps the set of event ids. */
  lemma SetEventStatusKeepsIds(db: Database, id: Id, st: EventStatus)
    ensures EventIds(SetEventStatus(db, id, st)) == EventIds(db)
  {
    var r := SetEventStatus(db, id, st);
    forall x | x in EventIds(db) ensures x in EventIds(r) {
      var k :| 0 <= k < |db.events| && db.events[k].id == x;
      assert r.events[k].id == x;
    }
    forall x | x in EventIds(r) ensures x in EventIds(db) {
      var k :| 0 <= k < |r.events| && r.events[k].id == x;
      assert db.events[k].id == x;
    }
  }

  /** Setting the status keeps every event's owner. */
  lemma SetEventStatusKeepsOwners(db: Database, id: Id, st: EventStatus)
    requires forall e :: e in db.events ==> e.ownerId in UserIds(db)
    ensures forall e :: e in SetEventStatus(db, id, st).events ==> e.ownerId in UserIds(db)
  {
    var r := SetEventStatus(db, id, st);
    forall e | e in r.events ensures e.ownerId in UserIds(db) {
      var k :| 0 <= k < |r.events| && r.events[k] == e;
      assert db.events[k] in db.events;
    }
  }

  /** Setting the status keeps every table invariant. */
  lemma SetEventStatusValid(db: Database, id: Id, st: EventStatus)
    requires Valid(db)
    ensures Valid(SetEventStatus(db, id, st))
  {
    MapUniqueBy(WithStatus(id, st), db.events, EventKey);
    MapUniqueBy(WithStatus(id, st), db.events, ShareTokenKey);
    SetEventStatusKeepsIds(db, id, st);
    SetEventStatusKeepsOwners(db, id, st);
  }

  /** Setting a status twice is setting it once. */
  lemma SetEventStatusIdempotent(db: Database, id: Id, st: EventStatus)
    ensures SetEventStatus(SetEventStatus(db, id, st), id, st) == SetEventStatus(db, id, st)
  {
    var r1 := SetEventStatus(db, id, st);
    var r2 := SetEventStatus(r1, id, st);
    assert r2.events == r1.events;
  }

  /** When the row already has the status (or no row has the id) the table is unchanged. */
  lemma SetEventStatusUnchanged(db: Database, id: Id, st: EventStatus)
    requires forall e :: e in db.events && e.id == id ==> e.status == st
    ensures SetEventStatus(db, id, st) == db
  {
    var r := SetEventStatus(db, id, st);
    forall i | 0 <= i < |db.events| ensures r.events[i] == db.events[i] {
      assert db.events[i] in db.events;
    }
    assert r.events == db.events;
  }

  /** Closing an open event and reopening it restores the table. */
  lemma ReopenUndoesClose(db: Database, id: Id)
    requires forall e :: e in db.events && e.id == id ==> e.status == Open
    ensures SetEventStatus(SetEventStatus(db, id, Closed), id, Open) == db
  {
    var r1 := SetEventStatus(db, id, Closed);
    var r2 := SetEventStatus(r1, id, Open);
    forall i | 0 <= i < |db.events| ensures r2.events[i] == db.events[i] {
      assert db.events[i] in db.events;
    }
    assert r2.events == db.events;
  }

  // ----- DELETE FROM events WHERE id = ...  (ON DELETE CASCADE)

  function EventOtherThan(id: Id): Event -> bool { (e: Event) => e.id != id }
  function CommentNotOn(id: Id): Comment -> bool { (c: Comment) => c.eventId != id }
  function InviteNotOn(id: Id): Invite -> bool { (i: Invite) => i.eventId != id }
  function RsvpNotOn(id: Id): Rsvp -> bool { (r: Rsvp) => r.eventId != id }

  /** `DELETE FROM events WHERE id = id`, with the cascade to comments, invites and RSVPs. */
  function DeleteEvent(db: Database, id: Id): (r: Database)
    ensures r.users == db.users
    ensures forall e :: e in r.events ==> e in db.events && e.id != id
    ensures forall e :: e in db.events && e.id != id ==> e in r.events
    ensures forall c :: c in r.comments <==> c in db.comments && c.eventId != id
    ensures forall i :: i in r.invites <==> i in db.invites && i.eventId != id
    ensures forall x :: x in r.rsvps <==> x in db.rsvps && x.eventId != id
  {
    Database(
      db.users,
      Filter(EventOtherThan(id), db.events),
      Filter(CommentNotOn(id), db.comments),
      Filter(InviteNotOn(id), db.invites),
      Filter(RsvpNotOn(id), db.rsvps))
  }

  /** Deleting an id no row has leaves the whole database unchanged. */
  lemma DeleteUnknownEventUnchanged(db: Database, id: Id)
    requires Valid(db) && id !in EventIds(db)
    ensures DeleteEvent(db, id) == db
  {
    FilterAll(EventOtherThan(id), db.events);
    FilterAll(CommentNotOn(id), db.comments);
    FilterAll(InviteNotOn(id), db.invites);
    FilterAll(RsvpNotOn(id), db.rsvps);
  }

  /** Deleting an event keeps every table invariant: no dependent row is left dangling. */
  lemma DeleteEventValid(db: Database, id: Id)
    requires Valid(db)
    ensures Valid(DeleteEvent(db, id))
  {
    var r := DeleteEvent(db, id);
    FilterUniqueBy(EventOtherThan(id), db.events, EventKey);
    FilterUniqueBy(EventOtherThan(id), db.events, ShareTokenKey);
    FilterUniqueBy(CommentNotOn(id), db.comments, CommentKey);
    FilterUniqueBy(InviteNotOn(id), db.invites, InviteKey);
    FilterUniqueBy(InviteNotOn(id), db.invites, InviteTokenKey);
    FilterUniqueBy(RsvpNotOn(id), db.rsvps, RsvpKey);
    FilterUniqueBy(RsvpNotOn(id), db.rsvps, RsvpEventEmailKey);
    assert EventIds(r) == EventIds(db) - {id} by {
      forall x | x in EventIds(db) - {id} ensures x in EventIds(r) {
        var e :| e in db.events && e.id == x;
        assert e in r.events;
      }
    }
  }

  // ----- DELETE FROM users WHERE id = ...  (cascade to events, SET NULL on comments and RSVPs)

  /** The ids of the events `uid` owns. */
  function OwnedEventIds(db: Database, uid: Id): set<Id> {
    set e | e in db.events && e.ownerId == uid :: e.id
  }

  function UserOtherThan(uid: Id): User -> bool { (u: User) => u.id != uid }
  function EventNotOwnedBy(uid: Id): Event -> bool { (e: Event) => e.ownerId != uid }
  function CommentOutside(ids: set<Id>): Comment -> bool { (c: Comment) => c.eventId !in ids }
  function InviteOutside(ids: set<Id>): Invite -> bool { (i: Invite) => i.eventId !in ids }
  function RsvpOutside(ids: set<Id>): Rsvp -> bool { (r: Rsvp) => r.eventId !in ids }

  function DetachComment(uid: Id): Comment -> Comment {
    (c: Comment) => if c.userId == Some(uid) then c.(userId := None) else c
  }

  function DetachRsvp(uid: Id): Rsvp -> Rsvp {
    (r: Rsvp) => if r.userId == Some(uid) then r.(userId := None) else r
  }

  /** `DELETE FROM users WHERE id = uid`: the user's events go (and with them their
      comments, invites and RSVPs); the user's other comments and RSVPs stay, with
      `user_id` set to NULL. */
  function DeleteUser(db: Database, uid: Id): (r: Database)
    ensures forall u :: u in r.users <==> u in db.users && u.id != uid
    ensures forall e :: e in r.events <==> e in db.events && e.ownerId != uid
    ensures forall i :: i in r.invites <==> i in db.invites && i.eventId !in OwnedEventIds(db, uid)
    ensures forall c :: c in r.comments <==>
      && c.eventId !in OwnedEventIds(db, uid) && c.userId != Some(uid)
      && (c in db.comments || (c.userId.None? && c.(userId := Some(uid)) in db.comments))
    ensures forall x :: x in r.rsvps <==>
      && x.eventId !in OwnedEventIds(db, uid) && x.userId != Some(uid)
      && (x in db.rsvps || (x.userId.None? && x.(userId := Some(uid)) in db.rsvps))
  {
    var doomed := OwnedEventIds(db, uid);
    DetachedCommentsMeaning(db.comments, uid, doomed);
    DetachedRsvpsMeaning(db.rsvps, uid, doomed);
    Database(
      Filter(UserOtherThan(uid), db.users),
      Filter(EventNotOwnedBy(uid), db.events),
      MapSeq(DetachComment(uid), Filter(CommentOutside(doomed), db.comments)),
      Filter(InviteOutside(doomed), db.invites),
      MapSeq(DetachRsvp(uid), Filter(RsvpOutside(doomed), db.rsvps)))
  }

  /** The comments that survive outside `doomed` with `uid` detached: those not by `uid`
      stay as they were, and those by `uid` stay with a NULL user. */
  lemma DetachedCommentsMeaning(cs: seq<Comment>, uid: Id, doomed: set<Id>)
    ensures forall c :: c in MapSeq(DetachComment(uid), Filter(CommentOutside(doomed), cs)) <==>
      && c.eventId !in doomed && c.userId != Some(uid)
      && (c in cs || (c.userId.None? && c.(userId := Some(uid)) in cs))
  {
    var kept := Filter(CommentOutside(doomed), cs);
    var out := MapSeq(DetachComment(uid), kept);
    forall c | c in out
      ensures c.eventId !in doomed && c.userId != Some(uid)
      ensures c in cs || (c.userId.None? && c.(userId := Some(uid)) in cs)
    {
      var k :| 0 <= k < |out| && out[k] == c;
      assert kept[k] in cs && CommentOutside(doomed)(kept[k]);
      if kept[k].userId == Some(uid) { assert c.(userId := Some(uid)) == kept[k]; }
    }
    forall c: Comment | c.eventId !in doomed && c.userId != Some(uid) && (c in cs || (c.userId.None? && c.(userId := Some(uid)) in cs))
      ensures c in out
    {
      var o := if c in cs then c else c.(userId := Some(uid));
      var i :| 0 <= i < |cs| && cs[i] == o;
      assert CommentOutside(doomed)(cs[i]);
      var k :| 0 <= k < |kept| && kept[k] == o;
      assert out[k] == c;
    }
  }

  /** The RSVPs that survive outside `doomed` with `uid` detached. */
  lemma DetachedRsvpsMeaning(rs: seq<Rsvp>, uid: Id, doomed: set<Id>)
    ensures forall x :: x in MapSeq(DetachRsvp(uid), Filter(RsvpOutside(doomed), rs)) <==>
      && x.eventId !in doomed && x.userId != Some(uid)
      && (x in rs || (x.userId.None? && x.(userId := Some(uid)) in rs))
  {
    var kept := Filter(RsvpOutside(doomed), rs);
    var out := MapSeq(DetachRsvp(uid), kept);
    forall x | x in out
      ensures x.eventId !in doomed && x.userId != Some(uid)
      ensures x in rs || (x.userId.None? && x.(userId := Some(uid)) in rs)
    {
      var k :| 0 <= k < |out| && out[k] == x;
      assert kept[k] in rs && RsvpOutside(doomed)(kept[k]);
      if kept[k].userId == Some(uid) { assert x.(userId := Some(uid)) == kept[k]; }
    }
    forall x: Rsvp | x.eventId !in doomed && x.userId != Some(uid) && (x in rs || (x.userId.None? && x.(userId := Some(uid)) in rs))
      ensures x in out
    {
      var o := if x in rs then x else x.(userId := Some(uid));
      var i :| 0 <= i < |rs| && rs[i] == o;
      assert RsvpOutside(doomed)(rs[i]);
      var k :| 0 <= k < |kept| && kept[k] == o;
      assert out[k] == x;
    }
  }

  /** Deleting a user keeps every key unique. */
  lemma DeleteUserUnique(db: Database, uid: Id)
    requires Valid(db)
    ensures UsersUnique(DeleteUser(db, uid)) && EventsUnique(DeleteUser(db, uid))
    ensures CommentsUnique(DeleteUser(db, uid)) && InvitesUnique(DeleteUser(db, uid))
    ensures RsvpsUnique(DeleteUser(db, uid))
  {
    var doomed := OwnedEventIds(db, uid);
    FilterUniqueBy(UserOtherThan(uid), db.users, UserKey);
    FilterUniqueBy(UserOtherThan(uid), db.users, UserEmailKey);
    FilterUniqueBy(EventNotOwnedBy(uid), db.events, EventKey);
    FilterUniqueBy(EventNotOwnedBy(uid), db.events, ShareTokenKey);
    var kept := Filter(CommentOutside(doomed), db.comments);
    FilterUniqueBy(CommentOutside(doomed), db.comments, CommentKey);
    MapUniqueBy(DetachComment(uid), kept, CommentKey);
    FilterUniqueBy(InviteOutside(doomed), db.invites, InviteKey);
    FilterUniqueBy(InviteOutside(doomed), db.invites, InviteTokenKey);
    var keptR := Filter(RsvpOutside(doomed), db.rsvps);
    FilterUniqueBy(RsvpOutside(doomed), db.rsvps, RsvpKey);
    FilterUniqueBy(RsvpOutside(doomed), db.rsvps, RsvpEventEmailKey);
    MapUniqueBy(DetachRsvp(uid), keptR, RsvpKey);
    MapUniqueBy(DetachRsvp(uid), keptR, RsvpEventEmailKey);
  }

  /** After deleting `uid`, every other user and every event not owned by `uid` is still there. */
  lemma DeleteUserKeepsIds(db: Database, uid: Id)
    ensures UserIds(DeleteUser(db, uid)) == UserIds(db) - {uid}
    ensures forall x :: x in EventIds(db) && x !in OwnedEventIds(db, uid) ==> x in EventIds(DeleteUser(db, uid))
  {
    var r := DeleteUser(db, uid);
    forall x | x in UserIds(db) - {uid} ensures x in UserIds(r) {
      var u :| u in db.users && u.id == x;
      assert u in r.users;
    }
    forall x | x in EventIds(db) && x !in OwnedEventIds(db, uid) ensures x in EventIds(r) {
      var e :| e in db.events && e.id == x;
      assert e in r.events;
    }
  }

  /** Comments kept outside `doomed` and detached from `uid` still resolve, once the
      surviving ids are the old ones less `uid` and less `doomed`. */
  lemma DetachedCommentsResolve(cs: seq<Comment>, uid: Id, doomed: set<Id>,
                                events: set<Id>, users: set<Id>, events': set<Id>, users': set<Id>)
    requires forall c :: c in cs ==> c.eventId in events && OptRef(c.userId, users)
    requires forall x :: x in events && x !in doomed ==> x in events'
    requires users' == users - {uid}
    ensures forall c :: c in MapSeq(DetachComment(uid), Filter(CommentOutside(doomed), cs)) ==>
      c.eventId in events' && OptRef(c.userId, users')
  {
    var kept := Filter(CommentOutside(doomed), cs);
    var out := MapSeq(DetachComment(uid), kept);
    forall c | c in out ensures c.eventId in events' && OptRef(c.userId, users') {
      var k :| 0 <= k < |out| && out[k] == c;
      assert kept[k] in cs && CommentOutside(doomed)(kept[k]);
    }
  }

  /** RSVPs kept outside `doomed` and detached from `uid` still resolve. */
  lemma DetachedRsvpsResolve(rs: seq<Rsvp>, uid: Id, doomed: set<Id>,
                             events: set<Id>, users: set<Id>, events': set<Id>, users': set<Id>)
    requires forall x :: x in rs ==> x.eventId in events && OptRef(x.userId, users)
    requires forall x :: x in events && x !in doomed ==> x in events'
    requires users' == users - {uid}
    ensures forall x :: x in MapSeq(DetachRsvp(uid), Filter(RsvpOutside(doomed), rs)) ==>
      x.eventId in events' && OptRef(x.userId, users')
  {
    var kept := Filter(RsvpOutside(doomed), rs);
    var out := MapSeq(DetachRsvp(uid), kept);
    forall x | x in out ensures x.eventId in events' && OptRef(x.userId, users') {
      var k :| 0 <= k < |out| && out[k] == x;
      assert kept[k] in rs && RsvpOutside(doomed)(kept[k]);
    }
  }

  /** Deleting a user leaves no dangling reference. */
  lemma DeleteUserRefsResolve(db: Database, uid: Id)
    requires RefsResolve(db)
    ensures RefsResolve(DeleteUser(db, uid))
  {
    var r := DeleteUser(db, uid);
    var doomed := OwnedEventIds(db, uid);
    DeleteUserKeepsIds(db, uid);
    DetachedCommentsResolve(db.comments, uid, doomed, EventIds(db), UserIds(db), EventIds(r), UserIds(r));
    DetachedRsvpsResolve(db.rsvps, uid, doomed, EventIds(db), UserIds(db), EventIds(r), UserIds(r));
  }

  /** Deleting a user keeps every table invariant. */
  lemma DeleteUserValid(db: Database, uid: Id)
    requires Valid(db)
    ensures Valid(DeleteUser(db, uid))
  {
    DeleteUserUnique(db, uid);
    DeleteUserRefsResolve(db, uid);
  }
}
