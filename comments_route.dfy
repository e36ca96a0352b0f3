/** `POST /api/comments`: adds a comment to the event with a given share token,
    in the database or, when none is configured, in a process-local memory. */
module CommentsRoute {
  import opened Wrappers
  import opened Text
  import opened Seqs
  import opened Schema
  import Auth

  datatype MemoryComment = MemoryComment(id: string, eventId: string, userId: Option<Id>, body: string, createdAt: Instant)
  datatype MemoryEvent = MemoryEvent(id: string, shareToken: string)

  /** The JSON response: the created comment, or an error object with its status. */
  datatype Reply =
    | MemoryCreated(memoryComment: MemoryComment)
    | StoreCreated(comment: Comment)
    | Failure(status: int, message: string)

  const EmptyReply: Reply := Failure(400, "Empty")
  const NotFoundReply: Reply := Failure(404, "Event not found")
  /** An insert the store refuses surfaces as an unhandled error. */
  const ServerErrorReply: Reply := Failure(500, "Internal Server Error")

  /** `!text?.trim()`: a missing or blank text is refused. */
  predicate IsEmptyText(text: Option<string>)
    ensures IsEmptyText(text) <==> text.None? || Trim(text.value) == ""
  {
    TrimEmptyIffBlank(text.GetOr(""));
    text.None? || IsBlank(text.value)
  }

  function MemoryHasToken(token: string): MemoryEvent -> bool { (e: MemoryEvent) => e.shareToken == token }

  /** The first memory event with the token (`memory.events.find`). */
  function FindMemoryEvent(events: seq<MemoryEvent>, token: string): (r: Option<MemoryEvent>)
    ensures r.Some? ==> r.value in events && r.value.shareToken == token
    ensures r.None? <==> forall e :: e in events ==> e.shareToken != token
  {
    FindFirst(MemoryHasToken(token), events)
  }

  /** The route module's state: the memory used without a database, and the store. */
  class CommentsApi {
    const configured: bool
    var memoryComments: seq<MemoryComment>
    var memoryEvents: seq<MemoryEvent>
    var store: Database

    ghost predicate Valid() reads this {
      Schema.Valid(store)
    }

    constructor (configured: bool, store: Database)
      requires Schema.Valid(store)
      ensures Valid() && this.configured == configured && this.store == store
      ensures memoryComments == [] && memoryEvents == []
    {
      this.configured := configured;
      memoryComments := [];
      memoryEvents := [];
      this.store := store;
    }

    /** `POST(req)` with the body's `shareToken` and `text`. `freshId` is the id the
        memory (`nanoid()`) or the store (`defaultRandom()`) assigns, `now` the clock.
        Nothing ever adds to `memory.events`, so without a database every non-empty
        post finds no event. */
    method Post(session: Auth.Session, shareToken: string, text: Option<string>, freshId: Id, now: Instant)
      returns (reply: Reply)
      requires Valid()
      modifies this
      ensures Valid() && memoryEvents == old(memoryEvents)
      ensures IsEmptyText(text) ==> reply == EmptyReply && store == old(store) && memoryComments == old(memoryComments)
      ensures !IsEmptyText(text) && !configured ==> (store == old(store) &&
        match FindMemoryEvent(old(memoryEvents), shareToken)
        case None => reply == NotFoundReply && memoryComments == old(memoryComments)
        case Some(ev) =>
          var c := MemoryComment(freshId, ev.id, Auth.UserId(session), text.value, now);
          reply == MemoryCreated(c) && memoryComments == old(memoryComments) + [c])
      ensures !IsEmptyText(text) && !configured && old(memoryEvents) == [] ==> reply == NotFoundReply
      ensures !IsEmptyText(text) && configured ==> (memoryComments == old(memoryComments) &&
        match FindByShareToken(old(store).events, shareToken)
        case None => reply == NotFoundReply && store == old(store)
        case Some(ev) =>
          var c := Comment(freshId, ev.id, Auth.UserId(session), text.value, now);
          match InsertComment(old(store), c)
          case Ok(store') => reply == StoreCreated(c) && store == store'
          case Err(_) => reply == ServerErrorReply && store == old(store))
    {
      if IsEmptyText(text) {
        return EmptyReply;
      }
      if !configured {
        var ev := FindMemoryEvent(memoryEvents, shareToken);
        if ev.None? {
          return NotFoundReply;
        }
        var c := MemoryComment(freshId, ev.value.id, Auth.UserId(session), text.value, now);
        memoryComments := memoryComments + [c];
        return MemoryCreated(c);
      }
      var ev := FindByShareToken(store.events, shareToken);
      if ev.None? {
        return NotFoundReply;
      }
      var c := Comment(freshId, ev.value.id, Auth.UserId(session), text.value, now);
      var inserted := InsertComment(store, c);
      if inserted.Err? {
        return ServerErrorReply;
      }
      InsertCommentValid(store, c);
      store := inserted.value;
      reply := StoreCreated(c);
    }
  }

  /** A stored comment is the text as sent, surrounding whitespace included, attached
      to an existing event; an anonymous caller's comment has no user. */
  lemma StoredCommentMeaning(db: Database, session: Auth.Session, shareToken: string, text: string, freshId: Id, now: Instant)
    requires FindByShareToken(db.events, shareToken).Some?
    requires InsertComment(db, Comment(freshId, FindByShareToken(db.events, shareToken).value.id,
                                       Auth.UserId(session), text, now)).Ok?
    ensures var ev := FindByShareToken(db.events, shareToken).value;
            var db' := InsertComment(db, Comment(freshId, ev.id, Auth.UserId(session), text, now)).value;
            && ev in db.events && ev.shareToken == shareToken
            && |db'.comments| == |db.comments| + 1
            && db'.comments[|db.comments|].body == text
            && db'.comments[|db.comments|].eventId in EventIds(db)
            && (session.None? ==> db'.comments[|db.comments|].userId.None?)
  {
    var ev := FindByShareToken(db.events, shareToken).value;
    assert ev.id in EventIds(db);
  }
}
