/** `createEventAction`: the validation of the new-event form and the insert of
    the event it describes, ending in a redirect to the event's share page. */
module NewEvent {
  import opened Wrappers
  import opened Text
  import opened Seqs
  import opened Schema
  import Auth

  /** The submitted form fields that are strings; a missing field has no key. */
  type Form = map<string, string>

  function Field(form: Form, name: string): Option<string> {
    if name in form then Some(form[name]) else None
  }

  /** The values handed to the schema, after the action's own defaults:
      `String(get(..) ?? "")` for the text fields, `get("endsAt") || undefined`
      (so an empty end is absent) and `get("visibility") ?? "unlisted"`. */
  datatype RawInput = RawInput(
    title: string,
    description: string,
    startsAt: string,
    endsAt: Option<string>,
    locationText: string,
    visibility: string)

  function RawOf(form: Form): (r: RawInput)
    ensures "title" in form ==> r.title == form["title"]
    ensures "description" in form ==> r.description == form["description"]
    ensures "startsAt" in form ==> r.startsAt == form["startsAt"]
    ensures "locationText" in form ==> r.locationText == form["locationText"]
    ensures "title" !in form ==> r.title == ""
    ensures "description" !in form ==> r.description == ""
    ensures "startsAt" !in form ==> r.startsAt == ""
    ensures "locationText" !in form ==> r.locationText == ""
    ensures r.endsAt.Some? <==> "endsAt" in form && form["endsAt"] != ""
    ensures r.endsAt.Some? ==> r.endsAt.value == form["endsAt"]
    ensures "visibility" in form ==> r.visibility == form["visibility"]
    ensures "visibility" !in form ==> r.visibility == "unlisted"
  {
    RawInput(
      Field(form, "title").GetOr(""),
      Field(form, "description").GetOr(""),
      Field(form, "startsAt").GetOr(""),
      if Field(form, "endsAt") == Some("") then None else Field(form, "endsAt"),
      Field(form, "locationText").GetOr(""),
      Field(form, "visibility").GetOr("unlisted"))
  }

  /** One validation failure, in the order the schema's fields are declared. */
  datatype Issue =
    | TitleTooShort
    | StartInvalid
    | EndInvalid
    | VisibilityInvalid(received: string)

  /** The position of the issue's field among the schema's fields. */
  function FieldRank(i: Issue): nat {
    match i
    case TitleTooShort => 0
    case StartInvalid => 1
    case EndInvalid => 2
    case VisibilityInvalid(_) => 3
  }

  /** The issue's message; the wording of the enum failure belongs to the
      validation library and is a parameter. */
  function Message(i: Issue, enumMessage: string -> string): string {
    match i
    case TitleTooShort => "Title is required"
    case StartInvalid => "Start date/time is required"
    case EndInvalid => "End date/time is invalid"
    case VisibilityInvalid(v) => enumMessage(v)
  }

  function MessageOf(enumMessage: string -> string): Issue -> string {
    (i: Issue) => Message(i, enumMessage)
  }

  /** The data the schema yields when every field is valid. */
  datatype EventInput = EventInput(
    title: string,
    description: Option<string>,
    startsAt: Instant,
    endsAt: Option<Instant>,
    locationText: Option<string>,
    visibility: Visibility)

  /** `v && v.trim().length ? v : null`: a blank text becomes NULL; any other is kept untrimmed. */
  function BlankToNull(v: string): (r: Option<string>)
    ensures r.None? <==> IsBlank(v)
    ensures r.Some? ==> r.value == v
  {
    TrimEmptyIffBlank(v);
    if v != "" && Trim(v) != "" then Some(v) else None
  }

  /** The issues appear in the order of their fields, each at most once. */
  predicate InFieldOrder(r: seq<Issue>) {
    forall a, b :: 0 <= a < b < |r| ==> FieldRank(r[a]) < FieldRank(r[b])
  }

  /** `r`, followed by `i` when its check `failed`; `i` belongs to a later field than
      every issue already in `r`. */
  function AddIssue(r: seq<Issue>, failed: bool, i: Issue): (t: seq<Issue>)
    requires InFieldOrder(r) && forall x :: x in r ==> FieldRank(x) < FieldRank(i)
    ensures InFieldOrder(t)
    ensures forall x :: x in t ==> FieldRank(x) <= FieldRank(i)
    ensures forall x :: x in t <==> x in r || (failed && x == i)
  {
    if failed then
      var t := r + [i];
      assert forall a, b :: 0 <= a < b < |t| ==> FieldRank(t[a]) < FieldRank(t[b]) by {
        forall a, b | 0 <= a < b < |t| ensures FieldRank(t[a]) < FieldRank(t[b]) {
          if b == |r| { assert t[a] in r; } else { assert t[a] == r[a] && t[b] == r[b]; }
        }
      }
      t
    else r
  }

  /** The checks of the schema: `min(2)` on the title, `Date.parse` on the start and
      (when present) the end, the three labels of the visibility enum. `parse` is
      `Date.parse`, `None` standing for `NaN`. */
  function Issues(raw: RawInput, parse: string -> Option<Instant>): (r: seq<Issue>)
    ensures InFieldOrder(r)
    ensures TitleTooShort in r <==> |raw.title| < 2
    ensures StartInvalid in r <==> parse(raw.startsAt).None?
    ensures EndInvalid in r <==> raw.endsAt.Some? && parse(raw.endsAt.value).None?
    ensures VisibilityInvalid(raw.visibility) in r <==> ParseVisibility(raw.visibility).None?
    ensures forall x :: x in r && x.VisibilityInvalid? ==> x == VisibilityInvalid(raw.visibility)
  {
    var title := AddIssue([], |raw.title| < 2, TitleTooShort);
    var start := AddIssue(title, parse(raw.startsAt).None?, StartInvalid);
    var end := AddIssue(start, raw.endsAt.Some? && parse(raw.endsAt.value).None?, EndInvalid);
    assert forall x :: x in end ==> !x.VisibilityInvalid?;
    AddIssue(end, ParseVisibility(raw.visibility).None?, VisibilityInvalid(raw.visibility))
  }

  /** `EventInput.safeParse`: every issue found, or the parsed input. */
  function ParseEventInput(raw: RawInput, parse: string -> Option<Instant>): (r: Result<EventInput, seq<Issue>>)
    ensures r.Err? <==> Issues(raw, parse) != []
    ensures r.Err? ==> r.error == Issues(raw, parse)
    ensures r.Ok? ==> && r.value.title == raw.title
                      && Some(r.value.startsAt) == parse(raw.startsAt)
                      && (r.value.endsAt.Some? <==> raw.endsAt.Some?)
                      && (r.value.endsAt.Some? ==> r.value.endsAt == parse(raw.endsAt.value))
                      && r.value.description == BlankToNull(raw.description)
                      && r.value.locationText == BlankToNull(raw.locationText)
                      && VisibilityName(r.value.visibility) == raw.visibility
  {
    var issues := Issues(raw, parse);
    if issues != [] then Err(issues)
    else
      assert StartInvalid !in issues;
      assert VisibilityInvalid(raw.visibility) !in issues;
      Ok(EventInput(
        raw.title,
        BlankToNull(raw.description),
        parse(raw.startsAt).value,
        if raw.endsAt.Some? then parse(raw.endsAt.value) else None,
        BlankToNull(raw.locationText),
        ParseVisibility(raw.visibility).value))
  }

  /** The outcome of the action: a thrown error, a store error on insert, or the redirect. */
  datatype CreateOutcome =
    | Unauthorized
    | Invalid(message: string)
    | StoreRejected(violation: Violation)
    | RedirectTo(path: string)

  datatype Created = Created(outcome: CreateOutcome, store: Database)

  function SharePath(token: string): string { "/e/" + token }

  /** The row the action asks the store to insert. */
  function ValuesOf(ownerId: Id, input: EventInput, token: string): (v: EventValues)
    ensures v.ownerId == ownerId && v.shareToken == token && v.visibility == input.visibility
    ensures v.title == input.title && v.description == input.description
    ensures v.startsAt == input.startsAt && v.endsAt == input.endsAt
    ensures v.locationText == input.locationText
  {
    EventValues(ownerId, input.title, input.description, input.startsAt, input.endsAt,
                input.locationText, input.visibility, token)
  }

  /** A signed-in caller whose form passes validation. */
  predicate FormAccepted(session: Auth.Session, form: Form, parse: string -> Option<Instant>)
    ensures FormAccepted(session, form, parse) <==> Auth.HasUserId(session) && ParseEventInput(RawOf(form), parse).Ok?
  {
    Auth.HasUserId(session) && Issues(RawOf(form), parse) == []
  }

  /** The row such a caller's form asks the store to insert. */
  function RowOf(session: Auth.Session, form: Form, parse: string -> Option<Instant>, token: string): (r: EventValues)
    requires FormAccepted(session, form, parse)
    ensures Some(r.ownerId) == Auth.UserId(session) && r.shareToken == token
    ensures r.title == Field(form, "title").GetOr("")
    ensures Some(r.startsAt) == parse(Field(form, "startsAt").GetOr(""))
    ensures r.endsAt.None? <==> Field(form, "endsAt").GetOr("") == ""
    ensures r.endsAt.Some? ==> r.endsAt == parse(form["endsAt"])
    ensures r.description == BlankToNull(Field(form, "description").GetOr(""))
    ensures r.locationText == BlankToNull(Field(form, "locationText").GetOr(""))
    ensures Field(form, "visibility").None? ==> r.visibility == Unlisted
    ensures Field(form, "visibility").Some? ==> VisibilityName(r.visibility) == Field(form, "visibility").value
  {
    ValuesOf(Auth.UserId(session).value, ParseEventInput(RawOf(form), parse).value, token)
  }

  /** `createEventAction(formData)`. `token` is the `nano()` share token, `id` and `now`
      the generated id and time the store assigns; `configured` is whether `db` is set. */
  function CreateEventAction(session: Auth.Session, form: Form, parse: string -> Option<Instant>,
                             enumMessage: string -> string, configured: bool, store: Database,
                             token: string, id: Id, now: Instant): (r: Created)
    ensures r.outcome == Unauthorized <==> !Auth.HasUserId(session)
    ensures r.outcome.Invalid? <==> Auth.HasUserId(session) && Issues(RawOf(form), parse) != []
    ensures r.outcome.Invalid? ==> r.outcome.message == JoinLines(MapSeq(MessageOf(enumMessage), Issues(RawOf(form), parse)))
    ensures r.outcome.RedirectTo? <==>
      FormAccepted(session, form, parse) && (!configured || InsertEvent(store, RowOf(session, form, parse, token), id, now).Ok?)
    ensures r.outcome.StoreRejected? <==>
      FormAccepted(session, form, parse) && configured && InsertEvent(store, RowOf(session, form, parse, token), id, now).Err?
    ensures r.outcome.StoreRejected? ==>
      r.outcome.violation == InsertEvent(store, RowOf(session, form, parse, token), id, now).error
    ensures r.outcome.RedirectTo? ==> r.outcome.path == SharePath(token)
    ensures !r.outcome.RedirectTo? || !configured ==> r.store == store
    ensures configured && r.outcome.RedirectTo? ==>
      r.store == store.(events := store.events + [NewEventRow(RowOf(session, form, parse, token), id, now)])
  {
    if !Auth.HasUserId(session) then Created(Unauthorized, store)
    else
      var parsed := ParseEventInput(RawOf(form), parse);
      if parsed.Err? then Created(Invalid(JoinLines(MapSeq(MessageOf(enumMessage), parsed.error))), store)
      else
        var values := ValuesOf(Auth.UserId(session).value, parsed.value, token);
        if !configured then Created(RedirectTo(SharePath(token)), store)
        else
          match InsertEvent(store, values, id, now)
          case Ok(store') => Created(RedirectTo(SharePath(token)), store')
          case Err(v) => Created(StoreRejected(v), store)
  }

  /** A created event belongs to the caller, is open, carries the form's title, start
      and end (none when the end field is missing or empty), its description and
      location with blanks as NULL, and the visibility the form asked for (unlisted
      when the field is missing); it is reachable at the path the caller is
      redirected to, and every table invariant still holds. */
  lemma CreatedEventIsCallers(session: Auth.Session, form: Form, parse: string -> Option<Instant>,
                              enumMessage: string -> string, store: Database,
                              token: string, id: Id, now: Instant)
    requires Schema.Valid(store)
    requires CreateEventAction(session, form, parse, enumMessage, true, store, token, id, now).outcome.RedirectTo?
    ensures var r := CreateEventAction(session, form, parse, enumMessage, true, store, token, id, now);
            && Schema.Valid(r.store)
            && |r.store.events| == |store.events| + 1
            && var e := r.store.events[|store.events|];
               && Some(e.ownerId) == Auth.UserId(session)
               && e.status == Open
               && e.title == Field(form, "title").GetOr("")
               && Some(e.startsAt) == parse(Field(form, "startsAt").GetOr(""))
               && (e.endsAt.None? <==> Field(form, "endsAt").GetOr("") == "")
               && (e.endsAt.Some? ==> e.endsAt == parse(form["endsAt"]))
               && e.description == BlankToNull(Field(form, "description").GetOr(""))
               && e.locationText == BlankToNull(Field(form, "locationText").GetOr(""))
               && FindByShareToken(r.store.events, token) == Some(e)
               && (Field(form, "visibility").None? ==> e.visibility == Unlisted)
               && (Field(form, "visibility").Some? ==> VisibilityName(e.visibility) == Field(form, "visibility").value)
  {
    var raw := RawOf(form);
    var input := ParseEventInput(raw, parse).value;
    var v := ValuesOf(Auth.UserId(session).value, input, token);
    InsertEventValid(store, v, id, now);
    var e := NewEventRow(v, id, now);
    FindAfterFreshToken(store.events, e, token);
  }

  /** Appending a row with a token no earlier row carries makes it the row found by that token. */
  lemma FindAfterFreshToken(events: seq<Event>, e: Event, token: string)
    requires e.shareToken == token && forall x :: x in events ==> x.shareToken != token
    ensures FindByShareToken(events + [e], token) == Some(e)
  {
    var s := events + [e];
    forall j | 0 <= j < |events| ensures !HasShareToken(token)(s[j]) {
      assert s[j] in events;
    }
    FindFirstAt(HasShareToken(token), s, |events|);
  }

  /** A title of two blanks passes `min(2)`: the title is not trimmed. */
  lemma BlankTitleAccepted(parse: string -> Option<Instant>)
    requires parse("2025-01-01T10:00").Some?
    ensures ParseEventInput(RawInput("  ", "", "2025-01-01T10:00", None, "", "unlisted"), parse).Ok?
  {
  }

  /** An empty end field is no end at all, whatever `Date.parse("")` gives. */
  lemma EmptyEndIgnored(form: Form, parse: string -> Option<Instant>)
    requires Field(form, "endsAt") == Some("")
    ensures EndInvalid !in Issues(RawOf(form), parse)
    ensures ParseEventInput(RawOf(form), parse).Ok? ==> ParseEventInput(RawOf(form), parse).value.endsAt.None?
  {
  }

  /** A visibility field sent empty is not defaulted: only a missing one is. */
  lemma EmptyVisibilityRejected(form: Form, parse: string -> Option<Instant>)
    requires Field(form, "visibility") == Some("")
    ensures VisibilityInvalid("") in Issues(RawOf(form), parse)
  {
  }
}
