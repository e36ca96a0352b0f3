# corralio: a verified model of the event console, the creation flow and the comment paths

corralio is a small event-planning web application. Organisers create events, share them by a share token, invite people, collect RSVPs and comments, and admins curate every event from a console. This project models the logic behind those features in Dafny and proves what that logic promises:

- **Schema** (`schema.dfy`): the enums and their defaults, one row type per application table, and the uniqueness and foreign-key constraints as table invariants. It also models how the store reacts to inserts (constraint checks), to `UPDATE ... SET status` and to deletes (`ON DELETE CASCADE` and `ON DELETE SET NULL`).
- **AdminGate** (`admin_gate.dfy`): `isAdminEmail`, which splits the `ADMIN_EMAILS` list and normalises each entry, then tests membership case-insensitively.
- **AdminPage** (`admin_page.dfy`): the admin events page. It gates access, builds a `where` condition from the search parameters, and lists the selected events by `starts_at` descending.
- **AdminActions** (`admin_actions.dfy`): the close, reopen and delete server actions. They are methods of a class that holds the store.
- **NewEvent** (`new_event.dfy`): the `EventInput` schema (checks, blank-to-null, defaults) and `createEventAction`, whose effect is returned as an outcome paired with the new store.
- **InviteTable** (`invite_table.dfy`): the RSVP summary counts, and the RSVP matched to each invite.
- **CommentsSection** (`comments_section.dfy`): the optimistic reducer and the post button's guard. `handleSubmit` is a method of a state class with the `text`, `error` and optimistic-list fields.
- **CommentsRoute** and **EventsRoute** (`comments_route.dfy`, `events_route.dfy`): the JSON API routes, each with its in-memory fallback arrays and the store as fields of a class.
- **Wrappers**, **Text**, **Seqs**: Option/Result types, the JavaScript `trim` whitespace set, ASCII lower-casing, `ILIKE` substring matching, order-preserving filtering, key uniqueness and a descending sort.

The signed-in session, `ADMIN_EMAILS`, whether a database is configured, the clock, generated ids and tokens, and the date parser are all parameters.

## Model

| member | source | states |
|---|---|---|
| Schema.ParseVisibility | src/db/schema.ts:70-74 | only the three labels cast to the enum, and each label maps back to itself |
| Schema.VisibilityRoundTrip | src/db/schema.ts:70-74 | every visibility survives the round trip through its label |
| Schema.NewEventRow | src/db/schema.ts:90-96 | an inserted event gets status `open` and equal `created_at`/`updated_at` |
| Schema.Valid | src/db/schema.ts:23-150 | the table invariants: primary keys and unique columns hold no duplicate, every foreign key names a stored row, and a NULL user reference names none |
| Schema.ValidMeans | src/db/schema.ts:76-106 | in a valid store no two events share an id or a share token, every event's owner is a stored user, and every comment's event is a stored event |
| Schema.InsertEvent | src/db/schema.ts:76-97 | the insert succeeds exactly when the id and share token are fresh and the owner exists; it then appends exactly that row |
| Schema.InsertEventValid | src/db/schema.ts:80-89 | an accepted event insert keeps every uniqueness and reference invariant |
| Schema.InsertComment | src/db/schema.ts:99-111 | the insert succeeds exactly when the id is fresh, the event exists and the user (if any) exists |
| Schema.InsertCommentValid | src/db/schema.ts:99-111 | an accepted comment insert keeps every invariant |
| Schema.FindByShareToken | src/app/api/comments/route.ts:42-47 | returns a stored event with the token, or none when no event carries it |
| Schema.SetEventStatus | src/app/events/actions.ts:23 | only the rows with the id change, and only in `status`; other tables are untouched |
| Schema.SetEventStatusValid | src/app/events/actions.ts:23 | a status update keeps every table invariant |
| Schema.SetEventStatusIdempotent | src/app/events/actions.ts:23 | setting a status twice equals setting it once |
| Schema.SetEventStatusUnchanged | src/app/events/actions.ts:23 | closing an already closed event (or an unknown id) leaves the database unchanged |
| Schema.ReopenUndoesClose | src/app/events/actions.ts:23-33 | reopening a closed-from-open event restores the original database |
| Schema.DeleteEvent | src/db/schema.ts:103-105 | removes exactly the events with the id, and cascades to their comments, invites and RSVPs |
| Schema.DeleteUnknownEventUnchanged | src/app/events/actions.ts:43 | deleting an id no row has leaves the database unchanged |
| Schema.DeleteEventValid | src/db/schema.ts:117-119 | after a delete, no comment, invite or RSVP refers to a missing event and keys stay unique |
| Schema.DeleteUser | src/db/schema.ts:80-140 | exactly the other users and the events the user did not own remain; a comment or RSVP remains exactly when its event remains, unchanged when it is not the user's and with `user_id` NULL when it is |
| Schema.DetachedCommentsMeaning | src/db/schema.ts:104-106 | the kept comments are those of surviving events, the user's own ones with a NULL user |
| Schema.DetachedRsvpsMeaning | src/db/schema.ts:136-140 | the kept RSVPs are those of surviving events, the user's own ones with a NULL user |
| Schema.DeleteUserUnique | src/db/schema.ts:138-140 | deleting a user keeps every key unique, including after the set-null updates |
| Schema.DeleteUserKeepsIds | src/db/schema.ts:80-82 | every other user, and every event the user did not own, remains |
| Schema.DeleteUserRefsResolve | src/db/schema.ts:106 | deleting a user leaves no dangling reference |
| Schema.DeleteUserValid | src/db/schema.ts:80-82 | deleting a user keeps every table invariant |
| Seqs.FilterAppend | src/app/api/events/route.ts:59 | filtering keeps order: filtering a concatenation is concatenating the filtered parts |
| Seqs.FilterUniqueBy | src/db/schema.ts:89 | removing rows keeps a key unique |
| Seqs.FilterMultiset | src/app/api/events/route.ts:59 | a filter keeps each passing element exactly as many times as it occurs, and nothing else |
| Seqs.FilterCount | src/components/InviteStatusTable.tsx:24-29 | the length of a filter on one key value is the number of occurrences of that value among the keys |
| Seqs.FindFirst | src/app/api/comments/route.ts:29 | finds an element that passes, or none exactly when no element passes |
| Seqs.FindFirstAt | src/components/InviteStatusTable.tsx:63 | the element found is the first that passes |
| Seqs.SortDesc | src/app/events/page.tsx:114 | the result is ordered by the key descending and is a permutation of the input |
| Text.Lower | src/app/events/page.tsx:17-19 | the result has the input's length and lower-cases each character on its own |
| Text.ILikeCaseInsensitive | src/app/events/page.tsx:61-66 | `ILIKE '%p%'` ignores case on both sides, matches every text when the pattern is empty, and never matches a pattern longer than the text |
| Text.JoinLines | src/app/new/actions.tsx:53 | no parts join to ""; the joined text starts with the first part, has a newline right after it when there are two or more parts, and ends with the last part |
| Text.JoinLinesSnoc | src/app/new/actions.tsx:53 | joining one more part appends a newline and that part; with the one-part case this fixes the joined text as the parts in order, separated by single newlines |
| Text.Trim | src/app/events/page.tsx:17 | the result has no whitespace at either end and is no longer than the input |
| Text.TrimEmptyIffBlank | src/components/CommentsSection.tsx:35-36 | the trimmed text is empty exactly when the text is all whitespace |
| Text.TrimPadded | src/app/events/page.tsx:17 | trimming removes the surrounding whitespace of a padded entry and nothing else |
| Text.TrimLower | src/app/events/page.tsx:17 | trimming and lower-casing commute |
| AdminGate.Split | src/app/events/page.tsx:16 | the split always yields at least one piece |
| AdminGate.SplitSound | src/app/events/page.tsx:16 | every piece is separator-free and the pieces concatenate to the input minus its separators |
| AdminGate.SplitDelimFree | src/app/events/page.tsx:16 | a text without separators is a single piece |
| AdminGate.SplitJoin | src/app/events/page.tsx:16 | one separator between texts that do not end or start with one cuts exactly there: the pieces of the two sides, concatenated |
| AdminGate.SplitRun | src/app/events/page.tsx:16 | a run of two separators cuts like one |
| AdminGate.SplitPiece | src/app/events/page.tsx:16 | a non-empty separator-free text standing between separators or at an end of the list is one of its pieces |
| AdminGate.IsAdminEmail | src/app/events/page.tsx:14-20 | true exactly when the email is non-empty and equals (ASCII case-insensitively) some trimmed, lower-cased list entry |
| AdminGate.EmptyListAdmitsNobody | src/app/events/page.tsx:15-19 | a list of only separators and whitespace, unset or empty included, admits nobody |
| AdminGate.PaddedEntryAdmits | src/app/events/page.tsx:16-19 | an entry at any position of the list (alone, first, middle or last), padded with non-separator whitespace, admits its email in any ASCII case |
| AdminGate.PaddedEmailRejected | src/app/events/page.tsx:19 | the signed-in email is not trimmed: one starting with whitespace is never an admin |
| AdminGate.SplitLower | src/app/events/page.tsx:16 | the pieces of the lower-cased list are the lower-cased pieces: no boundary moves |
| AdminGate.ListCaseInsensitive | src/app/events/page.tsx:15-19 | the case in which `ADMIN_EMAILS` is written does not matter |
| AdminPage.VisibilityFilter | src/app/events/page.tsx:66-68 | a visibility filter exists exactly for `public` and `private` |
| AdminPage.StatusFilter | src/app/events/page.tsx:69-71 | a status filter exists exactly for `open` and `closed` |
| AdminPage.Clauses | src/app/events/page.tsx:57-77 | with a text query the title clause comes first, followed by the other filters in push order |
| AdminPage.WhereOf | src/app/events/page.tsx:82-96 | with a text query the title-or-location test replaces the title clause; without any filter the condition is `undefined` |
| AdminPage.OtherClausesMeaning | src/app/events/page.tsx:66-77 | the non-text clauses hold exactly when the visibility, status and inclusive date bounds admit the event |
| AdminPage.WhereMeansSelected | src/app/events/page.tsx:56-96 | the intended condition admits an event exactly when it is what the filter form asks for |
| AdminPage.AsWrittenMeaning | src/app/events/page.tsx:82-89 | the emitted SQL binds as `title OR (location AND filters)` when a text query meets another filter |
| AdminPage.AsWrittenIgnoresVisibility | src/app/events/page.tsx:82-89 | the emitted SQL lists a private event under the `public` filter when its title matches |
| AdminPage.AsWrittenAgreesOtherwise | src/app/events/page.tsx:82-96 | without a text query, or with nothing else, the emitted SQL selects what was meant |
| AdminPage.AdminEventsPage | src/app/events/page.tsx:29-54 | anonymous callers are redirected, non-admins get not found, an unconfigured store shows no table, and the rows are those the intended condition selects, sorted by start descending |
| AdminPage.SortedSelection | src/app/events/page.tsx:96-114 | the listed rows are exactly the stored events the filters select under the intended grouping |
| AdminPage.ListingIsSelection | src/app/events/page.tsx:29-35 | a listing implies a signed-in admin and a configured store, and shows exactly the events selected under the intended grouping |
| AdminPage.NoFiltersListsEverything | src/app/events/page.tsx:94-96 | with no filter set, every event is listed |
| AdminPage.OtherVisibilityLabelsIgnored | src/app/events/page.tsx:66-68 | `unlisted` or any other label imposes no constraint |
| AdminPage.ToDayIncluded | src/app/events/page.tsx:73-77 | an event starting within the day after `to` passes the upper bound |
| AdminActions.Guard | src/app/events/actions.ts:18-20 | an action proceeds exactly for a configured store and an admin; the store check comes first |
| AdminActions.FormId | src/app/events/actions.ts:22 | a missing id field is the empty id |
| AdminActions.AdminConsole.CloseEvent | src/app/events/actions.ts:17-25 | on success only the `status` of the rows with the id becomes `closed`; otherwise the store is unchanged |
| AdminActions.AdminConsole.ReopenEvent | src/app/events/actions.ts:27-35 | on success only the `status` of the rows with the id becomes `open`; otherwise the store is unchanged |
| AdminActions.AdminConsole.DeleteEvent | src/app/events/actions.ts:37-45 | on success the event and its dependents are deleted; otherwise the store is unchanged; invariants hold after either |
| NewEvent.RawOf | src/app/new/actions.tsx:41-50 | title, description, start and location pass through, empty when missing; a non-empty end is kept and an empty or missing one is absent; the visibility passes through, `unlisted` when missing |
| NewEvent.BlankToNull | src/app/new/actions.tsx:12-15 | blank text becomes NULL; other text is kept untrimmed |
| NewEvent.Issues | src/app/new/actions.tsx:10-31 | an issue for exactly the failing checks (short title, unparseable start, unparseable present end, label outside the enum, carrying that label), each at most once and in field order |
| NewEvent.ParseEventInput | src/app/new/actions.tsx:10-31 | fails exactly when an issue exists; otherwise yields the title, the parsed dates, the blank-to-null texts and the visibility |
| NewEvent.FormAccepted | src/app/new/actions.tsx:36-56 | the form is accepted exactly when the caller has a user id and `EventInput.safeParse` succeeds |
| NewEvent.RowOf | src/app/new/actions.tsx:58-68 | the inserted row belongs to the caller, carries the fresh token, the form's title and start, no end exactly when the end field is missing or empty, blank description and location as NULL, and the form's visibility (`unlisted` when missing) |
| NewEvent.ValuesOf | src/app/new/actions.tsx:59-68 | the row's owner is the caller, its share token is the fresh token, and its title, description, start, end, location and visibility are the parsed input's |
| NewEvent.CreateEventAction | src/app/new/actions.tsx:35-81 | rejects callers without a user id first, reports all issue messages joined by newlines, redirects to the share path exactly when a signed-in caller's valid form meets no store or an accepting one (and then inserts the form's row), reports the store's violation otherwise, and inserts nothing on failure or without a store |
| NewEvent.CreatedEventIsCallers | src/app/new/actions.tsx:59-80 | a created event is the caller's, open, with the form's title, parsed start, parsed end (none when the field is empty or missing), blank-to-null description and location, and visibility (unlisted by default); it is reachable by its token and the invariants hold |
| NewEvent.FindAfterFreshToken | src/app/new/actions.tsx:67 | a freshly appended token finds the new row |
| NewEvent.BlankTitleAccepted | src/app/new/actions.tsx:11 | the title is not trimmed: two spaces pass `min(2)` |
| NewEvent.EmptyEndIgnored | src/app/new/actions.tsx:45 | an empty end field yields no end and no issue |
| NewEvent.EmptyVisibilityRejected | src/app/new/actions.tsx:30 | a visibility field sent empty is rejected, not defaulted |
| InviteTable.Summary | src/components/InviteStatusTable.tsx:24-29 | each count is the number of RSVPs with that response, or of invites still pending |
| InviteTable.SummaryTotals | src/components/InviteStatusTable.tsx:25-27 | the yes, no and maybe counts of the summary add up to the number of RSVPs |
| InviteTable.AllPendingIff | src/components/InviteStatusTable.tsx:28 | the pending count equals the invite count exactly when no invite has been answered |
| InviteTable.FirstMatch | src/components/InviteStatusTable.tsx:63-66 | returns the first RSVP whose non-empty email equals the invite's case-insensitively, or none when none does |
| InviteTable.MatchIgnoresInviteCase | src/components/InviteStatusTable.tsx:65 | the invite email's case does not affect the match |
| InviteTable.InviteStatusTable | src/components/InviteStatusTable.tsx:24-88 | the summary line is `Summary`; one row per invite in order, with its email, status and time; an RSVP exactly when one matches; the empty notice exactly when there are no invites |
| InviteTable.RsvpCell | src/components/InviteStatusTable.tsx:72 | the cell shows "—" exactly when no RSVP matched, and otherwise the name of exactly the matched response |
| InviteTable.RowShowsFirstMatch | src/components/InviteStatusTable.tsx:63-72 | the row shows the first matching RSVP's response |
| InviteTable.RsvpWithoutEmailNeverShown | src/components/InviteStatusTable.tsx:65 | when no RSVP has an email, no invite shows a response and every cell shows "—" |
| InviteTable.FirstMatchSkip | src/components/InviteStatusTable.tsx:63-66 | removing a non-matching RSVP leaves `find` returning the same RSVP, or none in both lists |
| InviteTable.RsvpWithoutEmailIgnored | src/components/InviteStatusTable.tsx:63-72 | an RSVP without an email, at any position and even ahead of a matching one, changes no row of the table |
| CommentsSection.AddOptimistic | src/components/CommentsSection.tsx:27-30 | the new item goes first and the earlier items keep their order |
| CommentsSection.AddAllNewestFirst | src/components/CommentsSection.tsx:27-30 | several optimistic items appear newest first, ahead of the initial list |
| CommentsSection.DecimalValue | src/components/CommentsSection.tsx:39 | the decimal digits of `Date.now()` read back as that number |
| CommentsSection.TempId | src/components/CommentsSection.tsx:39 | the temporary id starts with `temp-` and the rest reads back as the clock value |
| CommentsSection.TempIdInjective | src/components/CommentsSection.tsx:39 | distinct instants give distinct temporary ids |
| CommentsSection.ErrorAfter | src/components/CommentsSection.tsx:53-61 | there is no error only for an ok reply; otherwise "Failed to post", the thrown message, or "Something went wrong" |
| CommentsSection.PostDisabled | src/components/CommentsSection.tsx:77 | the button is disabled exactly when posting is not allowed, the text is blank or a post is pending |
| CommentsSection.CommentForm.Edit | src/components/CommentsSection.tsx:72 | `onChange` sets the text to the typed value and changes neither the error nor the optimistic list |
| CommentsSection.CommentForm.HandleSubmit | src/components/CommentsSection.tsx:32-62 | blank text sends nothing and clears the error; otherwise sends the trimmed text, adds it in front of the optimistic list, and clears the text only on an ok reply |
| CommentsSection.SentTextTrimmed | src/components/CommentsSection.tsx:35 | the sent text is neither blank nor padded |
| CommentsRoute.IsEmptyText | src/app/api/comments/route.ts:26 | a text is refused exactly when it is missing or trims to the empty string |
| CommentsRoute.FindMemoryEvent | src/app/api/comments/route.ts:29 | returns a memory event with the token, or none when none carries it |
| CommentsRoute.CommentsApi.constructor | src/app/api/comments/route.ts:20 | both memory arrays start empty |
| CommentsRoute.CommentsApi.Post | src/app/api/comments/route.ts:22-54 | missing or blank text is rejected with 400; an unknown token gives 404; otherwise exactly one comment is added with the event's id, the untrimmed text and the caller's id or NULL; memory events never change, so without a store every post gets 404 |
| CommentsRoute.StoredCommentMeaning | src/app/api/comments/route.ts:42-52 | a stored comment has the untrimmed text, an existing event and no user for an anonymous caller |
| EventsRoute.ToDate | src/app/api/events/route.ts:33 | `new Date(s)` is valid exactly when the parser accepts `s` |
| EventsRoute.RowOf | src/app/api/events/route.ts:29-38 | the row's owner is the caller; description and location pass through; a missing visibility is `unlisted`; an empty end is NULL |
| EventsRoute.StoreValues | src/app/api/events/route.ts:47-51 | the store accepts the row exactly when a title is present, both dates are valid and the visibility is an enum label; the stored values then carry the row's owner, token, title, start, end, description, location and visibility |
| EventsRoute.MemoryMine | src/app/api/events/route.ts:59 | exactly the memory events the caller owns, each as often as the memory holds it |
| EventsRoute.StoreMine | src/app/api/events/route.ts:63-67 | exactly the caller's stored events, each as often as stored, newest `created_at` first |
| EventsRoute.MemoryMineAfterPush | src/app/api/events/route.ts:43-59 | a mock post appends the new event to its owner's listing and leaves other owners' listings unchanged |
| EventsRoute.StoreMineAfterInsert | src/app/api/events/route.ts:47-67 | an accepted insert adds the event to its owner's listing and changes no other row |
| EventsRoute.EventsApi.Post | src/app/api/events/route.ts:24-52 | a caller without a user id gets 401 and nothing changes; without a store, exactly one event is appended with equal timestamps; the reply is the share token; with a store, the stored event carries the body's values as `StoreValues` converts them; a refused insert changes nothing |
| EventsRoute.EventsApi.Get | src/app/api/events/route.ts:54-69 | nothing for an anonymous caller; otherwise the caller's listing: `MemoryMine` of the memory (in push order, by `MemoryMineAfterPush`) or `StoreMine` of the store (by `created_at` descending) |

## Left out

- Rendering, layout, time zones and `toLocaleString` formatting are not modelled; the table rows hold the raw values.
- The `isAdminEmail` in `src/app/events/actions.ts` is a verbatim copy of the page's function and is modelled once, as `AdminGate.IsAdminEmail`.
- Text.Lower: `toLowerCase` is modelled for ASCII letters only. Unicode case mapping is not.
- NewEvent.Issues: string lengths are counted in code points where JavaScript counts UTF-16 code units, for `min(2)`.
- The wording of zod's enum error is a parameter (`enumMessage`), as it belongs to the validation library.
- AdminPage.AdminEventsPage: the listing is stated for the grouping the page's own comments intend (`WhereMeansSelected`), not for the SQL as written; the as-written condition is stated by `AsWrittenMeaning` and recorded under Findings. The same holds for AdminPage.SortedSelection and AdminPage.ListingIsSelection, below.
- AdminPage.SortedSelection: states the intended grouping, not the SQL as written (see AdminPage.AdminEventsPage).
- AdminPage.ListingIsSelection: states the intended grouping, not the SQL as written (see AdminPage.AdminEventsPage).
- AdminPage.Query: an unparseable `from` or `to` (an Invalid Date in the query) is not modelled; the parameters are integer instants.
- AdminPage.DayMillis: `setDate(getDate() + 1)` is taken as a fixed 86 400 000 ms, ignoring daylight-saving days.
- `%`, `_` and the escape character `\` inside the text query keep their LIKE meaning in SQL (wildcards, and an escape for the next character) but are matched literally here.
- A search parameter given several times (an array) is not modelled.
- The owner email shown through the `users` left join is display only and is not modelled.
- An id that is not a valid uuid makes the store raise a syntax error; the model treats it as an id no row has.
- Rows with equal sort keys come back in an order SQL leaves unspecified. `SortDesc` fixes one order, so only the ordering and the row set are claimed.
- `LIMIT 1` without `ORDER BY` picks an unspecified row; `FindByShareToken` picks the first in storage order. Share tokens are unique, so at most one row qualifies.
- The auth tables (`accounts`, `sessions`, `verification_tokens`) and users' non-key columns are not modelled.
- React details are not modelled: transitions, `useOptimistic` reverting to the server list, `useFormStatus` (it is the `pending` argument), and re-renders.
- Next.js `redirect`, `notFound` and `revalidatePath` are returned as outcome values; cache revalidation has no effect in the model.
- The `onSubmit` call is a parameter giving how it ended.
- CommentsRoute.CommentsApi.Post: a `text` or `shareToken` of a non-string JSON type is not modelled.
- Both API routes are modelled on a body that is already parsed. A malformed JSON body makes `req.json()` throw, which answers 500; that path is not modelled.
- EventsRoute.Body: a `startsAt` member that is missing or null is not modelled; `startsAt` is a string.
- The invite-response and invite-batch flows, and the id generators, are not part of this model.
- Email sending, the database client wiring and the seed script are not part of this model.
- Invites carry no uniqueness on `(event_id, email)`, and the schema declares none, so the model adds none.

## Findings

| source | as written | input that shows it | evidently intended | confidence | as-written member | corrected member |
|---|---|---|---|---|---|---|
| src/app/events/page.tsx:82-89 | the unparenthesised `title ILIKE .. OR location_text ILIKE ..` fragment inside drizzle's `and(...)` reads as `title OR (location AND other filters)` | `q = "party"`, `visibility = "public"`: a private event titled "party" is listed | the builder's own comments: title-or-location as one operand, ANDed with the other filters | not executed | AdminPage.AsWrittenIgnoresVisibility | AdminPage.WhereMeansSelected |
