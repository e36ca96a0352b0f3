/** The admin events page: who may see it, the `where` condition it builds
    from the `q`, `visibility`, `status`, `from` and `to` search parameters,
    and the rows it lists, newest start first. */
module AdminPage {
  import opened Wrappers
  import opened Text
  import opened Seqs
  import opened Schema
  import Auth
  import AdminGate

  /** `end.setDate(end.getDate() + 1)`, taken as a fixed day length. */
  const DayMillis: int := 86400000

  /** A `from`/`to` parameter: empty, or the instant `new Date(..)` makes of it. */
  datatype DateParam = NoDate | On(t: Instant)

  /** The search parameters, each `""` when missing. */
  datatype Query = Query(q: string, vis: string, status: string, from: DateParam, to: DateParam)

  /** One entry of the local `clauses` array. */
  datatype Clause =
    | TitleLike(pattern: string)
    | VisibilityIs(v: Visibility)
    | StatusIs(s: EventStatus)
    | StartsNoEarlier(t: Instant)
    | StartsNoLater(t: Instant)

  /** Only the two labels `"public"` and `"private"` filter by visibility. */
  function VisibilityFilter(vis: string): (r: Option<Visibility>)
    ensures r.Some? <==> vis == "public" || vis == "private"
    ensures r.Some? ==> VisibilityName(r.value) == vis
  {
    if vis == "public" then Some(Public) else if vis == "private" then Some(Private) else None
  }

  /** Only `"open"` and `"closed"` filter by status. */
  function StatusFilter(status: string): (r: Option<EventStatus>)
    ensures r.Some? <==> status == "open" || status == "closed"
    ensures r.Some? ==> EventStatusName(r.value) == status
  {
    if status == "open" then Some(Open) else if status == "closed" then Some(Closed) else None
  }

  /** The clauses pushed after the title clause, in push order. */
  function OtherClauses(query: Query): seq<Clause> {
    (match VisibilityFilter(query.vis) { case Some(v) => [VisibilityIs(v)] case None => [] })
    + (match StatusFilter(query.status) { case Some(s) => [StatusIs(s)] case None => [] })
    + (match query.from { case On(t) => [StartsNoEarlier(t)] case NoDate => [] })
    + (match query.to { case On(t) => [StartsNoLater(t + DayMillis)] case NoDate => [] })
  }

  /** The `clauses` array once every `push` has run. */
  function Clauses(query: Query): (r: seq<Clause>)
    ensures query.q != "" ==> |r| >= 1 && r[0] == TitleLike(query.q) && r[1..] == OtherClauses(query)
    ensures query.q == "" ==> r == OtherClauses(query)
  {
    (if query.q != "" then [TitleLike(query.q)] else []) + OtherClauses(query)
  }

  /** An operand of the final `where`: the raw title-or-location fragment, or a pushed clause. */
  datatype Cond = TitleOrLocation(pattern: string) | Is(clause: Clause)

  function AsCond(c: Clause): Cond { Is(c) }

  /** The `where` argument: `undefined`, a single condition, or `and(...)` of several. */
  datatype Where = Unfiltered | Only(cond: Cond) | AllOf(conds: seq<Cond>)

  /** The conditional expression at the end of the builder. */
  function WhereOf(query: Query): (w: Where)
    ensures query.q != "" ==> w == AllOf([TitleOrLocation(query.q)] + MapSeq(AsCond, OtherClauses(query)))
    ensures query.q == "" && OtherClauses(query) != [] ==> w == AllOf(MapSeq(AsCond, OtherClauses(query)))
    ensures w == Unfiltered <==> query.q == "" && OtherClauses(query) == []
  {
    var clauses := Clauses(query);
    if query.q != "" && |clauses| > 0 then AllOf([TitleOrLocation(query.q)] + MapSeq(AsCond, clauses[1..]))
    else if query.q != "" then Only(TitleOrLocation(query.q))
    else if |clauses| > 0 then AllOf(MapSeq(AsCond, clauses))
    else Unfiltered
  }

  /** `location_text ILIKE '%p%'`: a NULL location never matches. */
  predicate LocationLike(e: Event, p: string) {
    e.locationText.Some? && ILike(e.locationText.value, p)
  }

  predicate ClauseHolds(c: Clause, e: Event) {
    match c
    case TitleLike(p) => ILike(e.title, p)
    case VisibilityIs(v) => e.visibility == v
    case StatusIs(s) => e.status == s
    case StartsNoEarlier(t) => e.startsAt >= t
    case StartsNoLater(t) => e.startsAt <= t
  }

  predicate CondHolds(c: Cond, e: Event) {
    match c
    case TitleOrLocation(p) => ILike(e.title, p) || LocationLike(e, p)
    case Is(cl) => ClauseHolds(cl, e)
  }

  predicate AllHold(cs: seq<Cond>, e: Event) {
    forall i :: 0 <= i < |cs| ==> CondHolds(cs[i], e)
  }

  /** The grouping the builder's comments ask for: the title-or-location test as one
      operand, ANDed with the other clauses. */
  predicate Matches(w: Where, e: Event) {
    match w
    case Unfiltered => true
    case Only(c) => CondHolds(c, e)
    case AllOf(cs) => AllHold(cs, e)
  }

  function Matcher(w: Where): Event -> bool {
    (e: Event) => Matches(w, e)
  }

  /** What the filter form asks for, stated field by field. */
  predicate Selected(query: Query, e: Event) {
    && (query.q != "" ==> ILike(e.title, query.q) || LocationLike(e, query.q))
    && (query.vis == "public" ==> e.visibility == Public)
    && (query.vis == "private" ==> e.visibility == Private)
    && (query.status == "open" ==> e.status == Open)
    && (query.status == "closed" ==> e.status == Closed)
    && (query.from.On? ==> e.startsAt >= query.from.t)
    && (query.to.On? ==> e.startsAt <= query.to.t + DayMillis)
  }

  /** The non-text part of `Selected`. */
  predicate OthersSelected(query: Query, e: Event) {
    && (query.vis == "public" ==> e.visibility == Public)
    && (query.vis == "private" ==> e.visibility == Private)
    && (query.status == "open" ==> e.status == Open)
    && (query.status == "closed" ==> e.status == Closed)
    && (query.from.On? ==> e.startsAt >= query.from.t)
    && (query.to.On? ==> e.startsAt <= query.to.t + DayMillis)
  }

  lemma AllHoldAppend(a: seq<Cond>, b: seq<Cond>, e: Event)
    ensures AllHold(a + b, e) <==> AllHold(a, e) && AllHold(b, e)
  {
    if AllHold(a, e) && AllHold(b, e) {
      forall i | 0 <= i < |a + b| ensures CondHolds((a + b)[i], e) {
        if i >= |a| { assert (a + b)[i] == b[i - |a|]; }
      }
    }
    if AllHold(a + b, e) {
      forall i | 0 <= i < |a| ensures CondHolds(a[i], e) { assert (a + b)[i] == a[i]; }
      forall i | 0 <= i < |b| ensures CondHolds(b[i], e) { assert (a + b)[|a| + i] == b[i]; }
    }
  }

  predicate ClausesHold(cs: seq<Clause>, e: Event) {
    forall i :: 0 <= i < |cs| ==> ClauseHolds(cs[i], e)
  }

  lemma ClausesHoldAsConds(cs: seq<Clause>, e: Event)
    ensures AllHold(MapSeq(AsCond, cs), e) <==> ClausesHold(cs, e)
  {
    var m := MapSeq(AsCond, cs);
    assert forall i :: 0 <= i < |cs| ==> m[i] == Is(cs[i]);
  }

  lemma ClausesHoldAppend(a: seq<Clause>, b: seq<Clause>, e: Event)
    ensures ClausesHold(a + b, e) <==> ClausesHold(a, e) && ClausesHold(b, e)
  {
    if ClausesHold(a, e) && ClausesHold(b, e) {
      forall i | 0 <= i < |a + b| ensures ClauseHolds((a + b)[i], e) {
        if i >= |a| { assert (a + b)[i] == b[i - |a|]; }
      }
    }
    if ClausesHold(a + b, e) {
      forall i | 0 <= i < |a| ensures ClauseHolds(a[i], e) { assert (a + b)[i] == a[i]; }
      forall i | 0 <= i < |b| ensures ClauseHolds(b[i], e) { assert (a + b)[|a| + i] == b[i]; }
    }
  }

  lemma ClausesHoldSingle(c: Clause, e: Event)
    ensures ClausesHold([c], e) <==> ClauseHolds(c, e)
  {
    assert [c][0] == c;
  }

  /** The pushed clauses other than the title clause hold exactly when the
      visibility, status and date filters admit the event. */
  lemma OtherClausesMeaning(query: Query, e: Event)
    ensures AllHold(MapSeq(AsCond, OtherClauses(query)), e) <==> OthersSelected(query, e)
  {
    var v := match VisibilityFilter(query.vis) { case Some(v) => [VisibilityIs(v)] case None => [] };
    var s := match StatusFilter(query.status) { case Some(s) => [StatusIs(s)] case None => [] };
    var f := match query.from { case On(t) => [StartsNoEarlier(t)] case NoDate => [] };
    var t := match query.to { case On(t) => [StartsNoLater(t + DayMillis)] case NoDate => [] };
    assert OtherClauses(query) == v + s + f + t;
    ClausesHoldAsConds(v + s + f + t, e);
    ClausesHoldAppend(v + s + f, t, e);
    ClausesHoldAppend(v + s, f, e);
    ClausesHoldAppend(v, s, e);
    if VisibilityFilter(query.vis).Some? { ClausesHoldSingle(VisibilityIs(VisibilityFilter(query.vis).value), e); }
    if StatusFilter(query.status).Some? { ClausesHoldSingle(StatusIs(StatusFilter(query.status).value), e); }
    if query.from.On? { ClausesHoldSingle(StartsNoEarlier(query.from.t), e); }
    if query.to.On? { ClausesHoldSingle(StartsNoLater(query.to.t + DayMillis), e); }
    assert ClausesHold(v, e) <==> (query.vis == "public" ==> e.visibility == Public) && (query.vis == "private" ==> e.visibility == Private);
    assert ClausesHold(s, e) <==> (query.status == "open" ==> e.status == Open) && (query.status == "closed" ==> e.status == Closed);
    assert ClausesHold(f, e) <==> (query.from.On? ==> e.startsAt >= query.from.t);
    assert ClausesHold(t, e) <==> (query.to.On? ==> e.startsAt <= query.to.t + DayMillis);
  }

  /** The `where` condition admits an event exactly when the event is what the
      filter form asks for. */
  lemma WhereMeansSelected(query: Query, e: Event)
    ensures Matches(WhereOf(query), e) <==> Selected(query, e)
  {
    OtherClausesMeaning(query, e);
    var rest := MapSeq(AsCond, OtherClauses(query));
    if query.q != "" {
      AllHoldAppend([TitleOrLocation(query.q)], rest, e);
      assert AllHold([TitleOrLocation(query.q)], e) <==> CondHolds(TitleOrLocation(query.q), e) by {
        assert [TitleOrLocation(query.q)][0] == TitleOrLocation(query.q);
      }
    }
  }

  /** The SQL the builder emits. Drizzle's `and(a, b, ...)` writes `(a and b and ...)`
      without parenthesising the raw `title ILIKE .. OR location_text ILIKE ..`
      fragment, so SQL reads it as `title ILIKE .. OR (location_text ILIKE .. AND ...)`. */
  predicate MatchesAsWritten(w: Where, e: Event) {
    match w
    case AllOf(cs) =>
      if |cs| > 1 && cs[0].TitleOrLocation? then
        ILike(e.title, cs[0].pattern) || (LocationLike(e, cs[0].pattern) && AllHold(cs[1..], e))
      else AllHold(cs, e)
    case _ => Matches(w, e)
  }

  /** What the emitted SQL selects: with a text query and another filter, a title
      match alone is enough and the other filters bind only the location match. */
  lemma AsWrittenMeaning(query: Query, e: Event)
    ensures MatchesAsWritten(WhereOf(query), e) <==>
      if query.q != "" && OtherClauses(query) != [] then
        ILike(e.title, query.q) || (LocationLike(e, query.q) && OthersSelected(query, e))
      else Selected(query, e)
  {
    WhereMeansSelected(query, e);
    OtherClausesMeaning(query, e);
    var rest := MapSeq(AsCond, OtherClauses(query));
    if query.q != "" {
      var cs := [TitleOrLocation(query.q)] + rest;
      assert cs[1..] == rest;
      AllHoldAppend([TitleOrLocation(query.q)], rest, e);
    }
  }

  /** A private event whose title matches the text is listed under a `public` filter. */
  lemma AsWrittenIgnoresVisibility()
    ensures var query := Query("party", "public", "", NoDate, NoDate);
            var e := Event("e1", "u1", "party", None, 0, None, None, Private, "t1", 0, 0, Open);
            MatchesAsWritten(WhereOf(query), e) && !Selected(query, e)
  {
    var query := Query("party", "public", "", NoDate, NoDate);
    var e := Event("e1", "u1", "party", None, 0, None, None, Private, "t1", 0, 0, Open);
    assert Lower("party") == "party";
    assert IsFactorAt(Lower(e.title), Lower(query.q), 0);
    assert OtherClauses(query) == [VisibilityIs(Public)];
    AsWrittenMeaning(query, e);
  }

  /** Without other filters, or without text, the emitted SQL selects what was meant. */
  lemma AsWrittenAgreesOtherwise(query: Query, e: Event)
    requires query.q == "" || OtherClauses(query) == []
    ensures MatchesAsWritten(WhereOf(query), e) <==> Selected(query, e)
  {
    AsWrittenMeaning(query, e);
  }

  // ----- the page

  function StartsAtKey(e: Event): int { e.startsAt }

  datatype PageOutcome =
    | RedirectToSignIn      // redirect to /api/auth/signin?callbackUrl=/events
    | NotFound              // notFound()
    | NotConfigured         // "Database not configured.", no table
    | Listing(rows: seq<Event>)

  /** `AdminEventsPage`: the sign-in and admin gates, then the filtered rows ordered by
      `starts_at` descending. */
  function AdminEventsPage(session: Auth.Session, adminEmails: string, configured: bool,
                           query: Query, events: seq<Event>): (r: PageOutcome)
    ensures r == RedirectToSignIn <==> !Auth.HasEmail(session)
    ensures r == NotFound <==> Auth.HasEmail(session) && !AdminGate.IsAdminEmail(adminEmails, Auth.Email(session))
    ensures r == NotConfigured <==> AdminGate.IsAdminEmail(adminEmails, Auth.Email(session)) && !configured
    ensures r.Listing? ==> SortedDesc(r.rows, StartsAtKey)
    ensures r.Listing? ==> multiset(r.rows) == multiset(Filter(Matcher(WhereOf(query)), events))
  {
    if !Auth.HasEmail(session) then RedirectToSignIn
    else if !AdminGate.IsAdminEmail(adminEmails, Auth.Email(session)) then NotFound
    else if !configured then NotConfigured
    else Listing(SortDesc(Filter(Matcher(WhereOf(query)), events), StartsAtKey))
  }

  /** The rows kept and ordered for the listing are exactly the stored events the filters select. */
  lemma SortedSelection(query: Query, events: seq<Event>, e: Event)
    ensures e in SortDesc(Filter(Matcher(WhereOf(query)), events), StartsAtKey) <==> e in events && Selected(query, e)
  {
    var filtered := Filter(Matcher(WhereOf(query)), events);
    SortDescSameRows(filtered, StartsAtKey);
    WhereMeansSelected(query, e);
    if e in events && Selected(query, e) {
      var k :| 0 <= k < |events| && events[k] == e;
      assert Matcher(WhereOf(query))(events[k]);
      assert e in filtered;
    }
  }

  /** Only a signed-in admin, with a database configured, is shown any row; the rows
      shown are exactly the stored events the filters select. */
  lemma ListingIsSelection(session: Auth.Session, adminEmails: string, configured: bool,
                           query: Query, events: seq<Event>, e: Event)
    requires AdminEventsPage(session, adminEmails, configured, query, events).Listing?
    ensures Auth.HasEmail(session) && AdminGate.IsAdminEmail(adminEmails, Auth.Email(session)) && configured
    ensures e in AdminEventsPage(session, adminEmails, configured, query, events).rows
            <==> e in events && Selected(query, e)
  {
    SortedSelection(query, events, e);
  }

  /** With no filter set, the where clause is `undefined` and every event is listed. */
  lemma NoFiltersListsEverything(session: Auth.Session, adminEmails: string, events: seq<Event>)
    requires Auth.HasEmail(session) && AdminGate.IsAdminEmail(adminEmails, Auth.Email(session))
    ensures var query := Query("", "", "", NoDate, NoDate);
            WhereOf(query) == Unfiltered &&
            multiset(AdminEventsPage(session, adminEmails, true, query, events).rows) == multiset(events)
  {
    var query := Query("", "", "", NoDate, NoDate);
    assert OtherClauses(query) == [];
    FilterAll(Matcher(Unfiltered), events);
  }

  /** `"unlisted"` (or any label other than `"public"`/`"private"`) filters nothing. */
  lemma OtherVisibilityLabelsIgnored(query: Query)
    requires query.vis != "public" && query.vis != "private"
    ensures WhereOf(query) == WhereOf(query.(vis := ""))
  {
    assert OtherClauses(query) == OtherClauses(query.(vis := ""));
  }

  /** The `to` day is included: the upper bound is the `to` instant plus one day, inclusive. */
  lemma ToDayIncluded(query: Query, e: Event)
    requires query.to.On? && query.to.t <= e.startsAt <= query.to.t + DayMillis
    ensures Matches(WhereOf(query), e) <==> Matches(WhereOf(query.(to := NoDate)), e)
  {
    WhereMeansSelected(query, e);
    WhereMeansSelected(query.(to := NoDate), e);
  }
}
