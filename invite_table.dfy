/** `InviteStatusTable`: the RSVP summary counts of an event and one table row per
    invite, showing the RSVP whose email matches the invite's. */
module InviteTable {
  import opened Wrappers
  import opened Text
  import opened Seqs
  import opened Schema

  datatype Counts = Counts(yes: nat, no: nat, maybe: nat, pending: nat)

  function ResponseIs(resp: RsvpResponse): Rsvp -> bool { (r: Rsvp) => r.response == resp }
  function StatusIs(st: Schema.InviteStatus): Invite -> bool { (i: Invite) => i.status == st }
  function ResponseOf(r: Rsvp): RsvpResponse { r.response }
  function StatusOf(i: Invite): Schema.InviteStatus { i.status }

  /** The summary line: RSVPs per response, and invites still pending. Each count is
      the number of times its value occurs among the responses (the statuses). */
  function Summary(invites: seq<Invite>, rsvps: seq<Rsvp>): (c: Counts)
    ensures c.yes == multiset(MapSeq(ResponseOf, rsvps))[Yes]
    ensures c.no == multiset(MapSeq(ResponseOf, rsvps))[No]
    ensures c.maybe == multiset(MapSeq(ResponseOf, rsvps))[Maybe]
    ensures c.pending == multiset(MapSeq(StatusOf, invites))[Pending]
    ensures c.pending <= |invites| && c.yes <= |rsvps| && c.no <= |rsvps| && c.maybe <= |rsvps|
  {
    FilterCount(ResponseIs(Yes), ResponseOf, Yes, rsvps);
    FilterCount(ResponseIs(No), ResponseOf, No, rsvps);
    FilterCount(ResponseIs(Maybe), ResponseOf, Maybe, rsvps);
    FilterCount(StatusIs(Pending), StatusOf, Pending, invites);
    Counts(
      |Filter(ResponseIs(Yes), rsvps)|,
      |Filter(ResponseIs(No), rsvps)|,
      |Filter(ResponseIs(Maybe), rsvps)|,
      |Filter(StatusIs(Pending), invites)|)
  }

  /** Every RSVP is counted exactly once in the three response counts. */
  lemma {:induction false} ResponsesPartition(rsvps: seq<Rsvp>)
    ensures |Filter(ResponseIs(Yes), rsvps)| + |Filter(ResponseIs(No), rsvps)| + |Filter(ResponseIs(Maybe), rsvps)| == |rsvps|
  {
    if rsvps != [] { ResponsesPartition(rsvps[1..]); }
  }

  lemma SummaryTotals(invites: seq<Invite>, rsvps: seq<Rsvp>)
    ensures var c := Summary(invites, rsvps); c.yes + c.no + c.maybe == |rsvps|
  {
    ResponsesPartition(rsvps);
  }

  /** The pending count is the full invite count exactly when no invite has been answered. */
  lemma {:induction false} AllPendingIff(invites: seq<Invite>)
    ensures |Filter(StatusIs(Pending), invites)| == |invites| <==> forall i :: i in invites ==> i.status == Pending
  {
    if invites != [] {
      AllPendingIff(invites[1..]);
      assert forall i :: i in invites <==> i == invites[0] || i in invites[1..];
    }
  }

  /** `r.email && r.email.toLowerCase() === email.toLowerCase()`: an RSVP with a NULL or
      empty email matches no invite. */
  predicate EmailMatches(r: Rsvp, inviteEmail: string) {
    r.email.Some? && r.email.value != "" && Lower(r.email.value) == Lower(inviteEmail)
  }

  function FirstMatchFrom(rsvps: seq<Rsvp>, inviteEmail: string, k: nat): (r: Option<nat>)
    requires k <= |rsvps|
    ensures r.Some? ==> k <= r.value < |rsvps| && EmailMatches(rsvps[r.value], inviteEmail)
    ensures r.Some? ==> forall j :: k <= j < r.value ==> !EmailMatches(rsvps[j], inviteEmail)
    ensures r.None? ==> forall j :: k <= j < |rsvps| ==> !EmailMatches(rsvps[j], inviteEmail)
    decreases |rsvps| - k
  {
    if k == |rsvps| then None
    else if EmailMatches(rsvps[k], inviteEmail) then Some(k)
    else FirstMatchFrom(rsvps, inviteEmail, k + 1)
  }

  /** `rsvps.find(...)`, as the position of the first matching RSVP. */
  function FirstMatch(rsvps: seq<Rsvp>, inviteEmail: string): (r: Option<nat>)
    ensures r.Some? ==> r.value < |rsvps| && EmailMatches(rsvps[r.value], inviteEmail)
    ensures r.Some? ==> forall j :: 0 <= j < r.value ==> !EmailMatches(rsvps[j], inviteEmail)
    ensures r.None? ==> forall j :: 0 <= j < |rsvps| ==> !EmailMatches(rsvps[j], inviteEmail)
  {
    FirstMatchFrom(rsvps, inviteEmail, 0)
  }

  /** Only the first matching RSVP is shown; two RSVPs that differ only in ASCII case
      both match, and the earlier one wins. */
  lemma FirstMatchUnique(rsvps: seq<Rsvp>, inviteEmail: string, k: nat)
    requires k < |rsvps| && EmailMatches(rsvps[k], inviteEmail)
    requires forall j :: 0 <= j < k ==> !EmailMatches(rsvps[j], inviteEmail)
    ensures FirstMatch(rsvps, inviteEmail) == Some(k)
  {
  }

  /** The match ignores the ASCII case of the invite's email. */
  lemma MatchIgnoresInviteCase(rsvps: seq<Rsvp>, inviteEmail: string)
    ensures FirstMatch(rsvps, Lower(inviteEmail)) == FirstMatch(rsvps, inviteEmail)
  {
    LowerIdempotent(inviteEmail);
    assert forall r :: EmailMatches(r, Lower(inviteEmail)) <==> EmailMatches(r, inviteEmail);
    FirstMatchFromAgree(rsvps, Lower(inviteEmail), inviteEmail, 0);
  }

  lemma FirstMatchFromAgree(rsvps: seq<Rsvp>, a: string, b: string, k: nat)
    requires k <= |rsvps|
    requires forall r :: EmailMatches(r, a) <==> EmailMatches(r, b)
    ensures FirstMatchFrom(rsvps, a, k) == FirstMatchFrom(rsvps, b, k)
    decreases |rsvps| - k
  {
    if k < |rsvps| { FirstMatchFromAgree(rsvps, a, b, k + 1); }
  }

  /** One table row: the invite's email and status, the matched RSVP's response and
      the invite's `respondedAt`. */
  datatype Row = Row(email: string, status: Schema.InviteStatus, rsvp: Option<RsvpResponse>, respondedAt: Option<Instant>)

  function RowFor(rsvps: seq<Rsvp>): Invite -> Row {
    (i: Invite) =>
      var m := FirstMatch(rsvps, i.email);
      Row(i.email, i.status, if m.Some? then Some(rsvps[m.value].response) else None, i.respondedAt)
  }

  /** `match?.response ?? "—"`. */
  function RsvpCell(row: Row): (r: string)
    ensures r == "—" <==> row.rsvp.None?
    ensures forall x :: r == RsvpResponseName(x) <==> row.rsvp == Some(x)
  {
    if row.rsvp.Some? then RsvpResponseName(row.rsvp.value) else "—"
  }

  datatype Table = Table(summary: Counts, rows: seq<Row>, noInvitesNotice: bool)

  /** The rendered component. */
  function InviteStatusTable(invites: seq<Invite>, rsvps: seq<Rsvp>): (t: Table)
    ensures t.summary == Summary(invites, rsvps)
    ensures |t.rows| == |invites|
    ensures t.noInvitesNotice <==> invites == []
    ensures forall k :: 0 <= k < |invites| ==>
      && t.rows[k].email == invites[k].email
      && t.rows[k].status == invites[k].status
      && t.rows[k].respondedAt == invites[k].respondedAt
      && (t.rows[k].rsvp.Some? <==> exists j :: 0 <= j < |rsvps| && EmailMatches(rsvps[j], invites[k].email))
  {
    var rows := MapSeq(RowFor(rsvps), invites);
    assert forall k :: 0 <= k < |invites| ==> rows[k] == RowFor(rsvps)(invites[k]);
    Table(Summary(invites, rsvps), rows, |invites| == 0)
  }

  /** The RSVP shown on a row is that of the first RSVP whose email matches the invite's. */
  lemma RowShowsFirstMatch(invites: seq<Invite>, rsvps: seq<Rsvp>, k: nat, j: nat)
    requires k < |invites| && j < |rsvps| && EmailMatches(rsvps[j], invites[k].email)
    requires forall j' :: 0 <= j' < j ==> !EmailMatches(rsvps[j'], invites[k].email)
    ensures InviteStatusTable(invites, rsvps).rows[k].rsvp == Some(rsvps[j].response)
    ensures RsvpCell(InviteStatusTable(invites, rsvps).rows[k]) == RsvpResponseName(rsvps[j].response)
  {
    FirstMatchUnique(rsvps, invites[k].email, j);
    assert MapSeq(RowFor(rsvps), invites)[k] == RowFor(rsvps)(invites[k]);
  }

  /** An RSVP made by a signed-in user without an email never shows against an invite,
      even one sent to that user's address. */
  lemma RsvpWithoutEmailNeverShown(invites: seq<Invite>, rsvps: seq<Rsvp>, k: nat)
    requires k < |invites|
    requires forall j :: 0 <= j < |rsvps| ==> rsvps[j].email.None?
    ensures InviteStatusTable(invites, rsvps).rows[k].rsvp.None?
    ensures RsvpCell(InviteStatusTable(invites, rsvps).rows[k]) == "—"
  {
    assert forall j :: 0 <= j < |rsvps| ==> !EmailMatches(rsvps[j], invites[k].email);
  }

  /** The RSVP list with the one at position `j` removed. */
  function Without(rsvps: seq<Rsvp>, j: nat): (r: seq<Rsvp>)
    requires j < |rsvps|
    ensures |r| == |rsvps| - 1
    ensures forall i :: 0 <= i < |r| ==> r[i] == if i < j then rsvps[i] else rsvps[i + 1]
  {
    rsvps[..j] + rsvps[j + 1..]
  }

  /** Removing an RSVP that does not match an email leaves the matched RSVP the same. */
  lemma FirstMatchSkip(rsvps: seq<Rsvp>, inviteEmail: string, j: nat)
    requires j < |rsvps| && !EmailMatches(rsvps[j], inviteEmail)
    ensures var m, m' := FirstMatch(rsvps, inviteEmail), FirstMatch(Without(rsvps, j), inviteEmail);
            && (m.None? <==> m'.None?)
            && (m.Some? ==> rsvps[m.value] == Without(rsvps, j)[m'.value])
  {
    var s := Without(rsvps, j);
    var m := FirstMatch(rsvps, inviteEmail);
    if m.Some? {
      var p := m.value;
      if p < j {
        FirstMatchUnique(s, inviteEmail, p);
      } else {
        assert s[p - 1] == rsvps[p];
        forall q | 0 <= q < p - 1 ensures !EmailMatches(s[q], inviteEmail) {
          if q >= j { assert s[q] == rsvps[q + 1]; }
        }
        FirstMatchUnique(s, inviteEmail, p - 1);
      }
    }
  }

  /** An RSVP without an email changes no row of the table wherever it stands, even
      ahead of an RSVP that matches; only the summary counts it. */
  lemma RsvpWithoutEmailIgnored(invites: seq<Invite>, rsvps: seq<Rsvp>, j: nat)
    requires j < |rsvps| && rsvps[j].email.None?
    ensures InviteStatusTable(invites, rsvps).rows == InviteStatusTable(invites, Without(rsvps, j)).rows
  {
    var s := Without(rsvps, j);
    forall k | 0 <= k < |invites| ensures RowFor(rsvps)(invites[k]) == RowFor(s)(invites[k]) {
      FirstMatchSkip(rsvps, invites[k].email, j);
    }
    assert MapSeq(RowFor(rsvps), invites) == MapSeq(RowFor(s), invites);
  }
}
