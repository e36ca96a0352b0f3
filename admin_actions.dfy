/** The admin server actions behind the Close, Reopen and Delete buttons of the
    admin events page. Each checks that a database is configured, then that the
    caller is an admin, then updates or deletes the event whose id the form
    carries. */
module AdminActions {
  import opened Wrappers
  import opened Schema
  import Auth
  import AdminGate

  /** A thrown `Error(message)`, or normal completion. */
  datatype ActionResult = Done | Failed(message: string)

  const NotConfiguredMessage: string := "DB not configured"
  const UnauthorizedMessage: string := "Unauthorized"

  /** The two checks every action makes before touching a row, in the order it makes them. */
  function Guard(configured: bool, adminEmails: string, session: Auth.Session): (r: ActionResult)
    ensures r == Done <==> configured && AdminGate.IsAdminEmail(adminEmails, Auth.Email(session))
    ensures !configured ==> r == Failed(NotConfiguredMessage)
    ensures configured && !AdminGate.IsAdminEmail(adminEmails, Auth.Email(session)) ==> r == Failed(UnauthorizedMessage)
  {
    if !configured then Failed(NotConfiguredMessage)
    else if !AdminGate.IsAdminEmail(adminEmails, Auth.Email(session)) then Failed(UnauthorizedMessage)
    else Done
  }

  /** `String(formData.get("id") || "")`: a missing field is the empty id. */
  function FormId(field: Option<string>): (id: Id)
    ensures field.Some? ==> id == field.value
    ensures field.None? ==> id == ""
  {
    field.GetOr("")
  }

  /** A caller without a signed-in email is refused whatever the allow-list says. */
  lemma AnonymousRefused(configured: bool, adminEmails: string)
    requires configured
    ensures Guard(configured, adminEmails, None) == Failed(UnauthorizedMessage)
  {
  }

  /** The store behind `db`, with the configuration the actions read from the environment. */
  class AdminConsole {
    const configured: bool
    const adminEmails: string
    var store: Database

    ghost predicate Valid() reads this {
      Schema.Valid(store)
    }

    constructor (configured: bool, adminEmails: string, store: Database)
      requires Schema.Valid(store)
      ensures Valid()
      ensures this.configured == configured && this.adminEmails == adminEmails && this.store == store
    {
      this.configured := configured;
      this.adminEmails := adminEmails;
      this.store := store;
    }

    /** `closeEventAction`: sets the event's status to `closed`. */
    method CloseEvent(session: Auth.Session, field: Option<string>) returns (r: ActionResult)
      requires Valid()
      modifies this
      ensures Valid()
      ensures r == Guard(configured, adminEmails, session)
      ensures r == Done ==> store == SetEventStatus(old(store), FormId(field), Closed)
      ensures r != Done ==> store == old(store)
    {
      r := Guard(configured, adminEmails, session);
      if r == Done {
        SetEventStatusValid(store, FormId(field), Closed);
        store := SetEventStatus(store, FormId(field), Closed);
      }
    }

    /** `reopenEventAction`: sets the event's status to `open`. */
    method ReopenEvent(session: Auth.Session, field: Option<string>) returns (r: ActionResult)
      requires Valid()
      modifies this
      ensures Valid()
      ensures r == Guard(configured, adminEmails, session)
      ensures r == Done ==> store == SetEventStatus(old(store), FormId(field), Open)
      ensures r != Done ==> store == old(store)
    {
      r := Guard(configured, adminEmails, session);
      if r == Done {
        SetEventStatusValid(store, FormId(field), Open);
        store := SetEventStatus(store, FormId(field), Open);
      }
    }

    /** `deleteEventAction`: deletes the event; the store cascades the delete to its
        comments, invites and RSVPs. */
    method DeleteEvent(session: Auth.Session, field: Option<string>) returns (r: ActionResult)
      requires Valid()
      modifies this
      ensures Valid()
      ensures r == Guard(configured, adminEmails, session)
      ensures r == Done ==> store == Schema.DeleteEvent(old(store), FormId(field))
      ensures r != Done ==> store == old(store)
    {
      r := Guard(configured, adminEmails, session);
      if r == Done {
        DeleteEventValid(store, FormId(field));
        store := Schema.DeleteEvent(store, FormId(field));
      }
    }
  }
}
