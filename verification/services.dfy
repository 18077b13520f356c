/**
 * The two outside services the request handlers talk to, reduced to what the handlers see:
 * the document store holding the orders sheet and the appointments sheet (read whole, replace
 * whole), and the mail service (a call whose result is ignored).
 */
module Services {
  import opened Wrappers
  import opened Calendar
  import opened Records

  /** What reading the appointments file gives: its rows, a "not found" error, or another failure. */
  datatype FileState = Present(rows: seq<Appointment>) | Missing | Unreadable

  /**
   * The Node server's `fetchAppointments` + `parseCSV`: a missing file reads as the header line
   * alone, that is no rows; any other failure propagates.
   */
  function NodeRows(f: FileState): (r: Option<seq<Appointment>>)
    ensures r.None? <==> f.Unreadable?
    ensures f.Present? ==> r == Some(f.rows)
    ensures f.Missing? ==> r == Some([])
  {
    match f
    case Present(rows) => Some(rows)
    case Missing => Some([])
    case Unreadable => None
  }

  /** The Python backend's `try: ... except: appointments = []`: every failure reads as no rows. */
  function PyRows(f: FileState): (r: seq<Appointment>)
    ensures f.Present? ==> r == f.rows
    ensures !f.Present? ==> r == []
  {
    if f.Present? then f.rows else []
  }

  /**
   * The two servers read the same rows from every file the Node server can read: a present
   * file gives its rows and a missing one none.  They part only on a file that cannot be read,
   * which fails the Node request and is an empty sheet to the Python backend.
   */
  lemma RowReadingsAgree(f: FileState)
    ensures NodeRows(f).Some? ==> NodeRows(f).value == PyRows(f)
    ensures NodeRows(f).None? <==> f.Unreadable?
    ensures f.Unreadable? ==> PyRows(f) == []
  {
  }

  /** A confirmation mail: the order number shown, the pickup slot, and the recipient. */
  datatype Mail = Mail(orderNumber: string, pickup: Instant, recipient: string)

  /**
   * The document store.  `orders` is `None` when fetching the orders file fails;
   * `uploadsWork` says whether the next upload succeeds; `uploads` records every version of
   * the appointments sheet written, oldest first.
   */
  class Store {
    var orders: Option<seq<Order>>
    var appointments: FileState
    var uploadsWork: bool
    var uploads: seq<seq<Appointment>>

    constructor (orders: Option<seq<Order>>, appointments: FileState, uploadsWork: bool)
      ensures this.orders == orders && this.appointments == appointments
      ensures this.uploadsWork == uploadsWork && uploads == []
    {
      this.orders := orders;
      this.appointments := appointments;
      this.uploadsWork := uploadsWork;
      uploads := [];
    }

    /**
     * `updateAppointments` / `upload_file_content` of the whole sheet: on success the file
     * holds exactly `rows`; on failure (the caller turns it into a 500) nothing changes.
     */
    method Upload(rows: seq<Appointment>) returns (ok: bool)
      modifies this
      ensures ok == uploadsWork
      ensures orders == old(orders) && uploadsWork == old(uploadsWork)
      ensures ok ==> appointments == Present(rows) && uploads == old(uploads) + [rows]
      ensures !ok ==> appointments == old(appointments) && uploads == old(uploads)
    {
      ok := uploadsWork;
      if ok {
        appointments := Present(rows);
        uploads := uploads + [rows];
      }
    }
  }

  /** The mail service: every confirmation handed to it, in order. */
  class Outbox {
    var sent: seq<Mail>

    constructor ()
      ensures sent == []
    {
      sent := [];
    }

    /** `sendConfirmationEmail` / `send_confirmation_email`; its result never reaches the caller. */
    method Send(m: Mail)
      modifies this
      ensures sent == old(sent) + [m]
    {
      sent := sent + [m];
    }
  }
}
