/**
 * The JSON replies of the request handlers, reduced to their status and the data the clients
 * read from them.
 */
module Replies {
  import opened Wrappers
  import opened Calendar
  import opened Records

  /** Why a request was refused; each reason has one HTTP status. */
  datatype Failure =
    | MissingInput         // a required field is absent or empty
    | MissingEmail         // the booking has no customer email
    | OrderNotFound        // no order row matches the number
    | NotReady             // the matched order has no ready number
    | AlreadyPickedUp      // the order is picked up or fulfilled
    | AlreadyScheduled     // the order already has a complete appointment
    | SlotLocked           // another booking holds the slot lock
    | SlotTaken            // an appointment row already reads as the slot
    | AppointmentNotFound  // no appointment row matches the number (admin)
    | ServerError          // a fetch, an upload or a format call failed

  datatype Reply =
    | Failed(failure: Failure)
      /** validate-order: the order's number and status, and its appointment when it has a date and a time. */
    | Validated(orderNumber: string, status: string, appointment: Option<Appointment>)
      /** available-slots: the free slots, and the counts `totalSlots` and `bookedCount`. */
    | Slots(available: seq<Instant>, total: nat, booked: nat)
      /** book-appointment: the order's number and the booked slot. */
    | Booked(orderNumber: string, pickup: Instant)
      /** the admin list: the appointments kept after the clean-up. */
    | Listing(rows: seq<Appointment>)
    | Cancelled
      /** reschedule: the new date and time texts. */
    | Rescheduled(orderNumber: string, date: string, time: string)

  function FailureStatus(f: Failure): (code: int)
    ensures 400 <= code <= 500
  {
    match f
    case MissingInput => 400
    case MissingEmail => 400
    case OrderNotFound => 404
    case NotReady => 400
    case AlreadyPickedUp => 400
    case AlreadyScheduled => 400
    case SlotLocked => 409
    case SlotTaken => 409
    case AppointmentNotFound => 404
    case ServerError => 500
  }

  /** The HTTP status: 200 for every success, the failure's code otherwise. */
  function Status(r: Reply): (code: int)
    ensures code == 200 <==> !r.Failed?
  {
    if r.Failed? then FailureStatus(r.failure) else 200
  }

  /** The validate reply's `hasAppointment` and the booking refusal: both test a date and a time. */
  predicate Scheduled(existing: Option<Appointment>) {
    existing.Some? && Truthy(existing.value.date) && Truthy(existing.value.time)
  }
}
