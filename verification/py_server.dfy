/**
 * The decision logic of the Python backend's request handlers, the same six endpoints as the
 * Node server with the Python lookups and these differences: an appointments file that cannot
 * be read is taken as empty, a booking stores the customer's email and replaces every row of
 * the order, cancel removes every row of the order, and `format_date_for_excel` can raise.
 */
module PyServer {
  import opened Wrappers
  import opened Text
  import opened Calendar
  import opened Timestamps
  import opened Records
  import opened Locks
  import opened Slots
  import opened Booked
  import opened Edits
  import opened Services
  import opened Replies

  /** `find_order_by_number` as a function of its inputs. */
  function OrderOf(orders: seq<Order>, key: string): Option<Order> {
    At(orders, FirstOrder(orders, FindRule, key))
  }

  /** `find_appointment_by_order_number` as a function of its inputs. */
  function AppointmentOf(appts: seq<Appointment>, key: string): Option<Appointment> {
    At(appts, FirstAppointment(appts, FindRule, key))
  }

  /** The order checks of validate and book: found, `is_order_ready`, not picked up. */
  function OrderCheck(orders: seq<Order>, key: string): (v: Option<Failure>)
    ensures v == Some(OrderNotFound) <==> OrderOf(orders, key).None?
    ensures v.None? <==> OrderOf(orders, key).Some? && PyIsReady(OrderOf(orders, key).value)
                         && !PickedUp(OrderOf(orders, key).value)
    ensures v.Some? ==> v.value in {OrderNotFound, NotReady, AlreadyPickedUp}
  {
    match OrderOf(orders, key)
    case None => Some(OrderNotFound)
    case Some(o) =>
      if !PyIsReady(o) then Some(NotReady)
      else if PickedUp(o) then Some(AlreadyPickedUp)
      else None
  }

  /** The checks book makes under the lock. */
  function BookCheck(orders: seq<Order>, appts: seq<Appointment>, key: string, slot: Instant): (v: Option<Failure>)
    ensures OrderCheck(orders, key).Some? ==> v == OrderCheck(orders, key)
    ensures v.None? <==> OrderCheck(orders, key).None? && !Scheduled(AppointmentOf(appts, key))
                         && slot !in PyBooked(appts)
    ensures OrderCheck(orders, key).None? ==>
      (v == Some(AlreadyScheduled) <==> Scheduled(AppointmentOf(appts, key)))
  {
    if OrderCheck(orders, key).Some? then OrderCheck(orders, key)
    else if Scheduled(AppointmentOf(appts, key)) then Some(AlreadyScheduled)
    else if slot in PyBooked(appts) then Some(SlotTaken)
    else None
  }

  /** `order.get('Pick up Status', 'Ready to Pickup')`: an empty cell is kept. */
  function StatusText(o: Order): string {
    o.pickupStatus.GetOr("Ready to Pickup")
  }

  /** The row book writes, with the customer's email; `date` is the formatted slot date. */
  function NewRecord(key: string, slot: Instant, date: string, email: string, stamp: string): Appointment {
    Appointment(Some(key), Some(date), Some(PyFormatTime(slot)), Some(email), Some(stamp))
  }

  /** The row reschedule writes: the old email (or ""), the old `Created_Time` when the column exists. */
  function MovedRecord(key: string, slot: Instant, date: string, prior: Appointment, stamp: string): Appointment {
    Appointment(Some(key), Some(date), Some(PyFormatTime(slot)), Some(prior.email.GetOr("")),
                Some(prior.created.GetOr(stamp)))
  }

  /**
   * Book's placement: with an existing row (found by `find_appointment_by_order_number`),
   * every row the filter rule matches is replaced by the record; otherwise it is appended.
   */
  function Place(appts: seq<Appointment>, key: string, record: Appointment): seq<Appointment> {
    if AppointmentOf(appts, key).Some? then ReplaceAll(appts, key, record) else appts + [record]
  }

  // ---------------------------------------------------------------------------------------
  // validate-order
  // ---------------------------------------------------------------------------------------

  /**
   * `validate_order`: as on Node, but an unreadable appointments file reads as empty and the
   * picked-up clean-up drops every row the filter rule matches.
   */
  method ValidateOrder(store: Store, orderNumber: Option<string>) returns (reply: Reply)
    modifies store
    ensures store.orders == old(store.orders) && store.uploadsWork == old(store.uploadsWork)
    ensures !Truthy(orderNumber) ==> reply == Failed(MissingInput)
    ensures Truthy(orderNumber) && store.orders.None? ==> reply == Failed(ServerError)
    ensures Truthy(orderNumber) && store.orders.Some? ==>
      var key := orderNumber.value;
      var orders := store.orders.value;
      var appts := PyRows(old(store.appointments));
      var check := OrderCheck(orders, key);
      var purge := check == Some(AlreadyPickedUp) && AppointmentOf(appts, key).Some?;
      (check.None? ==>
        var o := OrderOf(orders, key).value;
        var e := AppointmentOf(appts, key);
        reply == Validated(o.readyNumber.value, StatusText(o), if Scheduled(e) then e else None))
      && (check.Some? && !(purge && !store.uploadsWork) ==> reply == Failed(check.value))
      && (purge && !store.uploadsWork ==> reply == Failed(ServerError))
      && (purge && store.uploadsWork ==>
            var rows := Without(appts, GetRule, key);
            store.uploads == old(store.uploads) + [rows] && store.appointments == Present(rows))
    ensures store.uploads == old(store.uploads) || reply == Failed(AlreadyPickedUp)
    ensures store.uploads == old(store.uploads) ==> store.appointments == old(store.appointments)
  {
    if !Truthy(orderNumber) {
      return Failed(MissingInput);
    }
    var key := orderNumber.value;
    if store.orders.None? {
      return Failed(ServerError);
    }
    var orders := store.orders.value;
    var appointments := PyRows(store.appointments);

    var order := PyFindOrder(orders, key);
    if order.None? {
      return Failed(OrderNotFound);
    }
    if !PyIsReady(order.value) {
      return Failed(NotReady);
    }
    if PickedUp(order.value) {
      var existing := PyFindAppointment(appointments, key);
      if existing.Some? {
        appointments := Without(appointments, GetRule, key);
        var ok := store.Upload(appointments);
        if !ok {
          return Failed(ServerError);
        }
      }
      return Failed(AlreadyPickedUp);
    }

    var existing := PyFindAppointment(appointments, key);
    var number := order.value.readyNumber.value;
    if existing.Some? && Truthy(existing.value.date) && Truthy(existing.value.time) {
      return Validated(number, StatusText(order.value), existing);
    }
    return Validated(number, StatusText(order.value), None);
  }

  // ---------------------------------------------------------------------------------------
  // available-slots
  // ---------------------------------------------------------------------------------------

  /** `get_available_slots`: the generated slots no row reads as; it has no failing path. */
  method AvailableSlots(store: Store, now: Instant, cfg: SlotConfig) returns (reply: Reply)
    requires ValidConfig(cfg)
    ensures var appts := PyRows(store.appointments);
      reply == Slots(Available(PyGenerated(now, cfg), PyBooked(appts)), |PyGenerated(now, cfg)|, |PyBooked(appts)|)
  {
    var allSlots := PyGenerateTimeSlots(now, cfg);
    var appointments := PyRows(store.appointments);
    var bookedSlots := PyGetAllBookedSlots(appointments);
    var availableSlots := Available(allSlots, bookedSlots);
    return Slots(availableSlots, |allSlots|, |bookedSlots|);
  }

  /**
   * What the Python backend offers: the weekday business minutes of the horizon on the
   * configured step, including the ones already past today, that no row reads as, in order.
   */
  lemma OfferedSlots(now: Instant, cfg: SlotConfig, appts: seq<Appointment>, s: Instant)
    requires ValidConfig(cfg)
    ensures s in Available(PyGenerated(now, cfg), PyBooked(appts)) <==>
      MinuteAligned(s) && DayOf(now) <= DayOf(s) < DayOf(now) + cfg.daysAhead
      && PyWeekday(DayOf(s)) < 5 && cfg.startHour <= HourOf(s) < cfg.endHour && MinuteOf(s) % cfg.interval == 0
      && forall i :: 0 <= i < |appts| ==> PyBookedOf(appts[i]) != Some(s)
    ensures Ascending(Available(PyGenerated(now, cfg), PyBooked(appts)))
  {
    PySlotsAreBusinessMinutes(now, cfg, s);
    CollectMembers(PyReadings(appts), s);
    PySlotsAscending(now, cfg);
    AvailableAscending(PyGenerated(now, cfg), PyBooked(appts));
  }

  // ---------------------------------------------------------------------------------------
  // book-appointment
  // ---------------------------------------------------------------------------------------

  /**
   * `book_appointment`: missing fields give 400 before any lock; a held lock 409; once taken,
   * the lock is released on every path.  Under the lock, a failed orders fetch gives 500, a
   * refused check its reason, a slot date `format_date_for_excel` cannot print 500; otherwise
   * the sheet is written with `Place` and the customer mailed.
   */
  method BookAppointment(store: Store, table: LockTable, outbox: Outbox,
                         orderNumber: Option<string>, slotTime: Option<Instant>, customerEmail: Option<string>,
                         now: int, stamp: string)
    returns (reply: Reply)
    modifies store, table, outbox
    ensures store.orders == old(store.orders) && store.uploadsWork == old(store.uploadsWork)
    ensures !Truthy(orderNumber) || slotTime.None? ==> reply == Failed(MissingInput)
    ensures Truthy(orderNumber) && slotTime.Some? && !Truthy(customerEmail) ==> reply == Failed(MissingEmail)
    ensures !Truthy(orderNumber) || slotTime.None? || !Truthy(customerEmail) ==> table.locks == old(table.locks)
    ensures Truthy(orderNumber) && slotTime.Some? && Truthy(customerEmail) ==>
      var lockKey := LockKey(orderNumber.value, slotTime.value);
      table.locks == Purge(old(table.locks), now, table.timeout)
      && (lockKey in Purge(old(table.locks), now, table.timeout) ==> reply == Failed(SlotLocked))
      && (lockKey !in Purge(old(table.locks), now, table.timeout) ==>
            (store.orders.None? ==> reply == Failed(ServerError))
            && (store.orders.Some? ==>
                  var key := orderNumber.value;
                  var slot := slotTime.value;
                  var orders := store.orders.value;
                  var appts := PyRows(old(store.appointments));
                  var check := BookCheck(orders, appts, key, slot);
                  (check.Some? ==> reply == Failed(check.value))
                  && (check.None? && (PyFormatDate(slot).None? || !store.uploadsWork) ==> reply == Failed(ServerError))
                  && (check.None? && PyFormatDate(slot).Some? && store.uploadsWork ==>
                        var o := OrderOf(orders, key).value;
                        var rows := Place(appts, key, NewRecord(key, slot, PyFormatDate(slot).value, customerEmail.value, stamp));
                        reply == Booked(o.readyNumber.value, slot)
                        && store.uploads == old(store.uploads) + [rows] && store.appointments == Present(rows)
                        && outbox.sent == old(outbox.sent) + [Mail(key, slot, customerEmail.value)])))
    ensures !reply.Booked? ==> store.uploads == old(store.uploads) && store.appointments == old(store.appointments)
                               && outbox.sent == old(outbox.sent)
  {
    if !Truthy(orderNumber) || slotTime.None? {
      return Failed(MissingInput);
    }
    if !Truthy(customerEmail) {
      return Failed(MissingEmail);
    }
    var key := orderNumber.value;
    var slot := slotTime.value;
    var lockKey := LockKey(key, slot);
    var acquired := table.Lock(lockKey, now);
    if !acquired {
      return Failed(SlotLocked);
    }
    LockThenUnlock(old(table.locks), lockKey, now, table.timeout);

    reply := BookWhileLocked(store, key, slot, customerEmail.value, stamp);
    table.Unlock(lockKey);
    if reply.Booked? {
      outbox.Send(Mail(key, slot, customerEmail.value));
    }
  }

  /**
   * The part of `book_appointment` that runs while the slot lock is held: fetch the sheets,
   * make the checks in order, and write the sheet with the new row in place of the order's
   * rows or appended (`Place`).  Every path of the handler releases the lock after it.
   */
  method BookWhileLocked(store: Store, key: string, slot: Instant, email: string, stamp: string)
    returns (reply: Reply)
    modifies store
    ensures store.orders == old(store.orders) && store.uploadsWork == old(store.uploadsWork)
    ensures store.orders.None? ==> reply == Failed(ServerError)
    ensures store.orders.Some? ==>
      var orders := store.orders.value;
      var appts := PyRows(old(store.appointments));
      var check := BookCheck(orders, appts, key, slot);
      (check.Some? ==> reply == Failed(check.value))
      && (check.None? && (PyFormatDate(slot).None? || !store.uploadsWork) ==> reply == Failed(ServerError))
      && (check.None? && PyFormatDate(slot).Some? && store.uploadsWork ==>
            var rows := Place(appts, key, NewRecord(key, slot, PyFormatDate(slot).value, email, stamp));
            reply == Booked(OrderOf(orders, key).value.readyNumber.value, slot)
            && store.uploads == old(store.uploads) + [rows] && store.appointments == Present(rows))
    ensures !reply.Booked? ==> store.uploads == old(store.uploads) && store.appointments == old(store.appointments)
  {
    if store.orders.None? {
      return Failed(ServerError);
    }
    var orders := store.orders.value;
    var appointments := PyRows(store.appointments);

    var order := PyFindOrder(orders, key);
    if order.None? {
      return Failed(OrderNotFound);
    }
    if !PyIsReady(order.value) {
      return Failed(NotReady);
    }
    if PickedUp(order.value) {
      return Failed(AlreadyPickedUp);
    }
    var existing := PyFindAppointment(appointments, key);
    if existing.Some? && Truthy(existing.value.date) && Truthy(existing.value.time) {
      return Failed(AlreadyScheduled);
    }
    var bookedSlots := PyGetAllBookedSlots(appointments);
    if slot in bookedSlots {
      return Failed(SlotTaken);
    }

    var date := PyFormatDate(slot);
    if date.None? {
      return Failed(ServerError);
    }
    var newAppointment := NewRecord(key, slot, date.value, email, stamp);
    if existing.Some? {
      appointments := ReplaceAll(appointments, key, newAppointment);
    } else {
      appointments := appointments + [newAppointment];
    }
    var ok := store.Upload(appointments);
    if !ok {
      return Failed(ServerError);
    }
    return Booked(order.value.readyNumber.value, slot);
  }

  lemma FirstAppointmentAt(appts: seq<Appointment>, rule: Rule, key: string, i: nat)
    requires i < |appts| && Matches(rule, appts[i].orderNumber, key)
    requires forall j :: 0 <= j < i ==> !Matches(rule, appts[j].orderNumber, key)
    ensures FirstAppointment(appts, rule, key) == Some(i)
  {
  }

  /**
   * After a booking the order's first row (by the lookup rule) is the new record: a row the
   * lookup matches is one the replacement matched, so it was replaced.
   */
  lemma PlacedRecordIsFound(appts: seq<Appointment>, key: string, record: Appointment)
    requires record.orderNumber == Some(key)
    ensures AppointmentOf(Place(appts, key, record), key) == Some(record)
  {
    var rows := Place(appts, key, record);
    match FirstAppointment(appts, FindRule, key)
    case Some(i) =>
      var first := FirstAppointment(rows, FindRule, key);
      assert Matches(FindRule, rows[i].orderNumber, key);
      assert first.Some? && first.value <= i;
    case None =>
      FirstAppointmentAt(rows, FindRule, key, |appts|);
  }

  /**
   * A booking is exclusive: once a booking of `slot` is written, the slot is refused to every
   * order and the order is refused every slot.
   */
  lemma BookingIsExclusive(orders: seq<Order>, appts: seq<Appointment>, key: string, slot: Instant,
                           email: string, stamp: string, otherKey: string, otherSlot: Instant)
    requires MinuteAligned(slot) && 1000 <= DateOf(slot).year <= 9999
    requires BookCheck(orders, appts, key, slot).None?
    ensures PyFormatDate(slot).Some?
    ensures var rows := Place(appts, key, NewRecord(key, slot, PyFormatDate(slot).value, email, stamp));
      BookCheck(orders, rows, otherKey, slot).Some?
      && BookCheck(orders, rows, key, otherSlot) == Some(AlreadyScheduled)
  {
    PlacedSlotIsBooked(appts, key, slot, email, stamp);
  }

  /** The placed booking row is the order's row, and its slot is read back among the booked slots. */
  lemma PlacedSlotIsBooked(appts: seq<Appointment>, key: string, slot: Instant, email: string, stamp: string)
    requires MinuteAligned(slot) && 1000 <= DateOf(slot).year <= 9999
    ensures PyFormatDate(slot).Some?
    ensures var record := NewRecord(key, slot, PyFormatDate(slot).value, email, stamp);
      var rows := Place(appts, key, record);
      slot in PyBooked(rows) && AppointmentOf(rows, key) == Some(record) && Scheduled(Some(record))
  {
    var record := NewRecord(key, slot, PyFormatDate(slot).value, email, stamp);
    var rows := Place(appts, key, record);
    PlacedRecordIsFound(appts, key, record);
    var i := FirstAppointment(rows, FindRule, key).value;
    PyRowReadsBack(slot, record);
    CollectMembers(PyReadings(rows), slot);
    assert PyReadings(rows)[i] == Some(slot);
  }

  // ---------------------------------------------------------------------------------------
  // The admin list
  // ---------------------------------------------------------------------------------------

  lemma CleanedStep(orders: seq<Order>, appts: seq<Appointment>, i: int)
    requires 0 <= i < |appts|
    ensures Cleaned(orders, FindRule, appts[..i + 1])
         == Cleaned(orders, FindRule, appts[..i]) + (if Kept(orders, FindRule, appts[i]) then [appts[i]] else [])
  {
    assert appts[..i + 1][..i] == appts[..i];
  }

  /** The admin list's loop over the rows, with `find_order_by_number` for each complete row. */
  method CleanAppointments(orders: seq<Order>, appointments: seq<Appointment>)
    returns (cleaned: seq<Appointment>, needsUpdate: bool)
    ensures cleaned == Cleaned(orders, FindRule, appointments)
    ensures needsUpdate <==> cleaned != appointments
  {
    cleaned := [];
    needsUpdate := false;
    var i := 0;
    while i < |appointments|
      invariant 0 <= i <= |appointments|
      invariant cleaned == Cleaned(orders, FindRule, appointments[..i])
      invariant needsUpdate <==> |cleaned| < i
    {
      var appt := appointments[i];
      CleanedStep(orders, appointments, i);
      if !Truthy(appt.orderNumber) || !Truthy(appt.date) || !Truthy(appt.time) {
        assert !Kept(orders, FindRule, appointments[i]);
        needsUpdate := true;
      } else {
        var order := PyFindOrder(orders, appt.orderNumber.value);
        if order.Some? && Truthy(order.value.pickupStatus) && Lower(Trim(order.value.pickupStatus.value)) == "fulfilled" {
          assert !Kept(orders, FindRule, appointments[i]);
          needsUpdate := true;
        } else {
          assert Kept(orders, FindRule, appointments[i]);
          cleaned := cleaned + [appt];
        }
      }
      i := i + 1;
    }
    assert appointments[..i] == appointments;
    CleanedShrinks(orders, FindRule, appointments);
  }

  /** `get_admin_appointments`: the kept rows, written back exactly when a row was dropped. */
  method ListAppointments(store: Store) returns (reply: Reply)
    modifies store
    ensures store.orders == old(store.orders) && store.uploadsWork == old(store.uploadsWork)
    ensures store.orders.None? ==> reply == Failed(ServerError)
    ensures store.orders.Some? ==>
      var appts := PyRows(old(store.appointments));
      var cleaned := Cleaned(store.orders.value, FindRule, appts);
      (cleaned == appts ==> reply == Listing(cleaned))
      && (cleaned != appts && !store.uploadsWork ==> reply == Failed(ServerError))
      && (cleaned != appts && store.uploadsWork ==>
            reply == Listing(cleaned)
            && store.uploads == old(store.uploads) + [cleaned] && store.appointments == Present(cleaned))
    ensures store.uploads == old(store.uploads) ==> store.appointments == old(store.appointments)
    ensures store.uploads == old(store.uploads) || reply.Listing?
  {
    if store.orders.None? {
      return Failed(ServerError);
    }
    var orders := store.orders.value;
    var appointments := PyRows(store.appointments);
    var cleaned, needsUpdate := CleanAppointments(orders, appointments);
    if needsUpdate {
      var ok := store.Upload(cleaned);
      if !ok {
        return Failed(ServerError);
      }
    }
    return Listing(cleaned);
  }

  // ---------------------------------------------------------------------------------------
  // Cancel and reschedule
  // ---------------------------------------------------------------------------------------

  lemma WithoutStep(appts: seq<Appointment>, key: string, i: int)
    requires 0 <= i < |appts|
    ensures Without(appts[..i + 1], GetRule, key)
         == Without(appts[..i], GetRule, key) + (if Matches(GetRule, appts[i].orderNumber, key) then [] else [appts[i]])
  {
    assert appts[..i + 1][..i] == appts[..i];
  }

  /**
   * `cancel_appointment`'s loop: keep every row the filter rule does not match, remember the
   * last one it matches.
   */
  method SplitOffOrder(appointments: seq<Appointment>, key: string)
    returns (cancelled: Option<Appointment>, remaining: seq<Appointment>)
    ensures remaining == Without(appointments, GetRule, key)
    ensures cancelled.Some? <==> exists j :: 0 <= j < |appointments| && Matches(GetRule, appointments[j].orderNumber, key)
    ensures cancelled.Some? ==> cancelled.value in appointments && Matches(GetRule, cancelled.value.orderNumber, key)
  {
    cancelled := None;
    remaining := [];
    var i := 0;
    while i < |appointments|
      invariant 0 <= i <= |appointments|
      invariant remaining == Without(appointments[..i], GetRule, key)
      invariant cancelled.Some? <==> exists j :: 0 <= j < i && Matches(GetRule, appointments[j].orderNumber, key)
      invariant cancelled.Some? ==> cancelled.value in appointments && Matches(GetRule, cancelled.value.orderNumber, key)
    {
      var appt := appointments[i];
      WithoutStep(appointments, key, i);
      if Trim(Cell(appt.orderNumber)) == Trim(key) {
        cancelled := Some(appt);
      } else {
        remaining := remaining + [appt];
      }
      i := i + 1;
    }
    assert appointments[..i] == appointments;
  }

  /** `cancel_appointment`: drop every row of the order, or 404 without writing when there is none. */
  method CancelAppointment(store: Store, orderNumber: Option<string>) returns (reply: Reply)
    modifies store
    ensures store.orders == old(store.orders) && store.uploadsWork == old(store.uploadsWork)
    ensures !Truthy(orderNumber) ==> reply == Failed(MissingInput)
    ensures Truthy(orderNumber) ==>
      var appts := PyRows(old(store.appointments));
      var key := orderNumber.value;
      var found := exists j :: 0 <= j < |appts| && Matches(GetRule, appts[j].orderNumber, key);
      (!found ==> reply == Failed(AppointmentNotFound))
      && (found && !store.uploadsWork ==> reply == Failed(ServerError))
      && (found && store.uploadsWork ==>
            var rows := Without(appts, GetRule, key);
            reply == Cancelled && store.uploads == old(store.uploads) + [rows] && store.appointments == Present(rows))
    ensures !reply.Cancelled? ==> store.uploads == old(store.uploads) && store.appointments == old(store.appointments)
  {
    if !Truthy(orderNumber) {
      return Failed(MissingInput);
    }
    var appointments := PyRows(store.appointments);
    var cancelled, remaining := SplitOffOrder(appointments, orderNumber.value);
    if cancelled.None? {
      return Failed(AppointmentNotFound);
    }
    var ok := store.Upload(remaining);
    if !ok {
      return Failed(ServerError);
    }
    return Cancelled;
  }

  /** After a Python cancel no row of the order is left, and every other row is kept in order. */
  lemma CancelRemovesEveryRow(appts: seq<Appointment>, key: string)
    ensures MatchCount(Without(appts, GetRule, key), GetRule, key) == 0
    ensures forall a :: a in Without(appts, GetRule, key) <==> a in appts && !Matches(GetRule, a.orderNumber, key)
  {
    var rows := Without(appts, GetRule, key);
    forall a | true
      ensures a in rows <==> a in appts && !Matches(GetRule, a.orderNumber, key)
    {
      WithoutMembers(appts, GetRule, key, a);
    }
    MatchCountZero(rows, GetRule, key);
    assert forall j :: 0 <= j < |rows| ==> rows[j] in rows;
  }

  /** The reschedule loop: the index of the first row the filter rule matches (`break` on it). */
  method FindIndex(appointments: seq<Appointment>, key: string) returns (index: Option<nat>)
    ensures index == FirstAppointment(appointments, GetRule, key)
  {
    var i := 0;
    while i < |appointments|
      invariant 0 <= i <= |appointments|
      invariant forall j :: 0 <= j < i ==> !Matches(GetRule, appointments[j].orderNumber, key)
    {
      if Trim(Cell(appointments[i].orderNumber)) == Trim(key) {
        FirstAppointmentAt(appointments, GetRule, key, i);
        return Some(i);
      }
      i := i + 1;
    }
    return None;
  }

  /**
   * `reschedule_appointment`: move the order's first row to the new slot in place unless
   * another row reads as it (409); 404 without a row; 500 when the date cannot be printed.
   */
  method RescheduleAppointment(store: Store, orderNumber: Option<string>, newSlotTime: Option<Instant>, stamp: string)
    returns (reply: Reply)
    modifies store
    ensures store.orders == old(store.orders) && store.uploadsWork == old(store.uploadsWork)
    ensures !Truthy(orderNumber) || newSlotTime.None? ==> reply == Failed(MissingInput)
    ensures Truthy(orderNumber) && newSlotTime.Some? ==>
      var key := orderNumber.value;
      var slot := newSlotTime.value;
      var appts := PyRows(old(store.appointments));
      var index := FirstAppointment(appts, GetRule, key);
      (index.None? ==> reply == Failed(AppointmentNotFound))
      && (index.Some? && slot in PyBooked(RemoveAt(appts, index.value)) ==> reply == Failed(SlotTaken))
      && (index.Some? && slot !in PyBooked(RemoveAt(appts, index.value)) ==>
            (PyFormatDate(slot).None? || !store.uploadsWork ==> reply == Failed(ServerError))
            && (PyFormatDate(slot).Some? && store.uploadsWork ==>
                  var date := PyFormatDate(slot).value;
                  var rows := appts[index.value := MovedRecord(key, slot, date, appts[index.value], stamp)];
                  reply == Rescheduled(key, date, PyFormatTime(slot))
                  && store.uploads == old(store.uploads) + [rows] && store.appointments == Present(rows)))
    ensures !reply.Rescheduled? ==> store.uploads == old(store.uploads) && store.appointments == old(store.appointments)
  {
    if !Truthy(orderNumber) || newSlotTime.None? {
      return Failed(MissingInput);
    }
    var key := orderNumber.value;
    var slot := newSlotTime.value;
    var appointments := PyRows(store.appointments);
    var apptIndex := FindIndex(appointments, key);
    if apptIndex.None? {
      return Failed(AppointmentNotFound);
    }
    var index := apptIndex.value;
    var bookedSlots := PyGetAllBookedSlots(RemoveAt(appointments, index));
    if slot in bookedSlots {
      return Failed(SlotTaken);
    }
    var date := PyFormatDate(slot);
    if date.None? {
      return Failed(ServerError);
    }
    appointments := appointments[index := MovedRecord(key, slot, date.value, appointments[index], stamp)];
    var ok := store.Upload(appointments);
    if !ok {
      return Failed(ServerError);
    }
    return Rescheduled(key, date.value, PyFormatTime(slot));
  }

  /**
   * Rescheduling keeps the row's email and its creation time whenever the column exists, and
   * the moved row reads back as its new slot.
   */
  lemma RescheduleKeepsEmailAndCreation(key: string, slot: Instant, prior: Appointment, stamp: string)
    requires MinuteAligned(slot) && 1000 <= DateOf(slot).year <= 9999
    ensures PyFormatDate(slot).Some?
    ensures var moved := MovedRecord(key, slot, PyFormatDate(slot).value, prior, stamp);
      (prior.email.Some? ==> moved.email == prior.email)
      && (prior.created.Some? ==> moved.created == prior.created)
      && PyBookedOf(moved) == Some(slot)
  {
    PyRowReadsBack(slot, MovedRecord(key, slot, PyFormatDate(slot).value, prior, stamp));
  }

  /**
   * The consequence of reading a failed fetch as an empty sheet: a booking while the
   * appointments file cannot be read replaces the whole sheet by the one new row.
   */
  lemma UnreadableSheetIsReplaced(key: string, record: Appointment)
    ensures Place(PyRows(Unreadable), key, record) == [record]
  {
    assert FirstAppointment([], FindRule, key).None?;
  }
}
