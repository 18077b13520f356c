/**
 * The decision logic of the Node server's request handlers: validate-order, available-slots,
 * book-appointment, and the admin list, cancel and reschedule endpoints.  Each handler is one
 * sequential method over the document store, the slot lock table and the mail outbox; its
 * postcondition gives the reply and the whole new state, in terms of the specification
 * functions below, whose properties are proved as lemmas.
 *
 * Request fields are `Option`s (`None`: absent).  A slot travels as an ISO text; it is
 * modelled as its instant, `None` standing for an absent or empty field.
 */
module NodeServer {
  import opened Wrappers
  import opened Text
  import opened Calendar
  import opened Timestamps
  import opened Records
  import opened Locks
  import opened Slots
  import opened Booked
  import opened Edits
  import opened Services
  import opened Replies

  // ---------------------------------------------------------------------------------------
  // The checks validate and book make
  // ---------------------------------------------------------------------------------------

  /** The order checks of validate and book, in their order: found, ready, not picked up. */
  function OrderCheck(orders: seq<Order>, key: string): (v: Option<Failure>)
    ensures v == Some(OrderNotFound) <==> NodeFindOrder(orders, key).None?
    ensures v.None? <==> NodeFindOrder(orders, key).Some? && NodeIsReady(NodeFindOrder(orders, key).value)
                         && !PickedUp(NodeFindOrder(orders, key).value)
    ensures v.Some? ==> v.value in {OrderNotFound, NotReady, AlreadyPickedUp}
  {
    match NodeFindOrder(orders, key)
    case None => Some(OrderNotFound)
    case Some(o) =>
      if !NodeIsReady(o) then Some(NotReady)
      else if PickedUp(o) then Some(AlreadyPickedUp)
      else None
  }

  /** The checks book makes under the lock: the order checks, no complete appointment, a free slot. */
  function BookCheck(orders: seq<Order>, appts: seq<Appointment>, key: string, slot: Instant): (v: Option<Failure>)
    ensures OrderCheck(orders, key).Some? ==> v == OrderCheck(orders, key)
    ensures v.None? <==> OrderCheck(orders, key).None? && !Scheduled(NodeFindAppointment(appts, key))
                         && slot !in NodeBooked(appts)
    ensures OrderCheck(orders, key).None? ==>
      (v == Some(AlreadyScheduled) <==> Scheduled(NodeFindAppointment(appts, key)))
  {
    if OrderCheck(orders, key).Some? then OrderCheck(orders, key)
    else if Scheduled(NodeFindAppointment(appts, key)) then Some(AlreadyScheduled)
    else if slot in NodeBooked(appts) then Some(SlotTaken)
    else None
  }

  /** `order['Pick up Status'] || 'Ready to Pickup'`. */
  function StatusText(o: Order): string {
    if Truthy(o.pickupStatus) then o.pickupStatus.value else "Ready to Pickup"
  }

  /** The row book writes: number as sent, the slot's date and time texts, no email, the creation stamp. */
  function NewRecord(key: string, slot: Instant, stamp: string): Appointment {
    Appointment(Some(key), Some(NodeFormatDate(slot)), Some(NodeFormatTime(slot)), None, Some(stamp))
  }

  /** The row reschedule writes over row `old`: it keeps a non-empty `Created_Time`. */
  function MovedRecord(key: string, slot: Instant, prior: Appointment, stamp: string): Appointment {
    Appointment(Some(key), Some(NodeFormatDate(slot)), Some(NodeFormatTime(slot)), None,
                Some(if Truthy(prior.created) then prior.created.value else stamp))
  }

  // ---------------------------------------------------------------------------------------
  // validate-order
  // ---------------------------------------------------------------------------------------

  /**
   * `POST /api/validate-order`.  Not found gives 404, not ready 400, picked up 400 after
   * writing the sheet without the order's rows when it had one; otherwise the order is valid
   * and the reply carries its appointment exactly when that has a date and a time.  Nothing
   * else writes.
   */
  method ValidateOrder(store: Store, orderNumber: Option<string>) returns (reply: Reply)
    modifies store
    ensures store.orders == old(store.orders) && store.uploadsWork == old(store.uploadsWork)
    ensures !Truthy(orderNumber) ==> reply == Failed(MissingInput)
    ensures Truthy(orderNumber) && (store.orders.None? || NodeRows(old(store.appointments)).None?) ==>
      reply == Failed(ServerError)
    ensures Truthy(orderNumber) && store.orders.Some? && NodeRows(old(store.appointments)).Some? ==>
      var key := orderNumber.value;
      var orders := store.orders.value;
      var appts := NodeRows(old(store.appointments)).value;
      var check := OrderCheck(orders, key);
      var purge := check == Some(AlreadyPickedUp) && NodeFindAppointment(appts, key).Some?;
      (check.None? ==>
        var o := NodeFindOrder(orders, key).value;
        var e := NodeFindAppointment(appts, key);
        reply == Validated(o.readyNumber.value, StatusText(o), if Scheduled(e) then e else None))
      && (check.Some? && !(purge && !store.uploadsWork) ==> reply == Failed(check.value))
      && (purge && !store.uploadsWork ==> reply == Failed(ServerError))
      && (purge && store.uploadsWork ==>
            var rows := Without(appts, NodeRule, key);
            store.uploads == old(store.uploads) + [rows] && store.appointments == Present(rows))
    ensures store.uploads == old(store.uploads) || reply == Failed(AlreadyPickedUp)
    ensures store.uploads == old(store.uploads) ==> store.appointments == old(store.appointments)
  {
    if !Truthy(orderNumber) {
      return Failed(MissingInput);
    }
    var key := orderNumber.value;
    if store.orders.None? {
      return Failed(ServerError);
    }
    var orders := store.orders.value;
    var fetched := NodeRows(store.appointments);
    if fetched.None? {
      return Failed(ServerError);
    }
    var appointments := fetched.value;

    var order := NodeFindOrder(orders, key);
    if order.None? {
      return Failed(OrderNotFound);
    }
    if !NodeIsReady(order.value) {
      return Failed(NotReady);
    }
    if PickedUp(order.value) {
      var existing := NodeFindAppointment(appointments, key);
      if existing.Some? {
        var ok := store.Upload(Without(appointments, NodeRule, key));
        if !ok {
          return Failed(ServerError);
        }
      }
      return Failed(AlreadyPickedUp);
    }

    var existing := NodeFindAppointment(appointments, key);
    var number := order.value.readyNumber.value;
    if existing.Some? && Truthy(existing.value.date) && Truthy(existing.value.time) {
      return Validated(number, StatusText(order.value), existing);
    }
    return Validated(number, StatusText(order.value), None);
  }

  /**
   * The sheet validate writes for a picked-up order holds no row of that order, so validating
   * the order again writes nothing.
   */
  lemma PurgedSheetHasNoAppointment(appts: seq<Appointment>, key: string)
    ensures NodeFindAppointment(Without(appts, NodeRule, key), key).None?
    ensures forall a :: a in Without(appts, NodeRule, key) <==> a in appts && !Matches(NodeRule, a.orderNumber, key)
  {
    var rows := Without(appts, NodeRule, key);
    forall a | true
      ensures a in rows <==> a in appts && !Matches(NodeRule, a.orderNumber, key)
    {
      WithoutMembers(appts, NodeRule, key, a);
    }
  }

  // ---------------------------------------------------------------------------------------
  // available-slots
  // ---------------------------------------------------------------------------------------

  /**
   * `GET /api/available-slots`: the generated slots no row reads as, with the number generated
   * and the number of readable rows.  An unreadable sheet gives 500.
   */
  method AvailableSlots(store: Store, now: Instant, cfg: SlotConfig) returns (reply: Reply)
    requires cfg.interval > 0
    ensures NodeRows(store.appointments).None? ==> reply == Failed(ServerError)
    ensures NodeRows(store.appointments).Some? ==>
      var appts := NodeRows(store.appointments).value;
      reply == Slots(Available(NodeGenerated(now, cfg), NodeBooked(appts)), |NodeGenerated(now, cfg)|, |NodeBooked(appts)|)
  {
    var allSlots := NodeGenerateTimeSlots(now, cfg);
    var fetched := NodeRows(store.appointments);
    if fetched.None? {
      return Failed(ServerError);
    }
    var bookedSlots := NodeGetAllBookedSlots(fetched.value);
    var availableSlots := Available(allSlots, bookedSlots);
    return Slots(availableSlots, |allSlots|, |bookedSlots|);
  }

  /**
   * What the Node server offers: exactly the future weekday business minutes of the horizon on
   * the configured step that no row of the sheet reads as, in chronological order.
   */
  lemma OfferedSlots(now: Instant, cfg: SlotConfig, appts: seq<Appointment>, s: Instant)
    requires DayOf(now) >= DayFromYear(100) && ValidConfig(cfg)
    ensures s in Available(NodeGenerated(now, cfg), NodeBooked(appts)) <==>
      s > now && MinuteAligned(s) && DayOf(now) <= DayOf(s) < DayOf(now) + cfg.daysAhead
      && PyWeekday(DayOf(s)) < 5 && cfg.startHour <= HourOf(s) < cfg.endHour && MinuteOf(s) % cfg.interval == 0
      && forall i :: 0 <= i < |appts| ==> NodeBookedOf(appts[i]) != Some(s)
    ensures Ascending(Available(NodeGenerated(now, cfg), NodeBooked(appts)))
  {
    NodeSlotsAreFutureBusinessMinutes(now, cfg, s);
    CollectMembers(NodeReadings(appts), s);
    AvailableAscending(NodeGenerated(now, cfg), NodeBooked(appts));
  }

  // ---------------------------------------------------------------------------------------
  // book-appointment
  // ---------------------------------------------------------------------------------------

  /**
   * `POST /api/book-appointment`.  Missing fields give 400 before any lock is taken; a held
   * lock gives 409.  Once the lock is taken it is released on every path, so the table ends
   * purged and otherwise as it was.  Under the lock, a failed fetch gives 500, a refused check
   * its reason, and an allowed booking writes the sheet with the new row placed over the
   * order's row or appended (`NodePlace`), then mails the customer; a failed upload gives 500
   * and sends nothing.
   */
  method BookAppointment(store: Store, table: LockTable, outbox: Outbox,
                         orderNumber: Option<string>, slotTime: Option<Instant>, customerEmail: Option<string>,
                         now: int, stamp: string)
    returns (reply: Reply)
    modifies store, table, outbox
    ensures store.orders == old(store.orders) && store.uploadsWork == old(store.uploadsWork)
    ensures !Truthy(orderNumber) || slotTime.None? ==> reply == Failed(MissingInput)
    ensures Truthy(orderNumber) && slotTime.Some? && !Truthy(customerEmail) ==> reply == Failed(MissingEmail)
    ensures !Truthy(orderNumber) || slotTime.None? || !Truthy(customerEmail) ==> table.locks == old(table.locks)
    ensures Truthy(orderNumber) && slotTime.Some? && Truthy(customerEmail) ==>
      var lockKey := LockKey(orderNumber.value, slotTime.value);
      table.locks == Purge(old(table.locks), now, table.timeout)
      && (lockKey in Purge(old(table.locks), now, table.timeout) ==> reply == Failed(SlotLocked))
      && (lockKey !in Purge(old(table.locks), now, table.timeout) ==>
            (store.orders.None? || NodeRows(old(store.appointments)).None? ==> reply == Failed(ServerError))
            && (store.orders.Some? && NodeRows(old(store.appointments)).Some? ==>
                  var key := orderNumber.value;
                  var slot := slotTime.value;
                  var orders := store.orders.value;
                  var appts := NodeRows(old(store.appointments)).value;
                  var check := BookCheck(orders, appts, key, slot);
                  (check.Some? ==> reply == Failed(check.value))
                  && (check.None? && !store.uploadsWork ==> reply == Failed(ServerError))
                  && (check.None? && store.uploadsWork ==>
                        var o := NodeFindOrder(orders, key).value;
                        var rows := NodePlace(appts, key, NewRecord(key, slot, stamp));
                        reply == Booked(o.readyNumber.value, slot)
                        && store.uploads == old(store.uploads) + [rows] && store.appointments == Present(rows)
                        && outbox.sent == old(outbox.sent) + [Mail(o.readyNumber.value, slot, customerEmail.value)])))
    ensures !reply.Booked? ==> store.uploads == old(store.uploads) && store.appointments == old(store.appointments)
                               && outbox.sent == old(outbox.sent)
  {
    if !Truthy(orderNumber) || slotTime.None? {
      return Failed(MissingInput);
    }
    if !Truthy(customerEmail) {
      return Failed(MissingEmail);
    }
    var key := orderNumber.value;
    var slot := slotTime.value;
    var lockKey := LockKey(key, slot);
    var acquired := table.Lock(lockKey, now);
    if !acquired {
      return Failed(SlotLocked);
    }
    LockThenUnlock(old(table.locks), lockKey, now, table.timeout);

    reply := BookWhileLocked(store, key, slot, stamp);
    table.Unlock(lockKey);
    if reply.Booked? {
      outbox.Send(Mail(reply.orderNumber, slot, customerEmail.value));
    }
  }

  /**
   * The part of `POST /api/book-appointment` that runs while the slot lock is held: fetch the
   * sheets, make the checks in order, and write the sheet with the new row placed over the
   * order's row or appended (`NodePlace`).  Every path of the handler releases the lock after it.
   */
  method BookWhileLocked(store: Store, key: string, slot: Instant, stamp: string)
    returns (reply: Reply)
    modifies store
    ensures store.orders == old(store.orders) && store.uploadsWork == old(store.uploadsWork)
    ensures store.orders.None? || NodeRows(old(store.appointments)).None? ==> reply == Failed(ServerError)
    ensures store.orders.Some? && NodeRows(old(store.appointments)).Some? ==>
      var orders := store.orders.value;
      var appts := NodeRows(old(store.appointments)).value;
      var check := BookCheck(orders, appts, key, slot);
      (check.Some? ==> reply == Failed(check.value))
      && (check.None? && !store.uploadsWork ==> reply == Failed(ServerError))
      && (check.None? && store.uploadsWork ==>
            var rows := NodePlace(appts, key, NewRecord(key, slot, stamp));
            reply == Booked(NodeFindOrder(orders, key).value.readyNumber.value, slot)
            && store.uploads == old(store.uploads) + [rows] && store.appointments == Present(rows))
    ensures !reply.Booked? ==> store.uploads == old(store.uploads) && store.appointments == old(store.appointments)
  {
    if store.orders.None? {
      return Failed(ServerError);
    }
    var orders := store.orders.value;
    var fetched := NodeRows(store.appointments);
    if fetched.None? {
      return Failed(ServerError);
    }
    var appointments := fetched.value;

    var order := NodeFindOrder(orders, key);
    if order.None? {
      return Failed(OrderNotFound);
    }
    if !NodeIsReady(order.value) {
      return Failed(NotReady);
    }
    if PickedUp(order.value) {
      return Failed(AlreadyPickedUp);
    }
    var existing := NodeFindAppointment(appointments, key);
    if existing.Some? && Truthy(existing.value.date) && Truthy(existing.value.time) {
      return Failed(AlreadyScheduled);
    }
    var bookedSlots := NodeGetAllBookedSlots(appointments);
    if slot in bookedSlots {
      return Failed(SlotTaken);
    }

    var newAppointment := NewRecord(key, slot, stamp);
    if existing.Some? {
      var apptIndex := FirstAppointment(appointments, NodeRule, key);
      appointments := appointments[apptIndex.value := newAppointment];
    } else {
      appointments := appointments + [newAppointment];
    }
    var ok := store.Upload(appointments);
    if !ok {
      return Failed(ServerError);
    }
    return Booked(order.value.readyNumber.value, slot);
  }

  /** The first row matching a key is the one at `i` when it matches and no earlier row does. */
  lemma FirstAppointmentAt(appts: seq<Appointment>, rule: Rule, key: string, i: nat)
    requires i < |appts| && Matches(rule, appts[i].orderNumber, key)
    requires forall j :: 0 <= j < i ==> !Matches(rule, appts[j].orderNumber, key)
    ensures FirstAppointment(appts, rule, key) == Some(i)
  {
  }

  /** After a booking the order's first row is the new record. */
  lemma PlacedRecordIsFound(appts: seq<Appointment>, key: string, record: Appointment)
    requires Matches(NodeRule, record.orderNumber, key)
    ensures NodeFindAppointment(NodePlace(appts, key, record), key) == Some(record)
  {
    var rows := NodePlace(appts, key, record);
    match FirstAppointment(appts, NodeRule, key)
    case Some(i) =>
      FirstAppointmentAt(rows, NodeRule, key, i);
    case None =>
      FirstAppointmentAt(rows, NodeRule, key, |appts|);
  }

  /**
   * A booking is exclusive: once a booking of `slot` is written, the same slot is refused to
   * every order, and the same order is refused any slot.
   */
  lemma BookingIsExclusive(orders: seq<Order>, appts: seq<Appointment>, key: string, slot: Instant, stamp: string,
                           otherKey: string, otherSlot: Instant)
    requires Truthy(Some(key))
    requires MinuteAligned(slot) && DateOf(slot).year >= 100
    requires BookCheck(orders, appts, key, slot).None?
    ensures BookCheck(orders, NodePlace(appts, key, NewRecord(key, slot, stamp)), otherKey, slot).Some?
    ensures BookCheck(orders, NodePlace(appts, key, NewRecord(key, slot, stamp)), key, otherSlot) == Some(AlreadyScheduled)
  {
    var record := NewRecord(key, slot, stamp);
    PlacedSlotIsBooked(appts, key, slot, stamp);
    PlacedRecordIsFound(appts, key, record);
    NewRecordIsScheduled(key, slot, stamp);
  }

  /** The slot of a placed booking row is read back among the booked slots. */
  lemma PlacedSlotIsBooked(appts: seq<Appointment>, key: string, slot: Instant, stamp: string)
    requires MinuteAligned(slot) && DateOf(slot).year >= 100
    ensures slot in NodeBooked(NodePlace(appts, key, NewRecord(key, slot, stamp)))
  {
    var record := NewRecord(key, slot, stamp);
    var rows := NodePlace(appts, key, record);
    assert record in rows by {
      match FirstAppointment(appts, NodeRule, key)
      case Some(i) =>
        assert rows[i] == record;
      case None =>
        assert rows[|appts|] == record;
    }
    var i :| 0 <= i < |rows| && rows[i] == record;
    NodeRowReadsBack(slot, record);
    CollectMembers(NodeReadings(rows), slot);
  }

  /** A booking row carries non-empty date and time texts. */
  lemma NewRecordIsScheduled(key: string, slot: Instant, stamp: string)
    requires MinuteAligned(slot) && DateOf(slot).year >= 100
    ensures Scheduled(Some(NewRecord(key, slot, stamp)))
  {
    NodeDateTextTrimmed(DateOf(slot));
    NodeTimeTextTrimmed(HourOf(slot), MinuteOf(slot));
  }

  // ---------------------------------------------------------------------------------------
  // The admin list
  // ---------------------------------------------------------------------------------------

  lemma CleanedStep(orders: seq<Order>, appts: seq<Appointment>, i: int)
    requires 0 <= i < |appts|
    ensures Cleaned(orders, NodeRule, appts[..i + 1])
         == Cleaned(orders, NodeRule, appts[..i]) + (if Kept(orders, NodeRule, appts[i]) then [appts[i]] else [])
  {
    assert appts[..i + 1][..i] == appts[..i];
  }

  /**
   * The admin list's loop: skip incomplete rows and rows whose order is fulfilled, setting
   * `needsUpdate`, keep the rest in order.
   */
  method CleanAppointments(orders: seq<Order>, appointments: seq<Appointment>)
    returns (cleaned: seq<Appointment>, needsUpdate: bool)
    ensures cleaned == Cleaned(orders, NodeRule, appointments)
    ensures needsUpdate <==> cleaned != appointments
  {
    cleaned := [];
    needsUpdate := false;
    var i := 0;
    while i < |appointments|
      invariant 0 <= i <= |appointments|
      invariant cleaned == Cleaned(orders, NodeRule, appointments[..i])
      invariant needsUpdate <==> |cleaned| < i
    {
      var appt := appointments[i];
      CleanedStep(orders, appointments, i);
      if !Truthy(appt.orderNumber) || !Truthy(appt.date) || !Truthy(appt.time) {
        assert !Kept(orders, NodeRule, appointments[i]);
        needsUpdate := true;
      } else {
        var order := NodeFindOrder(orders, appt.orderNumber.value);
        if order.Some? && Truthy(order.value.pickupStatus) && Lower(Trim(order.value.pickupStatus.value)) == "fulfilled" {
          assert !Kept(orders, NodeRule, appointments[i]);
          needsUpdate := true;
        } else {
          assert Kept(orders, NodeRule, appointments[i]);
          cleaned := cleaned + [appt];
        }
      }
      i := i + 1;
    }
    assert appointments[..i] == appointments;
    CleanedShrinks(orders, NodeRule, appointments);
  }

  /**
   * `GET /api/admin/appointments`: the kept rows, in order; the cleaned sheet is written back
   * exactly when a row was dropped.  Failed fetches and a failed write give 500.
   */
  method ListAppointments(store: Store) returns (reply: Reply)
    modifies store
    ensures store.orders == old(store.orders) && store.uploadsWork == old(store.uploadsWork)
    ensures store.orders.None? || NodeRows(old(store.appointments)).None? ==> reply == Failed(ServerError)
    ensures store.orders.Some? && NodeRows(old(store.appointments)).Some? ==>
      var appts := NodeRows(old(store.appointments)).value;
      var cleaned := Cleaned(store.orders.value, NodeRule, appts);
      (cleaned == appts ==> reply == Listing(cleaned))
      && (cleaned != appts && !store.uploadsWork ==> reply == Failed(ServerError))
      && (cleaned != appts && store.uploadsWork ==>
            reply == Listing(cleaned)
            && store.uploads == old(store.uploads) + [cleaned] && store.appointments == Present(cleaned))
    ensures store.uploads == old(store.uploads) ==> store.appointments == old(store.appointments)
    ensures store.uploads == old(store.uploads) || reply.Listing?
  {
    if store.orders.None? {
      return Failed(ServerError);
    }
    var orders := store.orders.value;
    var fetched := NodeRows(store.appointments);
    if fetched.None? {
      return Failed(ServerError);
    }
    var cleaned, needsUpdate := CleanAppointments(orders, fetched.value);
    if needsUpdate {
      var ok := store.Upload(cleaned);
      if !ok {
        return Failed(ServerError);
      }
    }
    return Listing(cleaned);
  }

  // ---------------------------------------------------------------------------------------
  // Cancel and reschedule
  // ---------------------------------------------------------------------------------------

  /**
   * `DELETE /api/admin/appointments/:orderNumber`: remove the first row of the order
   * (`splice`), or 404 without writing when there is none.
   */
  method CancelAppointment(store: Store, orderNumber: Option<string>) returns (reply: Reply)
    modifies store
    ensures store.orders == old(store.orders) && store.uploadsWork == old(store.uploadsWork)
    ensures !Truthy(orderNumber) ==> reply == Failed(MissingInput)
    ensures Truthy(orderNumber) && NodeRows(old(store.appointments)).None? ==> reply == Failed(ServerError)
    ensures Truthy(orderNumber) && NodeRows(old(store.appointments)).Some? ==>
      var appts := NodeRows(old(store.appointments)).value;
      var index := FirstAppointment(appts, NodeRule, orderNumber.value);
      (index.None? ==> reply == Failed(AppointmentNotFound))
      && (index.Some? && !store.uploadsWork ==> reply == Failed(ServerError))
      && (index.Some? && store.uploadsWork ==>
            var rows := RemoveAt(appts, index.value);
            reply == Cancelled && store.uploads == old(store.uploads) + [rows] && store.appointments == Present(rows))
    ensures !reply.Cancelled? ==> store.uploads == old(store.uploads) && store.appointments == old(store.appointments)
  {
    if !Truthy(orderNumber) {
      return Failed(MissingInput);
    }
    var fetched := NodeRows(store.appointments);
    if fetched.None? {
      return Failed(ServerError);
    }
    var appointments := fetched.value;
    var appointmentIndex := FirstAppointment(appointments, NodeRule, orderNumber.value);
    if appointmentIndex.None? {
      return Failed(AppointmentNotFound);
    }
    appointments := RemoveAt(appointments, appointmentIndex.value);
    var ok := store.Upload(appointments);
    if !ok {
      return Failed(ServerError);
    }
    return Cancelled;
  }

  lemma MatchCountConcat(a: seq<Appointment>, b: seq<Appointment>, rule: Rule, key: string)
    ensures MatchCount(a + b, rule, key) == MatchCount(a, rule, key) + MatchCount(b, rule, key)
    decreases |b|
  {
    if b != [] {
      var init := b[..|b| - 1];
      MatchCountConcat(a, init, rule, key);
      assert (a + b)[..|a + b| - 1] == a + init;
      assert (a + b)[|a + b| - 1] == b[|b| - 1];
    } else {
      assert a + b == a;
    }
  }

  /** Cancel removes exactly one of the order's rows, the first; any later ones stay. */
  lemma CancelRemovesOneRow(appts: seq<Appointment>, key: string, i: nat)
    requires FirstAppointment(appts, NodeRule, key) == Some(i)
    ensures MatchCount(RemoveAt(appts, i), NodeRule, key) == MatchCount(appts, NodeRule, key) - 1
  {
    assert appts == appts[..i] + [appts[i]] + appts[i + 1..];
    MatchCountConcat(appts[..i] + [appts[i]], appts[i + 1..], NodeRule, key);
    MatchCountConcat(appts[..i], appts[i + 1..], NodeRule, key);
    MatchCountAppend(appts[..i], NodeRule, key, appts[i]);
  }

  /**
   * The reschedule collision check reads every row but the moved one: the slot is taken in
   * the rest of the sheet exactly when some other row reads as it.
   */
  lemma CollisionExcludesMovedRow(appts: seq<Appointment>, i: nat, t: Instant)
    requires i < |appts|
    ensures t in NodeBooked(RemoveAt(appts, i)) <==>
      exists j :: 0 <= j < |appts| && j != i && NodeBookedOf(appts[j]) == Some(t)
  {
    var vs, ws := NodeReadings(appts), NodeReadings(RemoveAt(appts, i));
    CollectMembers(ws, t);
    ReadingsWithout(vs, ws, i, t);
  }

  /** Readings with the `i`-th one dropped hold a slot exactly when a reading other than the `i`-th does. */
  lemma ReadingsWithout(vs: seq<Option<Instant>>, ws: seq<Option<Instant>>, i: nat, t: Instant)
    requires i < |vs| && |ws| == |vs| - 1
    requires forall j :: 0 <= j < i ==> ws[j] == vs[j]
    requires forall j :: i <= j < |ws| ==> ws[j] == vs[j + 1]
    ensures (exists k :: 0 <= k < |ws| && ws[k] == Some(t)) <==>
      exists j :: 0 <= j < |vs| && j != i && vs[j] == Some(t)
  {
    if exists j :: 0 <= j < |vs| && j != i && vs[j] == Some(t) {
      var j :| 0 <= j < |vs| && j != i && vs[j] == Some(t);
      if j < i {
        assert ws[j] == Some(t);
      } else {
        assert ws[j - 1] == Some(t);
      }
    }
    if exists k :: 0 <= k < |ws| && ws[k] == Some(t) {
      var k :| 0 <= k < |ws| && ws[k] == Some(t);
      if k < i {
        assert vs[k] == Some(t);
      } else {
        assert vs[k + 1] == Some(t);
      }
    }
  }

  /**
   * `PUT /api/admin/appointments/:orderNumber`: move the order's first row to the new slot in
   * place, unless another row reads as that slot (409) or there is no row (404).  The new row
   * keeps a non-empty `Created_Time`; every other row keeps its index.
   */
  method RescheduleAppointment(store: Store, orderNumber: Option<string>, newSlotTime: Option<Instant>, stamp: string)
    returns (reply: Reply)
    modifies store
    ensures store.orders == old(store.orders) && store.uploadsWork == old(store.uploadsWork)
    ensures !Truthy(orderNumber) || newSlotTime.None? ==> reply == Failed(MissingInput)
    ensures Truthy(orderNumber) && newSlotTime.Some? && NodeRows(old(store.appointments)).None? ==>
      reply == Failed(ServerError)
    ensures Truthy(orderNumber) && newSlotTime.Some? && NodeRows(old(store.appointments)).Some? ==>
      var key := orderNumber.value;
      var slot := newSlotTime.value;
      var appts := NodeRows(old(store.appointments)).value;
      var index := FirstAppointment(appts, NodeRule, key);
      (index.None? ==> reply == Failed(AppointmentNotFound))
      && (index.Some? && slot in NodeBooked(RemoveAt(appts, index.value)) ==> reply == Failed(SlotTaken))
      && (index.Some? && slot !in NodeBooked(RemoveAt(appts, index.value)) ==>
            var rows := appts[index.value := MovedRecord(key, slot, appts[index.value], stamp)];
            (!store.uploadsWork ==> reply == Failed(ServerError))
            && (store.uploadsWork ==>
                  reply == Rescheduled(key, NodeFormatDate(slot), NodeFormatTime(slot))
                  && store.uploads == old(store.uploads) + [rows] && store.appointments == Present(rows)))
    ensures !reply.Rescheduled? ==> store.uploads == old(store.uploads) && store.appointments == old(store.appointments)
  {
    if !Truthy(orderNumber) || newSlotTime.None? {
      return Failed(MissingInput);
    }
    var key := orderNumber.value;
    var slot := newSlotTime.value;
    var fetched := NodeRows(store.appointments);
    if fetched.None? {
      return Failed(ServerError);
    }
    var appointments := fetched.value;
    var appointmentIndex := FirstAppointment(appointments, NodeRule, key);
    if appointmentIndex.None? {
      return Failed(AppointmentNotFound);
    }
    var index := appointmentIndex.value;
    var bookedSlots := NodeGetAllBookedSlots(RemoveAt(appointments, index));
    if slot in bookedSlots {
      return Failed(SlotTaken);
    }
    appointments := appointments[index := MovedRecord(key, slot, appointments[index], stamp)];
    var ok := store.Upload(appointments);
    if !ok {
      return Failed(ServerError);
    }
    return Rescheduled(key, NodeFormatDate(slot), NodeFormatTime(slot));
  }

  /**
   * Rescheduling keeps the creation time of a row that has one, and a moved row is read back
   * as its new slot while no other row reads as it.
   */
  lemma RescheduleKeepsCreation(key: string, slot: Instant, prior: Appointment, stamp: string)
    requires MinuteAligned(slot) && DateOf(slot).year >= 100
    ensures Truthy(prior.created) ==> MovedRecord(key, slot, prior, stamp).created == prior.created
    ensures NodeBookedOf(MovedRecord(key, slot, prior, stamp)) == Some(slot)
  {
    NodeRowReadsBack(slot, MovedRecord(key, slot, prior, stamp));
  }
}
