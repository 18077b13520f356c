# Pickup appointment scheduler — a Dafny model

The system lets a store's customers book a pickup time for an order that is ready. The customer
page validates an order number against the orders sheet and lists the free slots of the next days.
It books one slot and sends a confirmation e-mail. An admin page lists, searches, cancels and
reschedules appointments and shows them in a calendar. There are two interchangeable back ends, a
Node server (`server/server.js` with `server/csvHandler.js`) and a Python server
(`python-backend/app.py`). Both keep the appointments in a spreadsheet that they re-upload after
every change. While a booking is in progress they hold an in-memory lock on the (order, slot) pair.

This project models the decision logic of both back ends and the logic of the two pages:

- `locks.dfy` (module `Locks`): the lock table, a class over a map from (order, slot) to the time
  the lock was taken. Expired locks are purged on every lock attempt.
- `records.dfy` (`Records`): sheet rows as records of optional cells. It has the three rules by
  which the sources compare an order number with a cell, the `find*` lookups, and the ready and
  picked-up tests.
- `calendar.dfy` (`Calendar`): instants as integer milliseconds read in UTC, with the ECMAScript
  day/year arithmetic. `text.dfy` (`Text`) has trimming, case folding, splitting and number texts.
- `timestamps.dfy` (`Timestamps`): each back end's and each page's way of turning a date text and a
  time text into an instant, and of turning an instant back into texts.
- `slots.dfy` (`Slots`): both slot generators, as loops proved against recursive specifications.
- `booked.dfy` (`Booked`): the list of booked slots each back end reads from the sheet, and the
  free slots.
- `edits.dfy` (`Edits`): the sheet edits the handlers make. These are removal, replacement,
  placement of a new row, and the admin list's clean-up.
- `services.dfy` (`Services`): the spreadsheet store and the mail outbox, as classes. Reading the
  appointments file can find it present, missing or unreadable. Uploads may fail.
- `replies.dfy` (`Replies`): the replies and their HTTP statuses.
- `node_server.dfy` (`NodeServer`) and `py_server.dfy` (`PyServer`): the six request handlers of
  each back end. Each is a method on the store, the lock table and the outbox, whose `ensures` give
  the reply and the whole new state.
- `grouping.dfy` (`Grouping`), `admin_page.dfy` (`AdminPage`) and `booking_page.dfy`
  (`BookingPage`): the pages' grouping by day, the admin search and sort, the e-mail check, and
  the booking page's confirm step.

The two back ends differ, and the model keeps each one's behaviour:

- Node compares order numbers only against non-empty cells and refuses when the appointments file
  cannot be read. Python reads an unreadable file as empty. A booking then uploads a sheet holding
  only the new row, which replaces whatever the unreadable file held
  (`PyServer.UnreadableSheetIsReplaced`).
- Node's readiness test trims the ready number. Python's does not (`Records.ReadyChecksDiffer`).
- Node's cancel removes the first row of the order (`NodeServer.CancelRemovesOneRow`). Python's
  removes every row of the order (`PyServer.CancelRemovesEveryRow`).
- Node offers only slots after the current instant. Python offers the whole horizon
  (`Slots.NodeIsPythonAfterNow`).

The shipped slot configuration is `Slots.Shipped`: 8 days ahead, 9:00 to 17:00, every 30 minutes.
The lock timeout is one minute: `Locks.NodeTimeout` is 60000 ms and `Locks.PyTimeout` is 60 s.

## Model

| member | source | states |
|---|---|---|
| Locks.LockTable.CleanupExpired | server/csvHandler.js:11-18 | Drops exactly the locks older than the timeout and keeps every other lock with its time. |
| Locks.LockTable.Lock | server/csvHandler.js:20-30 | After the purge, succeeds exactly when no live lock holds the key, and then records the key at `now`. Otherwise the table is the purged table. |
| Locks.LockTable.Unlock | server/csvHandler.js:32-35 | Removes the key and nothing else. |
| Locks.PurgeRemovesExactlyExpired | python-backend/app.py:24-31 | A lock is purged exactly when more than the timeout has passed since it was taken. |
| Locks.PurgeIdempotent | python-backend/app.py:24-31 | Purging twice at the same time is purging once. |
| Locks.PurgeMonotone | python-backend/app.py:24-31 | A purge at an earlier time followed by one at a later time equals the later purge. |
| Locks.LockBlocksWithinTimeout | python-backend/app.py:33-43 | A lock taken at `taken` still blocks the same key at every time up to `taken + timeout`. |
| Locks.LockThenUnlock | python-backend/app.py:45-49 | Unlocking a freshly taken lock restores the purged table. |
| Records.RulesAgreeOnNonBlankKeys | python-backend/app.py:51-71 | For an order number that is not blank, Node's truthy-cell rule, Python's `find_*` rule and Python's filter rule all match the same cells. |
| Records.BlankKeyMatchesMissingCell | python-backend/app.py:554-607 | A blank number matches a row without the column under the filter rule, but under neither lookup rule. |
| Records.FirstOrder | server/csvHandler.js:304-310 | Returns the index of the first matching order row, or none when no row matches. |
| Records.FirstAppointment | server/csvHandler.js:343-348 | Returns the index of the first matching appointment row, or none when no row matches. |
| Records.PyFindOrder | python-backend/app.py:51-60 | The loop returns the first order row whose number cell exists and matches, or none. |
| Records.PyFindAppointment | python-backend/app.py:62-71 | The loop returns the first appointment row whose number cell exists and matches, or none. |
| Records.FoundOrdersAreReady | server/csvHandler.js:312-315 | An order found by a non-blank number passes that back end's readiness test. |
| Records.ReadyChecksDiffer | python-backend/app.py:73-75 | A ready number of blanks is ready for Python and not for Node. |
| Records.PickedUpNeedsStatus | server/server.js:110-117 | An order counts as picked up only if its storage-fee cell or its pickup-status cell says so. |
| Calendar.CivilRoundTrip | public/admin.js:126-171 | Converting a valid calendar date to its day number and back yields the same date. |
| Calendar.WeekendTestsAgree | server/csvHandler.js:415-453 | JavaScript's `getDay()` weekend test and Python's `weekday() >= 5` pick out the same days. |
| Text.ParseIntOfHex | server/csvHandler.js:357-359 | `parseInt` without a radix reads a `0x` text in base 16, and gives `NaN` when no hexadecimal digit follows the prefix. |
| Timestamps.NodeRoundTrip | server/csvHandler.js:350-413 | The date and time texts Node writes for a whole-minute slot combine back to that slot. |
| Timestamps.NodeTimeTextReads | server/csvHandler.js:402-413 | Node's 12-hour time text reads back as the same hour and minute. |
| Timestamps.NodeCombineOfSlashDate | server/csvHandler.js:350-391 | A slash date with a readable time combines to the UTC instant of its fields. |
| Timestamps.PyRoundTrip | python-backend/app.py:97-131 | For years 1000 to 9999 the texts Python writes for a slot parse back to that slot with `strptime`. |
| Timestamps.PyCombineRange | python-backend/app.py:97-121 | Every instant Python parses from a row is a whole minute in years 1 to 9999. |
| Timestamps.PyTimeAnyGap | python-backend/app.py:110 | `strptime` reads any non-empty run of white space before AM/PM like the single blank, so `9:30  PM` and `9:30\tPM` are read as `9:30 PM`. |
| Timestamps.PyBlankPaddedDay | python-backend/app.py:109 | A blank-padded day such as `2025-11- 5` reads as the zero-padded day `2025-11-05`. |
| Timestamps.ClientAgreesOnSlashDates | public/admin.js:126-171 | On slash dates the admin page combines date and time exactly as the Node server does. |
| Timestamps.ClientReadsNodeRows | public/admin.js:126-171 | The admin page reads a row written by the Node server back as its slot. |
| Timestamps.ClientReadsPythonRows | public/admin.js:126-171 | The admin page reads a row written by the Python server back as its slot. |
| Timestamps.ClientTimeTextIsServerText | public/app.js:81-91 | The pages' 12-hour time text equals the Node server's time text and reads back as the same time. |
| Timestamps.CalendarKeyIsIsoDate | public/admin.js:391-392 | For four-digit years, the calendar cell's date key equals the ISO date part of every slot on that day. |
| Slots.NodeGenerateTimeSlots | server/csvHandler.js:415-453 | The nested loops produce exactly the Node generator's specification sequence. |
| Slots.PyGenerateTimeSlots | python-backend/app.py:77-95 | The nested loops produce exactly the Python generator's specification sequence. |
| Slots.PySlotsAreBusinessMinutes | python-backend/app.py:77-95 | A Python slot is exactly a whole minute on a weekday of the horizon, in business hours, on a multiple of the step. |
| Slots.PySlotsAscending | python-backend/app.py:77-95 | The Python slots are in strictly increasing order. |
| Slots.PyWeekdayCount | python-backend/app.py:77-95 | A weekend day has no slots. A weekday has (hours) × (slots per hour) slots. |
| Slots.ShippedWeekdayHas16 | python-backend/app.py:77-95 | With the shipped configuration a weekday offers 16 slots. |
| Slots.NodeIsPythonAfterNow | server/csvHandler.js:415-453 | Node's slots are Python's slots that lie after `now`, in the same order. |
| Slots.NodeSlotsAreFutureBusinessMinutes | server/csvHandler.js:415-453 | A Node slot is exactly a future whole minute on a weekday of the horizon, in business hours, on a multiple of the step. The slots are strictly increasing. |
| Booked.NodeGetAllBookedSlots | server/csvHandler.js:317-341 | The loop collects, in row order, the instant of every row whose date and time both combine. |
| Booked.PyGetAllBookedSlots | python-backend/app.py:97-121 | The loop collects, in row order, the instant of every row whose date and time both parse. |
| Booked.CollectMembers | server/csvHandler.js:317-341 | An instant is booked exactly when some row reads as it. There are never more booked slots than rows. |
| Booked.Available | server/server.js:178-207 | A slot is free exactly when it is generated and not booked. |
| Booked.AvailableAscending | python-backend/app.py:289-322 | Filtering out booked slots keeps the generated order. |
| Booked.NodeBookingHidesSlot | server/server.js:178-207 | Once a row written by Node for a slot is in the sheet, that slot is no longer offered. |
| Booked.PyBookingHidesSlot | python-backend/app.py:289-322 | Once a row written by Python for a slot is in the sheet, that slot is no longer offered. |
| Edits.WithoutMembers | python-backend/app.py:554-607 | After removing an order's rows, a row remains exactly when it was there and does not belong to the order. |
| Edits.WithoutShrinks | python-backend/app.py:554-607 | Removal changes nothing when no row matches, and shrinks the sheet when one does. |
| Edits.RemoveAt | server/server.js:431-476 | Removing a row keeps the rows before it and shifts the rows after it down by one. |
| Edits.ReplaceAllLeavesOnlyRecord | python-backend/app.py:430-433 | After replacement, every row of the order is the record. |
| Edits.ReplaceAllKeepsOthers | python-backend/app.py:430-433 | The rows of other orders are kept, in order, and the order keeps as many rows as it had. |
| Edits.MatchCountZero | python-backend/app.py:554-607 | An order has no rows exactly when no row matches it. |
| Edits.NodePlaceKeepsOneRow | server/server.js:210-360 | Placing a booking over a sheet with at most one row of the order leaves exactly one row of the order, the new record. |
| Edits.NodePlaceKeepsOthers | server/server.js:210-360 | Placing a booking leaves every other order's row in place. |
| Edits.CleanedShrinks | server/server.js:377-397 | The clean-up keeps the sheet unchanged exactly when every row is complete and its order is not fulfilled. Otherwise it shrinks the sheet. |
| Edits.CleanedRowsAreKept | server/server.js:377-397 | Every row left after the clean-up was in the sheet and is complete with an unfulfilled order. |
| Edits.CleanedIsStable | python-backend/app.py:481-551 | Cleaning an already cleaned sheet changes nothing. |
| Services.RowReadingsAgree | server/csvHandler.js:51-81 | Node reads a missing appointments file as a sheet with no rows. Node and Python read the same rows from every file Node can read. On an unreadable file Node fails, and Python (`except: appointments = []`) sees no rows. |
| Services.Store.Upload | server/server.js:210-360 | A working upload replaces the sheet and is recorded. A failed one changes nothing. |
| Replies.Status | server/server.js:73-175 | Every success answers 200. Every refusal answers its 4xx or 500 status. |
| NodeServer.OrderCheck | server/server.js:73-135 | An order is refused as not found exactly when no row matches. It passes exactly when it is found, ready and not picked up. |
| NodeServer.BookCheck | server/server.js:245-300 | A booking passes exactly when the order passes, has no complete appointment, and the slot is not booked. An order with a complete appointment is refused as already scheduled. |
| NodeServer.ValidateOrder | server/server.js:73-175 | Gives the reply for every input and sheet state. Only a picked-up order with an appointment changes the sheet: its rows are removed and uploaded. |
| NodeServer.PurgedSheetHasNoAppointment | server/server.js:117-131 | After that purge the order has no appointment, and the rows of every other order remain. |
| NodeServer.AvailableSlots | server/server.js:178-207 | Replies with the free slots and the generated and booked counts. It fails when the sheet is unreadable. |
| NodeServer.OfferedSlots | server/server.js:178-207 | An offered slot is exactly a future business-hour whole minute of the horizon that no row reads as. The offer is increasing. |
| NodeServer.BookAppointment | server/server.js:210-360 | The lock table ends purged. A held lock refuses. Otherwise the checks decide the reply. A successful booking places the record, uploads the sheet and sends one mail. Nothing else changes. |
| NodeServer.BookWhileLocked | server/server.js:236-350 | Under the lock: a failed fetch is a server error, a refused check gives its reason, an allowed booking places the record and uploads the sheet, and a failed upload is a server error. Only a booking changes the sheet. |
| NodeServer.PlacedRecordIsFound | server/server.js:210-360 | After a booking, the order's appointment lookup finds the new record. |
| NodeServer.BookingIsExclusive | server/server.js:210-360 | After a booking, the same slot is refused to every order, and a second slot is refused to the same order. |
| NodeServer.CleanAppointments | server/server.js:377-397 | The filter loop computes the cleaned sheet and reports a change exactly when it differs from the original. |
| NodeServer.ListAppointments | server/server.js:363-428 | Lists the cleaned sheet, and uploads it only when the clean-up changed something. |
| NodeServer.CancelAppointment | server/server.js:431-476 | Removes the order's first row and uploads, or says the order has no appointment. |
| NodeServer.CancelRemovesOneRow | server/server.js:431-476 | A cancel removes exactly one of the order's rows. |
| NodeServer.CollisionExcludesMovedRow | server/server.js:479-544 | During a reschedule a slot counts as taken exactly when a row other than the moved one reads as it. |
| NodeServer.RescheduleAppointment | server/server.js:479-544 | Moves the order's first row to a slot no other row holds, and replies with the new texts. A taken slot is refused. |
| NodeServer.RescheduleKeepsCreation | server/server.js:479-544 | A moved row keeps its creation time and reads back as the new slot. |
| PyServer.OrderCheck | python-backend/app.py:183-250 | An order is refused as not found exactly when no row matches. It passes exactly when it is found, ready and not picked up. |
| PyServer.BookCheck | python-backend/app.py:372-420 | A booking passes exactly when the order passes, has no complete appointment, and the slot is not booked. An order with a complete appointment is refused as already scheduled. |
| PyServer.ValidateOrder | python-backend/app.py:183-286 | Gives the reply for every input. An unreadable sheet reads as empty. Only a picked-up order with an appointment changes the sheet: every matching row is removed. |
| PyServer.AvailableSlots | python-backend/app.py:289-322 | Replies with the free slots and the generated and booked counts. |
| PyServer.OfferedSlots | python-backend/app.py:289-322 | An offered slot is exactly a business-hour whole minute of the horizon that no row reads as. The offer is increasing. |
| PyServer.BookAppointment | python-backend/app.py:325-478 | The lock table ends purged. A held lock refuses. Otherwise the checks decide the reply. A successful booking replaces or appends the record, uploads the sheet and sends one mail. Nothing else changes. |
| PyServer.BookWhileLocked | python-backend/app.py:355-470 | Under the lock: a failed fetch is a server error, a refused check gives its reason, an allowed booking replaces or appends the record and uploads the sheet, and a failed upload or an unwritable date is a server error. Only a booking changes the sheet. |
| PyServer.PlacedRecordIsFound | python-backend/app.py:325-478 | After a booking, the order's appointment lookup finds the new record. |
| PyServer.BookingIsExclusive | python-backend/app.py:325-478 | After a booking, the same slot is refused to every order, and a second slot is refused to the same order. |
| PyServer.UnreadableSheetIsReplaced | python-backend/app.py:325-478 | A booking over an unreadable sheet writes a sheet that holds only the new row. |
| PyServer.CleanAppointments | python-backend/app.py:481-551 | The filter loop computes the cleaned sheet and reports a change exactly when it differs from the original. |
| PyServer.ListAppointments | python-backend/app.py:481-551 | Lists the cleaned sheet, and uploads it only when the clean-up changed something. |
| PyServer.SplitOffOrder | python-backend/app.py:554-607 | The loop keeps exactly the rows of other orders, and finds a row of the order exactly when one exists. |
| PyServer.CancelAppointment | python-backend/app.py:554-607 | Removes every row of the order and uploads, or says the order has no appointment. |
| PyServer.CancelRemovesEveryRow | python-backend/app.py:554-607 | After a cancel no row of the order is left, and every other row remains. |
| PyServer.FindIndex | python-backend/app.py:610-690 | The loop finds the index of the order's first row. |
| PyServer.RescheduleAppointment | python-backend/app.py:610-690 | Moves the order's first row to a slot no other row holds, and replies with the new texts. A taken slot is refused. |
| PyServer.RescheduleKeepsEmailAndCreation | python-backend/app.py:610-690 | A moved row keeps its e-mail and creation time and reads back as the new slot. |
| Grouping.FillGroups | public/admin.js:173-191 | The loop builds the map from each key met to the items filed under it, in input order. |
| Grouping.BucketMembers | public/admin.js:173-191 | An item is in a key's list exactly when an entry files it under that key. |
| Grouping.GroupByKey | public/app.js:93-107 | Every item's key is present, and a key's list holds exactly the items with that key. |
| Grouping.GroupSlotsByDate | public/app.js:93-107 | The grouping is the specification map of the slots filed under their ISO dates. |
| Grouping.SlotGroupsPartition | public/admin.js:199-213 | The keys are exactly the slots' dates, and a slot is in a group exactly when it is one of the slots and has that date. |
| AdminPage.GroupAppointmentsByDate | public/admin.js:173-191 | The loop builds the day map of the rows whose date and time combine. |
| AdminPage.AppointmentGroups | public/admin.js:173-191 | An item is in some day's list exactly when its row is listed, its texts combine to its instant, and the day is that instant's ISO date. |
| AdminPage.CalendarCellShowsAppointment | public/admin.js:391-392 | For four-digit years, a calendar cell shows an appointment exactly when it falls on that day. |
| AdminPage.IsoDateKeyDeterminesDate | public/admin.js:391-392 | An instant whose ISO date is a cell's key falls on that cell's date. |
| AdminPage.MatchingMembers | public/admin.js:533-545 | A row passes the search exactly when its lower-cased number contains the term. |
| AdminPage.MatchingEmptyTerm | public/admin.js:533-545 | The empty term passes every row, in order. |
| AdminPage.SortedTableCorrect | public/admin.js:508-512 | The table is ordered by time and is a permutation of the rows. Rows with equal times keep their order. |
| AdminPage.AdminState.LoadAppointments | public/admin.js:343-345 | Stores the list unfiltered and its grouping by day. |
| AdminPage.AdminState.HandleSearch | public/admin.js:533-545 | Sets the filtered list to the rows matching the trimmed, lower-cased input. The list and the calendar stay unchanged. |
| BookingPage.IsValidEmailMatchesPattern | public/app.js:336-339 | The one-pass check accepts exactly the texts of the form plain@plain.plain, where each piece is non-empty with no blank and no '@'. |
| BookingPage.ValidEmailShape | public/app.js:336-339 | An accepted address has no blank and exactly one '@', with text before it. |
| BookingPage.SubmittedEmailIsPresent | public/app.js:297-334 | A submitted address is non-empty and already trimmed, so it passes the server's e-mail check unchanged. |
| BookingPage.BookingState.OrderValidated | public/app.js:189 | A validated order becomes the current one. The selection and the slots stay. |
| BookingPage.BookingState.ShowSlots | public/app.js:238-241 | Keeps the slots, and groups them by date unless there are none. |
| BookingPage.BookingState.SelectTimeSlot | public/app.js:258-270 | Selects the slot only when it is one of the offered slots. |
| BookingPage.BookingState.ConfirmBooking | public/app.js:297-334 | Refuses in the source's order: no slot, then no e-mail, then an invalid e-mail, then no order. Otherwise it submits the order, the slot and the trimmed address. |
| BookingPage.BookingState.BackToValidation | public/app.js:360-368 | Forgets the order, the selection and the slots. |

## Left out

- Reading and writing the spreadsheets (CSV, Excel, the SharePoint and Graph calls) is not
  modelled. The sheets are values held by `Services.Store`. Fetch failures are the `orders` value
  `None` and the `Unreadable` appointments file. Upload failures are `uploadsWork == false`.
- The e-mail's content and its transport are not modelled. A booking appends one `Mail` to the
  outbox. The source ignores the send's outcome, and the model assumes the send does not throw.
- The login endpoint, the health endpoint, the DOM, rendering and the calendar's month navigation
  are left out. So are the `formatDateTime` and locale display strings and the reply fields used
  only for display, such as `readyDate` and the texts of messages.
- Concurrency is left out: every handler runs to completion alone. The lock table is modelled,
  but two interleaved requests are not.
- Clocks are parameters: `now` for each request and the `Created_Time` stamp text. A request reads
  the clock once.
- Local time is UTC throughout, and time zones and daylight saving are not modelled. Python's lock
  times are whole seconds instead of the float seconds of `time.time()`.
- Only ASCII is covered. Trimming removes the ASCII blanks of `Text.IsSpace`, not the other
  Unicode blanks that JavaScript's `trim` and Python's `strip` also remove. Lower-casing folds
  `A`–`Z` only.
- Cells are texts or missing. Numeric cells, and a slot string that is not the canonical ISO
  rendering of an instant, are not modelled. A requested slot is the instant it names.
- JavaScript's `new Date(text)` on a dash date is modelled for strict `YYYY-MM-DD` dates only.
  Other shapes read as unreadable. The `Date` range limit of ±10^8 days is not modelled.
- Timestamps.NodeRoundTrip: stated for years from 100 on. A slash date whose year is below 100
  is read back with 2000 added (`server/csvHandler.js:360`), so a slot in year 50 comes back in
  year 2050.
- Timestamps.PyParseDate, Timestamps.PyParseTime: the `\d` of `strptime`'s pattern also matches
  non-ASCII decimal digits, such as full-width digits. The model reads the ASCII digits `0`–`9` only.
- Text.ParseInt: the number is exact. JavaScript's `parseInt` returns a floating-point number,
  which is not exact above 2^53.
- Timestamps.PyRoundTrip: stated for years 1000 to 9999, because `strftime('%Y')` pads nothing and
  `strptime` expects four digits.
- AdminPage.CalendarCellShowsAppointment: stated for years 1000 to 9999, where the ISO year and
  the calendar's key have the same four digits.
- Slots.NodeGenerateTimeSlots: requires a positive step, and the Python generator and the slot
  properties require the configuration to be sensible (`Slots.ValidConfig`). The source's
  configuration is constant and meets both.
- BookingPage.BookingState.SelectTimeSlot: a button on the page is approximated by membership in
  the offered slots.
- Grouping.GroupSlotsByDate: its partition property is the lemma `Grouping.SlotGroupsPartition`
  rather than an `ensures` of the method.
- The admin list's row count, `readyDate` and other display fields are not modelled.
