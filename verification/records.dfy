/**
 * The rows both backends read from the orders sheet and the appointments sheet, and the
 * lookups that match a requested order number against them.
 *
 * A row is a record of optional string cells: `None` is a column the row does not have,
 * `Some("")` an empty cell.  Three matching rules occur in the sources; they differ only on
 * blank keys (`RulesAgreeOnNonBlankKeys`).
 */
module Records {
  import opened Wrappers
  import opened Text

  /** A row of the orders sheet: `Ready Order Number`, `Pick up Status`, `Storage Fee Start From`. */
  datatype Order = Order(readyNumber: Option<string>, pickupStatus: Option<string>, storageFee: Option<string>)

  /**
   * A row of the appointments sheet: `OrderNumber`, `Appointment_Date`, `Appointment_Time`,
   * `Customer_Email`, `Created_Time`.
   */
  datatype Appointment = Appointment(
    orderNumber: Option<string>,
    date: Option<string>,
    time: Option<string>,
    email: Option<string>,
    created: Option<string>)

  /** JavaScript and Python truthiness of a cell: present and not the empty string. */
  predicate Truthy(v: Option<string>) {
    v.Some? && v.value != ""
  }

  /** `str(row.get(column, ''))`: the cell, or the empty string for a missing column. */
  function Cell(v: Option<string>): string {
    v.GetOr("")
  }

  /** How a row's number cell is compared with a requested order number. */
  datatype Rule =
    | NodeRule   // `cell && cell.toString().trim() === key.toString().trim()`
    | FindRule   // Python `find_*`: `column in row and str(row[column]).strip() == key.strip()`
    | GetRule    // Python filters: `str(row.get(column, '')).strip() == key.strip()`

  predicate Matches(rule: Rule, cell: Option<string>, key: string) {
    match rule
    case NodeRule => Truthy(cell) && Trim(cell.value) == Trim(key)
    case FindRule => cell.Some? && Trim(cell.value) == Trim(key)
    case GetRule => Trim(Cell(cell)) == Trim(key)
  }

  /** A key with a non-blank trimmed text is matched the same way by all three rules. */
  lemma RulesAgreeOnNonBlankKeys(cell: Option<string>, key: string)
    requires Trim(key) != ""
    ensures Matches(NodeRule, cell, key) <==> Matches(FindRule, cell, key)
    ensures Matches(FindRule, cell, key) <==> Matches(GetRule, cell, key)
  {
    assert Trim("") == "";
  }

  /** The Node rule never matches a row whose number cell is missing or empty. */
  lemma NodeRuleNeedsNumber(cell: Option<string>, key: string)
    requires Matches(NodeRule, cell, key)
    ensures Truthy(cell) && Cell(cell) != ""
  {
  }

  /** A blank key is matched by the Python filters against a row without the column at all. */
  lemma BlankKeyMatchesMissingCell(key: string)
    requires Trim(key) == ""
    ensures Matches(GetRule, None, key) && !Matches(FindRule, None, key) && !Matches(NodeRule, None, key)
  {
    assert Trim("") == "";
  }

  // ---------------------------------------------------------------------------------------
  // First match
  // ---------------------------------------------------------------------------------------

  /** The index of the first order whose ready number matches `key`, if any. */
  function FirstOrder(orders: seq<Order>, rule: Rule, key: string): (r: Option<nat>)
    ensures r.Some? ==> r.value < |orders| && Matches(rule, orders[r.value].readyNumber, key)
    ensures r.Some? ==> forall j :: 0 <= j < r.value ==> !Matches(rule, orders[j].readyNumber, key)
    ensures r.None? ==> forall j :: 0 <= j < |orders| ==> !Matches(rule, orders[j].readyNumber, key)
  {
    if orders == [] then None
    else if Matches(rule, orders[0].readyNumber, key) then Some(0)
    else
      match FirstOrder(orders[1..], rule, key)
      case None => None
      case Some(i) => Some(i + 1)
  }

  /** The index of the first appointment whose order number matches `key`, if any. */
  function FirstAppointment(appts: seq<Appointment>, rule: Rule, key: string): (r: Option<nat>)
    ensures r.Some? ==> r.value < |appts| && Matches(rule, appts[r.value].orderNumber, key)
    ensures r.Some? ==> forall j :: 0 <= j < r.value ==> !Matches(rule, appts[j].orderNumber, key)
    ensures r.None? ==> forall j :: 0 <= j < |appts| ==> !Matches(rule, appts[j].orderNumber, key)
  {
    if appts == [] then None
    else if Matches(rule, appts[0].orderNumber, key) then Some(0)
    else
      match FirstAppointment(appts[1..], rule, key)
      case None => None
      case Some(i) => Some(i + 1)
  }

  /** The element at an optional index. */
  function At<T>(xs: seq<T>, i: Option<nat>): (r: Option<T>)
    requires i.Some? ==> i.value < |xs|
    ensures r.Some? <==> i.Some?
    ensures r.Some? ==> r.value == xs[i.value]
  {
    match i
    case None => None
    case Some(k) => Some(xs[k])
  }

  /** `findOrderByNumber`: `records.find(...)` with the Node rule. */
  function NodeFindOrder(orders: seq<Order>, key: string): Option<Order> {
    At(orders, FirstOrder(orders, NodeRule, key))
  }

  /** `findAppointmentByOrderNumber`: `appointments.find(...)` with the Node rule. */
  function NodeFindAppointment(appts: seq<Appointment>, key: string): Option<Appointment> {
    At(appts, FirstAppointment(appts, NodeRule, key))
  }

  /** Python's `find_order_by_number`: a loop that returns the first matching order. */
  method PyFindOrder(orders: seq<Order>, key: string) returns (found: Option<Order>)
    ensures found == At(orders, FirstOrder(orders, FindRule, key))
  {
    var i := 0;
    while i < |orders|
      invariant 0 <= i <= |orders|
      invariant forall j :: 0 <= j < i ==> !Matches(FindRule, orders[j].readyNumber, key)
    {
      if orders[i].readyNumber.Some? && Trim(orders[i].readyNumber.value) == Trim(key) {
        return Some(orders[i]);
      }
      i := i + 1;
    }
    return None;
  }

  /** Python's `find_appointment_by_order_number`: a loop that returns the first match. */
  method PyFindAppointment(appts: seq<Appointment>, key: string) returns (found: Option<Appointment>)
    ensures found == At(appts, FirstAppointment(appts, FindRule, key))
  {
    var i := 0;
    while i < |appts|
      invariant 0 <= i <= |appts|
      invariant forall j :: 0 <= j < i ==> !Matches(FindRule, appts[j].orderNumber, key)
    {
      if appts[i].orderNumber.Some? && Trim(appts[i].orderNumber.value) == Trim(key) {
        return Some(appts[i]);
      }
      i := i + 1;
    }
    return None;
  }

  // ---------------------------------------------------------------------------------------
  // Readiness and pickup
  // ---------------------------------------------------------------------------------------

  /** `isOrderReady`: the ready number is non-empty after trimming. */
  predicate NodeIsReady(o: Order) {
    Truthy(o.readyNumber) && Trim(o.readyNumber.value) != ""
  }

  /** Python's `is_order_ready`: plain truthiness of the ready number, untrimmed. */
  predicate PyIsReady(o: Order) {
    Truthy(o.readyNumber)
  }

  /**
   * An order the Node lookup found for a non-blank key is ready, and so is one the Python
   * lookup found: readiness can only fail for blank keys.
   */
  lemma FoundOrdersAreReady(orders: seq<Order>, key: string)
    requires Trim(key) != ""
    ensures FirstOrder(orders, NodeRule, key).Some? ==> NodeIsReady(orders[FirstOrder(orders, NodeRule, key).value])
    ensures FirstOrder(orders, FindRule, key).Some? ==> PyIsReady(orders[FirstOrder(orders, FindRule, key).value])
  {
    assert Trim("") == "";
  }

  /** A blank ready number separates the two readiness checks: Python accepts it, Node does not. */
  lemma ReadyChecksDiffer()
    ensures PyIsReady(Order(Some(" "), None, None)) && !NodeIsReady(Order(Some(" "), None, None))
  {
    assert Trim(" ") == "" by {
      assert TrimStart(" ") == TrimStart(" "[1..]);
      assert " "[1..] == "";
    }
  }

  /**
   * The pickup test of validate and book: the trimmed, lower-cased storage-fee cell reads
   * "picked up" or the pickup status reads "fulfilled"; a missing cell counts as empty.
   */
  predicate PickedUp(o: Order) {
    Lower(Trim(Cell(o.storageFee))) == "picked up" || Fulfilled(o)
  }

  /** The admin list's test: the trimmed, lower-cased pickup status reads "fulfilled". */
  predicate Fulfilled(o: Order) {
    Lower(Trim(Cell(o.pickupStatus))) == "fulfilled"
  }

  /** Only a filled-in cell can mark an order as picked up. */
  lemma PickedUpNeedsStatus(o: Order)
    requires PickedUp(o)
    ensures Truthy(o.storageFee) || Truthy(o.pickupStatus)
  {
    assert Lower(Trim("")) == "";
  }
}
