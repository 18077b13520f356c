/**
 * The admin page's view logic: the appointments it loads from the admin list, the calendar's
 * grouping of them by day, the search box's filter, and the list view's ordering by time.
 * Timestamps are read in UTC throughout.
 */
module AdminPage {
  import opened Wrappers
  import opened Text
  import opened Calendar
  import opened Timestamps
  import opened Grouping

  /** An appointment as the admin list reply gives it. */
  datatype Row = Row(orderNumber: string, appointmentDate: string, appointmentTime: string)

  /** A calendar item: the row together with the instant its texts combine to (`isoDateTime`). */
  datatype Filed = Filed(row: Row, at: Instant)

  // ---------------------------------------------------------------------------------------
  // groupAppointmentsByDate
  // ---------------------------------------------------------------------------------------

  /**
   * Where a row is filed: under the ISO date of its combined date and time; a row whose texts
   * do not combine (`combineDateAndTime` returned null) is skipped.
   */
  function AppointmentEntry(r: Row): Option<Entry<Filed>> {
    match ClientCombine(r.appointmentDate, r.appointmentTime)
    case None => None
    case Some(t) => Some(Entry(IsoDatePart(t), Filed(r, t)))
  }

  function AppointmentEntries(rows: seq<Row>): (es: seq<Option<Entry<Filed>>>)
    ensures |es| == |rows|
    ensures forall i :: 0 <= i < |rows| ==> es[i] == AppointmentEntry(rows[i])
  {
    seq(|rows|, i requires 0 <= i < |rows| => AppointmentEntry(rows[i]))
  }

  /** `groupAppointmentsByDate`: the rows' `forEach`, pushing each combinable row onto its day. */
  method GroupAppointmentsByDate(rows: seq<Row>) returns (grouped: map<string, seq<Filed>>)
    ensures grouped == Grouped(AppointmentEntries(rows))
  {
    grouped := FillGroups(AppointmentEntries(rows));
  }

  /**
   * What the grouping holds: an item is under key `k` exactly when it is one of the rows with
   * the instant its texts combine to, and that instant's ISO date is `k`; a row whose texts do
   * not combine is under no key.
   */
  lemma AppointmentGroups(rows: seq<Row>, k: string, f: Filed)
    ensures var g := Grouped(AppointmentEntries(rows));
      (k in g && f in g[k]) <==>
        (f.row in rows && ClientCombine(f.row.appointmentDate, f.row.appointmentTime) == Some(f.at)
         && IsoDatePart(f.at) == k)
  {
    var es := AppointmentEntries(rows);
    BucketMembers(es, k, f);
    if k in KeysOf(es) && f in Bucket(es, k) {
      var i :| 0 <= i < |es| && es[i] == Some(Entry(k, f));
      EntryOf(rows[i], k, f);
    }
    if f.row in rows && ClientCombine(f.row.appointmentDate, f.row.appointmentTime) == Some(f.at)
       && IsoDatePart(f.at) == k {
      var i :| 0 <= i < |rows| && rows[i] == f.row;
      EntryOf(rows[i], k, f);
      assert es[i] == Some(Entry(k, f));
    }
  }

  lemma EntryOf(r: Row, k: string, f: Filed)
    ensures AppointmentEntry(r) == Some(Entry(k, f)) <==>
      r == f.row && ClientCombine(r.appointmentDate, r.appointmentTime) == Some(f.at) && IsoDatePart(f.at) == k
  {
  }

  /** For years 1000..9999 the ISO date of an instant is its calendar cell's key. */
  lemma IsoDateIsCalendarKey(t: Instant)
    requires 1000 <= DateOf(t).year <= 9999
    ensures IsoDatePart(t) == CalendarKey(DateOf(t))
  {
    IsoYearOfFourDigits(DateOf(t).year);
  }

  /** The calendar's lookup of a day: `appointmentsByDate[dateKey] || []`. */
  function DayAppointments(byDate: map<string, seq<Filed>>, c: Civil): (day: seq<Filed>)
    requires ValidCivil(c)
    ensures CalendarKey(c) !in byDate ==> day == []
    ensures CalendarKey(c) in byDate ==> day == byDate[CalendarKey(c)]
  {
    var key := CalendarKey(c);
    if key in byDate then byDate[key] else []
  }

  /**
   * Every loaded appointment whose texts combine shows in the calendar cell of its own UTC day
   * (for years 1000..9999, where the cell key and the ISO date agree), and every item a cell
   * shows is a loaded appointment on that day.
   */
  lemma CalendarCellShowsAppointment(rows: seq<Row>, c: Civil, f: Filed)
    requires ValidCivil(c) && 1000 <= c.year <= 9999
    requires ClientCombine(f.row.appointmentDate, f.row.appointmentTime) == Some(f.at)
    ensures f in DayAppointments(Grouped(AppointmentEntries(rows)), c) <==> f.row in rows && DateOf(f.at) == c
  {
    var g := Grouped(AppointmentEntries(rows));
    var k := CalendarKey(c);
    AppointmentGroups(rows, k, f);
    if DateOf(f.at) == c {
      IsoDateIsCalendarKey(f.at);
    }
    if f in DayAppointments(g, c) {
      assert IsoDatePart(f.at) == k;
      IsoDateKeyDeterminesDate(f.at, c);
    }
  }

  /** A four-digit-year ISO date names one date: the key of `c` is no other date's key. */
  lemma IsoDateKeyDeterminesDate(t: Instant, c: Civil)
    requires ValidCivil(c) && 1000 <= c.year <= 9999
    requires IsoDatePart(t) == CalendarKey(c)
    ensures DateOf(t) == c
  {
    var d := DateOf(t);
    if !(1000 <= d.year <= 9999) {
      IsoYearShape(d.year);
      CalendarKeyShape(c);
      assert false;
    } else {
      IsoDateIsCalendarKey(t);
      CalendarKeyInjective(d, c);
    }
  }

  /** Years below 1000 print with a leading zero, others outside 1000..9999 with a sign. */
  lemma IsoYearShape(y: int)
    requires !(1000 <= y <= 9999)
    ensures IsoYear(y) != [] && (IsoYear(y)[0] == '0' || IsoYear(y)[0] == '-' || IsoYear(y)[0] == '+')
  {
    if 0 <= y <= 9999 {
      LengthOfNatToString(y);
      ShortNumber(y);
    }
  }

  lemma ShortNumber(y: nat)
    requires y < 1000
    ensures NumDigits(y) <= 3
  {
    if y >= 10 {
      assert y / 10 < 100;
      if y / 10 >= 10 {
        assert y / 10 / 10 < 10;
        assert NumDigits(y / 10 / 10) == 1;
        assert NumDigits(y / 10) == 2;
      }
    }
  }

  /** A four-digit year's calendar key starts with a non-zero digit. */
  lemma CalendarKeyShape(c: Civil)
    requires ValidCivil(c) && 1000 <= c.year <= 9999
    ensures CalendarKey(c)[0] != '0' && IsDigit(CalendarKey(c)[0])
  {
    FourDigits(c.year);
    assert CalendarKey(c)[0] == NatToString(c.year)[0];
  }

  /** Two dates with the same four-digit-year key are the same date. */
  lemma CalendarKeyInjective(d: Civil, c: Civil)
    requires ValidCivil(d) && ValidCivil(c) && 0 <= d.year && 0 <= c.year
    requires CalendarKey(d) == CalendarKey(c)
    ensures d == c
  {
    KeyPieces(d);
    KeyPieces(c);
  }

  /** A key's three pieces read back as the year, the month and the day. */
  lemma KeyPieces(c: Civil)
    requires ValidCivil(c) && 0 <= c.year
    ensures var parts := Split(CalendarKey(c), '-');
      |parts| == 3 && ParseInt(parts[0]) == Some(c.year)
      && ParseInt(parts[1]) == Some(c.month) && ParseInt(parts[2]) == Some(c.day)
  {
    assert CalendarKey(c) == PyDateText(c);
    PyDateTextPieces(c);
    ParseIntOfNatToString(c.year);
    ParseIntOfPad2(c.month);
    ParseIntOfPad2(c.day);
  }

  // ---------------------------------------------------------------------------------------
  // handleSearch
  // ---------------------------------------------------------------------------------------

  /** `appointments.filter(appt => appt.orderNumber.toLowerCase().includes(term))`. */
  function Matching(rows: seq<Row>, term: string): (r: seq<Row>)
    ensures |r| <= |rows|
  {
    if rows == [] then []
    else
      var last := rows[|rows| - 1];
      Matching(rows[..|rows| - 1], term) + (if Contains(Lower(last.orderNumber), term) then [last] else [])
  }

  /** A row is kept exactly when it is one of the rows and its lower-cased number holds the term. */
  lemma {:induction false} MatchingMembers(rows: seq<Row>, term: string, r: Row)
    ensures r in Matching(rows, term) <==> r in rows && Contains(Lower(r.orderNumber), term)
  {
    if rows != [] {
      var init := rows[..|rows| - 1];
      MatchingMembers(init, term, r);
      assert rows == init + [rows[|rows| - 1]];
    }
  }

  /** Every text contains the empty term. */
  lemma ContainsEmpty(s: string)
    ensures Contains(s, "")
  {
  }

  /** The empty term keeps every row, in order: the page's special case is the filter itself. */
  lemma {:induction false} MatchingEmptyTerm(rows: seq<Row>)
    ensures Matching(rows, "") == rows
  {
    if rows != [] {
      MatchingEmptyTerm(rows[..|rows| - 1]);
      ContainsEmpty(Lower(rows[|rows| - 1].orderNumber));
      assert rows == rows[..|rows| - 1] + [rows[|rows| - 1]];
    }
  }

  // ---------------------------------------------------------------------------------------
  // renderAppointmentsTable's ordering
  // ---------------------------------------------------------------------------------------

  /**
   * The comparator's key: `new Date(combineDateAndTime(...))`; a row that does not combine
   * gives `new Date(null)`, the epoch.
   */
  function SortKey(r: Row): Instant {
    ClientCombine(r.appointmentDate, r.appointmentTime).GetOr(0)
  }

  predicate SortedBy<T>(s: seq<T>, key: T -> int) {
    forall i, j :: 0 <= i < j < |s| ==> key(s[i]) <= key(s[j])
  }

  /** The items of `s` whose key is `k`, in order. */
  function Only<T>(s: seq<T>, key: T -> int, k: int): seq<T> {
    if s == [] then []
    else Only(s[..|s| - 1], key, k) + (if key(s[|s| - 1]) == k then [s[|s| - 1]] else [])
  }

  /** Insert `x` after every item whose key is not greater. */
  function InsertBy<T>(s: seq<T>, x: T, key: T -> int): seq<T> {
    if s == [] || key(s[|s| - 1]) <= key(x) then s + [x]
    else InsertBy(s[..|s| - 1], x, key) + [s[|s| - 1]]
  }

  /** A stable sort by `key` (the engine's `Array.prototype.sort` is stable). */
  function SortBy<T>(s: seq<T>, key: T -> int): seq<T> {
    if s == [] then [] else InsertBy(SortBy(s[..|s| - 1], key), s[|s| - 1], key)
  }

  /** The list view's order: the filtered rows by time, ties kept in list order. */
  function SortedTable(rows: seq<Row>): seq<Row> {
    SortBy(rows, SortKey)
  }

  lemma {:induction false} InsertByPermutes<T>(s: seq<T>, x: T, key: T -> int)
    ensures multiset(InsertBy(s, x, key)) == multiset(s) + multiset{x}
  {
    if !(s == [] || key(s[|s| - 1]) <= key(x)) {
      var init := s[..|s| - 1];
      InsertByPermutes(init, x, key);
      assert s == init + [s[|s| - 1]];
    }
  }

  lemma {:induction false} InsertBySorted<T>(s: seq<T>, x: T, key: T -> int)
    requires SortedBy(s, key)
    ensures SortedBy(InsertBy(s, x, key), key)
  {
    if !(s == [] || key(s[|s| - 1]) <= key(x)) {
      var init := s[..|s| - 1];
      var last := s[|s| - 1];
      assert SortedBy(init, key);
      InsertBySorted(init, x, key);
      InsertByBelow(init, x, key, key(last));
      var ins := InsertBy(init, x, key);
      assert InsertBy(s, x, key) == ins + [last];
      forall i, j | 0 <= i < j < |ins + [last]|
        ensures key((ins + [last])[i]) <= key((ins + [last])[j])
      {
        if j == |ins| {
          assert (ins + [last])[i] == ins[i];
        }
      }
    }
  }

  /** Inserting keeps every key at most `b` when the item's and the list's keys are. */
  lemma {:induction false} InsertByBelow<T>(s: seq<T>, x: T, key: T -> int, b: int)
    requires forall i :: 0 <= i < |s| ==> key(s[i]) <= b
    requires key(x) <= b
    ensures forall i :: 0 <= i < |InsertBy(s, x, key)| ==> key(InsertBy(s, x, key)[i]) <= b
  {
    if !(s == [] || key(s[|s| - 1]) <= key(x)) {
      var init := s[..|s| - 1];
      assert forall i :: 0 <= i < |init| ==> init[i] == s[i];
      InsertByBelow(init, x, key, b);
    }
  }

  lemma {:induction false} OnlyConcat<T>(a: seq<T>, b: seq<T>, key: T -> int, k: int)
    ensures Only(a + b, key, k) == Only(a, key, k) + Only(b, key, k)
    decreases |b|
  {
    if b == [] {
      assert a + b == a;
    } else {
      var bi := b[..|b| - 1];
      var last := b[|b| - 1];
      assert (a + b)[..|a + b| - 1] == a + bi;
      assert (a + b)[|a + b| - 1] == last;
      OnlyConcat(a, bi, key, k);
      var tail := if key(last) == k then [last] else [];
      assert Only(b, key, k) == Only(bi, key, k) + tail;
      assert Only(a + b, key, k) == Only(a + bi, key, k) + tail;
    }
  }

  lemma {:induction false} InsertByStable<T>(s: seq<T>, x: T, key: T -> int, k: int)
    ensures Only(InsertBy(s, x, key), key, k) == Only(s, key, k) + (if key(x) == k then [x] else [])
  {
    if s == [] || key(s[|s| - 1]) <= key(x) {
      OnlyConcat(s, [x], key, k);
    } else {
      var init := s[..|s| - 1];
      var last := s[|s| - 1];
      InsertByStable(init, x, key, k);
      OnlyConcat(InsertBy(init, x, key), [last], key, k);
      assert s == init + [last];
      OnlyConcat(init, [last], key, k);
    }
  }

  /**
   * The sort orders by key, keeps every item exactly as often as it was there, and keeps the
   * items of equal key in their original order.
   */
  lemma SortByCorrect<T>(s: seq<T>, key: T -> int)
    ensures SortedBy(SortBy(s, key), key)
    ensures multiset(SortBy(s, key)) == multiset(s)
    ensures forall k :: Only(SortBy(s, key), key, k) == Only(s, key, k)
  {
    SortBySorted(s, key);
    SortByPermutes(s, key);
    forall k
      ensures Only(SortBy(s, key), key, k) == Only(s, key, k)
    {
      SortByStable(s, key, k);
    }
  }

  lemma {:induction false} SortBySorted<T>(s: seq<T>, key: T -> int)
    ensures SortedBy(SortBy(s, key), key)
  {
    if s != [] {
      SortBySorted(s[..|s| - 1], key);
      InsertBySorted(SortBy(s[..|s| - 1], key), s[|s| - 1], key);
    }
  }

  lemma {:induction false} SortByPermutes<T>(s: seq<T>, key: T -> int)
    ensures multiset(SortBy(s, key)) == multiset(s)
  {
    if s != [] {
      var init := s[..|s| - 1];
      var last := s[|s| - 1];
      var sorted := SortBy(init, key);
      assert SortBy(s, key) == InsertBy(sorted, last, key);
      SortByPermutes(init, key);
      InsertByPermutes(sorted, last, key);
      assert s == init + [last];
      assert multiset(s) == multiset(init) + multiset{last};
    }
  }

  lemma {:induction false} SortByStable<T>(s: seq<T>, key: T -> int, k: int)
    ensures Only(SortBy(s, key), key, k) == Only(s, key, k)
  {
    if s != [] {
      var init := s[..|s| - 1];
      SortByStable(init, key, k);
      InsertByStable(SortBy(init, key), s[|s| - 1], key, k);
    }
  }

  /** The table lists the filtered rows earliest first, each once, ties in list order. */
  lemma SortedTableCorrect(rows: seq<Row>)
    ensures SortedBy(SortedTable(rows), SortKey)
    ensures multiset(SortedTable(rows)) == multiset(rows)
    ensures forall k :: Only(SortedTable(rows), SortKey, k) == Only(rows, SortKey, k)
  {
    SortByCorrect(rows, SortKey);
  }

  // ---------------------------------------------------------------------------------------
  // The page state
  // ---------------------------------------------------------------------------------------

  /** The part of `adminState` the list and the calendar read. */
  class AdminState {
    var appointments: seq<Row>
    var filteredAppointments: seq<Row>
    var appointmentsByDate: map<string, seq<Filed>>

    constructor ()
      ensures appointments == [] && filteredAppointments == [] && appointmentsByDate == map[]
    {
      appointments := [];
      filteredAppointments := [];
      appointmentsByDate := map[];
    }

    /** `loadAppointments` once the list has arrived: store it, unfiltered, and group it. */
    method LoadAppointments(rows: seq<Row>)
      modifies this
      ensures appointments == rows && filteredAppointments == rows
      ensures appointmentsByDate == Grouped(AppointmentEntries(rows))
    {
      appointments := rows;
      filteredAppointments := rows;
      appointmentsByDate := GroupAppointmentsByDate(rows);
    }

    /**
     * `handleSearch`: lower-case and trim the input; an empty term shows every appointment,
     * any other the ones whose lower-cased number contains it.  The calendar is not refiltered.
     */
    method HandleSearch(input: string)
      modifies this
      ensures appointments == old(appointments) && appointmentsByDate == old(appointmentsByDate)
      ensures filteredAppointments == Matching(appointments, Trim(Lower(input)))
    {
      var searchTerm := Trim(Lower(input));
      if searchTerm == "" {
        MatchingEmptyTerm(appointments);
        filteredAppointments := appointments;
      } else {
        filteredAppointments := Matching(appointments, searchTerm);
      }
    }
  }
}
