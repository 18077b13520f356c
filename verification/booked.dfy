/**
 * Which slots are taken: both backends read every appointment row's date and time cells,
 * combine them into an instant and collect the ones that parse; the slots offered are the
 * generated ones that are not in that list.
 *
 * Slots travel as ISO strings, each backend printing all of its instants the same way
 * (`toISOString()` on Node, `isoformat() + 'Z'` in Python), so comparing the strings is
 * comparing the instants; the model compares instants.
 */
module Booked {
  import opened Wrappers
  import opened Text
  import opened Calendar
  import opened Timestamps
  import opened Records
  import opened Slots

  // ---------------------------------------------------------------------------------------
  // One row
  // ---------------------------------------------------------------------------------------

  /**
   * The Node server's reading of one row: both cells truthy, both non-empty after trimming,
   * and `combineDateAndTime` of the trimmed cells not null.
   */
  function NodeBookedOf(a: Appointment): Option<Instant> {
    if Truthy(a.date) && Truthy(a.time) && Trim(a.date.value) != "" && Trim(a.time.value) != ""
    then NodeCombine(Trim(a.date.value), Trim(a.time.value))
    else None
  }

  /** The Python backend's reading of one row: both cells truthy and both `strptime` calls succeed. */
  function PyBookedOf(a: Appointment): Option<Instant> {
    if Truthy(a.date) && Truthy(a.time) then PyCombine(a.date.value, a.time.value) else None
  }

  /** The instant of an optional reading, as a list of zero or one element. */
  function Listed(v: Option<Instant>): (r: seq<Instant>)
    ensures v.None? ==> r == []
    ensures v.Some? ==> r == [v.value]
  {
    if v.Some? then [v.value] else []
  }

  // ---------------------------------------------------------------------------------------
  // The whole sheet
  // ---------------------------------------------------------------------------------------

  /** The instants of the readings that succeeded, in order. */
  function Collect(vs: seq<Option<Instant>>): seq<Instant> {
    if vs == [] then [] else Collect(vs[..|vs| - 1]) + Listed(vs[|vs| - 1])
  }

  /** The Node server's reading of every row. */
  function NodeReadings(appts: seq<Appointment>): (vs: seq<Option<Instant>>)
    ensures |vs| == |appts| && forall i :: 0 <= i < |appts| ==> vs[i] == NodeBookedOf(appts[i])
  {
    seq(|appts|, i requires 0 <= i < |appts| => NodeBookedOf(appts[i]))
  }

  /** The Python backend's reading of every row. */
  function PyReadings(appts: seq<Appointment>): (vs: seq<Option<Instant>>)
    ensures |vs| == |appts| && forall i :: 0 <= i < |appts| ==> vs[i] == PyBookedOf(appts[i])
  {
    seq(|appts|, i requires 0 <= i < |appts| => PyBookedOf(appts[i]))
  }

  /** The Node server's booked list: the readable rows' instants, in row order. */
  function NodeBooked(appts: seq<Appointment>): seq<Instant> {
    Collect(NodeReadings(appts))
  }

  /** The Python backend's booked list, in row order. */
  function PyBooked(appts: seq<Appointment>): seq<Instant> {
    Collect(PyReadings(appts))
  }

  /** The instants of the first `i` readings: what a loop over the rows has collected so far. */
  function CollectedUpTo(vs: seq<Option<Instant>>, i: int): seq<Instant>
    requires 0 <= i <= |vs|
  {
    Collect(vs[..i])
  }

  lemma CollectStep(vs: seq<Option<Instant>>, i: int)
    requires 0 <= i < |vs|
    ensures CollectedUpTo(vs, i + 1) == CollectedUpTo(vs, i) + Listed(vs[i])
  {
    assert vs[..i + 1][..i] == vs[..i];
  }

  /** `getAllBookedSlots`: the `forEach` over the rows that pushes every readable slot. */
  method NodeGetAllBookedSlots(appts: seq<Appointment>) returns (booked: seq<Instant>)
    ensures booked == NodeBooked(appts)
  {
    ghost var readings := NodeReadings(appts);
    booked := [];
    var i := 0;
    while i < |appts|
      invariant 0 <= i <= |appts|
      invariant booked == CollectedUpTo(readings, i)
    {
      var appointment := appts[i];
      var found: Option<Instant> := None;
      if Truthy(appointment.date) && Truthy(appointment.time) {
        var dateStr := Trim(appointment.date.value);
        var timeStr := Trim(appointment.time.value);
        if dateStr != "" && timeStr != "" {
          found := NodeCombine(dateStr, timeStr);
          if found.Some? {
            booked := booked + [found.value];
          }
        }
      }
      assert found == readings[i];
      CollectStep(readings, i);
      i := i + 1;
    }
    assert readings[..|appts|] == readings;
    assert CollectedUpTo(readings, |appts|) == Collect(readings);
  }

  /** `get_all_booked_slots`: the loop that appends every row both `strptime` calls accept. */
  method PyGetAllBookedSlots(appts: seq<Appointment>) returns (booked: seq<Instant>)
    ensures booked == PyBooked(appts)
  {
    ghost var readings := PyReadings(appts);
    booked := [];
    var i := 0;
    while i < |appts|
      invariant 0 <= i <= |appts|
      invariant booked == CollectedUpTo(readings, i)
    {
      var appt := appts[i];
      var found: Option<Instant> := None;
      if Truthy(appt.date) && Truthy(appt.time) {
        found := PyCombine(appt.date.value, appt.time.value);
        if found.Some? {
          booked := booked + [found.value];
        }
      }
      assert found == readings[i];
      CollectStep(readings, i);
      i := i + 1;
    }
    assert readings[..|appts|] == readings;
    assert CollectedUpTo(readings, |appts|) == Collect(readings);
  }

  /** An instant is in the booked list exactly when some row reads as it. */
  lemma {:induction false} CollectMembers(vs: seq<Option<Instant>>, x: Instant)
    ensures x in Collect(vs) <==> exists i :: 0 <= i < |vs| && vs[i] == Some(x)
    ensures |Collect(vs)| <= |vs|
  {
    if vs != [] {
      var init := vs[..|vs| - 1];
      CollectMembers(init, x);
      if exists i :: 0 <= i < |vs| && vs[i] == Some(x) {
        var i :| 0 <= i < |vs| && vs[i] == Some(x);
        if i < |init| {
          assert init[i] == vs[i];
        }
      }
      if exists i :: 0 <= i < |init| && init[i] == Some(x) {
        var i :| 0 <= i < |init| && init[i] == Some(x);
        assert vs[i] == init[i];
      }
    }
  }

  // ---------------------------------------------------------------------------------------
  // The rows each backend writes read back as their slot
  // ---------------------------------------------------------------------------------------

  lemma NodeDateTextTrimmed(c: Civil)
    requires ValidCivil(c) && c.year >= 100
    ensures NodeDateText(c) != "" && Trim(NodeDateText(c)) == NodeDateText(c)
  {
    var s := NodeDateText(c);
    var y := NatToString(c.year);
    assert s == Pad2(c.month) + "/" + Pad2(c.day) + "/" + y;
    assert s[0] == Pad2(c.month)[0];
    assert s[|s| - 1] == y[|y| - 1];
    TrimOfTrimmed(s);
  }

  lemma NodeTimeTextTrimmed(hour: int, minute: int)
    requires 0 <= hour < 24 && 0 <= minute < 60
    ensures NodeTimeText(hour, minute) != "" && Trim(NodeTimeText(hour, minute)) == NodeTimeText(hour, minute)
  {
    var s := NodeTimeText(hour, minute);
    var shown := if hour == 0 then 12 else if hour > 12 then hour - 12 else hour;
    var h := NatToString(shown);
    assert s == h + ":" + Pad2(minute) + " " + (if hour >= 12 then "PM" else "AM");
    assert s[0] == h[0];
    assert s[|s| - 1] == 'M';
    TrimOfTrimmed(s);
  }

  /**
   * A row holding the date and time texts the Node server writes for slot `t` (a whole
   * minute from year 100 on) is read back by the Node server as `t`.
   */
  lemma NodeRowReadsBack(t: Instant, a: Appointment)
    requires MinuteAligned(t) && DateOf(t).year >= 100
    requires a.date == Some(NodeFormatDate(t)) && a.time == Some(NodeFormatTime(t))
    ensures NodeBookedOf(a) == Some(t)
  {
    NodeDateTextTrimmed(DateOf(t));
    NodeTimeTextTrimmed(HourOf(t), MinuteOf(t));
    NodeRoundTrip(t);
  }

  /**
   * A row holding the date and time texts the Python backend writes for slot `t` (a whole
   * minute in years 1000..9999) is read back by the Python backend as `t`.
   */
  lemma PyRowReadsBack(t: Instant, a: Appointment)
    requires MinuteAligned(t) && 1000 <= DateOf(t).year <= 9999
    requires PyFormatDate(t).Some?
    requires a.date == PyFormatDate(t) && a.time == Some(PyFormatTime(t))
    ensures PyBookedOf(a) == Some(t)
  {
    PyRoundTrip(t);
    assert Split("", '-') == [""];
    assert Split("", ':') == [""];
  }

  // ---------------------------------------------------------------------------------------
  // Available slots
  // ---------------------------------------------------------------------------------------

  /** `allSlots.filter(slot => !bookedSlots.includes(slot))` / the list comprehension. */
  function Available(all: seq<Instant>, booked: seq<Instant>): (r: seq<Instant>)
    ensures forall x :: x in r <==> x in all && x !in booked
    ensures |r| <= |all|
  {
    if all == [] then []
    else (if all[0] in booked then [] else [all[0]]) + Available(all[1..], booked)
  }

  /** Filtering keeps the generators' chronological order. */
  lemma {:induction false} AvailableAscending(all: seq<Instant>, booked: seq<Instant>)
    requires Ascending(all)
    ensures Ascending(Available(all, booked))
  {
    if all != [] {
      var head := if all[0] in booked then [] else [all[0]];
      var rest := Available(all[1..], booked);
      AvailableAscending(all[1..], booked);
      forall x, y | x in head && y in rest
        ensures x < y
      {
        var j :| 0 <= j < |all[1..]| && all[1..][j] == y;
        assert all[1 + j] == y;
      }
      AscendingConcat(head, rest);
    }
  }

  /** A slot a Node booking wrote into the sheet is no longer offered by the Node server. */
  lemma NodeBookingHidesSlot(t: Instant, appts: seq<Appointment>, i: int, all: seq<Instant>)
    requires MinuteAligned(t) && DateOf(t).year >= 100
    requires 0 <= i < |appts|
    requires appts[i].date == Some(NodeFormatDate(t)) && appts[i].time == Some(NodeFormatTime(t))
    ensures t !in Available(all, NodeBooked(appts))
  {
    NodeRowReadsBack(t, appts[i]);
    CollectMembers(NodeReadings(appts), t);
  }

  /** A slot a Python booking wrote into the sheet is no longer offered by the Python backend. */
  lemma PyBookingHidesSlot(t: Instant, appts: seq<Appointment>, i: int, all: seq<Instant>)
    requires MinuteAligned(t) && 1000 <= DateOf(t).year <= 9999
    requires 0 <= i < |appts| && PyFormatDate(t).Some?
    requires appts[i].date == PyFormatDate(t) && appts[i].time == Some(PyFormatTime(t))
    ensures t !in Available(all, PyBooked(appts))
  {
    PyRowReadsBack(t, appts[i]);
    CollectMembers(PyReadings(appts), t);
  }
}
