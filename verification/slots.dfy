/**
 * The bookable slots both backends offer: for each of the next `daysAhead` days starting
 * with today, skipping Saturdays and Sundays, one slot per hour in `[startHour, endHour)`
 * and per minute `0, interval, 2*interval, ...` below 60.
 *
 * The Node server builds each slot with `Date.UTC` from the day's calendar fields and keeps
 * only slots strictly after now; the Python backend adds hours and minutes to the day's
 * midnight and keeps every slot, past ones included.  `NodeIsPythonAfterNow` relates the two.
 */
module Slots {
  import opened Wrappers
  import opened Calendar

  /** `config.timeSlots` / `Config.TIME_SLOT_*`. */
  datatype SlotConfig = SlotConfig(daysAhead: int, startHour: int, endHour: int, interval: int)

  /** Hours that exist on a clock and a positive step (a zero step never ends on Node and raises in Python). */
  predicate ValidConfig(cfg: SlotConfig) {
    0 <= cfg.startHour <= cfg.endHour <= 24 && cfg.interval > 0
  }

  /** The shipped configuration: eight days, 9:00 to 17:00, every 30 minutes. */
  const Shipped: SlotConfig := SlotConfig(8, 9, 17, 30)

  /** The calendar date of day `z`, characterised by its day number (it is `CivilFromDays(z)`). */
  ghost function DayDate(z: int): (c: Civil)
    ensures ValidCivil(c) && DaysFromCivil(c) == z
  {
    assert ValidCivil(CivilFromDays(z)) && DaysFromCivil(CivilFromDays(z)) == z;
    var c :| ValidCivil(c) && DaysFromCivil(c) == z;
    c
  }

  lemma DayDateIsCivilFromDays(z: int)
    ensures DayDate(z) == CivilFromDays(z)
  {
    DaysFromCivilInjective(DayDate(z), CivilFromDays(z));
  }

  /** Node: `Date.UTC(getFullYear(), getMonth(), getDate(), 0, 0)` of day `z`. */
  ghost function NodeDayStart(z: int): Instant {
    var c := DayDate(z);
    UtcInstant(c.year, c.month - 1, c.day, 0, 0)
  }

  /** A slot survives the cutoff when there is none (Python) or it lies after it (Node's now). */
  function Keep(cutoff: Option<Instant>, s: Instant): seq<Instant> {
    if cutoff.None? || s > cutoff.value then [s] else []
  }

  /** The slots of hour `hour` of the day starting at `start`, from minute `minute` on. */
  ghost function MinutesFrom(cutoff: Option<Instant>, start: Instant, hour: int, minute: int, interval: int): seq<Instant>
    requires interval > 0
    decreases 60 - minute
  {
    if minute >= 60 then []
    else
      Keep(cutoff, start + hour * MsPerHour + minute * MsPerMinute)
      + MinutesFrom(cutoff, start, hour, minute + interval, interval)
  }

  /** The slots of the day starting at `start`, from hour `hour` on. */
  ghost function HoursFrom(cutoff: Option<Instant>, start: Instant, hour: int, cfg: SlotConfig): seq<Instant>
    requires cfg.interval > 0
    decreases cfg.endHour - hour
  {
    if hour >= cfg.endHour then []
    else MinutesFrom(cutoff, start, hour, 0, cfg.interval) + HoursFrom(cutoff, start, hour + 1, cfg)
  }

  /** Node's slots on day `z`: none when `getDay()` is 0 or 6, else the future ones of its hours. */
  ghost function NodeDayPart(now: Instant, z: int, cfg: SlotConfig): seq<Instant>
    requires cfg.interval > 0
  {
    if JsDay(z) == 0 || JsDay(z) == 6 then [] else HoursFrom(Some(now), NodeDayStart(z), cfg.startHour, cfg)
  }

  /** Node's day parts as a function of the day. */
  ghost function NodeParts(now: Instant, cfg: SlotConfig): int -> seq<Instant>
    requires cfg.interval > 0
  {
    z => NodeDayPart(now, z, cfg)
  }

  /** Node's slots on the `k` days starting with day `z`. */
  ghost function NodeDaysFrom(now: Instant, z: int, k: int, cfg: SlotConfig): seq<Instant>
    requires cfg.interval > 0
  {
    DaysFrom(NodeParts(now, cfg), z, k)
  }

  /** What the Node generator returns at `now`. */
  ghost function NodeGenerated(now: Instant, cfg: SlotConfig): seq<Instant>
    requires cfg.interval > 0
  {
    NodeDaysFrom(now, DayOf(now), cfg.daysAhead, cfg)
  }

  /** Python's slots on day `z`: none when `weekday() >= 5`, else every slot of its hours. */
  ghost function PyDayPart(z: int, cfg: SlotConfig): seq<Instant>
    requires cfg.interval > 0
  {
    if PyWeekday(z) >= 5 then [] else HoursFrom(None, z * MsPerDay, cfg.startHour, cfg)
  }

  /** The slots of the `k` days starting with day `z`, each day's slots given by `part`. */
  ghost function DaysFrom(part: int -> seq<Instant>, z: int, k: int): seq<Instant>
    decreases k, 1
  {
    if k <= 0 then [] else FirstDayThen(part, z, k)
  }

  /** Day `z`'s slots followed by those of the `k - 1` days after it. */
  ghost function FirstDayThen(part: int -> seq<Instant>, z: int, k: int): seq<Instant>
    requires k > 0
    decreases k, 0
  {
    part(z) + DaysFrom(part, z + 1, k - 1)
  }

  /** Python's day parts as a function of the day. */
  ghost function PyParts(cfg: SlotConfig): int -> seq<Instant>
    requires cfg.interval > 0
  {
    z => PyDayPart(z, cfg)
  }

  /** Python's slots on the `k` days starting with day `z`. */
  ghost function PyDaysFrom(z: int, k: int, cfg: SlotConfig): seq<Instant>
    requires cfg.interval > 0
  {
    DaysFrom(PyParts(cfg), z, k)
  }

  /** What the Python generator returns at `now`. */
  ghost function PyGenerated(now: Instant, cfg: SlotConfig): seq<Instant>
    requires cfg.interval > 0
  {
    PyDaysFrom(DayOf(now), cfg.daysAhead, cfg)
  }

  /** `generateTimeSlots` of the Node server: the loop over the days of the horizon. */
  method NodeGenerateTimeSlots(now: Instant, cfg: SlotConfig) returns (slots: seq<Instant>)
    requires cfg.interval > 0
    ensures slots == NodeGenerated(now, cfg)
  {
    slots := [];
    var today := DayOf(now);
    var dayOffset := 0;
    // The days not yet visited, and their slots.
    ghost var day, left := today, cfg.daysAhead;
    ghost var rest := NodeDaysFrom(now, day, left, cfg);
    while dayOffset < cfg.daysAhead
      invariant day == today + dayOffset && left == cfg.daysAhead - dayOffset
      invariant rest == NodeDaysFrom(now, day, left, cfg)
      invariant slots + rest == NodeGenerated(now, cfg)
    {
      var z := today + dayOffset;
      assert z == day;
      var daySlots := NodeDaySlots(now, z, cfg);
      ghost var later := NodeDaysFrom(now, day + 1, left - 1, cfg);
      NodeDaysStep(now, day, left, cfg);
      AppendAssoc(slots, daySlots, later);
      slots := slots + daySlots;
      dayOffset := dayOffset + 1;
      day, left, rest := day + 1, left - 1, later;
    }
  }

  /** The body of the day loop of `generateTimeSlots`: nothing on a weekend, else the hour loop. */
  method NodeDaySlots(now: Instant, z: int, cfg: SlotConfig) returns (slots: seq<Instant>)
    requires cfg.interval > 0
    ensures slots == NodeDayPart(now, z, cfg)
  {
    var weekday := JsDay(z);
    if weekday == 0 || weekday == 6 {
      return [];
    }
    var c := CalendarDate(z);
    slots := NodeHoursOfDate(now, c, cfg);
  }

  /** The hour loop of `generateTimeSlots` for a weekday with calendar date `c`. */
  method NodeHoursOfDate(now: Instant, c: Civil, cfg: SlotConfig) returns (slots: seq<Instant>)
    requires cfg.interval > 0
    ensures slots == HoursFrom(Some(now), UtcInstant(c.year, c.month - 1, c.day, 0, 0), cfg.startHour, cfg)
  {
    ghost var start := UtcInstant(c.year, c.month - 1, c.day, 0, 0);
    slots := [];
    var hour := cfg.startHour;
    while hour < cfg.endHour
      invariant slots + HoursFrom(Some(now), start, hour, cfg) == HoursFrom(Some(now), start, cfg.startHour, cfg)
      decreases cfg.endHour - hour
    {
      var hourSlots := NodeHourSlots(now, c, hour, cfg.interval);
      ghost var later := HoursFrom(Some(now), start, hour + 1, cfg);
      assert (slots + hourSlots) + later == HoursFrom(Some(now), start, cfg.startHour, cfg) by {
        HoursStep(Some(now), start, hour, cfg);
        AppendAssoc(slots, hourSlots, later);
      }
      slots := slots + hourSlots;
      hour := hour + 1;
    }
  }

  /** `getFullYear()`, `getMonth() + 1` and `getDate()` of day `z`. */
  method CalendarDate(z: int) returns (c: Civil)
    ensures c == DayDate(z)
  {
    c := CivilFromDays(z);
    DayDateIsCivilFromDays(z);
  }

  /** The minute loop of `generateTimeSlots` for hour `hour` of date `c`. */
  method NodeHourSlots(now: Instant, c: Civil, hour: int, interval: int) returns (slots: seq<Instant>)
    requires interval > 0
    ensures slots == MinutesFrom(Some(now), UtcInstant(c.year, c.month - 1, c.day, 0, 0), hour, 0, interval)
  {
    ghost var start := UtcInstant(c.year, c.month - 1, c.day, 0, 0);
    slots := [];
    var minute := 0;
    while minute < 60
      invariant slots + MinutesFrom(Some(now), start, hour, minute, interval) == MinutesFrom(Some(now), start, hour, 0, interval)
      decreases 60 - minute
    {
      var slot := UtcInstant(c.year, c.month - 1, c.day, hour, minute);
      assert slot == start + hour * MsPerHour + minute * MsPerMinute by {
        UtcInstantAt(c.year, c.month - 1, c.day, hour, minute);
      }
      var kept := [];
      if slot > now {
        kept := [slot];
      }
      ghost var next := MinutesFrom(Some(now), start, hour, minute + interval, interval);
      assert (slots + kept) + next == MinutesFrom(Some(now), start, hour, 0, interval) by {
        MinutesStep(Some(now), start, hour, minute, interval);
        AppendAssoc(slots, kept, next);
      }
      slots := slots + kept;
      minute := minute + interval;
    }
  }

  /** `generate_time_slots` of the Python backend: the loop over the days of the horizon. */
  method PyGenerateTimeSlots(now: Instant, cfg: SlotConfig) returns (slots: seq<Instant>)
    requires ValidConfig(cfg)
    ensures slots == PyGenerated(now, cfg)
  {
    slots := [];
    var today := DayOf(now);
    var dayOffset := 0;
    // The days not yet visited, and their slots.
    ghost var day, left := today, cfg.daysAhead;
    ghost var rest := PyDaysFrom(day, left, cfg);
    while dayOffset < cfg.daysAhead
      invariant day == today + dayOffset && left == cfg.daysAhead - dayOffset
      invariant rest == PyDaysFrom(day, left, cfg)
      invariant slots + rest == PyGenerated(now, cfg)
    {
      var z := today + dayOffset;
      assert z == day;
      var daySlots := PyDaySlots(z, cfg);
      ghost var later := PyDaysFrom(day + 1, left - 1, cfg);
      PyDaysStep(day, left, cfg);
      AppendAssoc(slots, daySlots, later);
      slots := slots + daySlots;
      dayOffset := dayOffset + 1;
      day, left, rest := day + 1, left - 1, later;
    }
  }

  /** The body of the day loop of `generate_time_slots`: nothing on a weekend, else the hour loop. */
  method PyDaySlots(z: int, cfg: SlotConfig) returns (slots: seq<Instant>)
    requires ValidConfig(cfg)
    ensures slots == PyDayPart(z, cfg)
  {
    if PyWeekday(z) >= 5 {
      return [];
    }
    slots := PyHoursOfDay(z * MsPerDay, cfg);
  }

  /** The hour loop of `generate_time_slots` for a weekday starting at `midnight`. */
  method PyHoursOfDay(midnight: Instant, cfg: SlotConfig) returns (slots: seq<Instant>)
    requires ValidConfig(cfg)
    ensures slots == HoursFrom(None, midnight, cfg.startHour, cfg)
  {
    slots := [];
    var hour := cfg.startHour;
    while hour < cfg.endHour
      invariant slots + HoursFrom(None, midnight, hour, cfg) == HoursFrom(None, midnight, cfg.startHour, cfg)
      decreases cfg.endHour - hour
    {
      var hourSlots := PyHourSlots(midnight, hour, cfg.interval);
      ghost var later := HoursFrom(None, midnight, hour + 1, cfg);
      assert (slots + hourSlots) + later == HoursFrom(None, midnight, cfg.startHour, cfg) by {
        HoursStep(None, midnight, hour, cfg);
        AppendAssoc(slots, hourSlots, later);
      }
      slots := slots + hourSlots;
      hour := hour + 1;
    }
  }

  /** The minute loop of `generate_time_slots`: `current_date.replace(hour=hour, minute=minute)`. */
  method PyHourSlots(midnight: Instant, hour: int, interval: int) returns (slots: seq<Instant>)
    requires interval > 0
    ensures slots == MinutesFrom(None, midnight, hour, 0, interval)
  {
    slots := [];
    var minute := 0;
    while minute < 60
      invariant slots + MinutesFrom(None, midnight, hour, minute, interval) == MinutesFrom(None, midnight, hour, 0, interval)
      decreases 60 - minute
    {
      var slot := midnight + hour * MsPerHour + minute * MsPerMinute;
      ghost var next := MinutesFrom(None, midnight, hour, minute + interval, interval);
      assert (slots + [slot]) + next == MinutesFrom(None, midnight, hour, 0, interval) by {
        MinutesStep(None, midnight, hour, minute, interval);
        AppendAssoc(slots, [slot], next);
      }
      slots := slots + [slot];
      minute := minute + interval;
    }
  }

  lemma AppendAssoc(a: seq<Instant>, b: seq<Instant>, c: seq<Instant>)
    ensures (a + b) + c == a + (b + c)
  {
  }

  /** `Date.UTC` adds the hour and minute to the day's 00:00. */
  lemma UtcInstantAt(year: int, month0: int, day: int, hour: int, minute: int)
    ensures UtcInstant(year, month0, day, hour, minute) == UtcInstant(year, month0, day, 0, 0) + hour * MsPerHour + minute * MsPerMinute
  {
  }

  lemma DaysStep(part: int -> seq<Instant>, z: int, k: int)
    requires k > 0
    ensures DaysFrom(part, z, k) == part(z) + DaysFrom(part, z + 1, k - 1)
  {
    assert DaysFrom(part, z, k) == FirstDayThen(part, z, k);
  }

  lemma NodeDaysStep(now: Instant, z: int, k: int, cfg: SlotConfig)
    requires cfg.interval > 0 && k > 0
    ensures NodeDaysFrom(now, z, k, cfg) == NodeDayPart(now, z, cfg) + NodeDaysFrom(now, z + 1, k - 1, cfg)
  {
    DaysStep(NodeParts(now, cfg), z, k);
  }

  lemma PyDaysStep(z: int, k: int, cfg: SlotConfig)
    requires cfg.interval > 0 && k > 0
    ensures PyDaysFrom(z, k, cfg) == PyDayPart(z, cfg) + PyDaysFrom(z + 1, k - 1, cfg)
  {
    DaysStep(PyParts(cfg), z, k);
  }

  lemma HoursStep(cutoff: Option<Instant>, start: Instant, hour: int, cfg: SlotConfig)
    requires cfg.interval > 0 && hour < cfg.endHour
    ensures HoursFrom(cutoff, start, hour, cfg)
         == MinutesFrom(cutoff, start, hour, 0, cfg.interval) + HoursFrom(cutoff, start, hour + 1, cfg)
  {
  }

  lemma MinutesStep(cutoff: Option<Instant>, start: Instant, hour: int, minute: int, interval: int)
    requires interval > 0 && minute < 60
    ensures MinutesFrom(cutoff, start, hour, minute, interval)
         == Keep(cutoff, start + hour * MsPerHour + minute * MsPerMinute)
          + MinutesFrom(cutoff, start, hour, minute + interval, interval)
  {
  }

  // ---------------------------------------------------------------------------------------
  // Which instants are slots
  // ---------------------------------------------------------------------------------------

  /** Multiplying by a positive number keeps a gap of at least that number. */
  lemma MulStep(d: int, x: int, y: int)
    requires d > 0 && x < y
    ensures d * x + d <= d * y
  {
    var k := y - x - 1;
    assert d * k >= 0;
    assert d * y == d * x + d + d * k;
  }

  /** Euclidean division is determined by a quotient and a remainder in range. */
  lemma DivUnique(a: int, d: int, q: int, r: int)
    requires d > 0 && a == d * q + r && 0 <= r < d
    ensures a / d == q && a % d == r
  {
    var q2 := a / d;
    assert a == d * q2 + a % d && 0 <= a % d < d;
    if q2 < q {
      MulStep(d, q2, q);
    } else if q < q2 {
      MulStep(d, q, q2);
    }
  }

  lemma ModStep(m: int, d: int)
    requires d > 0
    ensures (m + d) % d == m % d
  {
    var q := m / d;
    assert m == d * q + m % d && 0 <= m % d < d;
    assert d * (q + 1) == d * q + d;
    DivUnique(m + d, d, q + 1, m % d);
  }

  /** Of two multiples of the step, the larger is at least one step above the smaller. */
  lemma NextMultiple(a: int, b: int, d: int)
    requires d > 0 && a % d == 0 && b % d == 0 && a < b
    ensures a + d <= b
  {
    var p := a / d;
    var q := b / d;
    assert a == d * p && b == d * q;
    if p < q {
      MulStep(d, p, q);
    } else {
      MulStep(d, q, p + 1);
    }
  }

  /** The Python slots of one hour from `minute` on: the whole minutes of that hour at multiples of the step. */
  lemma {:induction false} MinutesMembers(z: int, hour: int, minute: int, interval: int, s: Instant)
    requires 0 <= hour < 24 && 0 <= minute && interval > 0 && minute % interval == 0
    ensures s in MinutesFrom(None, z * MsPerDay, hour, minute, interval) <==>
      MinuteAligned(s) && DayOf(s) == z && HourOf(s) == hour
      && minute <= MinuteOf(s) && MinuteOf(s) % interval == 0
    decreases 60 - minute
  {
    if minute < 60 {
      FieldsOfSlot(z, hour, minute);
      ModStep(minute, interval);
      MinutesMembers(z, hour, minute + interval, interval, s);
      if MinuteAligned(s) && DayOf(s) == z && HourOf(s) == hour && minute < MinuteOf(s) && MinuteOf(s) % interval == 0 {
        NextMultiple(minute, MinuteOf(s), interval);
      } else if MinuteAligned(s) && DayOf(s) == z && HourOf(s) == hour && minute == MinuteOf(s) {
        Decompose(s);
      }
    }
  }

  /** The Python slots of one day from `hour` on. */
  lemma {:induction false} HoursMembers(z: int, hour: int, cfg: SlotConfig, s: Instant)
    requires ValidConfig(cfg) && 0 <= hour
    ensures s in HoursFrom(None, z * MsPerDay, hour, cfg) <==>
      MinuteAligned(s) && DayOf(s) == z && hour <= HourOf(s) < cfg.endHour && MinuteOf(s) % cfg.interval == 0
    decreases cfg.endHour - hour
  {
    if hour < cfg.endHour {
      MinutesMembers(z, hour, 0, cfg.interval, s);
      HoursMembers(z, hour + 1, cfg, s);
    }
  }

  /** A whole minute on a weekday, in business hours, on a multiple of the step. */
  predicate BusinessMinute(s: Instant, cfg: SlotConfig)
    requires cfg.interval > 0
  {
    MinuteAligned(s) && PyWeekday(DayOf(s)) < 5
    && cfg.startHour <= HourOf(s) < cfg.endHour && MinuteOf(s) % cfg.interval == 0
  }

  /** The Python slots of `k` days from day `z` on. */
  lemma DaysMembers(z: int, k: int, cfg: SlotConfig, s: Instant)
    requires ValidConfig(cfg)
    ensures s in PyDaysFrom(z, k, cfg) <==> z <= DayOf(s) < z + k && BusinessMinute(s, cfg)
  {
    forall d | z <= d < z + k
      ensures s in PyParts(cfg)(d) <==> DayOf(s) == d && BusinessMinute(s, cfg)
    {
      DayPartMembers(d, cfg, s);
    }
    DaysFromMembers(PyParts(cfg), z, k, s, DayOf(s), BusinessMinute(s, cfg));
  }

  /**
   * When each day's part holds `s` exactly on day `day` and when `inside` holds, the days
   * from `z` hold `s` exactly when `day` is one of them and `inside` holds.
   */
  lemma {:induction false} DaysFromMembers(part: int -> seq<Instant>, z: int, k: int, s: Instant, day: int, inside: bool)
    requires forall d :: z <= d < z + k ==> (s in part(d) <==> day == d && inside)
    ensures s in DaysFrom(part, z, k) <==> z <= day < z + k && inside
    decreases k
  {
    if k > 0 {
      DaysFromMembers(part, z + 1, k - 1, s, day, inside);
      ConcatMembers(part(z), DaysFrom(part, z + 1, k - 1), s);
    }
  }

  lemma ConcatMembers(a: seq<Instant>, b: seq<Instant>, x: Instant)
    ensures x in a + b <==> x in a || x in b
  {
  }

  /** The Python slots of day `z`: none on a weekend, else its business-hour slots. */
  lemma DayPartMembers(z: int, cfg: SlotConfig, s: Instant)
    requires ValidConfig(cfg)
    ensures s in PyDayPart(z, cfg) <==> DayOf(s) == z && BusinessMinute(s, cfg)
  {
    if PyWeekday(z) < 5 {
      HoursMembers(z, cfg.startHour, cfg, s);
    }
  }

  /**
   * The Python generator offers exactly the whole minutes of the horizon's weekdays that lie
   * in business hours on a multiple of the step, past ones included.
   */
  lemma PySlotsAreBusinessMinutes(now: Instant, cfg: SlotConfig, s: Instant)
    requires ValidConfig(cfg)
    ensures s in PyGenerated(now, cfg) <==>
      MinuteAligned(s) && DayOf(now) <= DayOf(s) < DayOf(now) + cfg.daysAhead
      && PyWeekday(DayOf(s)) < 5
      && cfg.startHour <= HourOf(s) < cfg.endHour && MinuteOf(s) % cfg.interval == 0
  {
    DaysMembers(DayOf(now), cfg.daysAhead, cfg, s);
  }

  // ---------------------------------------------------------------------------------------
  // Order
  // ---------------------------------------------------------------------------------------

  /** Strictly increasing, hence also free of duplicates. */
  predicate Ascending(s: seq<Instant>) {
    forall i, j :: 0 <= i < j < |s| ==> s[i] < s[j]
  }

  lemma AscendingConcat(a: seq<Instant>, b: seq<Instant>)
    requires Ascending(a) && Ascending(b)
    requires forall x, y :: x in a && y in b ==> x < y
    ensures Ascending(a + b)
  {
    forall i, j | 0 <= i < j < |a + b|
      ensures (a + b)[i] < (a + b)[j]
    {
      if j < |a| {
        assert (a + b)[i] == a[i] && (a + b)[j] == a[j];
      } else if i >= |a| {
        assert (a + b)[i] == b[i - |a|] && (a + b)[j] == b[j - |a|];
      } else {
        assert (a + b)[i] == a[i] && (a + b)[j] == b[j - |a|];
        assert a[i] in a && b[j - |a|] in b;
      }
    }
  }

  /** Earlier day, or earlier hour that day, or earlier minute that hour: earlier instant. */
  lemma EarlierFields(x: Instant, y: Instant)
    requires MinuteAligned(x) && MinuteAligned(y)
    requires DayOf(x) < DayOf(y)
          || (DayOf(x) == DayOf(y) && HourOf(x) < HourOf(y))
          || (DayOf(x) == DayOf(y) && HourOf(x) == HourOf(y) && MinuteOf(x) < MinuteOf(y))
    ensures x < y
  {
    Decompose(x);
    Decompose(y);
  }

  lemma {:induction false} MinutesAscending(z: int, hour: int, minute: int, interval: int)
    requires 0 <= hour < 24 && 0 <= minute && interval > 0 && minute % interval == 0
    ensures Ascending(MinutesFrom(None, z * MsPerDay, hour, minute, interval))
    decreases 60 - minute
  {
    if minute < 60 {
      var x := z * MsPerDay + hour * MsPerHour + minute * MsPerMinute;
      var rest := MinutesFrom(None, z * MsPerDay, hour, minute + interval, interval);
      ModStep(minute, interval);
      MinutesAscending(z, hour, minute + interval, interval);
      FieldsOfSlot(z, hour, minute);
      forall y | y in rest
        ensures x < y
      {
        MinutesMembers(z, hour, minute + interval, interval, y);
        EarlierFields(x, y);
      }
      AscendingConcat([x], rest);
    }
  }

  lemma {:induction false} HoursAscending(z: int, hour: int, cfg: SlotConfig)
    requires ValidConfig(cfg) && 0 <= hour
    ensures Ascending(HoursFrom(None, z * MsPerDay, hour, cfg))
    decreases cfg.endHour - hour
  {
    if hour < cfg.endHour {
      var a := MinutesFrom(None, z * MsPerDay, hour, 0, cfg.interval);
      var b := HoursFrom(None, z * MsPerDay, hour + 1, cfg);
      MinutesAscending(z, hour, 0, cfg.interval);
      HoursAscending(z, hour + 1, cfg);
      forall x, y | x in a && y in b
        ensures x < y
      {
        MinutesMembers(z, hour, 0, cfg.interval, x);
        HoursMembers(z, hour + 1, cfg, y);
        EarlierFields(x, y);
      }
      AscendingConcat(a, b);
    }
  }

  lemma DaysAscending(z: int, k: int, cfg: SlotConfig)
    requires ValidConfig(cfg)
    ensures Ascending(PyDaysFrom(z, k, cfg))
  {
    forall d | z <= d < z + k
      ensures Ascending(PyParts(cfg)(d))
    {
      if PyWeekday(d) < 5 {
        HoursAscending(d, cfg.startHour, cfg);
      }
    }
    forall d, x | z <= d < z + k && x in PyParts(cfg)(d)
      ensures DayOf(x) == d
    {
      DayPartMembers(d, cfg, x);
    }
    DaysFromAscending(PyParts(cfg), z, k);
  }

  /** Days whose parts are ascending and hold only their own day's instants give an ascending whole. */
  lemma {:induction false} DaysFromAscending(part: int -> seq<Instant>, z: int, k: int)
    requires forall d :: z <= d < z + k ==> Ascending(part(d))
    requires forall d, x :: z <= d < z + k && x in part(d) ==> DayOf(x) == d
    ensures Ascending(DaysFrom(part, z, k))
    ensures forall x :: x in DaysFrom(part, z, k) ==> z <= DayOf(x) < z + k
    decreases k
  {
    if k > 0 {
      var a := part(z);
      var b := DaysFrom(part, z + 1, k - 1);
      DaysFromAscending(part, z + 1, k - 1);
      forall x, y | x in a && y in b
        ensures x < y
      {
        DayOrder(x, y);
      }
      AscendingConcat(a, b);
      forall x | x in a + b
        ensures z <= DayOf(x) < z + k
      {
        ConcatMembers(a, b, x);
      }
    }
  }

  /** An instant on an earlier day is earlier. */
  lemma DayOrder(x: Instant, y: Instant)
    requires DayOf(x) < DayOf(y)
    ensures x < y
  {
  }

  /** The Python slots come in chronological order without duplicates. */
  lemma PySlotsAscending(now: Instant, cfg: SlotConfig)
    requires ValidConfig(cfg)
    ensures Ascending(PyGenerated(now, cfg))
  {
    DaysAscending(DayOf(now), cfg.daysAhead, cfg);
  }

  // ---------------------------------------------------------------------------------------
  // Counting
  // ---------------------------------------------------------------------------------------

  /** `len(range(minute, 60, interval))`. */
  function RangeLength(minute: int, interval: int): nat
    requires interval > 0
    decreases 60 - minute
  {
    if minute >= 60 then 0 else 1 + RangeLength(minute + interval, interval)
  }

  /** `len(range(0, 60, interval))`: the slots per hour. */
  function MinuteCount(interval: int): nat
    requires interval > 0
  {
    RangeLength(0, interval)
  }

  lemma {:induction false} MinutesCount(start: Instant, hour: int, minute: int, interval: int)
    requires interval > 0
    ensures |MinutesFrom(None, start, hour, minute, interval)| == RangeLength(minute, interval)
    decreases 60 - minute
  {
    if minute < 60 {
      MinutesCount(start, hour, minute + interval, interval);
    }
  }

  lemma {:induction false} HoursCount(start: Instant, hour: int, cfg: SlotConfig)
    requires ValidConfig(cfg) && hour <= cfg.endHour
    ensures |HoursFrom(None, start, hour, cfg)| == (cfg.endHour - hour) * MinuteCount(cfg.interval)
    decreases cfg.endHour - hour
  {
    if hour < cfg.endHour {
      MinutesCount(start, hour, 0, cfg.interval);
      HoursCount(start, hour + 1, cfg);
      assert (cfg.endHour - hour) * MinuteCount(cfg.interval)
          == MinuteCount(cfg.interval) + (cfg.endHour - (hour + 1)) * MinuteCount(cfg.interval);
    }
  }

  /** Every weekday of the horizon has `(endHour - startHour) * len(range(0, 60, interval))` Python slots. */
  lemma PyWeekdayCount(z: int, cfg: SlotConfig)
    requires ValidConfig(cfg)
    ensures |PyDayPart(z, cfg)|
         == if PyWeekday(z) >= 5 then 0 else (cfg.endHour - cfg.startHour) * MinuteCount(cfg.interval)
  {
    HoursCount(z * MsPerDay, cfg.startHour, cfg);
  }

  /** With the shipped configuration that is 16 slots per weekday. */
  lemma ShippedWeekdayHas16(z: int)
    requires PyWeekday(z) < 5
    ensures |PyDayPart(z, Shipped)| == 16
  {
    PyWeekdayCount(z, Shipped);
    assert RangeLength(60, 30) == 0;
    assert RangeLength(30, 30) == 1;
  }

  // ---------------------------------------------------------------------------------------
  // Node against Python
  // ---------------------------------------------------------------------------------------

  /** The slots strictly after `now`, in order. */
  function After(s: seq<Instant>, now: Instant): (r: seq<Instant>)
    ensures |r| <= |s|
  {
    if s == [] then []
    else (if s[0] > now then [s[0]] else []) + After(s[1..], now)
  }

  lemma {:induction false} AfterMembers(s: seq<Instant>, now: Instant, x: Instant)
    ensures x in After(s, now) <==> x in s && x > now
  {
    if s != [] {
      AfterMembers(s[1..], now, x);
      assert s == [s[0]] + s[1..];
    }
  }

  lemma {:induction false} AfterConcat(a: seq<Instant>, b: seq<Instant>, now: Instant)
    ensures After(a + b, now) == After(a, now) + After(b, now)
  {
    if a == [] {
      assert a + b == b;
    } else {
      var head := if a[0] > now then [a[0]] else [];
      AfterConcat(a[1..], b, now);
      assert (a + b)[0] == a[0] && (a + b)[1..] == a[1..] + b;
      calc {
        After(a + b, now);
        head + After(a[1..] + b, now);
        head + (After(a[1..], now) + After(b, now));
        { AppendAssoc(head, After(a[1..], now), After(b, now)); }
        (head + After(a[1..], now)) + After(b, now);
      }
    }
  }

  lemma {:induction false} AfterAscending(s: seq<Instant>, now: Instant)
    requires Ascending(s)
    ensures Ascending(After(s, now))
  {
    if s != [] {
      var head := if s[0] > now then [s[0]] else [];
      var rest := After(s[1..], now);
      AfterAscending(s[1..], now);
      forall x, y | x in head && y in rest
        ensures x < y
      {
        AfterMembers(s[1..], now, y);
        var j :| 0 <= j < |s[1..]| && s[1..][j] == y;
        assert s[1 + j] == y;
      }
      AscendingConcat(head, rest);
    }
  }

  /** From year 100 on, `Date.UTC` of a day's fields at 00:00 is the day's midnight. */
  lemma NodeDayStartIsMidnight(z: int)
    requires z >= DayFromYear(100)
    ensures NodeDayStart(z) == z * MsPerDay
  {
    var c := CivilFromDays(z);
    DayDateIsCivilFromDays(z);
    YearOfDayAtLeast(z, 100);
    assert c.year == YearOfDay(z);
    UtcInstantOfCivil(c, z, 0, 0);
  }

  /** Node's cutoff at `now` filters Python's list of an hour. */
  lemma {:induction false} NodeMinutes(now: Instant, start: Instant, hour: int, minute: int, interval: int)
    requires interval > 0
    ensures MinutesFrom(Some(now), start, hour, minute, interval) == After(MinutesFrom(None, start, hour, minute, interval), now)
    decreases 60 - minute
  {
    if minute < 60 {
      var x := start + hour * MsPerHour + minute * MsPerMinute;
      NodeMinutes(now, start, hour, minute + interval, interval);
      AfterConcat([x], MinutesFrom(None, start, hour, minute + interval, interval), now);
    }
  }

  lemma {:induction false} NodeHours(now: Instant, start: Instant, hour: int, cfg: SlotConfig)
    requires cfg.interval > 0
    ensures HoursFrom(Some(now), start, hour, cfg) == After(HoursFrom(None, start, hour, cfg), now)
    decreases cfg.endHour - hour
  {
    if hour < cfg.endHour {
      NodeMinutes(now, start, hour, 0, cfg.interval);
      NodeHours(now, start, hour + 1, cfg);
      AfterConcat(MinutesFrom(None, start, hour, 0, cfg.interval), HoursFrom(None, start, hour + 1, cfg), now);
    }
  }

  /** From year 100 on, Node's slots of a day are Python's slots of that day after `now`. */
  lemma NodeDayIsPythonDayAfter(now: Instant, z: int, cfg: SlotConfig)
    requires z >= DayFromYear(100) && cfg.interval > 0
    ensures NodeDayPart(now, z, cfg) == After(PyDayPart(z, cfg), now)
  {
    WeekendTestsAgree(z);
    NodeDayStartIsMidnight(z);
    NodeHours(now, z * MsPerDay, cfg.startHour, cfg);
  }

  lemma NodeDays(now: Instant, z: int, k: int, cfg: SlotConfig)
    requires z >= DayFromYear(100) && cfg.interval > 0
    ensures NodeDaysFrom(now, z, k, cfg) == After(PyDaysFrom(z, k, cfg), now)
  {
    forall d | z <= d < z + k
      ensures NodeParts(now, cfg)(d) == After(PyParts(cfg)(d), now)
    {
      NodeDayIsPythonDayAfter(now, d, cfg);
    }
    DaysAfter(NodeParts(now, cfg), PyParts(cfg), z, k, now);
  }

  /** Day by day filtering by `now` filters the whole. */
  lemma {:induction false} DaysAfter(nodePart: int -> seq<Instant>, pyPart: int -> seq<Instant>, z: int, k: int, now: Instant)
    requires forall d :: z <= d < z + k ==> nodePart(d) == After(pyPart(d), now)
    ensures DaysFrom(nodePart, z, k) == After(DaysFrom(pyPart, z, k), now)
    decreases k
  {
    if k > 0 {
      DaysAfter(nodePart, pyPart, z + 1, k - 1, now);
      AfterConcat(pyPart(z), DaysFrom(pyPart, z + 1, k - 1), now);
    }
  }

  /**
   * From year 100 on, the Node generator returns the Python generator's slots that are still
   * in the future, in the same order.
   */
  lemma NodeIsPythonAfterNow(now: Instant, cfg: SlotConfig)
    requires DayOf(now) >= DayFromYear(100) && cfg.interval > 0
    ensures NodeGenerated(now, cfg) == After(PyGenerated(now, cfg), now)
  {
    NodeDays(now, DayOf(now), cfg.daysAhead, cfg);
  }

  /**
   * Node offers exactly the future whole minutes of the horizon's weekdays in business hours
   * on a multiple of the step, in chronological order without duplicates.
   */
  lemma NodeSlotsAreFutureBusinessMinutes(now: Instant, cfg: SlotConfig, s: Instant)
    requires DayOf(now) >= DayFromYear(100) && ValidConfig(cfg)
    ensures s in NodeGenerated(now, cfg) <==>
      s > now && MinuteAligned(s) && DayOf(now) <= DayOf(s) < DayOf(now) + cfg.daysAhead
      && PyWeekday(DayOf(s)) < 5
      && cfg.startHour <= HourOf(s) < cfg.endHour && MinuteOf(s) % cfg.interval == 0
    ensures Ascending(NodeGenerated(now, cfg))
  {
    NodeIsPythonAfterNow(now, cfg);
    AfterMembers(PyGenerated(now, cfg), now, s);
    PySlotsAreBusinessMinutes(now, cfg, s);
    PySlotsAscending(now, cfg);
    AfterAscending(PyGenerated(now, cfg), now);
  }
}
