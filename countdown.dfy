/** Model of the pure part of the countdown in js/app.js (the body of `tick`
    and `timeToDate`): which of the three phases an instant falls in, the
    countdown target and progress origin of that phase, the clamped progress
    percentage and the "HH:MM:SS" text of the remaining time.

    Time is integer milliseconds on a clock of fixed 24-hour days. An instant
    is counted from local midnight at the start of day 1 of the month whose
    calendar is shown. */
module Countdown {
  import opened Wrappers
  import opened Text

  const SECOND: int := 1000
  const MINUTE: int := 60 * SECOND
  const HOUR: int := 60 * MINUTE
  const DAY: int := 24 * HOUR

  /** Fixed heuristic windows used at the edges of the fetched month. */
  const FIRST_DAY_WINDOW: int := 11 * HOUR
  const LAST_DAY_WINDOW: int := 10 * HOUR

  type DayOfMonth = d: int | 1 <= d <= 31 witness 1
  type MsOfDay = m: int | 0 <= m < 86_400_000 witness 0

  /** What the injected clock reads: the local day of the month (`getDate()`)
      and the milliseconds since local midnight. */
  datatype LocalClock = LocalClock(date: DayOfMonth, msOfDay: MsOfDay)

  function Instant(c: LocalClock): (t: int)
    ensures t / DAY == c.date - 1 && t % DAY == c.msOfDay
  {
    DivModDay((c.date - 1) * DAY + c.msOfDay, c.date - 1, c.msOfDay);
    (c.date - 1) * DAY + c.msOfDay
  }

  /** Local midnight at the start of the day that holds `t`. */
  function DayStart(t: int): (r: int)
    ensures r <= t < r + DAY && r == t / DAY * DAY
  {
    t - t % DAY
  }

  lemma DivModDay(x: int, q: int, r: int)
    requires 0 <= r < DAY && x == q * DAY + r
    ensures x / DAY == q && x % DAY == r
  {
  }

  lemma DivModHour(x: int, q: int, r: int)
    requires 0 <= r < HOUR && x == q * HOUR + r
    ensures x / HOUR == q && x % HOUR == r
  {
  }

  lemma DivModMinute(x: int, q: int, r: int)
    requires 0 <= r < MINUTE && x == q * MINUTE + r
    ensures x / MINUTE == q && x % MINUTE == r
  {
  }

  function HourOf(t: int): int { t % DAY / HOUR }
  function MinuteOf(t: int): int { t % HOUR / MINUTE }

  // ------------------------------------------------------------ time strings

  /** One day's record of the fetched calendar: the raw Fajr (Sehar) and
      Maghrib (Iftar) strings, "HH:MM" optionally followed by " (TZ)". */
  datatype DayRecord = DayRecord(fajr: string, maghrib: string)

  datatype ClockTime = ClockTime(hours: nat, minutes: nat)

  predicate IsTimeOfDay(t: ClockTime) {
    t.hours < 24 && t.minutes < 60
  }

  function Offset(t: ClockTime): nat {
    t.hours * HOUR + t.minutes * MINUTE
  }

  /** `Number(s)` for the text of a time field: a run of ASCII digits, the empty
      text being 0; anything else is NaN (None). */
  function NumberOf(s: string): (r: Option<nat>)
    ensures r.Some? <==> AllDigits(s)
    ensures s == [] ==> r == Some(0)
  {
    if AllDigits(s) then Some(DigitsValue(s)) else None
  }

  /** The hour and minute that `timeToDate` reads from `raw`; None when either is NaN. */
  function ParseTime(raw: string): Option<ClockTime> {
    match MinuteText(raw)
    case None => None
    case Some(mm) =>
      match (NumberOf(HourText(raw)), NumberOf(mm))
      case (Some(h), Some(m)) => Some(ClockTime(h, m))
      case _ => None
  }

  /** The hour and minute are the decimal values of the hour and minute texts, which
      must both be present and consist of digits. */
  lemma ParseTimeFields(raw: string)
    ensures ParseTime(raw).Some? <==>
      MinuteText(raw).Some? && AllDigits(HourText(raw)) && AllDigits(MinuteText(raw).value)
    ensures ParseTime(raw).Some? ==>
      ParseTime(raw).value == ClockTime(DigitsValue(HourText(raw)), DigitsValue(MinuteText(raw).value))
  {
  }

  /** `raw` holds a time of day with hour below 24 and minute below 60. */
  predicate WellFormed(raw: string) {
    ParseTime(raw).Some? && IsTimeOfDay(ParseTime(raw).value)
  }

  /** `timeToDate(base, raw)`: the day of `base` with the hours and minutes of `raw`,
      seconds and milliseconds zero. JavaScript's `setHours` carries an hour past 23
      or a minute past 59 into the following hours and days, which the sum does too. */
  function AnchorTime(base: int, raw: string): (r: Option<int>)
    ensures r.Some? <==> ParseTime(raw).Some?
  {
    match ParseTime(raw)
    case None => None
    case Some(t) => Some(DayStart(base) + Offset(t))
  }

  /** On a well-formed time, the anchored instant lies on the same calendar day as
      `base` and reads back the hour and minute of `raw`, with zero seconds and milliseconds. */
  lemma AnchorTimeFields(base: int, raw: string)
    requires WellFormed(raw)
    ensures AnchorTime(base, raw).Some?
    ensures var r := AnchorTime(base, raw).value;
      && DayStart(r) == DayStart(base)
      && HourOf(r) == ParseTime(raw).value.hours
      && MinuteOf(r) == ParseTime(raw).value.minutes
      && r % MINUTE == 0
  {
    OnSameDay(base, ParseTime(raw).value);
  }

  lemma OnSameDay(base: int, t: ClockTime)
    requires IsTimeOfDay(t)
    ensures var r := DayStart(base) + Offset(t);
      && DayStart(r) == DayStart(base)
      && HourOf(r) == t.hours && MinuteOf(r) == t.minutes && r % MINUTE == 0
  {
    var k := base / DAY;
    var off := Offset(t);
    var r := DayStart(base) + off;
    assert r == k * DAY + off;
    DivModDay(r, k, off);
    DivModHour(off, t.hours, t.minutes * MINUTE);
    DivModMinute(r, k * 1440 + t.hours * 60 + t.minutes, 0);
    DivModHour(r, k * 24 + t.hours, t.minutes * MINUTE);
    DivModMinute(t.minutes * MINUTE, t.minutes, 0);
  }

  /** Text after the first space is ignored, and the API's zero-padded "HH:MM"
      parses back to its hour and minute. */
  lemma ParseTimeOfPadded(h: nat, m: nat, note: string)
    ensures ParseTime(PadStart2(NatToString(h)) + ":" + PadStart2(NatToString(m)) + " " + note)
         == Some(ClockTime(h, m))
  {
    var hh, mm := PadStart2(NatToString(h)), PadStart2(NatToString(m));
    PaddedValue(h);
    PaddedValue(m);
    DigitsHaveNoSeparator(hh);
    DigitsHaveNoSeparator(mm);
    FieldsOfTime(hh, mm);
    assert ' ' !in hh + ":" + mm by {
      var time := hh + ":" + mm;
      assert forall i :: 0 <= i < |time| ==> time[i] == ':' || IsDigit(time[i]);
    }
    FieldsIgnoreAnnotation(hh + ":" + mm, note);
    ParseTimeFields(hh + ":" + mm + " " + note);
  }

  lemma DigitsHaveNoSeparator(s: string)
    requires AllDigits(s)
    ensures ':' !in s && ' ' !in s
  {
    assert forall i :: 0 <= i < |s| ==> IsDigit(s[i]);
  }

  // ------------------------------------------------------------ the phases

  datatype Phase = UntilSehar | UntilIftar | UntilTomorrowSehar

  /** What one tick derives: the phase, the instant counted down to, and the
      instant the progress bar measures from. */
  datatype CountdownState = CountdownState(phase: Phase, target: int, origin: int)

  /** The outcome of one tick: no record for today (the tick returns early), a
      time field that reads as NaN, or the derived state. */
  datatype Classification = NoData | Malformed | Ready(state: CountdownState)

  /** What the record of an adjacent day contributes: no record at all, a time that
      reads as NaN, or the instant of its event. */
  datatype Neighbour = Absent | Garbled | At(instant: int)

  function NeighbourOf(r: Option<int>): (n: Neighbour)
    ensures n != Absent
  {
    match r case None => Garbled case Some(t) => At(t)
  }

  /** The instants a tick reads from the calendar: today's Sehar and Iftar, yesterday's
      Iftar and tomorrow's Sehar (None or Garbled where a time reads as NaN). */
  datatype Anchors = Anchors(sehar: Option<int>, iftar: Option<int>, previous: Neighbour, next: Neighbour)

  /** Today's Fajr and Maghrib anchored to the day of `now`, the previous record's
      Maghrib anchored to the previous day and the next record's Fajr anchored to
      the next day. */
  function AnchorsOf(clock: LocalClock, cal: seq<DayRecord>): (a: Anchors)
    requires clock.date <= |cal|
    ensures a.previous.Absent? <==> clock.date == 1
    ensures a.next.Absent? <==> clock.date == |cal|
  {
    var now := Instant(clock);
    var d := clock.date - 1;
    Anchors(AnchorTime(now, cal[d].fajr), AnchorTime(now, cal[d].maghrib),
            if d > 0 then NeighbourOf(AnchorTime(now - DAY, cal[d - 1].maghrib)) else Absent,
            if d + 1 < |cal| then NeighbourOf(AnchorTime(now + DAY, cal[d + 1].fajr)) else Absent)
  }

  /** JavaScript's `now < t` on a date: false when `t` is an invalid date (NaN). */
  predicate Before(now: int, t: Option<int>) {
    t.Some? && now < t.value
  }

  /** The branches of `tick` on the instants read from the calendar. The comparisons
      are strict: at Sehar or Iftar exactly, that event has passed, and a NaN time
      never compares as ahead. The tick is Malformed exactly when the branch taken
      counts down to, or measures from, a NaN time; an adjacent record is consulted
      only in the branch that uses it. */
  function Decide(now: int, a: Anchors): (c: Classification)
    ensures c != NoData
    ensures c.Ready? && c.state.phase != UntilTomorrowSehar ==> now < c.state.target
  {
    if Before(now, a.sehar) then
      match a.previous
      case At(origin) => Ready(CountdownState(UntilSehar, a.sehar.value, origin))
      case Garbled => Malformed
      // first day of the month: no previous record, a fixed window instead
      case Absent => Ready(CountdownState(UntilSehar, a.sehar.value, a.sehar.value - FIRST_DAY_WINDOW))
    else if Before(now, a.iftar) then
      if a.sehar.None? then Malformed
      else Ready(CountdownState(UntilIftar, a.iftar.value, a.sehar.value))
    else if a.iftar.None? then Malformed
    else
      match a.next
      case At(target) => Ready(CountdownState(UntilTomorrowSehar, target, a.iftar.value))
      case Garbled => Malformed
      // last day of the month: no next record, a fixed window instead
      case Absent => Ready(CountdownState(UntilTomorrowSehar, now + LAST_DAY_WINDOW, a.iftar.value))
  }

  /** A tick reads only the times of the branch it takes: before Sehar, today's Iftar
      and tomorrow's Sehar do not matter; before Iftar, neither neighbour matters;
      after both, yesterday's Iftar and (a passed or NaN) Sehar do not matter. So a NaN
      in a time the branch does not use leaves the outcome as it is. */
  lemma DecideIgnoresUnusedTimes(now: int, a: Anchors, sehar: Option<int>, iftar: Option<int>,
                                 previous: Neighbour, next: Neighbour)
    ensures Before(now, a.sehar) ==>
      Decide(now, a) == Decide(now, Anchors(a.sehar, iftar, a.previous, next))
    ensures !Before(now, a.sehar) && Before(now, a.iftar) ==>
      Decide(now, a) == Decide(now, Anchors(a.sehar, a.iftar, previous, next))
    ensures !Before(now, a.sehar) && !Before(now, a.iftar) && !Before(now, sehar) ==>
      Decide(now, a) == Decide(now, Anchors(sehar, a.iftar, previous, a.next))
  {
  }

  /** A tick is Malformed only when one of the times it read is NaN. */
  lemma MalformedNeedsNaN(now: int, a: Anchors)
    ensures Decide(now, a).Malformed? ==>
      a.sehar.None? || a.iftar.None? || a.previous.Garbled? || a.next.Garbled?
  {
  }

  /** The computation of `tick`: no state when today has no record, else the branches. */
  function Classify(clock: LocalClock, cal: seq<DayRecord>): (c: Classification)
    ensures c.NoData? <==> clock.date > |cal|
  {
    if clock.date > |cal| then NoData else Decide(Instant(clock), AnchorsOf(clock, cal))
  }

  // ------------------------------------------------- properties of Classify

  /** Every Fajr and Maghrib of the month is a time of day. */
  predicate WellFormedCalendar(cal: seq<DayRecord>) {
    forall i :: 0 <= i < |cal| ==> WellFormed(cal[i].fajr) && WellFormed(cal[i].maghrib)
  }

  /** The times a tick on `clock` can read are times of day: today's Fajr and Maghrib,
      yesterday's Maghrib and tomorrow's Fajr. */
  predicate WellFormedAround(clock: LocalClock, cal: seq<DayRecord>)
    requires clock.date <= |cal|
  {
    var d := clock.date - 1;
    && WellFormed(cal[d].fajr) && WellFormed(cal[d].maghrib)
    && (d > 0 ==> WellFormed(cal[d - 1].maghrib))
    && (d + 1 < |cal| ==> WellFormed(cal[d + 1].fajr))
  }

  lemma WellFormedCalendarAround(clock: LocalClock, cal: seq<DayRecord>)
    requires clock.date <= |cal| && WellFormedCalendar(cal)
    ensures WellFormedAround(clock, cal)
  {
  }

  /** Milliseconds from midnight to the time `raw` names. */
  function OffsetOf(raw: string): (off: int)
    requires WellFormed(raw)
    ensures 0 <= off < DAY
  {
    Offset(ParseTime(raw).value)
  }

  /** The previous and the next day start exactly one day earlier and later. */
  lemma DayStartShift(t: int)
    ensures DayStart(t - DAY) == DayStart(t) - DAY
    ensures DayStart(t + DAY) == DayStart(t) + DAY
  {
    DivModDay(t - DAY, t / DAY - 1, t % DAY);
    DivModDay(t + DAY, t / DAY + 1, t % DAY);
  }

  /** When the times around `clock` are well formed, the four anchors are their
      offsets on today, yesterday and tomorrow. */
  lemma AnchorsOfWellFormed(clock: LocalClock, cal: seq<DayRecord>)
    requires clock.date <= |cal|
    requires WellFormedAround(clock, cal)
    ensures var a := AnchorsOf(clock, cal);
      var start := DayStart(Instant(clock));
      var d := clock.date - 1;
      && a.sehar == Some(start + OffsetOf(cal[d].fajr))
      && a.iftar == Some(start + OffsetOf(cal[d].maghrib))
      && a.previous == (if d > 0 then At(start - DAY + OffsetOf(cal[d - 1].maghrib)) else Absent)
      && a.next == (if d + 1 < |cal| then At(start + DAY + OffsetOf(cal[d + 1].fajr)) else Absent)
  {
    TodayAnchors(clock, cal);
    if clock.date > 1 {
      PreviousAnchor(clock, cal);
    }
    if clock.date < |cal| {
      NextAnchor(clock, cal);
    }
  }

  lemma TodayAnchors(clock: LocalClock, cal: seq<DayRecord>)
    requires clock.date <= |cal|
    requires WellFormed(cal[clock.date - 1].fajr) && WellFormed(cal[clock.date - 1].maghrib)
    ensures AnchorsOf(clock, cal).sehar == Some(DayStart(Instant(clock)) + OffsetOf(cal[clock.date - 1].fajr))
    ensures AnchorsOf(clock, cal).iftar == Some(DayStart(Instant(clock)) + OffsetOf(cal[clock.date - 1].maghrib))
  {
    AnchorTimeValue(Instant(clock), cal[clock.date - 1].fajr);
    AnchorTimeValue(Instant(clock), cal[clock.date - 1].maghrib);
  }

  lemma PreviousAnchor(clock: LocalClock, cal: seq<DayRecord>)
    requires 1 < clock.date <= |cal|
    requires WellFormed(cal[clock.date - 2].maghrib)
    ensures AnchorsOf(clock, cal).previous
         == At(DayStart(Instant(clock)) - DAY + OffsetOf(cal[clock.date - 2].maghrib))
  {
    DayStartShift(Instant(clock));
    AnchorTimeValue(Instant(clock) - DAY, cal[clock.date - 2].maghrib);
  }

  lemma NextAnchor(clock: LocalClock, cal: seq<DayRecord>)
    requires clock.date < |cal|
    requires WellFormed(cal[clock.date].fajr)
    ensures AnchorsOf(clock, cal).next
         == At(DayStart(Instant(clock)) + DAY + OffsetOf(cal[clock.date].fajr))
  {
    DayStartShift(Instant(clock));
    AnchorTimeValue(Instant(clock) + DAY, cal[clock.date].fajr);
  }

  lemma AnchorTimeValue(base: int, raw: string)
    requires WellFormed(raw)
    ensures AnchorTime(base, raw) == Some(DayStart(base) + OffsetOf(raw))
  {
  }

  /** Before today's Sehar the countdown is to today's Sehar, whatever today's Maghrib
      reads. The progress origin is yesterday's Maghrib on the previous day, on the
      minute, when there is a previous record, and exactly 11 hours before Sehar on
      the first day of the month. */
  lemma BeforeSehar(clock: LocalClock, cal: seq<DayRecord>, sehar: int)
    requires clock.date <= |cal|
    requires AnchorsOf(clock, cal).sehar == Some(sehar)
    requires Instant(clock) < sehar
    ensures var c := Classify(clock, cal);
      && (c.Ready? ==> c.state.phase == UntilSehar && c.state.target == sehar)
      && (clock.date == 1 ==> c == Ready(CountdownState(UntilSehar, sehar, sehar - FIRST_DAY_WINDOW)))
      && (clock.date > 1 && WellFormed(cal[clock.date - 2].maghrib) ==>
            && c.Ready?
            && DayStart(c.state.origin) == DayStart(Instant(clock)) - DAY
            && HourOf(c.state.origin) == ParseTime(cal[clock.date - 2].maghrib).value.hours
            && MinuteOf(c.state.origin) == ParseTime(cal[clock.date - 2].maghrib).value.minutes
            && c.state.origin % MINUTE == 0)
  {
    if clock.date > 1 && WellFormed(cal[clock.date - 2].maghrib) {
      var now := Instant(clock);
      AnchorTimeFields(now - DAY, cal[clock.date - 2].maghrib);
      DayStartShift(now);
    }
  }

  /** From Sehar (inclusive) to Iftar (exclusive) the countdown is to Iftar and the
      progress runs from Sehar. */
  lemma BetweenSeharAndIftar(clock: LocalClock, cal: seq<DayRecord>, sehar: int, iftar: int)
    requires clock.date <= |cal|
    requires AnchorsOf(clock, cal).sehar == Some(sehar) && AnchorsOf(clock, cal).iftar == Some(iftar)
    requires sehar <= Instant(clock) < iftar
    ensures Classify(clock, cal) == Ready(CountdownState(UntilIftar, iftar, sehar))
  {
  }

  /** From Iftar on (once Sehar has passed too, or reads as NaN) the countdown is to
      tomorrow's Sehar: the next record's Fajr on the next day, on the minute, when
      there is a next record, and exactly 10 hours from now on the last day of the
      month; the progress runs from Iftar. */
  lemma AfterIftar(clock: LocalClock, cal: seq<DayRecord>, iftar: int)
    requires clock.date <= |cal|
    requires AnchorsOf(clock, cal).iftar == Some(iftar)
    requires !Before(Instant(clock), AnchorsOf(clock, cal).sehar) && iftar <= Instant(clock)
    ensures var c := Classify(clock, cal);
      && (c.Ready? ==> c.state.phase == UntilTomorrowSehar && c.state.origin == iftar)
      && (clock.date == |cal| ==>
            c == Ready(CountdownState(UntilTomorrowSehar, Instant(clock) + LAST_DAY_WINDOW, iftar)))
      && (clock.date < |cal| && WellFormed(cal[clock.date].fajr) ==>
            && c.Ready?
            && DayStart(c.state.target) == DayStart(Instant(clock)) + DAY
            && HourOf(c.state.target) == ParseTime(cal[clock.date].fajr).value.hours
            && MinuteOf(c.state.target) == ParseTime(cal[clock.date].fajr).value.minutes
            && c.state.target % MINUTE == 0)
  {
    if clock.date < |cal| && WellFormed(cal[clock.date].fajr) {
      var now := Instant(clock);
      AnchorTimeFields(now + DAY, cal[clock.date].fajr);
      DayStartShift(now);
    }
  }

  /** The instant `t` is the first of `events` strictly after `now`. */
  ghost predicate IsNextEvent(t: int, now: int, events: seq<int>) {
    t in events && now < t && forall e :: e in events && now < e ==> t <= e
  }

  /** The instant `t` is the last of `events` at or before `now`. */
  ghost predicate IsLastEvent(t: int, now: int, events: seq<int>) {
    t in events && t <= now && forall e :: e in events && e <= now ==> e <= t
  }

  /** The four events around the day of `clock`: yesterday's Iftar, today's Sehar and
      Iftar, tomorrow's Sehar. */
  function Events(clock: LocalClock, cal: seq<DayRecord>): seq<int>
    requires 1 < clock.date < |cal|
    requires WellFormedAround(clock, cal)
  {
    var start := DayStart(Instant(clock));
    var d := clock.date - 1;
    [start - DAY + OffsetOf(cal[d - 1].maghrib), start + OffsetOf(cal[d].fajr),
     start + OffsetOf(cal[d].maghrib), start + DAY + OffsetOf(cal[d + 1].fajr)]
  }

  /** On a day with a record on either side whose Sehar comes before its Iftar, the
      countdown targets the next of the four surrounding events and the progress
      origin is the last of them that has passed (an event exactly at `now` has
      passed); the phase names the event counted down to. */
  lemma FollowsEventTimeline(clock: LocalClock, cal: seq<DayRecord>)
    requires 1 < clock.date < |cal|
    requires WellFormedAround(clock, cal)
    requires OffsetOf(cal[clock.date - 1].fajr) < OffsetOf(cal[clock.date - 1].maghrib)
    ensures Classify(clock, cal).Ready?
    ensures var now, events, s := Instant(clock), Events(clock, cal), Classify(clock, cal).state;
      && IsNextEvent(s.target, now, events)
      && IsLastEvent(s.origin, now, events)
      && (s.phase == UntilSehar <==> s.target == events[1])
      && (s.phase == UntilIftar <==> s.target == events[2])
      && (s.phase == UntilTomorrowSehar <==> s.target == events[3])
  {
    AnchorsOfWellFormed(clock, cal);
    var e := Events(clock, cal);
    assert Classify(clock, cal) == Decide(Instant(clock), Anchors(Some(e[1]), Some(e[2]), At(e[0]), At(e[3])));
    DecideOnTimeline(Instant(clock), DayStart(Instant(clock)), e[0], e[1], e[2], e[3]);
  }

  /** The arithmetic behind FollowsEventTimeline. */
  lemma DecideOnTimeline(now: int, start: int, yesterday: int, sehar: int, iftar: int, tomorrow: int)
    requires start <= now < start + DAY
    requires yesterday < start <= sehar < iftar < start + DAY <= tomorrow
    ensures var events, c := [yesterday, sehar, iftar, tomorrow],
                             Decide(now, Anchors(Some(sehar), Some(iftar), At(yesterday), At(tomorrow)));
      && c.Ready?
      && IsNextEvent(c.state.target, now, events)
      && IsLastEvent(c.state.origin, now, events)
      && (c.state.phase == UntilSehar <==> c.state.target == sehar)
      && (c.state.phase == UntilIftar <==> c.state.target == iftar)
      && (c.state.phase == UntilTomorrowSehar <==> c.state.target == tomorrow)
  {
  }

  /** With a well-formed calendar every day that has a record yields a state, the
      countdown is positive and shorter than two days, the progress window is never
      empty (so the percentage never divides by zero), and the progress origin has
      already passed except in the first day's fixed window before Sehar. */
  lemma WellFormedBounds(clock: LocalClock, cal: seq<DayRecord>)
    requires clock.date <= |cal|
    requires WellFormedCalendar(cal)
    ensures Classify(clock, cal).Ready?
    ensures var s := Classify(clock, cal).state;
      && Instant(clock) < s.target < Instant(clock) + 2 * DAY
      && s.origin < s.target
      && (clock.date > 1 || s.phase != UntilSehar ==> s.origin <= Instant(clock))
  {
    WellFormedCalendarAround(clock, cal);
    AnchorsOfWellFormed(clock, cal);
  }

  // ---------------------------------------------------------- the progress bar

  /** `Math.max(0, Math.min(100, x))`. */
  function Clamp(x: real): (r: real)
    ensures 0.0 <= r <= 100.0
    ensures 0.0 <= x <= 100.0 ==> r == x
    ensures x < 0.0 ==> r == 0.0
    ensures x > 100.0 ==> r == 100.0
  {
    if x < 0.0 then 0.0 else if x > 100.0 then 100.0 else x
  }

  /** The progress percentage `(1 - remaining / total) * 100`, clamped, on exact reals.
      The source divides without a guard; with `total` zero JavaScript gives Infinity or
      NaN, so the result is 0 when the target is still ahead, 100 when it has passed
      and None (NaN) when `now`, origin and target coincide. */
  function Progress(now: int, s: CountdownState): (p: Option<real>)
    ensures p.None? <==> s.target == now && s.origin == now
    ensures p.Some? ==> 0.0 <= p.value <= 100.0
  {
    var remaining := (s.target - now) as real;
    var total := (s.target - s.origin) as real;
    if total == 0.0 then
      if remaining > 0.0 then Some(0.0) else if remaining < 0.0 then Some(100.0) else None
    else
      Some(Clamp((1.0 - remaining / total) * 100.0))
  }

  /** Inside the window the percentage is the elapsed share of it, unclamped. */
  lemma ProgressIsElapsedShare(now: int, s: CountdownState)
    requires s.origin <= now <= s.target && s.origin < s.target
    ensures Progress(now, s) == Some((now - s.origin) as real / (s.target - s.origin) as real * 100.0)
  {
    var remaining, total := (s.target - now) as real, (s.target - s.origin) as real;
    var elapsed := (now - s.origin) as real;
    assert remaining / total + elapsed / total == 1.0 by {
      assert remaining + elapsed == total;
    }
    assert 0.0 <= elapsed / total <= 1.0;
  }

  /** With origin and target fixed, the percentage never decreases as time advances. */
  lemma ProgressMonotone(now: int, later: int, s: CountdownState)
    requires s.origin < s.target && now <= later
    ensures Progress(now, s).value <= Progress(later, s).value
  {
    var total := (s.target - s.origin) as real;
    QuotientMonotone((s.target - later) as real, (s.target - now) as real, total);
  }

  lemma QuotientMonotone(a: real, b: real, c: real)
    requires a <= b && c > 0.0
    ensures a / c <= b / c
  {
    assert b / c - a / c == (b - a) / c;
  }

  // ------------------------------------------------------ the countdown text

  /** `Math.max(0, Math.floor(remaining / 1000))`: whole seconds left, never negative. */
  function RemainingSeconds(remainingMs: int): (sec: nat)
    ensures remainingMs < 1000 ==> sec == 0
    ensures remainingMs >= 0 ==> sec * 1000 <= remainingMs < sec * 1000 + 1000
  {
    if remainingMs < 0 then 0 else remainingMs / 1000
  }

  datatype Hms = Hms(hours: nat, minutes: nat, seconds: nat)

  /** Hours, minutes and seconds of `sec`; the hours are not reduced to a day. */
  function SplitHms(sec: nat): (f: Hms)
    ensures f.minutes < 60 && f.seconds < 60
    ensures f.hours * 3600 + f.minutes * 60 + f.seconds == sec
  {
    Hms(sec / 3600, sec % 3600 / 60, sec % 60)
  }

  /** Each field zero-padded to two digits and joined by ':'. */
  function FormatHms(sec: nat): string {
    var f := SplitHms(sec);
    PadStart2(NatToString(f.hours)) + ":" + PadStart2(NatToString(f.minutes)) + ":"
      + PadStart2(NatToString(f.seconds))
  }

  /** The timer text of a tick. */
  function CountdownText(remainingMs: int): string {
    FormatHms(RemainingSeconds(remainingMs))
  }

  /** The seconds that hours, minutes and seconds stand for. */
  function TotalSeconds(f: Hms): nat {
    f.hours * 3600 + f.minutes * 60 + f.seconds
  }

  /** Reads "H:M:S" back into its three decimal fields. */
  function ParseHms(text: string): Option<Hms> {
    var hh := TakeUntil(text, ':');
    match After(text, ':')
    case None => None
    case Some(rest) =>
      var mm := TakeUntil(rest, ':');
      match After(rest, ':')
      case None => None
      case Some(ss) =>
        if AllDigits(hh) && AllDigits(mm) && AllDigits(ss)
        then Some(Hms(DigitsValue(hh), DigitsValue(mm), DigitsValue(ss)))
        else None
  }

  /** The timer text reads back as exactly the hours, minutes and seconds of the
      count it shows, for every count: the hours field grows instead of wrapping. */
  lemma CountdownRoundTrip(sec: nat)
    ensures ParseHms(FormatHms(sec)) == Some(SplitHms(sec))
    ensures TotalSeconds(ParseHms(FormatHms(sec)).value) == sec
  {
    var f := SplitHms(sec);
    var hh, mm, ss := PadStart2(NatToString(f.hours)), PadStart2(NatToString(f.minutes)),
                      PadStart2(NatToString(f.seconds));
    PaddedValue(f.hours);
    PaddedValue(f.minutes);
    PaddedValue(f.seconds);
    assert FormatHms(sec) == hh + [':'] + (mm + [':'] + ss);
    ParseHmsOfFields(hh, mm, ss);
  }

  /** Three digit fields joined by ':' read back as their values. */
  lemma ParseHmsOfFields(hh: string, mm: string, ss: string)
    requires AllDigits(hh) && AllDigits(mm) && AllDigits(ss)
    ensures ParseHms(hh + [':'] + (mm + [':'] + ss)) == Some(Hms(DigitsValue(hh), DigitsValue(mm), DigitsValue(ss)))
  {
    DigitsHaveNoSeparator(hh);
    DigitsHaveNoSeparator(mm);
    SplitAt(hh, ':', mm + [':'] + ss);
    SplitAt(mm, ':', ss);
  }

  /** The timer text of a tick reads back as the whole seconds left, none when the
      target has passed. */
  lemma CountdownTextReadsBack(remainingMs: int)
    ensures ParseHms(CountdownText(remainingMs)).Some?
    ensures TotalSeconds(ParseHms(CountdownText(remainingMs)).value) == RemainingSeconds(remainingMs)
  {
    CountdownRoundTrip(RemainingSeconds(remainingMs));
  }

  lemma NatToStringShort(n: nat)
    requires n < 100
    ensures |NatToString(n)| <= 2
  {
  }

  /** The timer text is at least "HH:MM:SS" wide, and exactly that below 100 hours. */
  lemma CountdownWidth(sec: nat)
    ensures |FormatHms(sec)| >= 8
    ensures sec < 100 * 3600 ==> |FormatHms(sec)| == 8
  {
    var f := SplitHms(sec);
    NatToStringShort(f.minutes);
    NatToStringShort(f.seconds);
    if sec < 100 * 3600 {
      NatToStringShort(f.hours);
    }
  }

  /** Less than two days ahead, the timer is exactly "HH:MM:SS" wide. */
  lemma TimerWidthInWindow(remainingMs: int)
    requires remainingMs < 2 * DAY
    ensures |CountdownText(remainingMs)| == 8
  {
    var sec := RemainingSeconds(remainingMs);
    assert sec < 100 * 3600 by {
      if remainingMs >= 0 {
        assert remainingMs < 172_800_000;
        assert sec == remainingMs / 1000;
      }
    }
    CountdownWidth(sec);
  }

  /** With a well-formed calendar the timer always shows exactly "HH:MM:SS". */
  lemma WellFormedTimerWidth(clock: LocalClock, cal: seq<DayRecord>)
    requires clock.date <= |cal|
    requires WellFormedCalendar(cal)
    ensures |CountdownText(Classify(clock, cal).state.target - Instant(clock))| == 8
  {
    WellFormedBounds(clock, cal);
    var now, target := Instant(clock), Classify(clock, cal).state.target;
    assert target - now < 2 * DAY;
    TimerWidthInWindow(target - now);
  }

  // ------------------------------------------------------------- examples

  lemma SeharText()
    ensures PadStart2(NatToString(5)) + ":" + PadStart2(NatToString(12)) + " " + "(+06)" == "05:12 (+06)"
  {
  }

  lemma IftarText()
    ensures PadStart2(NatToString(18)) + ":" + PadStart2(NatToString(3)) + " " + "(+06)" == "18:03 (+06)"
  {
  }

  lemma ExampleTimes()
    ensures WellFormed("05:12 (+06)") && OffsetOf("05:12 (+06)") == 5 * HOUR + 12 * MINUTE
    ensures WellFormed("18:03 (+06)") && OffsetOf("18:03 (+06)") == 18 * HOUR + 3 * MINUTE
  {
    SeharText();
    ParseTimeOfPadded(5, 12, "(+06)");
    IftarText();
    ParseTimeOfPadded(18, 3, "(+06)");
  }

  lemma SeventyTwoMinutes()
    ensures CountdownText(72 * MINUTE) == "01:12:00"
  {
    assert RemainingSeconds(72 * MINUTE) == 4320;
    assert SplitHms(4320) == Hms(1, 12, 0);
  }

  /** Sehar at 05:12 and Iftar at 18:03 on the 2nd of the month. */
  predicate ExampleDay(cal: seq<DayRecord>) {
    && |cal| >= 2
    && WellFormed(cal[1].fajr) && OffsetOf(cal[1].fajr) == 5 * HOUR + 12 * MINUTE
    && WellFormed(cal[1].maghrib) && OffsetOf(cal[1].maghrib) == 18 * HOUR + 3 * MINUTE
  }

  lemma ExampleRecord(cal: seq<DayRecord>)
    requires |cal| >= 2 && cal[1] == DayRecord("05:12 (+06)", "18:03 (+06)")
    ensures ExampleDay(cal)
  {
    ExampleTimes();
  }

  lemma ExampleAnchors(clock: LocalClock, cal: seq<DayRecord>)
    requires clock.date == 2 && ExampleDay(cal)
    ensures AnchorsOf(clock, cal).sehar == Some(DAY + 5 * HOUR + 12 * MINUTE)
    ensures AnchorsOf(clock, cal).iftar == Some(DAY + 18 * HOUR + 3 * MINUTE)
  {
    TodayAnchors(clock, cal);
    DivModDay(Instant(clock), 1, clock.msOfDay);
  }

  /** Sehar 05:12 and Iftar 18:03 on the 2nd; at 04:00 the countdown is to that
      Sehar and shows "01:12:00", and the progress runs from the 1st's Iftar. */
  lemma ExampleBeforeSehar(cal: seq<DayRecord>)
    requires |cal| >= 2 && cal[1] == DayRecord("05:12 (+06)", "18:03 (+06)")
    requires WellFormed(cal[0].maghrib)
    ensures var clock := LocalClock(2, 4 * HOUR);
      var c := Classify(clock, cal);
      && c.Ready? && c.state.phase == UntilSehar
      && c.state.target == DAY + 5 * HOUR + 12 * MINUTE
      && CountdownText(c.state.target - Instant(clock)) == "01:12:00"
      && c.state.origin == OffsetOf(cal[0].maghrib)
  {
    ExampleRecord(cal);
    ExampleSeharState(cal);
    SeventyTwoMinutes();
  }

  lemma ExampleSeharState(cal: seq<DayRecord>)
    requires ExampleDay(cal) && WellFormed(cal[0].maghrib)
    ensures Classify(LocalClock(2, 4 * HOUR), cal)
         == Ready(CountdownState(UntilSehar, DAY + 5 * HOUR + 12 * MINUTE, OffsetOf(cal[0].maghrib)))
    ensures DAY + 5 * HOUR + 12 * MINUTE - Instant(LocalClock(2, 4 * HOUR)) == 72 * MINUTE
  {
    var clock := LocalClock(2, 4 * HOUR);
    ExampleAnchors(clock, cal);
    PreviousAnchor(clock, cal);
    DivModDay(Instant(clock), 1, clock.msOfDay);
  }

  /** The same day at 18:03:00 exactly: Iftar has passed, so the countdown is to
      tomorrow's Sehar and not to Iftar. */
  lemma ExampleAtIftar(cal: seq<DayRecord>)
    requires |cal| >= 2 && cal[1] == DayRecord("05:12 (+06)", "18:03 (+06)")
    ensures var c := Classify(LocalClock(2, 18 * HOUR + 3 * MINUTE), cal);
      c.Ready? ==> c.state.phase == UntilTomorrowSehar && c.state.origin == DAY + 18 * HOUR + 3 * MINUTE
  {
    ExampleRecord(cal);
    ExampleAnchors(LocalClock(2, 18 * HOUR + 3 * MINUTE), cal);
  }
}
