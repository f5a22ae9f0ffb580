/** Model of the stateful part of the countdown in js/app.js: the page-wide
    `countdownInterval` handle, the one-second intervals that keep calling a
    `tick` closure over the calendar it was started with, and what a tick
    leaves on the page (phase label, "HH:MM:SS" timer, progress width).

    Timer handles are positive integers, as the browser's `setInterval`
    returns; the clock a tick reads is passed in. */
module Timer {
  import opened Wrappers
  import opened Countdown

  /** What the countdown card shows: nothing yet, a tick whose times read as NaN,
      or the phase, the timer text and the progress percentage (None is NaN). */
  datatype Display = Blank | Unreadable | Shown(phase: Phase, countdown: string, progress: Option<real>)

  /** The page after one `tick` over `cal` at `clock`. With no record for today the
      tick returns before touching the page. */
  function Render(before: Display, clock: LocalClock, cal: seq<DayRecord>): (after: Display)
    ensures clock.date > |cal| ==> after == before
    ensures Classify(clock, cal).Malformed? ==> after == Unreadable
    ensures Classify(clock, cal).Ready? ==> after.Shown?
  {
    Show(before, Instant(clock), Classify(clock, cal))
  }

  /** What the card shows after a tick at `now` that derived `c`. */
  function Show(before: Display, now: int, c: Classification): Display {
    match c
    case NoData => before
    case Malformed => Unreadable
    case Ready(s) => Shown(s.phase, CountdownText(s.target - now), Progress(now, s))
  }

  /** With a well-formed calendar a tick on a day of the month shows the phase, a
      timer exactly "HH:MM:SS" wide and a real percentage between 0 and 100. */
  lemma RenderWellFormed(before: Display, clock: LocalClock, cal: seq<DayRecord>)
    requires clock.date <= |cal| && WellFormedCalendar(cal)
    ensures var after := Render(before, clock, cal);
      && after.Shown?
      && after.phase == Classify(clock, cal).state.phase
      && |after.countdown| == 8
      && after.progress.Some? && 0.0 <= after.progress.value <= 100.0
  {
    WellFormedBounds(clock, cal);
    var s := Classify(clock, cal).state;
    RenderOfState(before, clock, cal, s);
    ShowInWindow(before, Instant(clock), s);
  }

  lemma RenderOfState(before: Display, clock: LocalClock, cal: seq<DayRecord>, s: CountdownState)
    requires Classify(clock, cal) == Ready(s)
    ensures Render(before, clock, cal) == Show(before, Instant(clock), Ready(s))
  {
  }

  /** A state whose target is ahead by less than two days shows a timer exactly
      "HH:MM:SS" wide and a real percentage between 0 and 100. */
  lemma ShowInWindow(before: Display, now: int, s: CountdownState)
    requires now < s.target < now + 2 * DAY
    ensures var after := Show(before, now, Ready(s));
      && after.Shown? && after.phase == s.phase
      && |after.countdown| == 8
      && after.progress.Some? && 0.0 <= after.progress.value <= 100.0
  {
    var left := s.target - now;
    TimerWidthInWindow(left);
    assert |CountdownText(left)| == 8;
    ShowReady(before, now, s);
  }

  /** A derived state is shown as its phase, the timer text of the time left and
      its progress. */
  lemma ShowReady(before: Display, now: int, s: CountdownState)
    ensures Show(before, now, Ready(s)) == Shown(s.phase, CountdownText(s.target - now), Progress(now, s))
  {
  }

  /** A tick that derives a state shows its phase, a timer that reads back as the
      whole seconds left to its target, and the progress percentage of the state. */
  lemma RenderReadsBack(before: Display, clock: LocalClock, cal: seq<DayRecord>, s: CountdownState)
    requires Classify(clock, cal) == Ready(s)
    ensures var after := Render(before, clock, cal);
      && after.Shown? && after.phase == s.phase
      && ParseHms(after.countdown).Some?
      && TotalSeconds(ParseHms(after.countdown).value) == RemainingSeconds(s.target - Instant(clock))
      && after.progress == Progress(Instant(clock), s)
  {
    var now := Instant(clock);
    var left := s.target - now;
    CountdownTextReadsBack(left);
    RenderOfState(before, clock, cal, s);
    ShowReady(before, now, s);
  }

  /** Ticks are idempotent: rendering again at the same instant changes nothing. */
  lemma RenderIdempotent(before: Display, clock: LocalClock, cal: seq<DayRecord>)
    ensures Render(Render(before, clock, cal), clock, cal) == Render(before, clock, cal)
  {
  }

  /** The countdown of js/app.js: `countdownInterval` is the handle of the newest
      interval; `live` maps every interval still scheduled to the calendar its tick
      closure captured. */
  class CountdownTimer {
    var countdownInterval: Option<nat>
    var live: map<nat, seq<DayRecord>>
    var nextHandle: nat
    var display: Display

    /** At most one interval is scheduled, and it is the one the handle names. */
    ghost predicate Valid()
      reads this
    {
      && nextHandle >= 1
      && (forall h :: h in live ==> 1 <= h < nextHandle)
      && (countdownInterval.None? ==> live == map[])
      && (countdownInterval.Some? ==> live.Keys == {countdownInterval.value})
    }

    /** Page load: no interval, `countdownInterval = null`, an empty card. */
    constructor ()
      ensures Valid()
      ensures countdownInterval == None && live == map[] && display == Blank
    {
      countdownInterval := None;
      live := map[];
      nextHandle := 1;
      display := Blank;
    }

    /** `startCountdown(cal)`: clear the previous interval if there is one, tick once
        at once, then schedule the ticks and keep the new handle. Handles are never
        reused, so every interval started before this one stays cleared for good. */
    method Start(cal: seq<DayRecord>, clock: LocalClock) returns (h: nat)
      requires Valid()
      modifies this
      ensures Valid()
      ensures h >= 1 && h !in old(live)
      ensures h == old(nextHandle) && nextHandle == h + 1
      ensures countdownInterval == Some(h)
      ensures live == map[h := cal]
      ensures display == Render(old(display), clock, cal)
    {
      if countdownInterval.Some? {
        live := live - {countdownInterval.value};
      }
      display := Render(display, clock, cal);
      h := nextHandle;
      nextHandle := nextHandle + 1;
      live := live[h := cal];
      countdownInterval := Some(h);
    }

    /** Interval `h` fires at `clock`: its tick runs over its own calendar if it is
        still scheduled; an interval that was cleared never ticks again. */
    method Fire(h: nat, clock: LocalClock)
      requires Valid()
      modifies this`display
      ensures Valid()
      ensures display == if h in live then Render(old(display), clock, live[h]) else old(display)
    {
      if h in live {
        display := Render(display, clock, live[h]);
      }
    }
  }

  /** Two calls of `startCountdown`, the second with a new calendar, then the first
      interval fires again at `later`: one interval is live and the stale firing
      leaves the card as the second start drew it. */
  method RestartTwice(first: seq<DayRecord>, second: seq<DayRecord>, clock: LocalClock, later: LocalClock)
    returns (live: nat, display: Display)
    ensures live == 1
    ensures display == Render(Render(Blank, clock, first), clock, second)
  {
    var timer := new CountdownTimer();
    var h1 := timer.Start(first, clock);
    var h2 := timer.Start(second, clock);
    timer.Fire(h1, later);
    live, display := |timer.live|, timer.display;
  }

  /** However many restarts follow, intervals that were cleared never tick again:
      after three starts, firing either of the first two leaves the card as the
      third start drew it. */
  method RestartThrice(first: seq<DayRecord>, second: seq<DayRecord>, third: seq<DayRecord>,
                       clock: LocalClock, later: LocalClock)
    returns (drawn: Display, display: Display)
    ensures display == drawn
  {
    var timer := new CountdownTimer();
    var h1 := timer.Start(first, clock);
    var h2 := timer.Start(second, clock);
    var h3 := timer.Start(third, clock);
    drawn := timer.display;
    timer.Fire(h1, later);
    timer.Fire(h2, later);
    display := timer.display;
  }
}
