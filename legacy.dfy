/** Model of the older root copy of the page logic, app.js: its `startCountdown`
    schedules a new interval without keeping or clearing the old one, and its
    timings cache is a single entry stamped with the day it was written.

    The `tick` of app.js is the same computation as the one of js/app.js, so both
    use Countdown.Classify and Timer.Render. */
module Legacy {
  import opened Wrappers
  import opened Countdown
  import opened Timer

  /** The countdown of app.js: every interval ever started stays scheduled, each
      with the calendar its tick closure captured. */
  class LegacyTimer {
    var live: map<nat, seq<DayRecord>>
    var nextHandle: nat
    var display: Display

    ghost predicate Valid()
      reads this
    {
      nextHandle >= 1 && forall h :: h in live ==> 1 <= h < nextHandle
    }

    constructor ()
      ensures Valid()
      ensures live == map[] && display == Blank
    {
      live := map[];
      nextHandle := 1;
      display := Blank;
    }

    /** `startCountdown(cal)`: tick once at once and schedule another interval; the
        intervals started before keep running. */
    method Start(cal: seq<DayRecord>, clock: LocalClock) returns (h: nat)
      requires Valid()
      modifies this
      ensures Valid()
      ensures h >= 1 && h !in old(live)
      ensures h == old(nextHandle) && nextHandle == h + 1
      ensures live == old(live)[h := cal]
      ensures |live| == |old(live)| + 1
      ensures display == Render(old(display), clock, cal)
    {
      display := Render(display, clock, cal);
      h := nextHandle;
      nextHandle := nextHandle + 1;
      live := live[h := cal];
    }

    /** Interval `h` fires at `clock`: every interval ever started ticks, over the
        calendar it was started with. */
    method Fire(h: nat, clock: LocalClock)
      requires Valid()
      modifies this`display
      ensures Valid()
      ensures display == if h in live then Render(old(display), clock, live[h]) else old(display)
    {
      if h in live {
        display := Render(display, clock, live[h]);
      }
    }
  }

  /** Two calls of `startCountdown` on each page, the second with a new calendar,
      then the first interval fires again at `later`. The countdown of js/app.js
      keeps one interval and the stale interval does nothing; the one of app.js
      keeps both, and the stale interval redraws the card from the old calendar. */
  method RestartCountdown(first: seq<DayRecord>, second: seq<DayRecord>, clock: LocalClock, later: LocalClock)
    returns (currentLive: nat, legacyLive: nat, currentDisplay: Display, legacyDisplay: Display)
    ensures currentLive == 1 && legacyLive == 2
    ensures currentDisplay == Render(Render(Blank, clock, first), clock, second)
    ensures legacyDisplay == Render(Render(Render(Blank, clock, first), clock, second), later, first)
  {
    currentLive, currentDisplay := RestartTwice(first, second, clock, later);
    legacyLive, legacyDisplay := RestartLegacy(first, second, clock, later);
  }

  /** Two starts and a late firing of the first interval on the app.js ticker. */
  method RestartLegacy(first: seq<DayRecord>, second: seq<DayRecord>, clock: LocalClock, later: LocalClock)
    returns (live: nat, display: Display)
    ensures live == 2
    ensures display == Render(Render(Render(Blank, clock, first), clock, second), later, first)
  {
    var timer := new LegacyTimer();
    var h1 := timer.Start(first, clock);
    var h2 := timer.Start(second, clock);
    timer.Fire(h1, later);
    live, display := |timer.live|, timer.display;
  }

  // ------------------------------------------------------- the timings cache

  /** What app.js keeps under 'ramadan_timings': the month's records and the
      day (an ISO date string) they were fetched on. */
  datatype StoredTimings = StoredTimings(date: string, data: seq<DayRecord>)

  /** The entry `fetchTimings` writes after a successful fetch on `today`. */
  function CacheEntry(today: string, data: seq<DayRecord>): StoredTimings {
    StoredTimings(today, data)
  }

  /** `getCachedTimings`, given what is stored (None when nothing or an empty
      string is) and today's date: the stored records when they were fetched
      today, else nothing, so a new fetch follows. */
  function CachedTimings(stored: Option<StoredTimings>, today: string): (r: Option<seq<DayRecord>>)
    ensures r.Some? <==> stored.Some? && stored.value.date == today
    ensures r.Some? ==> r.value == stored.value.data
  {
    if stored.None? then None
    else if stored.value.date == today then Some(stored.value.data)
    else None
  }

  /** The cache returns what was written the same day and is stale on any other. */
  lemma CacheRoundTrip(data: seq<DayRecord>, written: string, today: string)
    ensures CachedTimings(Some(CacheEntry(written, data)), today)
         == if written == today then Some(data) else None
  {
  }
}
