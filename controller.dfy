/**
 * The mutable state of the highlighter (`state` in content.js) and the
 * operations that change it: `highlighter.processRow`, `highlighter.updateAll`,
 * `controller.setEnabled`, `controller.toggle`, and the restart the settings
 * dialog performs on save.
 *
 * The browser is replaced by plain state: `localStorage` by the `stored`
 * field, `setInterval`/`clearInterval` by a map of live interval handles,
 * the notification API by an append-only log of requests, and the summary
 * banner by its content and whether it is attached to the page.
 */
module Controller {
  import opened Wrappers
  import opened Text
  import opened TimeUtils
  import opened Status
  import opened Schedule

  /** One reading of the clock: the instant, today's local midnight, and the weekday (0 is Sunday). */
  datatype Clock = Clock(now: int, midnight: nat, day: int)

  class Highlighter {
    /** `state.enabled`. */
    var enabled: bool
    /** The value stored under the enabled key in `localStorage`. */
    var stored: Option<string>
    /** `state.settings`. */
    var settings: Settings
    /** `state.elements.rows`: the table's body rows after the header row. */
    var rows: seq<Row>
    /** `state.timer`: the handle of the update interval, if one is running. */
    var timer: Option<nat>
    /** The intervals the page has running, by handle, with their period in milliseconds. */
    var intervals: map<nat, int>
    /** The handle the next `setInterval` returns; handles are positive. */
    var nextHandle: nat
    /** `state.notifiedClasses`. */
    var notified: set<string>
    /** The notifications requested so far, oldest first. */
    var notices: seq<Notice>
    /** What the summary banner says. */
    var banner: Banner
    /** Whether the summary banner is attached to the page. */
    var bannerShown: bool

    /** The remembered keys together with the notices requested so far. */
    function Remembered(): Memory
      reads this`notified, this`notices
    {
      Memory(notified, notices)
    }

    /** The memory after every row has been processed at `clock`. */
    function Scanned(mem: Memory, clock: Clock): Memory
      requires 0 <= clock.day < 7
      reads this`settings, this`rows
    {
      Notify(mem, settings, rows, |rows|, TodayName(clock.day), clock.now, clock.midnight)
    }

    /** The banner naming the nearest class upcoming at `clock`. */
    function NextBanner(clock: Clock): Banner
      requires 0 <= clock.day < 7
      reads this`settings, this`rows
    {
      BannerFor(Nearest(Entries(settings, rows, |rows|, TodayName(clock.day), clock.now, clock.midnight)), clock.now)
    }

    /**
     * At most one interval is live and it is the one `state.timer` names;
     * every handle given out is below `nextHandle`; each notification key
     * was requested once and is remembered.
     */
    predicate Valid()
      reads this`nextHandle, this`timer, this`intervals, this`notified, this`notices
    {
      && 0 < nextHandle
      && (timer.None? ==> intervals == map[])
      && (timer.Some? ==> intervals.Keys == {timer.value})
      && (forall h :: h in intervals ==> 0 < h < nextHandle)
      && Consistent(Remembered())
    }

    /** An update interval runs exactly when highlighting is enabled. */
    predicate Running()
      reads this`timer, this`enabled
    {
      timer.Some? <==> enabled
    }

    /**
     * The initial `state`: enabled unless the stored flag is `"false"`, no
     * timer, nothing notified, and the table's rows without the header row.
     */
    constructor(storedEnabled: Option<string>, initial: Settings, tableRows: seq<Row>)
      ensures Valid()
      ensures enabled == (storedEnabled != Some("false")) && stored == storedEnabled
      ensures settings == initial
      ensures rows == if tableRows == [] then [] else tableRows[1..]
      ensures timer.None? && intervals == map[] && nextHandle == 1
      ensures notified == {} && notices == []
      ensures banner == Blank && !bannerShown
    {
      enabled := storedEnabled != Some("false");
      stored := storedEnabled;
      settings := initial;
      rows := if tableRows == [] then [] else tableRows[1..];
      timer := None;
      intervals := map[];
      nextHandle := 1;
      notified := {};
      notices := [];
      banner := Blank;
      bannerShown := false;
    }

    /**
     * `processRow`: skips a malformed row or one not scheduled today,
     * otherwise classifies it, requests the reminder if the rule holds, and
     * returns the entry of an upcoming class. The reminder is keyed by the
     * label cell's own text, without the inline status appended to it
     * (`Schedule.RowMemory`, the corrected key).
     */
    method ProcessRow(row: Row, index: nat, todayName: string, now: int, midnight: nat) returns (entry: Option<Entry>)
      modifies this`notified, this`notices
      ensures entry == RowEntry(settings, row, index, todayName, now, midnight)
      ensures Remembered() == RowMemory(old(Remembered()), settings, row, todayName, now, midnight)
    {
      entry := None;
      // Too few cells, not scheduled today, or a time that does not parse.
      var times := Times(row, todayName, midnight);
      if times.None? {
        return;
      }
      var start := times.value.0;
      var status := GetClassStatus(start, times.value.1, now);
      var shown := ShownLabel(settings, row[LabelCell], status);
      CheckReminder(ClassKey(row[LabelCell], start), shown, start, status, now);
      if status.kind == Upcoming {
        entry := Some(Entry(index, start, Trim(FirstLine(shown)), Trim(row[LocationCell])));
      }
    }

    /**
     * The reminder step of `processRow`: when reminders are on and the class
     * is upcoming, a class inside the band whose key is new is notified and
     * its key remembered.
     */
    method CheckReminder(key: string, shown: string, start: nat, status: ClassStatus, now: int)
      requires status.kind == Upcoming <==> now < start
      modifies this`notified, this`notices
      ensures Remembered() == Remember(old(Remembered()), settings, key, shown, start, now)
    {
      if settings.notifyBeforeClass && status.kind == Upcoming {
        if InBand(start - now, settings.notifyMinutes) && key !in notified {
          notices := notices + [NoticeFor(key, shown, start - now)];
          notified := notified + {key};
        }
      }
    }

    /** `updateBanner(nextClass)`, for the banner element that init always creates. */
    method UpdateBanner(next: Option<Entry>, now: int)
      modifies this`banner
      ensures banner == BannerFor(next, now)
    {
      banner := BannerFor(next, now);
    }

    /** The `forEach` of `updateAll`: every row in table order, collecting the entries. */
    method ProcessRows(todayName: string, now: int, midnight: nat) returns (upcoming: seq<Entry>)
      modifies this`notified, this`notices
      ensures upcoming == Entries(settings, rows, |rows|, todayName, now, midnight)
      ensures Remembered() == Notify(old(Remembered()), settings, rows, |rows|, todayName, now, midnight)
    {
      upcoming := [];
      var i := 0;
      while i < |rows|
        invariant 0 <= i <= |rows|
          && upcoming == Entries(settings, rows, i, todayName, now, midnight)
          && Remembered() == Notify(old(Remembered()), settings, rows, i, todayName, now, midnight)
      {
        var e := ProcessRow(rows[i], i, todayName, now, midnight);
        ScanStep(settings, rows, i, todayName, now, midnight);
        upcoming := upcoming + if e.Some? then [e.value] else [];
        i := i + 1;
      }
    }

    /**
     * `updateAll`: nothing when disabled; otherwise every row is processed
     * in table order against one reading of the clock, and the banner, if
     * shown, names the nearest upcoming class.
     */
    method UpdateAll(clock: Clock)
      requires Valid() && 0 <= clock.day < 7
      modifies this`notified, this`notices, this`banner
      ensures Valid()
      ensures !old(enabled) ==> Remembered() == old(Remembered()) && banner == old(banner)
      ensures old(enabled) ==>
        Remembered() == Scanned(old(Remembered()), clock)
      ensures banner ==
        if old(enabled) && settings.showBanner
        then NextBanner(clock)
        else old(banner)
    {
      if !enabled {
        return;
      }
      var now := clock.now;
      var todayName := TodayName(clock.day);
      var upcoming := ProcessRows(todayName, now, clock.midnight);
      NotifyConsistent(old(Remembered()), settings, rows, |rows|, todayName, now, clock.midnight);
      var sorted := SortByStart(upcoming);
      var next := if sorted == [] then None else Some(sorted[0]);
      assert next == Nearest(upcoming);
      if settings.showBanner {
        UpdateBanner(next, now);
      }
    }

    /** Stops the running update interval, if there is one, and forgets its handle. */
    method ClearTimer()
      requires Valid()
      modifies this`timer, this`intervals
      ensures Valid() && timer.None? && intervals == map[]
    {
      if timer.Some? {
        intervals := intervals - {timer.value};
        timer := None;
      }
    }

    /** Starts an update interval whose period is the configured number of seconds, under a fresh handle. */
    method StartTimer()
      requires Valid() && timer.None?
      modifies this`timer, this`intervals, this`nextHandle
      ensures && Valid() && timer == Some(old(nextHandle)) && nextHandle == old(nextHandle) + 1
              && intervals == map[old(nextHandle) := settings.updateInterval * 1000]
    {
      var handle := nextHandle;
      nextHandle := nextHandle + 1;
      intervals := intervals[handle := settings.updateInterval * 1000];
      timer := Some(handle);
    }

    /**
     * `setEnabled(e)`: records the flag, always clears the running interval,
     * and when enabling attaches the banner if it should be shown, updates
     * once and starts a fresh interval; when disabling detaches the banner.
     * The notified keys are kept either way.
     */
    method SetEnabled(e: bool, clock: Clock)
      requires Valid() && 0 <= clock.day < 7
      modifies this`enabled, this`stored, this`timer, this`intervals, this`nextHandle
      modifies this`notified, this`notices, this`banner, this`bannerShown
      ensures Valid() && Running() && enabled == e && stored == Some(if e then "true" else "false")
      ensures old(timer).Some? ==> old(timer).value !in intervals
      ensures if e then Started(clock) else Stopped()
    {
      enabled, stored := e, Some(if e then "true" else "false");
      ClearTimer();
      if e {
        Start(clock);
      } else {
        bannerShown := false;
      }
    }

    /** The state `setEnabled(true)` leaves. */
    twostate predicate Started(clock: Clock)
      requires 0 <= clock.day < 7
      reads this
    {
      && timer == Some(old(nextHandle)) && nextHandle == old(nextHandle) + 1
      && intervals == map[old(nextHandle) := settings.updateInterval * 1000]
      && Remembered() == Scanned(old(Remembered()), clock)
      && bannerShown == (old(bannerShown) || settings.showBanner)
      && banner == if settings.showBanner then NextBanner(clock) else old(banner)
    }

    /** The state `setEnabled(false)` leaves: no interval, banner detached, memory kept. */
    twostate predicate Stopped()
      reads this
    {
      && timer.None? && intervals == map[] && nextHandle == old(nextHandle)
      && Remembered() == old(Remembered()) && banner == old(banner) && !bannerShown
    }

    /** The enabling branch of `setEnabled`: attach the banner, update once, start the interval. */
    method Start(clock: Clock)
      requires Valid() && 0 <= clock.day < 7 && enabled && timer.None?
      modifies this`timer, this`intervals, this`nextHandle, this`notified, this`notices, this`banner, this`bannerShown
      ensures Valid() && Started(clock)
    {
      if settings.showBanner && !bannerShown {
        bannerShown := true;
      }
      UpdateAll(clock);
      StartTimer();
    }

    /**
     * `toggle`: flips the flag through `setEnabled`, so the new state is the
     * one `setEnabled` leaves for the negated flag.
     */
    method Toggle(clock: Clock)
      requires Valid() && 0 <= clock.day < 7
      modifies this`enabled, this`stored, this`timer, this`intervals, this`nextHandle
      modifies this`notified, this`notices, this`banner, this`bannerShown
      ensures Valid() && Running() && enabled == !old(enabled)
      ensures stored == Some(if enabled then "true" else "false")
      ensures old(timer).Some? ==> old(timer).value !in intervals
      ensures if enabled then Started(clock) else Stopped()
    {
      SetEnabled(!enabled, clock);
    }

    /**
     * The state the save handler leaves when highlighting was enabled: one
     * interval at the new period under a fresh handle, one update under the
     * new settings, and the banner attached exactly when it is to be shown.
     */
    twostate predicate Restarted(clock: Clock)
      requires 0 <= clock.day < 7
      reads this
    {
      && enabled && stored == Some("true")
      && timer == Some(old(nextHandle)) && nextHandle == old(nextHandle) + 1
      && intervals == map[old(nextHandle) := settings.updateInterval * 1000]
      && Remembered() == Scanned(old(Remembered()), clock)
      && bannerShown == settings.showBanner
      && banner == if settings.showBanner then NextBanner(clock) else old(banner)
    }

    /** Everything but the settings is as it was. */
    twostate predicate Kept()
      reads this
    {
      && enabled == old(enabled) && stored == old(stored)
      && timer == old(timer) && intervals == old(intervals) && nextHandle == old(nextHandle)
      && Remembered() == old(Remembered()) && banner == old(banner) && bannerShown == old(bannerShown)
    }

    /**
     * The save handler of the settings dialog: stores the new settings and,
     * when enabled, restarts through `setEnabled(false)` and
     * `setEnabled(true)` so that the interval runs at the new period.
     */
    method ApplySettings(s: Settings, clock: Clock)
      requires Valid() && 0 <= clock.day < 7
      modifies this`settings, this`enabled, this`stored, this`timer, this`intervals, this`nextHandle
      modifies this`notified, this`notices, this`banner, this`bannerShown
      ensures Valid() && settings == s
      ensures if old(enabled) then Restarted(clock) else Kept()
    {
      settings := s;
      if enabled {
        SetEnabled(false, clock);
        SetEnabled(true, clock);
      }
    }
  }
}
