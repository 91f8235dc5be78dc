/**
 * The decisions `highlighter.processRow` and `highlighter.updateAll` make
 * about the rows of the class table, as functions of the row texts, the
 * settings, one instant and the notification memory. The `Controller`
 * module runs them over its own state.
 *
 * A row is the `innerText` of its cells. Cell 2 holds the course label,
 * cell 5 the location, cell 6 the days of the week and cells 7 and 8 the
 * start and end times.
 */
module Schedule {
  import opened Wrappers
  import opened Text
  import opened TimeUtils
  import opened Status

  /** The user settings that the core reads (the colours are left out). */
  datatype Settings = Settings(
    updateInterval: int,
    showBanner: bool,
    showInlineStatus: bool,
    highlightRows: bool,
    notifyBeforeClass: bool,
    notifyMinutes: int)

  type Row = seq<string>

  const LabelCell: nat := 2
  const LocationCell: nat := 5
  const DaysCell: nat := 6
  const StartCell: nat := 7
  const EndCell: nat := 8
  const MinCells: nat := 9

  /** What `processRow` returns for an upcoming class; `row` is its position in the table. */
  datatype Entry = Entry(row: nat, start: nat, course: string, location: string)

  /** One request to show a notification. */
  datatype Notice = Notice(key: string, title: string, body: string)

  /** `state.notifiedClasses` together with the notifications requested so far. */
  datatype Memory = Memory(notified: set<string>, log: seq<Notice>)

  // ---------------------------------------------------------------------
  // One row
  // ---------------------------------------------------------------------

  /**
   * The start and end of a row that is scheduled today. The row is skipped
   * (None) when it has too few cells, its days cell lacks today's token, or
   * either time cell does not parse.
   */
  function Times(row: Row, todayName: string, midnight: nat): Option<(nat, nat)> {
    if |row| < MinCells || !ClassHasToday(row[DaysCell], todayName) then None
    else
      var start := ParseTime(row[StartCell], midnight);
      var end := ParseTime(row[EndCell], midnight);
      if start.None? || end.None? then None else Some((start.value, end.value))
  }

  /** The status of a row that is scheduled today. */
  function RowStatus(row: Row, todayName: string, now: int, midnight: nat): ClassStatus
    requires Times(row, todayName, midnight).Some?
  {
    var t := Times(row, todayName, midnight).value;
    GetClassStatus(t.0, t.1, now)
  }

  /**
   * The label cell's text once the inline status element has been appended
   * to it. The element is an inline block, so its text follows the cell's
   * own text on the same line.
   */
  function ShownLabel(settings: Settings, cellText: string, st: ClassStatus): string {
    if settings.showInlineStatus then cellText + st.text else cellText
  }

  /** The key a class is remembered by: its label, a dash, and its start instant. */
  function ClassKey(labelText: string, start: nat): string {
    labelText + "-" + Show(start)
  }

  /**
   * The reminder band: the time until the start, in minutes, is at most the
   * window and more than one minute less than it. The comparison is done
   * exactly, in milliseconds.
   */
  predicate InBand(until: int, window: int) {
    (window - 1) * MsPerMinute < until <= window * MsPerMinute
  }

  /**
   * The millisecond test is the source's test on the minute count itself:
   * `until / 60000` lies in the half-open band `(window - 1, window]`.
   */
  lemma InBandMinutes(until: int, window: int)
    ensures InBand(until, window) <==>
      (window - 1) as real < until as real / 60000.0 <= window as real
  {
    var m := until as real / 60000.0;
    assert until as real == m * 60000.0;
  }

  /** The minutes until the start, rounded to the nearest whole minute (halves up), for a positive time. */
  function RoundMinutes(until: nat): (r: nat)
    ensures (r as int) * MsPerMinute - 30000 <= until < (r as int) * MsPerMinute + 30000
  {
    (until + 30000) / MsPerMinute
  }

  const NoticeTitle: string := "\U{1F4DA} Class Starting Soon"

  /** The notification for a class, titled and worded as shown to the user. */
  function NoticeFor(key: string, shown: string, until: nat): Notice {
    Notice(key, NoticeTitle, FirstLine(shown) + " starts in " + Show(RoundMinutes(until)) + " minutes")
  }

  /** The notification rule: enabled, upcoming, inside the band, and not yet notified. */
  predicate Fires(settings: Settings, key: string, start: nat, now: int, notified: set<string>) {
    && settings.notifyBeforeClass
    && now < start
    && InBand(start - now, settings.notifyMinutes)
    && key !in notified
  }

  /** Inside the band the notification announces the window or one minute less. */
  lemma {:induction false} NoticeMinutes(until: nat, window: int)
    requires InBand(until, window)
    ensures RoundMinutes(until) == window || RoundMinutes(until) == window - 1
  {
  }

  /**
   * Looks at a class every `period` milliseconds, from any instant before
   * the band, reach the band when the period is at most a minute: some look
   * falls inside it. With a window of at least a minute that look is still
   * before the start.
   */
  lemma {:induction false} BandReached(until0: int, window: int, period: nat)
    requires 0 < period <= MsPerMinute && until0 > window * MsPerMinute
    ensures exists j: nat ::
      InBand(until0 - j * period, window) && (window >= 1 ==> until0 - j * period > 0)
  {
    var d := until0 - window * MsPerMinute;
    var q := d + period - 1;
    var j := q / period;
    assert q == j * period + q % period;
    assert InBand(until0 - j * period, window);
  }

  /**
   * With a two-minute update interval a ten-minute reminder can be missed:
   * looks at 10m50s, 8m50s, ... before the start all fall outside the band.
   */
  lemma {:induction false} BandMissed(j: nat)
    ensures !InBand(650000 - j * 120000, 10)
  {
  }

  /** The effect of the notification check on the memory. */
  function Remember(mem: Memory, settings: Settings, key: string, shown: string, start: nat, now: int): Memory {
    if Fires(settings, key, start, now, mem.notified) then
      Memory(mem.notified + {key}, mem.log + [NoticeFor(key, shown, start - now)])
    else mem
  }

  /** The memory after `processRow` has looked at a row. */
  function RowMemory(mem: Memory, settings: Settings, row: Row, todayName: string, now: int, midnight: nat): Memory {
    if Times(row, todayName, midnight).None? then mem
    else
      var start := Times(row, todayName, midnight).value.0;
      var shown := ShownLabel(settings, row[LabelCell], RowStatus(row, todayName, now, midnight));
      Remember(mem, settings, ClassKey(row[LabelCell], start), shown, start, now)
  }

  /** What `processRow` returns for the row at position `index`. */
  function RowEntry(settings: Settings, row: Row, index: nat, todayName: string, now: int, midnight: nat): Option<Entry> {
    if Times(row, todayName, midnight).None? then None
    else
      var st := RowStatus(row, todayName, now, midnight);
      if st.kind != Upcoming then None
      else
        var shown := ShownLabel(settings, row[LabelCell], st);
        Some(Entry(index, Times(row, todayName, midnight).value.0, Trim(FirstLine(shown)), Trim(row[LocationCell])))
  }

  /** A row is scheduled today and has not started at `now`. */
  predicate IsUpcoming(row: Row, todayName: string, now: int, midnight: nat) {
    Times(row, todayName, midnight).Some? && now < Times(row, todayName, midnight).value.0
  }

  /** Each key in the log occurs once, and every logged key is remembered. */
  predicate Consistent(mem: Memory) {
    && (forall i, j :: 0 <= i < j < |mem.log| ==> mem.log[i].key != mem.log[j].key)
    && (forall i :: 0 <= i < |mem.log| ==> mem.log[i].key in mem.notified)
  }

  /** A skipped row returns nothing and leaves the memory as it was. */
  lemma {:induction false} RowSkipped(mem: Memory, settings: Settings, row: Row, index: nat, todayName: string, now: int, midnight: nat)
    requires || |row| < MinCells
             || !ClassHasToday(row[DaysCell], todayName)
             || ParseTime(row[StartCell], midnight).None?
             || ParseTime(row[EndCell], midnight).None?
    ensures RowEntry(settings, row, index, todayName, now, midnight) == None
    ensures RowMemory(mem, settings, row, todayName, now, midnight) == mem
  {
  }

  /**
   * A row yields an entry exactly when it is upcoming; the entry carries
   * its position, its start, and the first line of the shown label (the
   * label cell with the inline status appended when it is shown) and the
   * location, trimmed.
   */
  lemma {:induction false} RowEntrySpec(settings: Settings, row: Row, index: nat, todayName: string, now: int, midnight: nat)
    ensures var e := RowEntry(settings, row, index, todayName, now, midnight);
      && (e.Some? <==> IsUpcoming(row, todayName, now, midnight))
      && (e.Some? ==>
            && e.value.row == index
            && e.value.start == Times(row, todayName, midnight).value.0
            && e.value.course == Trim(FirstLine(ShownLabel(settings, row[LabelCell], RowStatus(row, todayName, now, midnight))))
            && e.value.location == Trim(row[LocationCell]))
  {
  }

  /** An entry carries the position it was made for. */
  lemma {:induction false} EntryRow(settings: Settings, row: Row, index: nat, todayName: string, now: int, midnight: nat)
    ensures RowEntry(settings, row, index, todayName, now, midnight).Some? ==>
      RowEntry(settings, row, index, todayName, now, midnight).value.row == index
  {
  }

  /** Only an upcoming row yields an entry. */
  lemma {:induction false} EntryUpcoming(settings: Settings, row: Row, index: nat, todayName: string, now: int, midnight: nat)
    requires RowEntry(settings, row, index, todayName, now, midnight).Some?
    ensures IsUpcoming(row, todayName, now, midnight)
  {
  }

  /**
   * When the label cell already spans several lines, the course name is its
   * first line whatever the inline status shows.
   */
  lemma {:induction false} CourseIgnoresStatus(settings: Settings, row: Row, index: nat, todayName: string, now: int, midnight: nat)
    requires IsUpcoming(row, todayName, now, midnight) && '\n' in row[LabelCell]
    ensures RowEntry(settings, row, index, todayName, now, midnight).value.course == Trim(FirstLine(row[LabelCell]))
  {
    FirstLineAppend(row[LabelCell], RowStatus(row, todayName, now, midnight).text);
  }

  /**
   * A row adds at most one notification, and only under its own key: the
   * remembered set grows by that key and the log by one request.
   */
  lemma {:induction false} RowNotifies(mem: Memory, settings: Settings, row: Row, todayName: string, now: int, midnight: nat)
    ensures var r := RowMemory(mem, settings, row, todayName, now, midnight);
      || r == mem
      || (&& Times(row, todayName, midnight).Some?
          && var start := Times(row, todayName, midnight).value.0;
          && var key := ClassKey(row[LabelCell], start);
          && Fires(settings, key, start, now, mem.notified)
          && r.notified == mem.notified + {key}
          && r.log == mem.log + [NoticeFor(key, ShownLabel(settings, row[LabelCell], RowStatus(row, todayName, now, midnight)), start - now)])
  {
  }

  /**
   * The notification fires exactly when the row is scheduled today, the
   * reminder is on, the class has not started, the time until it lies in
   * the band, and its key is not yet remembered.
   */
  lemma {:induction false} RowFiresIff(mem: Memory, settings: Settings, row: Row, todayName: string, now: int, midnight: nat)
    ensures var r := RowMemory(mem, settings, row, todayName, now, midnight);
      (|r.log| == |mem.log| + 1) <==>
        (&& Times(row, todayName, midnight).Some?
         && var start := Times(row, todayName, midnight).value.0;
         && settings.notifyBeforeClass && now < start
         && InBand(start - now, settings.notifyMinutes)
         && ClassKey(row[LabelCell], start) !in mem.notified)
  {
    RowNotifies(mem, settings, row, todayName, now, midnight);
  }

  /** A class whose key is already remembered is not notified again. */
  lemma {:induction false} RowNotifiedOnce(mem: Memory, settings: Settings, row: Row, todayName: string, now: int, midnight: nat)
    requires Times(row, todayName, midnight).Some?
    requires ClassKey(row[LabelCell], Times(row, todayName, midnight).value.0) in mem.notified
    ensures RowMemory(mem, settings, row, todayName, now, midnight) == mem
  {
  }

  /** Two looks at the same row, at any two instants, notify at most once. */
  lemma {:induction false} RowNotifiesAtMostOnce(mem: Memory, settings: Settings, row: Row, todayName: string, now1: int, now2: int, midnight: nat)
    ensures var m1 := RowMemory(mem, settings, row, todayName, now1, midnight);
      |RowMemory(m1, settings, row, todayName, now2, midnight).log| <= |mem.log| + 1
  {
    var m1 := RowMemory(mem, settings, row, todayName, now1, midnight);
    RowNotifies(mem, settings, row, todayName, now1, midnight);
    RowNotifies(m1, settings, row, todayName, now2, midnight);
    if m1 != mem {
      RowNotifiedOnce(m1, settings, row, todayName, now2, midnight);
    }
  }

  /** Processing a row keeps the memory consistent. */
  lemma {:induction false} RowConsistent(mem: Memory, settings: Settings, row: Row, todayName: string, now: int, midnight: nat)
    requires Consistent(mem)
    ensures Consistent(RowMemory(mem, settings, row, todayName, now, midnight))
  {
    var r := RowMemory(mem, settings, row, todayName, now, midnight);
    RowNotifies(mem, settings, row, todayName, now, midnight);
    if r != mem {
      var n := |mem.log|;
      assert r.log[n].key !in mem.notified;
      forall i | 0 <= i < n ensures r.log[i] == mem.log[i] {
      }
    }
  }

  // ---------------------------------------------------------------------
  // The key as the source builds it
  // ---------------------------------------------------------------------

  /**
   * The notification step as content.js:484-501 builds it: the key is read
   * from the label cell after the inline status has been appended to it,
   * so the key carries the status text of the moment.
   */
  function RowMemoryAsWritten(mem: Memory, settings: Settings, row: Row, todayName: string, now: int, midnight: nat): Memory {
    if Times(row, todayName, midnight).None? then mem
    else
      var start := Times(row, todayName, midnight).value.0;
      var shown := ShownLabel(settings, row[LabelCell], RowStatus(row, todayName, now, midnight));
      Remember(mem, settings, ClassKey(shown, start), shown, start, now)
  }

  lemma TenMinuteTexts()
    ensures FormatDuration(600000) == "10m"
    ensures FormatDuration(590000) == "9m"
  {
    assert Show(10) == "10";
  }

  /**
   * With the inline status shown and a ten-minute reminder, two looks at
   * the same class ten seconds apart, both inside the band, notify twice:
   * at exactly ten minutes the status reads "10m" and then "9m", so the
   * second key differs from the first.
   */
  lemma {:induction false} AsWrittenNotifiesTwice(settings: Settings, row: Row, todayName: string, midnight: nat)
    requires settings.showInlineStatus && settings.notifyBeforeClass && settings.notifyMinutes == 10
    requires Times(row, todayName, midnight).Some? && Times(row, todayName, midnight).value.0 >= 600000
    ensures var start := Times(row, todayName, midnight).value.0;
      var m1 := RowMemoryAsWritten(Memory({}, []), settings, row, todayName, start - 600000, midnight);
      |RowMemoryAsWritten(m1, settings, row, todayName, start - 590000, midnight).log| == 2
  {
    var start := Times(row, todayName, midnight).value.0;
    var cell := row[LabelCell];
    TenMinuteTexts();
    var k1 := ClassKey(cell + Label(Upcoming, 600000), start);
    var k2 := ClassKey(cell + Label(Upcoming, 590000), start);
    assert |k1| == |k2| + 1;
    assert RowMemoryAsWritten(Memory({}, []), settings, row, todayName, start - 600000, midnight).notified == {k1};
  }

  // ---------------------------------------------------------------------
  // The scan of updateAll
  // ---------------------------------------------------------------------

  /** The entries of the first `n` rows, in table order. */
  function Entries(settings: Settings, rows: seq<Row>, n: nat, todayName: string, now: int, midnight: nat): seq<Entry>
    requires n <= |rows|
    decreases n
  {
    if n == 0 then []
    else
      var e := RowEntry(settings, rows[n - 1], n - 1, todayName, now, midnight);
      Entries(settings, rows, n - 1, todayName, now, midnight) + (if e.Some? then [e.value] else [])
  }

  /** The memory after the first `n` rows have been processed, in table order. */
  function Notify(mem: Memory, settings: Settings, rows: seq<Row>, n: nat, todayName: string, now: int, midnight: nat): Memory
    requires n <= |rows|
    decreases n
  {
    if n == 0 then mem
    else RowMemory(Notify(mem, settings, rows, n - 1, todayName, now, midnight), settings, rows[n - 1], todayName, now, midnight)
  }

  /** One more row: its entry, if any, is appended and its reminder step applied. */
  lemma {:induction false} ScanStep(settings: Settings, rows: seq<Row>, n: nat, todayName: string, now: int, midnight: nat)
    requires n < |rows|
    ensures var e := RowEntry(settings, rows[n], n, todayName, now, midnight);
      Entries(settings, rows, n + 1, todayName, now, midnight)
        == Entries(settings, rows, n, todayName, now, midnight) + if e.Some? then [e.value] else []
    ensures forall mem ::
      Notify(mem, settings, rows, n + 1, todayName, now, midnight)
        == RowMemory(Notify(mem, settings, rows, n, todayName, now, midnight), settings, rows[n], todayName, now, midnight)
  {
  }

  /** Each entry is the entry of an upcoming row before `n`, at its own position. */
  lemma {:induction false} EntryAt(settings: Settings, rows: seq<Row>, n: nat, todayName: string, now: int, midnight: nat, k: nat)
    requires n <= |rows| && k < |Entries(settings, rows, n, todayName, now, midnight)|
    ensures var e := Entries(settings, rows, n, todayName, now, midnight)[k];
      && e.row < n
      && IsUpcoming(rows[e.row], todayName, now, midnight)
      && RowEntry(settings, rows[e.row], e.row, todayName, now, midnight) == Some(e)
    decreases n
  {
    var before := Entries(settings, rows, n - 1, todayName, now, midnight);
    var r := RowEntry(settings, rows[n - 1], n - 1, todayName, now, midnight);
    var es := Entries(settings, rows, n, todayName, now, midnight);
    ScanStep(settings, rows, n - 1, todayName, now, midnight);
    if k < |before| {
      EntryAt(settings, rows, n - 1, todayName, now, midnight, k);
      assert es[k] == before[k];
    } else {
      EntryRow(settings, rows[n - 1], n - 1, todayName, now, midnight);
      EntryUpcoming(settings, rows[n - 1], n - 1, todayName, now, midnight);
      assert es[k] == r.value;
    }
  }

  /** Every entry belongs to a row before `n`. */
  predicate RowsBelow(es: seq<Entry>, n: nat) {
    forall k :: 0 <= k < |es| ==> es[k].row < n
  }

  /** The entries' row positions strictly increase. */
  predicate RowsIncrease(es: seq<Entry>) {
    forall k, l :: 0 <= k < l < |es| ==> es[k].row < es[l].row
  }

  lemma {:induction false} EntriesBelow(settings: Settings, rows: seq<Row>, n: nat, todayName: string, now: int, midnight: nat)
    requires n <= |rows|
    ensures RowsBelow(Entries(settings, rows, n, todayName, now, midnight), n)
  {
    var es := Entries(settings, rows, n, todayName, now, midnight);
    forall k | 0 <= k < |es| ensures es[k].row < n {
      EntryAt(settings, rows, n, todayName, now, midnight, k);
    }
  }

  /** Appending entries of a later row keeps the row positions increasing. */
  lemma {:induction false} IncreaseAppend(es: seq<Entry>, tail: seq<Entry>, n: nat)
    requires RowsIncrease(es) && RowsBelow(es, n)
    requires forall k :: 0 <= k < |tail| ==> tail[k].row == n
    requires |tail| <= 1
    ensures RowsIncrease(es + tail)
  {
    var all := es + tail;
    forall k, l | 0 <= k < l < |all| ensures all[k].row < all[l].row {
      assert all[k] == es[k];
      if l < |es| {
        assert all[l] == es[l];
      } else {
        assert all[l] == tail[l - |es|];
      }
    }
  }

  /** Entries are in strictly increasing table order. */
  lemma {:induction false} EntriesOrdered(settings: Settings, rows: seq<Row>, n: nat, todayName: string, now: int, midnight: nat)
    requires n <= |rows|
    ensures RowsIncrease(Entries(settings, rows, n, todayName, now, midnight))
    decreases n
  {
    if n > 0 {
      var e := RowEntry(settings, rows[n - 1], n - 1, todayName, now, midnight);
      EntriesOrdered(settings, rows, n - 1, todayName, now, midnight);
      EntriesBelow(settings, rows, n - 1, todayName, now, midnight);
      EntryRow(settings, rows[n - 1], n - 1, todayName, now, midnight);
      IncreaseAppend(Entries(settings, rows, n - 1, todayName, now, midnight), if e.Some? then [e.value] else [], n - 1);
    }
  }

  /** Some entry belongs to row `i`. */
  predicate HasRow(es: seq<Entry>, i: nat) {
    exists k :: 0 <= k < |es| && es[k].row == i
  }

  /** Every upcoming row before `n` has an entry. */
  lemma {:induction false} EntriesComplete(settings: Settings, rows: seq<Row>, n: nat, todayName: string, now: int, midnight: nat, i: nat)
    requires i < n <= |rows| && IsUpcoming(rows[i], todayName, now, midnight)
    ensures HasRow(Entries(settings, rows, n, todayName, now, midnight), i)
    decreases n
  {
    var before := Entries(settings, rows, n - 1, todayName, now, midnight);
    var es := Entries(settings, rows, n, todayName, now, midnight);
    assert es[..|before|] == before;
    if i == n - 1 {
      RowEntrySpec(settings, rows[i], i, todayName, now, midnight);
      assert es[|es| - 1].row == i;
    } else {
      EntriesComplete(settings, rows, n - 1, todayName, now, midnight, i);
      var k :| 0 <= k < |before| && before[k].row == i;
      assert es[k] == before[k];
    }
  }

  /**
   * The entries are exactly the upcoming rows, once each and in table
   * order, each with the start of its row.
   */
  lemma {:induction false} EntriesSpec(settings: Settings, rows: seq<Row>, n: nat, todayName: string, now: int, midnight: nat)
    requires n <= |rows|
    ensures var es := Entries(settings, rows, n, todayName, now, midnight);
      && (forall k :: 0 <= k < |es| ==>
            es[k].row < n && IsUpcoming(rows[es[k].row], todayName, now, midnight)
            && es[k].start == Times(rows[es[k].row], todayName, midnight).value.0)
      && RowsIncrease(es)
      && (forall i :: 0 <= i < n && IsUpcoming(rows[i], todayName, now, midnight) ==> HasRow(es, i))
  {
    var es := Entries(settings, rows, n, todayName, now, midnight);
    forall k | 0 <= k < |es|
      ensures es[k].row < n && IsUpcoming(rows[es[k].row], todayName, now, midnight)
      ensures es[k].start == Times(rows[es[k].row], todayName, midnight).value.0
    {
      EntryAt(settings, rows, n, todayName, now, midnight, k);
      RowEntrySpec(settings, rows[es[k].row], es[k].row, todayName, now, midnight);
    }
    EntriesOrdered(settings, rows, n, todayName, now, midnight);
    forall i | 0 <= i < n && IsUpcoming(rows[i], todayName, now, midnight)
      ensures HasRow(es, i)
    {
      EntriesComplete(settings, rows, n, todayName, now, midnight, i);
    }
  }

  /** Processing the rows keeps the memory consistent. */
  lemma {:induction false} NotifyConsistent(mem: Memory, settings: Settings, rows: seq<Row>, n: nat, todayName: string, now: int, midnight: nat)
    requires n <= |rows| && Consistent(mem)
    ensures Consistent(Notify(mem, settings, rows, n, todayName, now, midnight))
    decreases n
  {
    if n > 0 {
      NotifyConsistent(mem, settings, rows, n - 1, todayName, now, midnight);
      RowConsistent(Notify(mem, settings, rows, n - 1, todayName, now, midnight), settings, rows[n - 1], todayName, now, midnight);
    }
  }

  /** Processing the rows only adds: remembered keys stay and the log is only extended. */
  lemma {:induction false} NotifyGrows(mem: Memory, settings: Settings, rows: seq<Row>, n: nat, todayName: string, now: int, midnight: nat)
    requires n <= |rows|
    ensures var m := Notify(mem, settings, rows, n, todayName, now, midnight);
      mem.notified <= m.notified && |mem.log| <= |m.log| && m.log[..|mem.log|] == mem.log
    decreases n
  {
    if n > 0 {
      var before := Notify(mem, settings, rows, n - 1, todayName, now, midnight);
      NotifyGrows(mem, settings, rows, n - 1, todayName, now, midnight);
      RowNotifies(before, settings, rows[n - 1], todayName, now, midnight);
      var m := Notify(mem, settings, rows, n, todayName, now, midnight);
      if m != before {
        assert m.log[..|mem.log|] == before.log[..|mem.log|];
      }
    }
  }

  // ---------------------------------------------------------------------
  // The nearest upcoming class
  // ---------------------------------------------------------------------

  /** Entries in non-decreasing order of start. */
  predicate SortedByStart(es: seq<Entry>) {
    forall i, j :: 0 <= i < j < |es| ==> es[i].start <= es[j].start
  }

  /** No entry starts before `b`. */
  predicate StartsFrom(es: seq<Entry>, b: nat) {
    forall i :: 0 <= i < |es| ==> b <= es[i].start
  }

  /** Inserts `e` before the first entry that does not start earlier than it. */
  function Insert(e: Entry, es: seq<Entry>): (r: seq<Entry>)
    ensures |r| == |es| + 1
    decreases |es|
  {
    if es == [] || e.start <= es[0].start then [e] + es else [es[0]] + Insert(e, es[1..])
  }

  /**
   * The sort of the upcoming entries by their start instants. The source's
   * sort is stable, so entries with equal starts keep their table order.
   */
  function SortByStart(es: seq<Entry>): (r: seq<Entry>)
    ensures |r| == |es|
    decreases |es|
  {
    if es == [] then [] else Insert(es[0], SortByStart(es[1..]))
  }

  lemma {:induction false} InsertStartsFrom(e: Entry, es: seq<Entry>, b: nat)
    requires b <= e.start && StartsFrom(es, b)
    ensures StartsFrom(Insert(e, es), b)
    decreases |es|
  {
    if es != [] && e.start > es[0].start {
      InsertStartsFrom(e, es[1..], b);
    }
  }

  lemma {:induction false} InsertSorted(e: Entry, es: seq<Entry>)
    requires SortedByStart(es)
    ensures SortedByStart(Insert(e, es))
    decreases |es|
  {
    if es != [] && e.start > es[0].start {
      var rest := Insert(e, es[1..]);
      InsertSorted(e, es[1..]);
      InsertStartsFrom(e, es[1..], es[0].start);
      assert Insert(e, es) == [es[0]] + rest;
    }
  }

  lemma {:induction false} InsertPermutes(e: Entry, es: seq<Entry>)
    ensures multiset(Insert(e, es)) == multiset(es) + multiset{e}
    decreases |es|
  {
    if es != [] && e.start > es[0].start {
      InsertPermutes(e, es[1..]);
      assert es == [es[0]] + es[1..];
    }
  }

  /** Sorting orders the entries and keeps exactly the same entries. */
  lemma {:induction false} SortSpec(es: seq<Entry>)
    ensures SortedByStart(SortByStart(es))
    ensures multiset(SortByStart(es)) == multiset(es)
    decreases |es|
  {
    if es != [] {
      SortSpec(es[1..]);
      InsertSorted(es[0], SortByStart(es[1..]));
      InsertPermutes(es[0], SortByStart(es[1..]));
      assert es == [es[0]] + es[1..];
    }
  }

  /** The position of the first entry with the least start. */
  function FirstMinIndex(es: seq<Entry>): (i: nat)
    requires |es| > 0
    ensures i < |es|
    ensures forall j :: 0 <= j < |es| ==> es[i].start <= es[j].start
    ensures forall j :: 0 <= j < i ==> es[j].start > es[i].start
    decreases |es|
  {
    if |es| == 1 then 0
    else
      var k := FirstMinIndex(es[1..]);
      if es[0].start <= es[k + 1].start then 0 else k + 1
  }

  lemma {:induction false} InsertHead(e: Entry, es: seq<Entry>)
    ensures Insert(e, es)[0] == if es == [] || e.start <= es[0].start then e else es[0]
  {
  }

  /** The head of the sorted entries is the first entry with the least start. */
  lemma {:induction false} SortHead(es: seq<Entry>)
    requires |es| > 0
    ensures SortByStart(es)[0] == es[FirstMinIndex(es)]
    decreases |es|
  {
    if |es| > 1 {
      SortHead(es[1..]);
      InsertHead(es[0], SortByStart(es[1..]));
    }
  }

  /** `upcomingClasses[0]` after the sort; None when there are no entries. */
  function Nearest(es: seq<Entry>): Option<Entry> {
    if es == [] then None else Some(SortByStart(es)[0])
  }

  /**
   * The banner candidate is an entry with the least start, the earliest in
   * table order among equal starts, and there is none only when no class
   * is upcoming.
   */
  lemma {:induction false} NearestSpec(es: seq<Entry>)
    ensures Nearest(es).None? <==> es == []
    ensures Nearest(es).Some? ==>
      exists i :: 0 <= i < |es| && Nearest(es).value == es[i]
        && (forall j :: 0 <= j < |es| ==> es[i].start <= es[j].start)
        && (forall j :: 0 <= j < i ==> es[j].start > es[i].start)
  {
    if es != [] {
      SortHead(es);
      var i := FirstMinIndex(es);
      assert Nearest(es).value == es[i];
    }
  }

  // ---------------------------------------------------------------------
  // The banner
  // ---------------------------------------------------------------------

  /** What the summary banner says. `Blank` is the banner as first created. */
  datatype Banner = Blank | AllDone | Next(course: string, timeUntil: string, location: string)

  /** `updateBanner(nextClass)`. */
  function BannerFor(next: Option<Entry>, now: int): Banner {
    if next.None? then AllDone
    else Next(next.value.course, FormatDuration(next.value.start - now), next.value.location)
  }

  /** The banner is the all-done message exactly when nothing is upcoming. */
  lemma {:induction false} BannerAllDone(es: seq<Entry>, now: int)
    ensures BannerFor(Nearest(es), now) == AllDone <==> es == []
  {
  }
}
