/**
 * The clock and calendar helpers of the page script (`utils` in
 * content.js): rendering a duration, reading an "H:M" cell, naming the
 * current weekday and testing a days-of-week cell against it.
 *
 * Instants are integer milliseconds on the epoch time line. The date part of
 * `new Date()` that `parseTime` starts from is the parameter `midnight`
 * (today's local midnight); the weekday is the parameter `day`.
 */
module TimeUtils {
  import opened Wrappers
  import opened Text

  /** Milliseconds per minute. */
  const MsPerMinute: nat := 60000

  /** The offset from midnight that `setHours(hours, minutes, 0, 0)` sets. */
  function TimeOfDay(hours: nat, minutes: nat): nat {
    (hours * 60 + minutes) * 60000
  }

  // ---------------------------------------------------------------------
  // formatDuration
  // ---------------------------------------------------------------------

  /**
   * The whole minutes of a duration: the duration is divided by a minute and
   * rounded down, and only then is the sign dropped. Dafny's `/` with a
   * positive divisor rounds toward negative infinity, as the source's floor
   * does.
   */
  function TotalMinutes(ms: int): (t: nat)
    ensures ms >= 0 ==> t * 60000 <= ms < (t + 1) * 60000
    ensures ms < 0 ==> -(t as int) * 60000 <= ms < (1 - t as int) * 60000
  {
    var f := ms / 60000;
    if f < 0 then -f else f
  }

  /**
   * `utils.formatDuration`: the whole minutes of a duration as hours and
   * minutes once they reach an hour, and as minutes alone below that.
   */
  function FormatDuration(ms: int): (r: string)
    ensures |r| >= 2 && r[|r| - 1] == 'm'
  {
    MinutesText(TotalMinutes(ms))
  }

  /** The text `formatDuration` builds from the whole number of minutes. */
  function MinutesText(total: nat): (r: string)
    ensures |r| >= 2 && r[|r| - 1] == 'm'
  {
    var hours := total / 60;
    var minutes := total % 60;
    if hours > 0 then Show(hours) + "h " + Show(minutes) + "m" else Show(minutes) + "m"
  }

  /** A digit string as `Show` writes it: non-empty, no leading zero. */
  predicate Canonical(d: string) {
    |d| > 0 && AllDigits(d) && (|d| > 1 ==> d[0] != '0')
  }

  /**
   * Reads a duration text back into whole minutes. It accepts exactly the
   * canonical forms "{h}h {m}m" with h >= 1 and m < 60, and "{m}m" with
   * m < 60.
   */
  ghost function ReadDuration(s: string): Option<nat> {
    if s == [] || s[|s| - 1] != 'm' then None
    else
      var body := s[..|s| - 1];
      var i := Find(body, 'h', 0);
      if i < |body| then ReadHours(body[..i], body[i + 1..]) else ReadMinutes(body)
  }

  ghost function ReadMinutes(d: string): Option<nat> {
    if Canonical(d) && Value(d) < 60 then Some(Value(d)) else None
  }

  /** The hour part `hd` and what follows its 'h': a space and the minutes. */
  ghost function ReadHours(hd: string, tail: string): Option<nat> {
    if tail == [] || tail[0] != ' ' || !Canonical(hd) || Value(hd) == 0 then None
    else
      var m := ReadMinutes(tail[1..]);
      if m.None? then None else Some(60 * Value(hd) + m.value)
  }

  lemma {:induction false} ReadMinutesShow(m: nat)
    requires m < 60
    ensures ReadMinutes(Show(m)) == Some(m)
  {
    ValueOfShow(m);
  }

  /** A digit string, an 'h' and a tail, then the closing 'm', is read as the hour form. */
  lemma {:induction false} ReadDurationHourShape(hd: string, tail: string)
    requires AllDigits(hd)
    ensures ReadDuration(hd + ['h'] + tail + ['m']) == ReadHours(hd, tail)
  {
    var body := hd + ['h'] + tail;
    var s := body + ['m'];
    assert s[..|s| - 1] == body;
    DigitsExclude(hd, 'h');
    FindAfterPrefix(hd, 'h', tail);
    assert body[..|hd|] == hd;
    assert body[|hd| + 1..] == tail;
  }

  lemma {:induction false} ReadHoursShow(h: nat, m: nat)
    requires h > 0 && m < 60
    ensures ReadHours(Show(h), [' '] + Show(m)) == Some(60 * h + m)
  {
    assert ([' '] + Show(m))[1..] == Show(m);
    ValueOfShow(h);
    ReadMinutesShow(m);
  }

  lemma {:induction false} ReadHourForm(h: nat, m: nat)
    requires h > 0 && m < 60
    ensures var s := Show(h) + "h " + Show(m) + "m";
      ReadDuration(s) == Some(60 * h + m) && 'h' in s
  {
    var s := Show(h) + "h " + Show(m) + "m";
    assert s == Show(h) + ['h'] + ([' '] + Show(m)) + ['m'];
    assert s[|Show(h)|] == 'h';
    ReadDurationHourShape(Show(h), [' '] + Show(m));
    ReadHoursShow(h, m);
  }

  lemma {:induction false} ReadMinuteForm(m: nat)
    requires m < 60
    ensures var s := Show(m) + "m";
      ReadDuration(s) == Some(m) && 'h' !in s
  {
    var s := Show(m) + "m";
    assert s[..|s| - 1] == Show(m);
    ReadMinutesShow(m);
    DigitsExclude(Show(m), 'h');
    FindMissing(Show(m), 'h');
    assert s == Show(m) + ['m'];
  }

  /**
   * The rendered text determines the whole number of minutes: it is the
   * hour form exactly when the magnitude reaches 60 minutes, its minute part
   * is below 60, and it reads back as |floor(ms / 60000)|.
   */
  lemma {:induction false} FormatDurationRoundTrip(ms: int)
    ensures ReadDuration(FormatDuration(ms)) == Some(TotalMinutes(ms))
    ensures ('h' in FormatDuration(ms)) <==> TotalMinutes(ms) >= 60
  {
    MinutesTextRoundTrip(TotalMinutes(ms));
  }

  lemma {:induction false} MinutesTextRoundTrip(t: nat)
    ensures ReadDuration(MinutesText(t)) == Some(t)
    ensures ('h' in MinutesText(t)) <==> t >= 60
  {
    if t >= 60 {
      HourTextRoundTrip(t);
    } else {
      ReadMinuteForm(t);
    }
  }

  lemma {:induction false} HourTextRoundTrip(t: nat)
    requires t >= 60
    ensures ReadDuration(MinutesText(t)) == Some(t) && 'h' in MinutesText(t)
  {
    DivMod60(t);
    ReadHourForm(t / 60, t % 60);
  }

  lemma {:induction false} DivMod60(t: nat)
    ensures t == 60 * (t / 60) + t % 60 && t % 60 < 60
    ensures t >= 60 ==> t / 60 > 0
  {
  }

  /** Rounding toward negative infinity first makes the text depend on the sign. */
  lemma FormatDurationExamples()
    ensures FormatDuration(0) == "0m"
    ensures FormatDuration(5400000) == "1h 30m"
    ensures FormatDuration(30000) == "0m"
    ensures FormatDuration(-30000) == "1m"
    ensures FormatDuration(-30000) != FormatDuration(30000)
  {
    assert Show(30) == "30";
  }

  // ---------------------------------------------------------------------
  // parseTime
  // ---------------------------------------------------------------------

  /**
   * `Number(part)` on the texts a time cell yields: surrounding whitespace
   * is ignored, the empty text is 0, a digit string is its value and
   * anything else is NaN (None).
   */
  function NumberOf(part: string): Option<nat> {
    var t := Trim(part);
    if t == [] then Some(0)
    else if AllDigits(t) then Some(Value(t))
    else None
  }

  /**
   * `utils.parseTime`: the text is trimmed and split at ':'; the first piece
   * is the hour, the second the minute, and whatever follows a second ':' is
   * ignored. A missing or non-numeric piece gives None. The hour and minute
   * are not range-checked: `setHours` carries overflow into the next unit,
   * so the instant stays linear in both.
   */
  function ParseTime(text: string, midnight: nat): (r: Option<nat>)
    ensures r.Some? ==> r.value >= midnight
  {
    var parts := Split(Trim(text), ':');
    var hours := NumberOf(parts[0]);
    var minutes := if |parts| > 1 then NumberOf(parts[1]) else None;
    if hours.None? || minutes.None? then None
    else Some(midnight + TimeOfDay(hours.value, minutes.value))
  }

  lemma {:induction false} NumberOfDigits(d: string)
    requires d != [] && AllDigits(d)
    ensures ':' !in d && NumberOf(d) == Some(Value(d))
  {
    AllDigitsAt(d, 0);
    AllDigitsAt(d, |d| - 1);
    TrimNoop(d);
    DigitsExclude(d, ':');
  }

  /** "{hs}:{ms}{rest}" has nothing to trim. */
  lemma {:induction false} TimeTextUntrimmed(hs: string, ms: string, rest: string)
    requires hs != [] && AllDigits(hs)
    requires ms != [] && AllDigits(ms)
    requires rest == [] || !IsSpace(rest[|rest| - 1])
    ensures Trim(hs + ":" + (ms + rest)) == hs + ":" + (ms + rest)
  {
    var text := hs + ":" + (ms + rest);
    assert !IsSpace(text[0]) by { AllDigitsAt(hs, 0); assert text[0] == hs[0]; }
    assert !IsSpace(text[|text| - 1]) by {
      if rest == [] {
        AllDigitsAt(ms, |ms| - 1);
        assert text[|text| - 1] == ms[|ms| - 1];
      } else {
        assert text[|text| - 1] == rest[|rest| - 1];
      }
    }
    TrimNoop(text);
  }

  /** The pieces of "{hs}:{ms}{rest}" at ':' start with hs and ms. */
  lemma {:induction false} TimeTextPieces(hs: string, ms: string, rest: string)
    requires ':' !in hs && ':' !in ms
    requires rest == [] || rest[0] == ':'
    ensures var parts := Split(hs + ":" + (ms + rest), ':');
      |parts| >= 2 && parts[0] == hs && parts[1] == ms
  {
    SplitAtFirst(hs, ':', ms + rest);
    if rest != [] {
      assert ms + rest == ms + [':'] + rest[1..];
      SplitAtFirst(ms, ':', rest[1..]);
    }
  }

  lemma {:induction false} ParseTimeOfPieces(text: string, hs: string, ms: string, midnight: nat, hours: nat, minutes: nat)
    requires Trim(text) == text && |Split(text, ':')| >= 2
    requires Split(text, ':')[0] == hs && Split(text, ':')[1] == ms
    requires NumberOf(hs) == Some(hours) && NumberOf(ms) == Some(minutes)
    ensures ParseTime(text, midnight) == Some(midnight + TimeOfDay(hours, minutes))
  {
  }

  /** "{hs}:{ms}{rest}" needs no trimming and its first two pieces are hs and ms. */
  lemma {:induction false} TimeTextShape(text: string, hs: string, ms: string, rest: string)
    requires hs != [] && AllDigits(hs)
    requires ms != [] && AllDigits(ms)
    requires rest == [] || (rest[0] == ':' && !IsSpace(rest[|rest| - 1]))
    requires text == hs + ":" + (ms + rest)
    ensures Trim(text) == text
    ensures |Split(text, ':')| >= 2 && Split(text, ':')[0] == hs && Split(text, ':')[1] == ms
  {
    NumberOfDigits(hs);
    NumberOfDigits(ms);
    TimeTextUntrimmed(hs, ms, rest);
    TimeTextPieces(hs, ms, rest);
  }

  /**
   * Any two digit strings around a ':' are read as that hour and minute of
   * today, with or without a further ":..." part (such as seconds).
   */
  lemma {:induction false} ParseTimeDigits(text: string, hs: string, ms: string, rest: string, midnight: nat)
    requires hs != [] && AllDigits(hs)
    requires ms != [] && AllDigits(ms)
    requires rest == [] || (rest[0] == ':' && !IsSpace(rest[|rest| - 1]))
    requires text == hs + ":" + (ms + rest)
    ensures ParseTime(text, midnight) == Some(midnight + TimeOfDay(Value(hs), Value(ms)))
  {
    TimeTextShape(text, hs, ms, rest);
    NumberOfDigits(hs);
    NumberOfDigits(ms);
    ParseTimeOfPieces(text, hs, ms, midnight, Value(hs), Value(ms));
  }

  /** A time text without any ':' has no minute piece and is rejected. */
  lemma {:induction false} ParseTimeNeedsColon(text: string, midnight: nat)
    requires ':' !in Trim(text)
    ensures ParseTime(text, midnight) == None
  {
  }

  /**
   * Exactly the texts whose hour piece and minute piece are both numeric
   * parse, and those give midnight plus that many hours and minutes.
   */
  lemma {:induction false} ParseTimeSpec(text: string, midnight: nat)
    ensures var parts := Split(Trim(text), ':');
      && (ParseTime(text, midnight).Some? <==>
            |parts| >= 2 && AllDigits(Trim(parts[0])) && AllDigits(Trim(parts[1])))
      && (ParseTime(text, midnight).Some? ==>
            ParseTime(text, midnight).value
            == midnight + TimeOfDay(Value(Trim(parts[0])), Value(Trim(parts[1]))))
  {
  }

  /**
   * The hour is not range-checked: an hour piece of 24 or more lands on a
   * later day, `setHours` carrying the overflow into the date.
   */
  lemma {:induction false} ParseTimeRollover(text: string, hs: string, ms: string, midnight: nat)
    requires hs != [] && AllDigits(hs) && Value(hs) >= 24
    requires ms != [] && AllDigits(ms)
    requires text == hs + ":" + (ms + [])
    ensures ParseTime(text, midnight).Some?
    ensures ParseTime(text, midnight).value >= midnight + 24 * 60 * MsPerMinute
  {
    ParseTimeDigits(text, hs, ms, [], midnight);
  }

  /** "14:00" is two in the afternoon of the given day. */
  lemma {:induction false} ParseTimeAfternoonExample(midnight: nat)
    ensures ParseTime("14:00", midnight) == Some(midnight + 50400000)
  {
    var h, m := "14", "00";
    assert Value(h) == 14 && AllDigits(h) by { assert h[..1] == "1"; }
    assert Value(m) == 0 && AllDigits(m) by { assert m[..1] == "0"; }
    ParseTimeDigits("14:00", h, m, "", midnight);
  }

  /** "25:00" is one in the morning of the next day. */
  lemma {:induction false} ParseTimeRolloverExample(midnight: nat)
    ensures ParseTime("25:00", midnight) == Some(midnight + 90000000)
  {
    var h, m := "25", "00";
    assert Value(h) == 25 && AllDigits(h) by { assert h[..1] == "2"; }
    assert Value(m) == 0 && AllDigits(m) by { assert m[..1] == "0"; }
    ParseTimeDigits("25:00", h, m, "", midnight);
  }

  /** A bare hour has no minute piece. */
  lemma {:induction false} ParseTimeBareHourExample(midnight: nat)
    ensures ParseTime("14", midnight) == None
  {
    ParseTimeNeedsColon("14", midnight);
  }

  /** Letters are not a number. */
  lemma {:induction false} ParseTimeLettersExample(midnight: nat)
    ensures ParseTime("ab:00", midnight) == None
  {
    var t := "ab:00";
    assert Trim(t) == t by { TrimNoop(t); }
    assert Split(t, ':')[0] == "ab" by {
      assert t == "ab" + [':'] + "00";
      SplitAtFirst("ab", ':', "00");
    }
    assert NumberOf("ab") == None by { TrimNoop("ab"); }
  }

  // ---------------------------------------------------------------------
  // getTodayName and classHasToday
  // ---------------------------------------------------------------------

  const DayNames: seq<string> := ["sun", "mon", "tue", "wed", "thu", "fri", "sat"]

  /** `utils.getTodayName`: the token of weekday `day` (0 is Sunday), as `getDay` numbers them. */
  function TodayName(day: int): (r: string)
    requires 0 <= day < 7
    ensures |r| == 3 && ToLower(r) == r
  {
    DayNames[day]
  }

  /** Different weekdays have different tokens. */
  lemma {:induction false} TodayNameInjective(d1: int, d2: int)
    requires 0 <= d1 < 7 && 0 <= d2 < 7
    requires TodayName(d1) == TodayName(d2)
    ensures d1 == d2
  {
  }

  /** `utils.classHasToday`: the lower-cased days text contains the token. */
  predicate ClassHasToday(daysText: string, todayName: string) {
    Contains(ToLower(daysText), todayName)
  }

  /**
   * The test is plain substring search on the lower-cased text, so its case
   * does not matter and the empty text contains no token.
   */
  lemma {:induction false} ClassHasTodaySpec(daysText: string, todayName: string)
    ensures ClassHasToday(daysText, todayName) <==> exists i :: OccursAt(ToLower(daysText), todayName, i)
    ensures ClassHasToday(ToLower(daysText), todayName) == ClassHasToday(daysText, todayName)
    ensures daysText == [] && todayName != [] ==> !ClassHasToday(daysText, todayName)
  {
    ContainsIff(ToLower(daysText), todayName);
    ToLowerIdempotent(daysText);
  }

  lemma ClassHasTodayExample()
    ensures ClassHasToday("Mon/Wed/Fri", "wed")
  {
    assert ToLower("Mon/Wed/Fri") == "mon/wed/fri";
    assert OccursAt("mon/wed/fri", "wed", 4);
    ContainsIff("mon/wed/fri", "wed");
  }

  /** Matching is by substring, so a full day name contains its token. */
  lemma ClassHasTodayLooseExample()
    ensures ClassHasToday("Tuesday/Thursday", "tue")
  {
    assert ToLower("Tuesday/Thursday") == "tuesday/thursday";
    assert OccursAt("tuesday/thursday", "tue", 0);
    ContainsIff("tuesday/thursday", "tue");
  }
}
