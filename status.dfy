/**
 * `highlighter.getClassStatus`: where an instant falls against a class's
 * start and end, and the label text shown for it. The colours the status
 * also carries are configuration data and are not modelled.
 */
module Status {
  import opened Wrappers
  import opened Text
  import opened TimeUtils

  datatype Kind = Upcoming | Ongoing | Ended

  /** The status of a class: its kind, the duration the label reports, and the label. */
  datatype ClassStatus = ClassStatus(kind: Kind, duration: nat, text: string)

  const StartsPrefix: string := "Starts in "
  const OngoingPrefix: string := "In Progress • "
  const OngoingSuffix: string := " remaining"
  const EndedPrefix: string := "Ended "
  const EndedSuffix: string := " ago"

  /**
   * Before the start the class is upcoming; from the start up to and
   * including the end it is ongoing; after the end it has ended. The
   * duration is the distance to the boundary the label talks about.
   */
  function GetClassStatus(start: int, end: int, now: int): (st: ClassStatus)
    ensures st.kind == Upcoming <==> now < start
    ensures st.kind == Ongoing <==> start <= now <= end
    ensures st.kind == Ended <==> start <= now && end < now
    ensures st.kind == Upcoming ==> st.duration == start - now > 0
    ensures st.kind == Ongoing ==> st.duration == end - now
    ensures st.kind == Ended ==> st.duration == now - end > 0
    ensures st.text == Label(st.kind, st.duration)
  {
    var kind := if now < start then Upcoming else if now <= end then Ongoing else Ended;
    var duration := match kind
      case Upcoming => start - now
      case Ongoing => end - now
      case Ended => now - end;
    ClassStatus(kind, duration, Label(kind, duration))
  }

  /** The label text of each kind, around the rendered duration. */
  function Label(k: Kind, duration: nat): string {
    match k
    case Upcoming => StartsPrefix + FormatDuration(duration)
    case Ongoing => OngoingPrefix + FormatDuration(duration) + OngoingSuffix
    case Ended => EndedPrefix + FormatDuration(duration) + EndedSuffix
  }

  /** A position on the time line of one class: upcoming, then ongoing, then ended. */
  function Rank(k: Kind): nat {
    match k
    case Upcoming => 0
    case Ongoing => 1
    case Ended => 2
  }

  /** As time passes a class never goes back to an earlier kind. */
  lemma StatusMonotone(start: int, end: int, now1: int, now2: int)
    requires now1 <= now2
    ensures Rank(GetClassStatus(start, end, now1).kind) <= Rank(GetClassStatus(start, end, now2).kind)
  {
  }

  /**
   * The boundaries: the start instant itself is already ongoing, the end
   * instant still is, and one millisecond later the class has ended.
   */
  lemma StatusBoundaries(start: int, end: int)
    requires start <= end
    ensures GetClassStatus(start, end, start - 1).kind == Upcoming
    ensures GetClassStatus(start, end, start).kind == Ongoing
    ensures GetClassStatus(start, end, end).kind == Ongoing
    ensures GetClassStatus(start, end, end + 1).kind == Ended
  {
  }

  /** A class whose end precedes its start is never ongoing. */
  lemma InvertedTimesNeverOngoing(start: int, end: int, now: int)
    requires end < start
    ensures GetClassStatus(start, end, now).kind != Ongoing
  {
  }

  // ---------------------------------------------------------------------
  // Reading a label back
  // ---------------------------------------------------------------------

  /**
   * The kind and whole minutes a label announces, read from its fixed
   * prefix and suffix and the duration text between them.
   */
  ghost function ReadLabel(t: string): Option<(Kind, nat)> {
    if |t| >= |StartsPrefix| && t[..|StartsPrefix|] == StartsPrefix then
      Tagged(Upcoming, ReadDuration(t[|StartsPrefix|..]))
    else if |t| >= |OngoingPrefix| + |OngoingSuffix| && t[..|OngoingPrefix|] == OngoingPrefix
      && t[|t| - |OngoingSuffix|..] == OngoingSuffix then
      Tagged(Ongoing, ReadDuration(t[|OngoingPrefix|..|t| - |OngoingSuffix|]))
    else if |t| >= |EndedPrefix| + |EndedSuffix| && t[..|EndedPrefix|] == EndedPrefix
      && t[|t| - |EndedSuffix|..] == EndedSuffix then
      Tagged(Ended, ReadDuration(t[|EndedPrefix|..|t| - |EndedSuffix|]))
    else None
  }

  ghost function Tagged(k: Kind, m: Option<nat>): Option<(Kind, nat)> {
    if m.None? then None else Some((k, m.value))
  }

  /** The three pieces of `p + d + q`. */
  lemma {:induction false} Pieces(p: string, d: string, q: string)
    ensures var t := p + d + q;
      && t[..|p|] == p && t[|p|..|t| - |q|] == d && t[|t| - |q|..] == q
  {
  }

  /** A text whose first character differs from the first of `p` does not start with `p`. */
  lemma {:induction false} NotPrefix(t: string, p: string)
    requires |t| > 0 && |p| > 0 && t[0] != p[0]
    ensures !(|t| >= |p| && t[..|p|] == p)
  {
  }

  lemma {:induction false} ReadUpcomingLabel(d: int)
    ensures ReadLabel(StartsPrefix + FormatDuration(d)) == Some((Upcoming, TotalMinutes(d)))
  {
    var f := FormatDuration(d);
    FormatDurationRoundTrip(d);
    Pieces(StartsPrefix, f, []);
    assert StartsPrefix + f + [] == StartsPrefix + f;
  }

  lemma {:induction false} ReadOngoingLabel(d: int)
    ensures ReadLabel(OngoingPrefix + FormatDuration(d) + OngoingSuffix) == Some((Ongoing, TotalMinutes(d)))
  {
    var f := FormatDuration(d);
    var t := OngoingPrefix + f + OngoingSuffix;
    FormatDurationRoundTrip(d);
    assert t[0] == 'I';
    NotPrefix(t, StartsPrefix);
    Pieces(OngoingPrefix, f, OngoingSuffix);
  }

  lemma {:induction false} ReadEndedLabel(d: int)
    ensures ReadLabel(EndedPrefix + FormatDuration(d) + EndedSuffix) == Some((Ended, TotalMinutes(d)))
  {
    var f := FormatDuration(d);
    var t := EndedPrefix + f + EndedSuffix;
    FormatDurationRoundTrip(d);
    assert t[0] == 'E';
    NotPrefix(t, StartsPrefix);
    NotPrefix(t, OngoingPrefix);
    Pieces(EndedPrefix, f, EndedSuffix);
  }

  /**
   * The label alone tells the kind and the whole minutes of the reported
   * duration, as `formatDuration` rounds them.
   */
  lemma {:induction false} LabelRoundTrip(k: Kind, duration: nat)
    ensures ReadLabel(Label(k, duration)) == Some((k, TotalMinutes(duration)))
  {
    match k
    case Upcoming => ReadUpcomingLabel(duration);
    case Ongoing => ReadOngoingLabel(duration);
    case Ended => ReadEndedLabel(duration);
  }
}
