/**
 * The messages page's pure helpers (`js/utils/messageutils.js`): copying the
 * stored threads, relative and clock-time texts, the event time range, and
 * the selection, order and state decisions behind the thread list, the
 * invite-event list and the message list. The markup itself is left out:
 * each builder is reduced to the records it decides on.
 */
module MessageUtils {
  import opened Wrappers
  import opened Text
  import opened Entities
  import Clock
  import CalendarUtils
  import LoadData

  /** `getCurrentDate()`: the same fixed 2025-10-06 09:00 the sample data uses. */
  const CurrentDate: Clock.Instant := LoadData.SampleNow

  // ---------------------------------------------------------------------------
  // Copying the stored threads
  // ---------------------------------------------------------------------------

  function CopyMessage(m: Message): Message {
    Message(m.author, m.text, m.kind, m.eventId, m.event, m.timestamp, m.response, m.responseTime)
  }

  function CopyDm(dm: Dm): Dm {
    Dm(dm.id, dm.name, dm.kind, dm.avatar, dm.status, dm.members, dm.lastMessage, dm.lastMessageTime,
       seq(|dm.messages|, k requires 0 <= k < |dm.messages| => CopyMessage(dm.messages[k])))
  }

  /** `buildDmsFromStorage`: a field-by-field copy of every thread and every message. */
  function BuildDmsFromStorage(raw: seq<Dm>): (r: seq<Dm>)
    ensures |r| == |raw|
  {
    seq(|raw|, i requires 0 <= i < |raw| => CopyDm(raw[i]))
  }

  /**
   * The copy loses nothing: every thread keeps its id, order, members, times
   * and messages; values being immutable, only the aliasing is gone.
   */
  lemma BuildDmsIsCopy(raw: seq<Dm>)
    ensures BuildDmsFromStorage(raw) == raw
  {
    forall i | 0 <= i < |raw| ensures CopyDm(raw[i]) == raw[i] {
      var dm := raw[i];
      assert CopyDm(dm).messages == dm.messages;
    }
  }

  // ---------------------------------------------------------------------------
  // Relative timestamps
  // ---------------------------------------------------------------------------

  const MsPerMinute := 60000
  const MsPerHour := 3600000
  const MsPerDay := 86400000

  /** `${n}m ago`, `${n}h ago`, `${n}d ago`. */
  function AgoText(n: nat, unit: char): string {
    NatToString(n) + [unit] + " ago"
  }

  /** `toLocaleDateString('en-US', { month: 'long', day: 'numeric' })`, e.g. "October 6". */
  function LongDate(t: Clock.Instant): string {
    Clock.MonthName(Clock.MonthIndex(t) + 1) + " " + NatToString(Clock.DayOfMonth(t))
  }

  /**
   * `formatRelativeTimestamp`: the time since the fixed "now" in the largest
   * whole unit below a week (floored), "just now" under a minute (and for a
   * time in the future), and the date from a week on.
   */
  function FormatRelativeTimestamp(date: Clock.Instant): (r: string)
    ensures CurrentDate - date < MsPerMinute ==> r == "just now"
    ensures MsPerMinute <= CurrentDate - date < 7 * MsPerDay ==> |r| > 4 && r[|r| - 4..] == " ago"
  {
    var diff := CurrentDate - date;
    var mins, hours, days := diff / MsPerMinute, diff / MsPerHour, diff / MsPerDay;
    if mins < 1 then "just now"
    else if mins < 60 then AgoText(mins, 'm')
    else if hours < 24 then AgoText(hours, 'h')
    else if days < 7 then AgoText(days, 'd')
    else LongDate(date)
  }

  /** Reads an `<n><unit> ago` text back as its count and unit letter. */
  function ParseAgo(s: string): Option<(nat, char)> {
    if |s| < 6 || s[|s| - 4..] != " ago" then None
    else
      var k := |s| - 5;
      if AllDigits(s[..k]) then Some((ParseNat(s[..k]), s[k])) else None
  }

  lemma AgoReadsBack(n: nat, unit: char)
    ensures ParseAgo(AgoText(n, unit)) == Some((n, unit))
  {
    var s := AgoText(n, unit);
    var k := |s| - 5;
    NatToStringRoundTrip(n);
    assert s[..k] == NatToString(n);
    assert s[k] == unit;
    assert s[|s| - 4..] == " ago";
  }

  /** Under a minute ago (or in the future): "just now", which reads as no count. */
  lemma RelativeJustNow(date: Clock.Instant)
    requires CurrentDate - date < MsPerMinute
    ensures FormatRelativeTimestamp(date) == "just now"
    ensures ParseAgo(FormatRelativeTimestamp(date)) == None
  {
    assert "just now"[4..] != " ago" by {
      assert "just now"[4..][1] == 'n';
    }
  }

  /**
   * From one minute up to a week the text reads back as the elapsed time,
   * floored, in minutes below an hour, in hours below a day, else in days,
   * and the count is always between 1 and the next unit.
   */
  lemma RelativeBuckets(date: Clock.Instant)
    requires MsPerMinute <= CurrentDate - date < 7 * MsPerDay
    ensures var diff, p := CurrentDate - date, ParseAgo(FormatRelativeTimestamp(date));
      p.Some? && p.value.0 >= 1
      && (diff < MsPerHour ==> p.value.1 == 'm' && p.value.0 * MsPerMinute <= diff < (p.value.0 + 1) * MsPerMinute && p.value.0 < 60)
      && (MsPerHour <= diff < MsPerDay ==> p.value.1 == 'h' && p.value.0 * MsPerHour <= diff < (p.value.0 + 1) * MsPerHour && p.value.0 < 24)
      && (MsPerDay <= diff ==> p.value.1 == 'd' && p.value.0 * MsPerDay <= diff < (p.value.0 + 1) * MsPerDay && p.value.0 < 7)
  {
    var diff := CurrentDate - date;
    if diff < MsPerHour {
      assert 1 <= diff / MsPerMinute < 60;
      AgoReadsBack(diff / MsPerMinute, 'm');
    } else if diff < MsPerDay {
      assert diff / MsPerMinute >= 60 && 1 <= diff / MsPerHour < 24;
      AgoReadsBack(diff / MsPerHour, 'h');
    } else {
      assert diff / MsPerMinute >= 60 && diff / MsPerHour >= 24 && 1 <= diff / MsPerDay < 7;
      AgoReadsBack(diff / MsPerDay, 'd');
    }
  }

  // ---------------------------------------------------------------------------
  // Clock times and event ranges
  // ---------------------------------------------------------------------------

  /** `formatMessageTime`: `h:mm am|pm` on a 12-hour clock. */
  function FormatMessageTime(t: Clock.Instant): (r: string)
    ensures |r| >= 7 && r[|r| - 3] == ' '
    ensures r[|r| - 2..] == (if Clock.Hours(t) >= 12 then "pm" else "am")
  {
    var r := CalendarUtils.ClockText(Clock.Hours(t), Clock.Minutes(t), "am", "pm");
    assert r[|r| - 2..] == (if Clock.Hours(t) >= 12 then "pm" else "am");
    r
  }

  /** A message time reads back as its hour and minute and agrees with the snackbar's clock text. */
  lemma MessageTimeReadsBack(t: Clock.Instant)
    ensures FormatMessageTime(t) == CalendarUtils.FormatTimeForSnackbar(t)
    ensures CalendarUtils.ParseClock12(FormatMessageTime(t)) == Some((Clock.Hours(t), Clock.Minutes(t)))
  {
    CalendarUtils.SnackbarTimeReadsBack(t);
  }

  /** The en dash (U+2013) the range texts are meant to show. */
  const EnDash: char := '\U{2013}'

  /** The separator as the source file spells it: the en dash's UTF-8 bytes read as Mac Roman. */
  const GarbledDash: string := "\U{201A}\U{00C4}\U{00EC}"

  /** `toLocaleDateString('en-US', { month: 'short', day: 'numeric' })`, e.g. "Oct 6". */
  function ShortDate(t: Clock.Instant): string {
    Clock.MonthName(Clock.MonthIndex(t) + 1)[..3] + " " + NatToString(Clock.DayOfMonth(t))
  }

  /** The range text around a given separator. */
  function RangeText(start: Clock.Instant, end: Option<Clock.Instant>, dash: string): string {
    if end.None? then FormatMessageTime(start)
    else if Clock.SameDay(start, end.value) then FormatMessageTime(start) + " " + dash + " " + FormatMessageTime(end.value)
    else ShortDate(start) + " " + FormatMessageTime(start) + " " + dash + " "
         + ShortDate(end.value) + " " + FormatMessageTime(end.value)
  }

  /**
   * `formatEventTimeRange` as written, with the garbled separator: without
   * an end it is the intended text, with one it is two characters longer.
   */
  function FormatEventTimeRangeAsWritten(start: Clock.Instant, end: Option<Clock.Instant>): (r: string)
    ensures end.None? ==> r == FormatEventTimeRange(start, end)
    ensures end.Some? ==> |r| == |FormatEventTimeRange(start, end)| + 2
  {
    RangeText(start, end, GarbledDash)
  }

  /** `formatEventTimeRange` with the en dash it evidently intends: the dash shows exactly when there is an end. */
  function FormatEventTimeRange(start: Clock.Instant, end: Option<Clock.Instant>): (r: string)
    ensures EnDash in r <==> end.Some?
  {
    NoDashInTime(start);
    var r := RangeText(start, end, [EnDash]);
    if end.Some? then
      var before := if Clock.SameDay(start, end.value) then FormatMessageTime(start)
                    else ShortDate(start) + " " + FormatMessageTime(start);
      assert r == before + " " + [EnDash] + " " + FormatMessageTime(end.value)
          || r == before + " " + [EnDash] + " " + ShortDate(end.value) + " " + FormatMessageTime(end.value);
      assert r[|before| + 1] == EnDash;
      r
    else r
  }

  /** Reads an `a – b` text back as two clock readings, split at the en dash. */
  function ReadRange(s: string): Option<((nat, nat), (nat, nat))> {
    var i := IndexOf(s, EnDash);
    if i < 1 || i + 2 > |s| then None
    else
      var a, b := CalendarUtils.ParseClock12(s[..i - 1]), CalendarUtils.ParseClock12(s[i + 2..]);
      if a.Some? && b.Some? then Some((a.value, b.value)) else None
  }

  /** A clock text holds digits, a colon, a space and the mark only: no en dash. */
  lemma NoDashInTime(t: Clock.Instant)
    ensures EnDash !in FormatMessageTime(t)
  {
    NatToStringRoundTrip(CalendarUtils.Hour12(Clock.Hours(t)));
    Pad2RoundTrip(Clock.Minutes(t));
  }

  /** Text, space, en dash, space, text: split at the dash, both sides read as clock times. */
  lemma RangeLayout(a: string, b: string)
    requires EnDash !in a && 1 <= |a|
    ensures var s := a + " " + [EnDash] + " " + b;
      var x, y := CalendarUtils.ParseClock12(a), CalendarUtils.ParseClock12(b);
      ReadRange(s) == if x.Some? && y.Some? then Some((x.value, y.value)) else None
  {
    var s := a + " " + [EnDash] + " " + b;
    assert s == (a + " ") + ([EnDash] + " " + b);
    IndexOfAfterPrefix(a + " ", [EnDash] + " " + b, EnDash);
    assert IndexOf(s, EnDash) == |a| + 1;
    assert s[..|a|] == a;
    assert s[|a| + 3..] == b;
  }

  /** With no end, the range is the start time alone. */
  lemma RangeWithoutEnd(start: Clock.Instant)
    ensures FormatEventTimeRange(start, None) == FormatMessageTime(start)
    ensures CalendarUtils.ParseClock12(FormatEventTimeRange(start, None)) == Some((Clock.Hours(start), Clock.Minutes(start)))
  {
    MessageTimeReadsBack(start);
  }

  /** A same-day range reads back, at the en dash, as the start's and the end's clock times. */
  lemma SameDayRangeReadsBack(start: Clock.Instant, end: Clock.Instant)
    requires Clock.SameDay(start, end)
    ensures ReadRange(FormatEventTimeRange(start, Some(end)))
      == Some(((Clock.Hours(start), Clock.Minutes(start)), (Clock.Hours(end), Clock.Minutes(end))))
  {
    var a, b := FormatMessageTime(start), FormatMessageTime(end);
    NoDashInTime(start);
    RangeLayout(a, b);
    MessageTimeReadsBack(start);
    MessageTimeReadsBack(end);
  }

  /** As written, a same-day range has no en dash at all, so it does not read back as a range. */
  lemma SameDayRangeAsWrittenUnreadable(start: Clock.Instant, end: Clock.Instant)
    requires Clock.SameDay(start, end)
    ensures ReadRange(FormatEventTimeRangeAsWritten(start, Some(end))) == None
    ensures FormatEventTimeRangeAsWritten(start, Some(end)) != FormatEventTimeRange(start, Some(end))
  {
    var a, b := FormatMessageTime(start), FormatMessageTime(end);
    NoDashInTime(start);
    NoDashInTime(end);
    var s := FormatEventTimeRangeAsWritten(start, Some(end));
    assert s == a + " " + GarbledDash + " " + b;
    assert EnDash !in GarbledDash;
    assert EnDash !in s;
    assert |s| == |a| + 5 + |b|;
    assert |FormatEventTimeRange(start, Some(end))| == |a| + 3 + |b|;
  }

  // ---------------------------------------------------------------------------
  // Thread list
  // ---------------------------------------------------------------------------

  /** Inserts a thread before the first one that is not newer. */
  function InsertByRecency(d: Dm, sorted: seq<Dm>): (r: seq<Dm>)
    ensures |r| == |sorted| + 1
    decreases |sorted|
  {
    if |sorted| == 0 || d.lastMessageTime >= sorted[0].lastMessageTime then [d] + sorted
    else [sorted[0]] + InsertByRecency(d, sorted[1..])
  }

  /** `[...dms].sort((a, b) => b.lastMessageTime - a.lastMessageTime)`, as an insertion sort. */
  function SortByRecency(dms: seq<Dm>): (r: seq<Dm>)
    ensures |r| == |dms|
    decreases |dms|
  {
    if |dms| == 0 then [] else InsertByRecency(dms[0], SortByRecency(dms[1..]))
  }

  predicate NewestFirst(dms: seq<Dm>) {
    forall i, j :: 0 <= i < j < |dms| ==> dms[i].lastMessageTime >= dms[j].lastMessageTime
  }

  /** The threads of `dms` whose `lastMessageTime` is `t`, in their order in `dms`. */
  function AtTime(dms: seq<Dm>, t: int): seq<Dm>
    decreases |dms|
  {
    if |dms| == 0 then []
    else (if dms[0].lastMessageTime == t then [dms[0]] else []) + AtTime(dms[1..], t)
  }

  /** Inserting a thread puts it before every thread of the same time already in the list. */
  lemma {:induction false} InsertAtTime(d: Dm, s: seq<Dm>, t: int)
    ensures AtTime(InsertByRecency(d, s), t) == (if d.lastMessageTime == t then [d] else []) + AtTime(s, t)
    decreases |s|
  {
    var mine := if d.lastMessageTime == t then [d] else [];
    if |s| == 0 || d.lastMessageTime >= s[0].lastMessageTime {
      var r := [d] + s;
      assert r[0] == d && r[1..] == s;
      assert AtTime(r, t) == mine + AtTime(s, t);
    } else {
      var tail := InsertByRecency(d, s[1..]);
      var r := [s[0]] + tail;
      assert InsertByRecency(d, s) == r;
      assert r[0] == s[0] && r[1..] == tail;
      var head := if s[0].lastMessageTime == t then [s[0]] else [];
      assert AtTime(r, t) == head + AtTime(tail, t);
      InsertAtTime(d, s[1..], t);
      assert AtTime(tail, t) == mine + AtTime(s[1..], t);
      assert head == [] || mine == [];
      assert AtTime(s, t) == head + AtTime(s[1..], t);
    }
  }

  /**
   * The recency sort is stable, as `Array.prototype.sort` is: threads whose
   * comparator difference is 0 keep their input order.
   */
  lemma {:induction false} SortByRecencyStable(dms: seq<Dm>, t: int)
    ensures AtTime(SortByRecency(dms), t) == AtTime(dms, t)
    decreases |dms|
  {
    if |dms| > 0 {
      SortByRecencyStable(dms[1..], t);
      InsertAtTime(dms[0], SortByRecency(dms[1..]), t);
    }
  }

  lemma {:induction false} InsertByRecencyPermutation(d: Dm, s: seq<Dm>)
    ensures multiset(InsertByRecency(d, s)) == multiset(s) + multiset{d}
    decreases |s|
  {
    if |s| > 0 && d.lastMessageTime < s[0].lastMessageTime {
      InsertByRecencyPermutation(d, s[1..]);
      assert s == [s[0]] + s[1..];
    }
  }

  /** A thread no older than any in a newest-first list may be put in front of it. */
  lemma PrependNewest(d: Dm, s: seq<Dm>)
    requires NewestFirst(s) && forall y :: y in s ==> d.lastMessageTime >= y.lastMessageTime
    ensures NewestFirst([d] + s)
  {
    var r := [d] + s;
    forall i, j | 0 <= i < j < |r| ensures r[i].lastMessageTime >= r[j].lastMessageTime {
      assert r[j] == s[j - 1];
      if i > 0 {
        assert r[i] == s[i - 1];
      }
    }
  }

  lemma {:induction false} InsertByRecencySorted(d: Dm, s: seq<Dm>)
    requires NewestFirst(s)
    ensures NewestFirst(InsertByRecency(d, s))
    decreases |s|
  {
    if |s| == 0 || d.lastMessageTime >= s[0].lastMessageTime {
      PrependNewest(d, s);
    } else {
      var tail := s[1..];
      assert NewestFirst(tail) by {
        forall i, j | 0 <= i < j < |tail| ensures tail[i].lastMessageTime >= tail[j].lastMessageTime {
          assert tail[i] == s[i + 1] && tail[j] == s[j + 1];
        }
      }
      InsertByRecencySorted(d, tail);
      InsertByRecencyPermutation(d, tail);
      var rest := InsertByRecency(d, tail);
      forall y | y in rest ensures s[0].lastMessageTime >= y.lastMessageTime {
        assert y in multiset(rest);
        if y != d {
          var j :| 0 <= j < |tail| && tail[j] == y;
          assert s[j + 1] == y;
        }
      }
      PrependNewest(s[0], rest);
    }
  }

  /** The order is newest first and a permutation of the threads. */
  lemma {:induction false} SortByRecencySorted(dms: seq<Dm>)
    ensures NewestFirst(SortByRecency(dms))
    ensures multiset(SortByRecency(dms)) == multiset(dms)
    decreases |dms|
  {
    if |dms| > 0 {
      SortByRecencySorted(dms[1..]);
      InsertByRecencySorted(dms[0], SortByRecency(dms[1..]));
      InsertByRecencyPermutation(dms[0], SortByRecency(dms[1..]));
      assert dms == [dms[0]] + dms[1..];
    }
  }

  /** The first thread of the order is one of the threads, and none is newer. */
  lemma NewestIsFirst(dms: seq<Dm>)
    requires |dms| > 0
    ensures var s := SortByRecency(dms);
      |s| == |dms| && s[0] in dms && forall d :: d in dms ==> s[0].lastMessageTime >= d.lastMessageTime
  {
    SortByRecencySorted(dms);
    var s := SortByRecency(dms);
    assert |multiset(s)| == |multiset(dms)|;
    assert dms[0] in multiset(s);
    assert s[0] in multiset(dms);
    forall d | d in dms ensures s[0].lastMessageTime >= d.lastMessageTime {
      assert d in multiset(s);
      var j :| 0 <= j < |s| && s[j] == d;
    }
  }

  /** One entry of the thread list: the thread and whether it is the open one. */
  datatype DmListEntry = DmListEntry(dm: Dm, active: bool)

  /**
   * `buildDmListHtml`, reduced to its entries: the threads newest first
   * (anything but an array is no threads), the open one marked active.
   */
  function BuildDmList(dms: MaybeList<Dm>, currentDmId: Option<string>): (r: seq<DmListEntry>)
    ensures |r| == |dms.Items()|
  {
    var sorted := SortByRecency(dms.Items());
    SortByRecencySorted(dms.Items());
    assert |multiset(sorted)| == |multiset(dms.Items())|;
    seq(|sorted|, i requires 0 <= i < |sorted| => DmListEntry(sorted[i], currentDmId == Some(sorted[i].id)))
  }

  /**
   * The list shows every thread once, newest first, and marks active exactly
   * the entries whose id is the open thread's.
   */
  lemma DmListShape(dms: MaybeList<Dm>, currentDmId: Option<string>)
    ensures var r := BuildDmList(dms, currentDmId);
      var shown := seq(|r|, i requires 0 <= i < |r| => r[i].dm);
      NewestFirst(shown) && multiset(shown) == multiset(dms.Items())
      && forall i :: 0 <= i < |r| ==> (r[i].active <==> currentDmId == Some(r[i].dm.id))
  {
    SortByRecencySorted(dms.Items());
    var r := BuildDmList(dms, currentDmId);
    var shown := seq(|r|, i requires 0 <= i < |r| => r[i].dm);
    assert shown == SortByRecency(dms.Items());
  }

  // ---------------------------------------------------------------------------
  // Invite-event list
  // ---------------------------------------------------------------------------

  /** `names.some((name) => name.toLowerCase() === who.toLowerCase())`. */
  predicate NamedIn(names: seq<string>, who: string) {
    exists k :: 0 <= k < |names| && Lower(names[k]) == Lower(who)
  }

  /** `searchQuery.trim().toLowerCase()` for a string, "" for anything else. */
  function InviteQuery(query: Option<string>): string {
    if query.Some? then Lower(Trim(query.value)) else ""
  }

  /** The title, the name or the location contains the query, ignoring case. */
  predicate EventMatches(e: Event, q: string) {
    Contains(Lower(e.title), q) || Contains(Lower(e.name), q) || Contains(Lower(e.location), q)
  }

  function MatchingEvents(events: seq<Event>, q: string): seq<Event>
    decreases |events|
  {
    if |events| == 0 then []
    else (if EventMatches(events[0], q) then [events[0]] else []) + MatchingEvents(events[1..], q)
  }

  /** One entry of the invite-event list. */
  datatype InviteOption = InviteOption(event: Event, alreadyIn: bool, people: seq<string>)

  /**
   * An event offers the invitation unless, outside a group chat, the user is
   * already one of its invite pieces (compared ignoring case; the pieces are
   * trimmed but empty ones count).
   */
  function InviteOptionOf(e: Event, userName: string, isGroupChat: bool): InviteOption {
    InviteOption(e, !isGroupChat && NamedIn(InvitePieces(e.invite), userName), InviteNames(e.invite))
  }

  /** `buildInviteEventsHtml`, reduced to its entries: the matching events in order. */
  function BuildInviteEvents(events: MaybeList<Event>, userName: string, query: Option<string>, isGroupChat: bool)
    : (r: seq<InviteOption>)
    ensures |r| <= |events.Items()|
    ensures forall o :: o in r ==> o.event in events.Items()
  {
    MatchingEventsSpec(events.Items(), InviteQuery(query));
    var shown := ShownEvents(events.Items(), InviteQuery(query));
    seq(|shown|, i requires 0 <= i < |shown| => InviteOptionOf(shown[i], userName, isGroupChat))
  }

  /** All events for a blank query, else the matching ones. */
  function ShownEvents(events: seq<Event>, q: string): seq<Event> {
    if q == "" then events else MatchingEvents(events, q)
  }

  /** Filtering keeps exactly the matching events, never more than there were. */
  lemma {:induction false} MatchingEventsSpec(events: seq<Event>, q: string)
    ensures |MatchingEvents(events, q)| <= |events|
    ensures forall e :: e in MatchingEvents(events, q) <==> e in events && EventMatches(e, q)
    decreases |events|
  {
    if |events| > 0 {
      MatchingEventsSpec(events[1..], q);
      assert events == [events[0]] + events[1..];
    }
  }

  /**
   * The list offers an event exactly when it is one of the events and the
   * query is blank or matches it.
   */
  lemma InviteEventsOffered(events: MaybeList<Event>, userName: string, query: Option<string>, isGroupChat: bool, e: Event)
    ensures var r := BuildInviteEvents(events, userName, query, isGroupChat);
      (exists i :: 0 <= i < |r| && r[i].event == e)
        <==> e in events.Items() && (InviteQuery(query) == "" || EventMatches(e, InviteQuery(query)))
  {
    var q := InviteQuery(query);
    MatchingEventsSpec(events.Items(), q);
    var shown := ShownEvents(events.Items(), q);
    assert e in shown <==> e in events.Items() && (q == "" || EventMatches(e, q));
    var r := BuildInviteEvents(events, userName, query, isGroupChat);
    if e in shown {
      var i :| 0 <= i < |shown| && shown[i] == e;
      assert r[i].event == e;
    }
  }

  /**
   * Each offered event lists its non-empty invitee names, and is marked
   * "Already in" exactly outside group chats when the user is one of its
   * invite pieces, ignoring case.
   */
  lemma InviteEventsState(events: MaybeList<Event>, userName: string, query: Option<string>, isGroupChat: bool)
    ensures forall o :: o in BuildInviteEvents(events, userName, query, isGroupChat) ==>
      o.people == InviteNames(o.event.invite)
      && (o.alreadyIn <==> !isGroupChat && NamedIn(InvitePieces(o.event.invite), userName))
  {
  }

  // ---------------------------------------------------------------------------
  // Message list
  // ---------------------------------------------------------------------------

  /** `allDms.find((d) => d.type === 'user' && d.name === author)`. */
  function FirstUserDmNamed(dms: seq<Dm>, author: string): Option<Dm>
    decreases |dms|
  {
    if |dms| == 0 then None
    else if dms[0].kind == "user" && dms[0].name == author then Some(dms[0])
    else FirstUserDmNamed(dms[1..], author)
  }

  /** The find answers with the first user thread of that name, or none when there is none. */
  lemma {:induction false} FirstUserDmNamedSpec(dms: seq<Dm>, author: string)
    ensures var r := FirstUserDmNamed(dms, author);
      (r.None? <==> forall i :: 0 <= i < |dms| ==> !(dms[i].kind == "user" && dms[i].name == author))
      && (r.Some? ==> exists i :: 0 <= i < |dms| && dms[i] == r.value && dms[i].kind == "user" && dms[i].name == author
                        && forall j :: 0 <= j < i ==> !(dms[j].kind == "user" && dms[j].name == author))
    decreases |dms|
  {
    if |dms| > 0 {
      FirstUserDmNamedSpec(dms[1..], author);
      var r := FirstUserDmNamed(dms, author);
      if !(dms[0].kind == "user" && dms[0].name == author) {
        if r.Some? {
          var i :| 0 <= i < |dms[1..]| && dms[1..][i] == r.value && dms[1..][i].kind == "user" && dms[1..][i].name == author
                   && forall j :: 0 <= j < i ==> !(dms[1..][j].kind == "user" && dms[1..][j].name == author);
          assert dms[i + 1] == r.value;
          forall j | 0 <= j < i + 1 ensures !(dms[j].kind == "user" && dms[j].name == author) {
            if j > 0 {
              assert dms[j] == dms[1..][j - 1];
            }
          }
        } else {
          forall j | 0 <= j < |dms| ensures !(dms[j].kind == "user" && dms[j].name == author) {
            if j > 0 {
              assert dms[j] == dms[1..][j - 1];
            }
          }
        }
      }
    }
  }

  /** What an invitation message shows besides its text. */
  datatype InvitationView = InvitationView(
    heading: string, people: seq<string>, responseText: string, showButtons: bool, buttonsDisabled: bool)

  /** One rendered message: whether it is the user's own, its avatar, and its invitation part. */
  datatype MessageView = MessageView(own: bool, avatar: string, invitation: Option<InvitationView>)

  /** The message area: the "No messages yet" placeholder, or one view per message. */
  datatype MessagesView = NoMessages | MessageList(items: seq<MessageView>)

  /** `currentUserInitials` when it is a non-empty string, else "Y". */
  function CurrentInitials(initials: Option<string>): string {
    if initials.Some? && initials.value != "" then initials.value else "Y"
  }

  predicate HasResponse(response: string) {
    response == "accept" || response == "decline"
  }

  function ResponseText(response: string): string {
    if response == "accept" then "Accepted" else if response == "decline" then "Declined" else ""
  }

  /** The avatar beside a message. */
  function AvatarOf(m: Message, dm: Dm, allDms: seq<Dm>, initials: string): (r: string)
    ensures m.author == "You" ==> r == initials
    ensures m.author != "You" && dm.kind != "group" ==> r == dm.avatar
    ensures m.author != "You" && dm.kind == "group" ==>
      (exists d :: d in allDms && d.kind == "user" && d.name == m.author && r == d.avatar)
      || (m.author != "" && r == [m.author[0]]) || (m.author == "" && r == initials)
  {
    FirstUserDmNamedSpec(allDms, m.author);
    if m.author == "You" then initials
    else if dm.kind == "group" then
      var userDm := FirstUserDmNamed(allDms, m.author);
      if userDm.Some? then userDm.value.avatar
      else if m.author != "" then [m.author[0]]
      else initials
    else dm.avatar
  }

  /** The invitation part: present for an invitation message that carries its event. */
  function InvitationOf(m: Message): (r: Option<InvitationView>)
    ensures r.Some? <==> m.kind == "invitation" && m.event.Some?
    ensures r.Some? ==> r.value.heading != "" && (r.value.showButtons <==> r.value.responseText == "")
  {
    if m.kind == "invitation" && m.event.Some? then
      var e := m.event.value;
      Some(InvitationView(
        if e.name != "" then e.name else if e.title != "" then e.title else "Untitled Event",
        InviteNames(e.invite),
        ResponseText(m.response),
        !HasResponse(m.response),
        m.author == "You"))
    else None
  }

  function MessageViewOf(m: Message, dm: Dm, allDms: seq<Dm>, initials: string): MessageView {
    MessageView(m.author == "You", AvatarOf(m, dm, allDms, initials), InvitationOf(m))
  }

  /** `buildMessagesHtml`, reduced to its views: none for a missing or empty thread. */
  function BuildMessagesView(dm: Option<Dm>, allDms: MaybeList<Dm>, initials: Option<string>): (r: MessagesView)
    ensures r.NoMessages? <==> dm.None? || |dm.value.messages| == 0
    ensures r.MessageList? ==>
      |r.items| == |dm.value.messages|
      && forall i :: 0 <= i < |r.items| ==>
           (r.items[i].own <==> dm.value.messages[i].author == "You")
           && (r.items[i].invitation.Some? <==> dm.value.messages[i].kind == "invitation" && dm.value.messages[i].event.Some?)
  {
    if dm.None? || |dm.value.messages| == 0 then NoMessages
    else
      var msgs := dm.value.messages;
      MessageList(seq(|msgs|, i requires 0 <= i < |msgs| =>
        MessageViewOf(msgs[i], dm.value, allDms.Items(), CurrentInitials(initials))))
  }

  /**
   * An invitation shows "Accepted" or "Declined" once answered and its
   * buttons only while unanswered; the buttons are disabled on the user's
   * own invitation.
   */
  lemma InvitationState(m: Message)
    requires m.kind == "invitation" && m.event.Some?
    ensures var v := InvitationOf(m);
      v.Some?
      && (v.value.showButtons <==> !HasResponse(m.response))
      && (v.value.showButtons <==> v.value.responseText == "")
      && (v.value.responseText == "Accepted" <==> m.response == "accept")
      && (v.value.responseText == "Declined" <==> m.response == "decline")
      && (v.value.buttonsDisabled <==> m.author == "You")
  {
  }

  /**
   * In a group thread, another author's avatar is the one of the first user
   * thread of that name; without one it is the author's first letter.
   */
  lemma GroupAvatar(m: Message, dm: Dm, allDms: seq<Dm>, initials: string)
    requires m.author != "You" && m.author != "" && dm.kind == "group"
    ensures (exists i :: 0 <= i < |allDms| && allDms[i].kind == "user" && allDms[i].name == m.author
               && AvatarOf(m, dm, allDms, initials) == allDms[i].avatar
               && forall j :: 0 <= j < i ==> !(allDms[j].kind == "user" && allDms[j].name == m.author))
            || ((forall i :: 0 <= i < |allDms| ==> !(allDms[i].kind == "user" && allDms[i].name == m.author))
                && AvatarOf(m, dm, allDms, initials) == [m.author[0]])
  {
    FirstUserDmNamedSpec(allDms, m.author);
  }
}
