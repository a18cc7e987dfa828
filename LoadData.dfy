/**
 * Normalisation of the bundled sample data into the records the store keeps
 * (`js/utils/loaddata.js`). "Now" is fixed at 2025-10-06 09:00 local time.
 */
module LoadData {
  import opened Wrappers
  import opened Text
  import opened Entities
  import Clock

  /** `getCurrentDate().getTime()`: 2025-10-06 09:00 local time. */
  const SampleNow: Clock.Instant := 1759741200000

  lemma SampleNowIsOctober6()
    ensures SampleNow == Clock.MakeInstant(2025, 9, 6, 9, 0)
    ensures Clock.DateOf(SampleNow) == Clock.Civil(2025, 10, 6)
  {
    Clock.October6Days();
    Clock.MakeInstantInRange(2025, 9, 6, 9, 0);
    Clock.DateOfMakeInstant(2025, 9, 6, 9, 0);
  }

  /** One raw sample event: a date, two clock times and the descriptive fields. */
  datatype SampleEvent = SampleEvent(
    year: int, month: int, day: int,
    startHour: int, startMinute: int, endHour: int, endMinute: int,
    emoji: string, name: string, location: string, invite: string, description: string)

  /** A raw sample message; `timestamp` is present exactly when the data holds a `Date`. */
  datatype SampleMessage = SampleMessage(
    author: string, text: string, kind: string,
    eventId: Option<string>, event: Option<Event>,
    timestamp: Option<Clock.Instant>, timestampOffset: int,
    response: string, responseTime: Option<Clock.Instant>)

  /** A raw sample thread; `lastMessageTime` is present exactly when the data holds a `Date`. */
  datatype SampleDm = SampleDm(
    id: string, name: string, kind: string, avatar: string, status: string,
    members: seq<string>, lastMessage: string,
    lastMessageTime: Option<Clock.Instant>, lastMessageTimeOffset: int,
    messages: seq<SampleMessage>)

  /** The id given to the sample event at an index. */
  function SampleEventId(index: nat): string {
    "sample_evt_" + NatToString(index)
  }

  /** Different indices give different ids. */
  lemma SampleEventIdsDistinct(i: nat, j: nat)
    requires i != j
    ensures SampleEventId(i) != SampleEventId(j)
  {
    var a, b := SampleEventId(i), SampleEventId(j);
    if a == b {
      assert a[11..] == NatToString(i) && b[11..] == NatToString(j);
      NatToStringRoundTrip(i);
      NatToStringRoundTrip(j);
      assert false;
    }
  }

  /** The event record made from the sample at an index. */
  function EventFromSample(s: SampleEvent, index: nat): Event {
    Event(
      SampleEventId(index),
      s.emoji + " " + s.name,
      s.name,
      s.emoji,
      Some(Clock.MakeInstant(s.year, s.month, s.day, s.startHour, s.startMinute)),
      Some(Clock.MakeInstant(s.year, s.month, s.day, s.endHour, s.endMinute)),
      s.location,
      s.description,
      s.invite)
  }

  /** `processEventsFromSampleData`: one event per sample, in order. */
  function ProcessEvents(samples: seq<SampleEvent>): (r: seq<Event>)
    ensures |r| == |samples|
  {
    seq(|samples|, i requires 0 <= i < |samples| => EventFromSample(samples[i], i))
  }

  /** The events made from samples have pairwise distinct ids. */
  lemma ProcessedIdsDistinct(samples: seq<SampleEvent>, i: nat, j: nat)
    requires i < |samples| && j < |samples| && i != j
    ensures ProcessEvents(samples)[i].id != ProcessEvents(samples)[j].id
  {
    SampleEventIdsDistinct(i, j);
  }

  /**
   * A processed event keeps the sample's descriptive fields, and its title is
   * the emoji, a space and the name.
   */
  lemma ProcessedEventFields(samples: seq<SampleEvent>, i: nat)
    requires i < |samples|
    ensures var e, s := ProcessEvents(samples)[i], samples[i];
      e.title == s.emoji + " " + s.name && e.name == s.name && e.emoji == s.emoji
      && e.location == s.location && e.invite == s.invite && e.description == s.description
  {
  }

  /**
   * With in-range clock fields, a processed event's start and end fall on the
   * same calendar day and read back the sample's hours and minutes.
   */
  lemma ProcessedEventTimes(samples: seq<SampleEvent>, i: nat)
    requires i < |samples|
    requires 0 <= samples[i].startHour < 24 && 0 <= samples[i].startMinute < 60
    requires 0 <= samples[i].endHour < 24 && 0 <= samples[i].endMinute < 60
    ensures var e, s := ProcessEvents(samples)[i], samples[i];
      e.start.Some? && e.end.Some? && Clock.SameDay(e.start.value, e.end.value)
      && Clock.Hours(e.start.value) == s.startHour && Clock.Minutes(e.start.value) == s.startMinute
      && Clock.Hours(e.end.value) == s.endHour && Clock.Minutes(e.end.value) == s.endMinute
  {
    var s := samples[i];
    Clock.MakeInstantFields(s.year, s.month, s.day, s.startHour, s.startMinute);
    Clock.MakeInstantFields(s.year, s.month, s.day, s.endHour, s.endMinute);
    Clock.SameDayNumber(Clock.MakeInstant(s.year, s.month, s.day, s.startHour, s.startMinute),
                        Clock.MakeInstant(s.year, s.month, s.day, s.endHour, s.endMinute));
  }

  /**
   * With an in-range month and day, a processed event's start and end read
   * back the sample's year, month and day through the calendar fields.
   */
  lemma ProcessedEventDate(samples: seq<SampleEvent>, i: nat)
    requires i < |samples|
    requires 0 <= samples[i].month < 12 && 1 <= samples[i].day <= Clock.DaysInMonth(samples[i].year, samples[i].month + 1)
    requires 0 <= samples[i].startHour < 24 && 0 <= samples[i].startMinute < 60
    requires 0 <= samples[i].endHour < 24 && 0 <= samples[i].endMinute < 60
    ensures var e, s := ProcessEvents(samples)[i], samples[i];
      e.start.Some? && e.end.Some?
      && Clock.DateOf(e.start.value) == Clock.Civil(s.year, s.month + 1, s.day)
      && Clock.DateOf(e.end.value) == Clock.Civil(s.year, s.month + 1, s.day)
  {
    var s := samples[i];
    Clock.DateOfMakeInstant(s.year, s.month, s.day, s.startHour, s.startMinute);
    Clock.DateOfMakeInstant(s.year, s.month, s.day, s.endHour, s.endMinute);
  }

  /** A stored `Date` is kept; otherwise the time is `now` plus the offset. */
  function StampOf(date: Option<Clock.Instant>, offset: int): Clock.Instant {
    if date.Some? then date.value else SampleNow + offset
  }

  function MessageFromSample(m: SampleMessage): Message {
    Message(m.author, m.text, m.kind, m.eventId, m.event,
            StampOf(m.timestamp, m.timestampOffset), m.response, m.responseTime)
  }

  function DmFromSample(dm: SampleDm): Dm {
    Dm(dm.id, dm.name, dm.kind, dm.avatar, dm.status, dm.members, dm.lastMessage,
       StampOf(dm.lastMessageTime, dm.lastMessageTimeOffset),
       seq(|dm.messages|, k requires 0 <= k < |dm.messages| => MessageFromSample(dm.messages[k])))
  }

  /** `processMessagesFromSampleData`: one thread per sample, in order. */
  function ProcessMessages(samples: seq<SampleDm>): (r: seq<Dm>)
    ensures |r| == |samples|
  {
    seq(|samples|, i requires 0 <= i < |samples| => DmFromSample(samples[i]))
  }

  /**
   * Processing keeps each thread's id, name, kind, members, last-message text
   * and number of messages.
   */
  lemma ProcessedThreadShape(samples: seq<SampleDm>, i: nat)
    requires i < |samples|
    ensures var d, s := ProcessMessages(samples)[i], samples[i];
      d.id == s.id && d.name == s.name && d.kind == s.kind && d.members == s.members
      && d.lastMessage == s.lastMessage && |d.messages| == |s.messages|
  {
  }

  /**
   * Thread and message times: a `Date` is kept as it is, anything else
   * becomes "now" plus the offset; a response time survives only as a `Date`.
   */
  lemma ProcessedThreadTimes(samples: seq<SampleDm>, i: nat, k: nat)
    requires i < |samples| && k < |samples[i].messages|
    ensures var d, s := ProcessMessages(samples)[i], samples[i];
      var m, sm := d.messages[k], s.messages[k];
      (s.lastMessageTime.Some? ==> d.lastMessageTime == s.lastMessageTime.value)
      && (s.lastMessageTime.None? ==> d.lastMessageTime - SampleNow == s.lastMessageTimeOffset)
      && (sm.timestamp.Some? ==> m.timestamp == sm.timestamp.value)
      && (sm.timestamp.None? ==> m.timestamp - SampleNow == sm.timestampOffset)
      && m.responseTime == sm.responseTime && m.author == sm.author && m.text == sm.text
  {
  }

  /** `processFriendsFromSampleData`: a copy of the list, the same friends in the same order. */
  function ProcessFriends(friends: seq<Friend>): (r: seq<Friend>)
    ensures r == friends
  {
    friends
  }

  /** `processBuildingsFromSampleData`: the data as it is. */
  function ProcessBuildings(buildings: seq<BuildingEntry>): (r: seq<BuildingEntry>)
    ensures r == buildings
  {
    buildings
  }
}
