/**
 * The records the core passes around: events, the last-change record,
 * direct-message threads and their messages, friends, and the buildings
 * data. A JavaScript field that may be missing is modelled by its falsy
 * value ("" for text) unless the source tells a missing value apart, in
 * which case it is an Option.
 */
module Entities {
  import opened Wrappers
  import opened Text
  import Clock

  /** A calendar event. */
  datatype Event = Event(
    id: string,
    title: string,
    name: string,
    emoji: string,
    start: Option<Clock.Instant>,
    end: Option<Clock.Instant>,
    location: string,
    description: string,
    invite: string)

  /** The four mutating actions, and any other action text a caller might pass. */
  datatype Action = Create | Edit | Delete | Reschedule | OtherAction(text: string)

  /** The single "last change" record kept for undo. */
  datatype ChangeRecord = ChangeRecord(
    action: Action,
    before: Option<Event>,
    after: Option<Event>,
    source: Option<string>)

  /** One message of a direct-message thread (`kind` is the source's `type`). */
  datatype Message = Message(
    author: string,
    text: string,
    kind: string,
    eventId: Option<string>,
    event: Option<Event>,
    timestamp: Clock.Instant,
    response: string,
    responseTime: Option<Clock.Instant>)

  /** A direct-message thread, either with one user (`kind == "user"`) or a group. */
  datatype Dm = Dm(
    id: string,
    name: string,
    kind: string,
    avatar: string,
    status: string,
    members: seq<string>,
    lastMessage: string,
    lastMessageTime: Clock.Instant,
    messages: seq<Message>)

  datatype Friend = Friend(id: string, name: string, avatar: string)

  /** A place inside a building; `kind` is the source's optional `type` ("" when absent). */
  datatype Location = Location(name: string, kind: string)

  /** A building; `name` is "" when the data gives none. */
  datatype Building = Building(name: string, locations: seq<Location>)

  /** One own property of the buildings object, in key order. */
  datatype BuildingEntry = BuildingEntry(key: string, building: Building)

  function Ids(events: seq<Event>): set<string> {
    set e | e in events :: e.id
  }

  /** `parts.map((name) => name.trim())` */
  function TrimAll(parts: seq<string>): (r: seq<string>)
    ensures |r| == |parts|
    ensures forall i :: 0 <= i < |parts| ==> r[i] == Trim(parts[i])
  {
    if |parts| == 0 then [] else [Trim(parts[0])] + TrimAll(parts[1..])
  }

  /** `invite.split(',').map((name) => name.trim())` */
  function InvitePieces(invite: string): seq<string> {
    TrimAll(Split(invite, ','))
  }

  function NonEmpty(names: seq<string>): (r: seq<string>)
    ensures forall n :: n in r <==> n in names && n != ""
    ensures |r| <= |names|
  {
    if |names| == 0 then []
    else if names[0] == "" then NonEmpty(names[1..])
    else [names[0]] + NonEmpty(names[1..])
  }

  /** Trimmed pieces of comma-free parts are comma-free and stay put under another trim. */
  lemma {:induction false} TrimAllClean(parts: seq<string>)
    requires forall p :: p in parts ==> ',' !in p
    ensures forall n :: n in TrimAll(parts) ==> ',' !in n && Trim(n) == n
  {
    if |parts| > 0 {
      TrimAllClean(parts[1..]);
      assert parts[0] in parts;
      TrimIdempotent(parts[0]);
    }
  }

  /**
   * The invitee names of a comma-joined invite string: the pieces between
   * commas, trimmed, empty ones dropped. Each name is non-empty, trimmed and
   * free of commas.
   */
  function InviteNames(invite: string): (names: seq<string>)
    ensures forall n :: n in names ==> n != "" && ',' !in n && Trim(n) == n
  {
    TrimAllClean(Split(invite, ','));
    NonEmpty(InvitePieces(invite))
  }
}
